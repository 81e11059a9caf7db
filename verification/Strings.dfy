/** The byte and string routines that the kernel is built on. A pointer is an index into an array of bytes. */
module Strings {
  import opened Words
  import opened Memory

  // ---- copying ----

  /** The first n bytes copied one by one, in ascending order. */
  function Copied(s: seq<Byte>, dest: nat, src: nat, n: nat): (t: seq<Byte>)
    requires dest + n <= |s| && src + n <= |s|
    ensures |t| == |s|
    decreases n
  {
    if n == 0 then s
    else
      var t := Copied(s, dest, src, n - 1);
      t[dest + n - 1 := t[src + n - 1]]
  }

  /** The n bytes at `src` moved to `dest`. */
  function Moved(s: seq<Byte>, dest: nat, src: nat, n: nat): seq<Byte>
    requires dest + n <= |s| && src + n <= |s|
  {
    s[..dest] + s[src..src + n] + s[dest + n..]
  }

  /** `memcpy` within one memory; its counter is a signed int. */
  method Memcpy(a: array<Byte>, dest: nat, src: nat, n: nat)
    requires dest + n <= a.Length && src + n <= a.Length && n < 0x8000_0000
    modifies a
    ensures a[..] == Copied(old(a[..]), dest, src, n)
    ensures dest <= src || src + n <= dest ==> a[..] == Moved(old(a[..]), dest, src, n)
  {
    for i := 0 to n
      invariant a[..] == Copied(old(a[..]), dest, src, i)
    {
      a[dest + i] := a[src + i];
    }
    if dest <= src || src + n <= dest {
      CopyIsMove(old(a[..]), dest, src, n);
    }
  }

  lemma {:induction false} CopiedAt(s: seq<Byte>, dest: nat, src: nat, n: nat)
    requires dest + n <= |s| && src + n <= |s| && (dest <= src || src + n <= dest)
    ensures forall j {:trigger Copied(s, dest, src, n)[j]} :: 0 <= j < |s| ==>
      Copied(s, dest, src, n)[j] == if dest <= j < dest + n then s[src + (j - dest)] else s[j]
    decreases n
  {
    if n > 0 {
      CopiedAt(s, dest, src, n - 1);
    }
  }

  /** Copying forwards is a move when the destination does not start inside the source. */
  lemma CopyIsMove(s: seq<Byte>, dest: nat, src: nat, n: nat)
    requires dest + n <= |s| && src + n <= |s| && (dest <= src || src + n <= dest)
    ensures Copied(s, dest, src, n) == Moved(s, dest, src, n)
  {
    CopiedAt(s, dest, src, n);
  }

  /** When it does start inside, every copied byte repeats the one `dest - src` places before it. */
  lemma {:induction false} OverlapRepeats(s: seq<Byte>, dest: nat, src: nat, n: nat)
    requires dest + n <= |s| && src + n <= |s| && src < dest
    ensures forall j {:trigger Copied(s, dest, src, n)[j]} :: 0 <= j < |s| ==>
      Copied(s, dest, src, n)[j] == if dest <= j < dest + n then Copied(s, dest, src, n)[j - (dest - src)] else s[j]
    decreases n
  {
    if n > 0 {
      OverlapRepeats(s, dest, src, n - 1);
    }
  }

  lemma OverlapSpoils(s: seq<Byte>, dest: nat, src: nat, n: nat)
    requires dest + n <= |s| && src + n <= |s| && src < dest < src + n && s[src] != s[dest]
    ensures Copied(s, dest, src, n) != Moved(s, dest, src, n)
  {
    OverlapRepeats(s, dest, src, n);
    var j := dest + (dest - src);
    assert Copied(s, dest, src, n)[j] == Copied(s, dest, src, n)[dest] == s[src];
    assert Moved(s, dest, src, n)[j] == s[dest];
  }

  /** So for whatever the memory holds, `memcpy` is a move exactly when the destination does not start inside the
      source. */
  lemma CopyIsMoveIff(size: nat, dest: nat, src: nat, n: nat)
    requires dest + n <= size && src + n <= size
    ensures (forall s: seq<Byte> | |s| == size :: Copied(s, dest, src, n) == Moved(s, dest, src, n)) <==>
      dest <= src || src + n <= dest
  {
    hide Copied, Moved;
    if dest <= src || src + n <= dest {
      forall s: seq<Byte> | |s| == size ensures Copied(s, dest, src, n) == Moved(s, dest, src, n) {
        CopyIsMove(s, dest, src, n);
      }
    } else {
      var zeros: seq<Byte> := seq(size, _ => 0);
      OverlapSpoils(zeros[src := 1], dest, src, n);
    }
  }

  // ---- comparing ----

  /** A byte as a `char`, which is signed. */
  function Char(b: Byte): int { if b < 128 then b else b - 256 }

  /** Memory from which a string can be read: there is a terminator. */
  ghost predicate Terminated(s: seq<Byte>) { 0 in s }

  /** The string that starts at the beginning of s. */
  function CString(s: seq<Byte>): (t: seq<Byte>)
    ensures |t| <= |s| && t == s[..|t|] && 0 !in t && (|t| < |s| ==> s[|t|] == 0)
  {
    if s == [] || s[0] == 0 then [] else [s[0]] + CString(s[1..])
  }

  /** The two memories agree before index k and have no terminator there. */
  ghost predicate Agree(s: seq<Byte>, t: seq<Byte>, k: nat) {
    k < |s| && k < |t| && forall j :: 0 <= j < k ==> s[j] == t[j] && s[j] != 0
  }

  /** The order of the bytes: those from 128 up come first, before the terminator. */
  predicate Precedes(a: Byte, b: Byte) { if (a < 128) == (b < 128) then a < b else b < 128 }

  lemma CharOrder(a: Byte, b: Byte)
    ensures Precedes(a, b) <==> Char(a) < Char(b)
  {
  }

  /** Strings in dictionary order. */
  ghost predicate Before(s: seq<Byte>, t: seq<Byte>) {
    exists k: nat :: Agree(s, t, k) && Precedes(s[k], t[k])
  }

  lemma OneDifference(s: seq<Byte>, t: seq<Byte>, k: nat, l: nat)
    requires Agree(s, t, k) && Agree(s, t, l) && s[l] != t[l] && (s[k] != t[k] || s[k] == 0)
    ensures k == l
  {
  }

  lemma Differ(s: seq<Byte>, t: seq<Byte>, k: nat)
    requires Agree(s, t, k) && s[k] != t[k]
    ensures Before(s, t) <==> Char(s[k]) < Char(t[k])
    ensures Before(t, s) <==> Char(t[k]) < Char(s[k])
  {
    CharOrder(s[k], t[k]);
    CharOrder(t[k], s[k]);
    hide Char;
    assert Agree(t, s, k);
    if Before(s, t) {
      var l: nat :| Agree(s, t, l) && Precedes(s[l], t[l]);
      OneDifference(s, t, k, l);
    }
    if Before(t, s) {
      var l: nat :| Agree(t, s, l) && Precedes(t[l], s[l]);
      OneDifference(t, s, k, l);
    }
  }

  lemma {:induction false} DifferentStrings(s: seq<Byte>, t: seq<Byte>, k: nat)
    requires Agree(s, t, k) && s[k] != t[k]
    ensures CString(s) != CString(t)
    decreases k
  {
    if k > 0 {
      forall j | 0 <= j < k - 1 ensures s[1..][j] == t[1..][j] && s[1..][j] != 0 {
        assert s[j + 1] == t[j + 1];
      }
      DifferentStrings(s[1..], t[1..], k - 1);
      assert CString(s)[1..] == CString(s[1..]) && CString(t)[1..] == CString(t[1..]);
    }
  }

  lemma {:induction false} EndsAt(s: seq<Byte>, k: nat)
    requires k < |s| && s[k] == 0 && forall j :: 0 <= j < k ==> s[j] != 0
    ensures CString(s) == s[..k]
    decreases k
  {
    if k > 0 {
      EndsAt(s[1..], k - 1);
    }
  }

  lemma End(s: seq<Byte>, t: seq<Byte>, k: nat)
    requires Agree(s, t, k) && s[k] == 0 && t[k] == 0
    ensures CString(s) == CString(t) && !Before(s, t) && !Before(t, s)
  {
    EndsAt(s, k);
    EndsAt(t, k);
    assert s[..k] == t[..k];
    assert Agree(t, s, k);
    forall l: nat | Agree(s, t, l) ensures s[l] == t[l] {
    }
    forall l: nat | Agree(t, s, l) ensures s[l] == t[l] {
    }
  }

  /** `strcmp`. */
  method Strcmp(s1: seq<Byte>, s2: seq<Byte>) returns (result: int)
    requires Terminated(s1) && Terminated(s2)
    ensures result == 0 <==> CString(s1) == CString(s2)
    ensures result == -1 <==> Before(s1, s2)
    ensures result == 1 <==> Before(s2, s1)
    ensures -1 <= result <= 1
  {
    ghost var z1 :| 0 <= z1 < |s1| && s1[z1] == 0;
    ghost var z2 :| 0 <= z2 < |s2| && s2[z2] == 0;
    var index := 0;
    while true
      invariant index <= z1 && index <= z2 && Agree(s1, s2, index)
      decreases z1 - index
    {
      if s1[index] != s2[index] {
        Differ(s1, s2, index);
        DifferentStrings(s1, s2, index);
      }
      if Char(s1[index]) < Char(s2[index]) {
        return -1;
      }
      if Char(s1[index]) > Char(s2[index]) {
        return 1;
      }
      if s1[index] == 0 {
        End(s1, s2, index);
        return 0;
      }
      index := index + 1;
    }
  }

  // ---- splitting ----

  /** Memory in which a string starts at p. */
  ghost predicate StringAt(s: seq<Byte>, p: nat) { p < |s| && 0 in s[p..] }

  /** The first position from p on that holds a delimiter or the terminator. */
  function Stop(s: seq<Byte>, p: nat, delim: seq<Byte>): (e: nat)
    requires p <= |s|
    ensures p <= e <= |s|
    ensures forall j :: p <= j < e ==> s[j] != 0 && s[j] !in delim
    ensures e < |s| ==> s[e] == 0 || s[e] in delim
    decreases |s| - p
  {
    if p == |s| || s[p] == 0 || s[p] in delim then p else Stop(s, p + 1, delim)
  }

  lemma StopIsInside(s: seq<Byte>, p: nat, delim: seq<Byte>)
    requires StringAt(s, p)
    ensures Stop(s, p, delim) < |s|
  {
    var k :| 0 <= k < |s[p..]| && s[p..][k] == 0;
    assert s[p + k] == 0;
  }

  /** `strsep` on the string at `cursor`, with the delimiters `delim`: the field it returns starts at the old cursor;
      the new cursor is None when the string is used up. */
  method Strsep(a: array<Byte>, cursor: Option<nat>, delim: seq<Byte>) returns (field: Option<nat>, next: Option<nat>)
    requires cursor.Some? ==> StringAt(a[..], cursor.value)
    requires 0 !in delim
    modifies a
    ensures cursor.None? ==> field.None? && next.None? && a[..] == old(a[..])
    ensures cursor.Some? ==>
      var s := old(a[..]);
      var e := Stop(s, cursor.value, delim);
      && field == cursor && e < |s|
      && (if s[e] == 0 then next.None? && a[..] == s else next == Some(e + 1) && a[..] == s[e := 0])
  {
    if cursor.None? {
      return None, None;
    }
    StopIsInside(a[..], cursor.value, delim);
    ghost var s := a[..];
    var p := cursor.value;
    var found := false;
    while a[p] != 0
      invariant cursor.value <= p < a.Length && a[..] == s
      invariant Stop(s, p, delim) == Stop(s, cursor.value, delim)
      decreases a.Length - p
    {
      for i := 0 to |delim|
        invariant a[..] == s && s[p] !in delim[..i] && !found
      {
        if a[p] == delim[i] {
          found := true;
          a[p] := 0;
          break;
        }
      }
      if found {
        break;
      }
      assert delim[..|delim|] == delim;
      p := p + 1;
    }
    return cursor, if found then Some(p + 1) else None;
  }

  /** What calling `strsep` until the cursor is None leaves: the fields, the delimiters erased, and the memory. */
  datatype Split = Split(fields: seq<seq<Byte>>, erased: seq<Byte>, memory: seq<Byte>)

  function SplitAll(s: seq<Byte>, p: nat, delim: seq<Byte>): Split
    requires p <= |s|
    decreases |s| - p
  {
    var e := Stop(s, p, delim);
    if e == |s| || s[e] == 0 then Split([s[p..e]], [], s)
    else
      var rest := SplitAll(s[e := 0], e + 1, delim);
      Split([s[p..e]] + rest.fields, [s[e]] + rest.erased, rest.memory)
  }

  /** The terminator comes after a field that is followed by something else. */
  lemma StillString(s: seq<Byte>, p: nat, e: nat)
    requires StringAt(s, p) && p <= e < |s| && forall j :: p <= j <= e ==> s[j] != 0
    ensures e + 1 < |s| && StringAt(s[e := 0], e + 1)
  {
    var k :| 0 <= k < |s[p..]| && s[p..][k] == 0;
    assert s[p + k] == 0 && e < p + k;
    assert s[e := 0][e + 1..][p + k - (e + 1)] == 0;
  }

  lemma CutField(s: seq<Byte>, p: nat, e: nat)
    requires p <= e < |s| && forall j :: p <= j < e ==> s[j] != 0
    ensures CString(s[e := 0][p..]) == s[p..e]
  {
    hide CString;
    EndsAt(s[e := 0][p..], e - p);
    assert s[e := 0][p..][..e - p] == s[p..e];
  }

  lemma NextString(s: seq<Byte>, p: nat, delim: seq<Byte>)
    requires StringAt(s, p)
    ensures var e := Stop(s, p, delim);
      && e < |s| && CString(s[e := 0][p..]) == s[p..e]
      && (s[e] != 0 ==> e + 1 < |s| && StringAt(s[e := 0], e + 1))
  {
    StopIsInside(s, p, delim);
    var e := Stop(s, p, delim);
    assert forall j :: p <= j < e ==> s[j] != 0;
    hide Stop, CString, StringAt;
    CutField(s, p, e);
    if s[e] != 0 {
      StillString(s, p, e);
    }
  }

  /** Some fields have been split off, and the rest of the string starts at the cursor. */
  ghost predicate SplitSoFar(all: Split, fields: seq<seq<Byte>>, s: seq<Byte>, cursor: Option<nat>, delim: seq<Byte>) {
    if cursor.None? then fields == all.fields && s == all.memory
    else
      && StringAt(s, cursor.value)
      && fields + SplitAll(s, cursor.value, delim).fields == all.fields
      && SplitAll(s, cursor.value, delim).memory == all.memory
  }

  lemma SplitMore(all: Split, fields: seq<seq<Byte>>, s: seq<Byte>, p: nat, delim: seq<Byte>, s': seq<Byte>,
                  next: Option<nat>)
    requires SplitSoFar(all, fields, s, Some(p), delim)
    requires var e := Stop(s, p, delim);
      e < |s| && if s[e] == 0 then next.None? && s' == s else next == Some(e + 1) && s' == s[e := 0]
    ensures p < |s'| && SplitSoFar(all, fields + [CString(s'[p..])], s', next, delim)
    ensures next.Some? ==> p < next.value <= |s|
  {
    hide Stop, CString, StringAt;
    NextString(s, p, delim);
    var e := Stop(s, p, delim);
    if s[e] == 0 {
      assert s[e := 0] == s;
    } else {
      assert (fields + [s[p..e]]) + SplitAll(s', e + 1, delim).fields ==
        fields + ([s[p..e]] + SplitAll(s', e + 1, delim).fields);
    }
  }

  /** Calling `strsep` until it leaves no cursor, and reading each field it returns. */
  method SplitString(a: array<Byte>, start: nat, delim: seq<Byte>) returns (fields: seq<seq<Byte>>)
    requires StringAt(a[..], start) && 0 !in delim
    modifies a
    ensures fields == SplitAll(old(a[..]), start, delim).fields
    ensures a[..] == SplitAll(old(a[..]), start, delim).memory
  {
    ghost var all := SplitAll(a[..], start, delim);
    fields := [];
    var cursor := Some(start);
    assert SplitSoFar(all, fields, a[..], cursor, delim);
    hide SplitAll, Stop, CString;
    while cursor.Some?
      invariant cursor.Some? ==> cursor.value <= a.Length
      invariant SplitSoFar(all, fields, a[..], cursor, delim)
      decreases if cursor.Some? then a.Length - cursor.value + 1 else 0
    {
      ghost var s, p := a[..], cursor.value;
      var field;
      field, cursor := Strsep(a, cursor, delim);
      SplitMore(all, fields, s, p, delim, a[..], cursor);
      fields := fields + [CString(a[field.value..])];
    }
  }

  /** Fields with delimiters between them. */
  function Joined(fields: seq<seq<Byte>>, delimiters: seq<Byte>): seq<Byte>
    requires |fields| == |delimiters| + 1
  {
    if delimiters == [] then fields[0] else fields[0] + [delimiters[0]] + Joined(fields[1..], delimiters[1..])
  }

  /** The number of delimiters in a string. */
  function Delimiters(s: seq<Byte>, delim: seq<Byte>): nat {
    if s == [] then 0 else (if s[0] in delim then 1 else 0) + Delimiters(s[1..], delim)
  }

  lemma {:induction false} StopIsLocal(s: seq<Byte>, t: seq<Byte>, p: nat, delim: seq<Byte>)
    requires p <= |s| == |t| && forall j :: p <= j < |s| ==> s[j] == t[j]
    ensures Stop(s, p, delim) == Stop(t, p, delim)
    decreases |s| - p
  {
    if p < |s| {
      StopIsLocal(s, t, p + 1, delim);
    }
  }

  lemma {:induction false} StopBefore(s: seq<Byte>, p: nat, delim: seq<Byte>, q: nat)
    requires p <= |s| && p <= q <= Stop(s, p, delim)
    ensures Stop(s, q, delim) == Stop(s, p, delim)
    decreases q - p
  {
    if p < q {
      StopBefore(s, p + 1, delim, q);
    }
  }

  /** Between p and the terminator the string consists of a field, a delimiter, and the rest. */
  lemma FieldThenRest(s: seq<Byte>, p: nat, delim: seq<Byte>)
    requires p <= |s|
    requires Stop(s, p, delim) < |s| && s[Stop(s, p, delim)] != 0
    ensures
      var e := Stop(s, p, delim);
      && Stop(s, p, []) == Stop(s, e + 1, []) == Stop(s[e := 0], e + 1, [])
      && s[p..Stop(s, p, [])] == s[p..e] + [s[e]] + s[e := 0][e + 1..Stop(s, p, [])]
  {
    hide Stop;
    var e, z := Stop(s, p, delim), Stop(s, p, []);
    assert e < z;
    StopBefore(s, p, [], e + 1);
    StopIsLocal(s, s[e := 0], e + 1, []);
    SliceInThree(s, p, e, z);
  }

  lemma SliceInThree(s: seq<Byte>, p: nat, e: nat, z: nat)
    requires p <= e < z <= |s|
    ensures s[p..z] == s[p..e] + [s[e]] + s[e := 0][e + 1..z]
  {
  }

  lemma {:induction false} DelimitersOfSum(s: seq<Byte>, t: seq<Byte>, delim: seq<Byte>)
    ensures Delimiters(s + t, delim) == Delimiters(s, delim) + Delimiters(t, delim)
  {
    if s == [] {
      assert s + t == t;
    } else {
      assert (s + t)[1..] == s[1..] + t;
      DelimitersOfSum(s[1..], t, delim);
    }
  }

  lemma {:induction false} NoDelimiters(s: seq<Byte>, delim: seq<Byte>)
    requires forall c :: c in s ==> c !in delim
    ensures Delimiters(s, delim) == 0
  {
    if s != [] {
      NoDelimiters(s[1..], delim);
    }
  }

  /** The fields contain no delimiter, there is one more of them than delimiters in the text, and with the erased
      delimiters between them they are the text. */
  ghost predicate Rebuilds(fields: seq<seq<Byte>>, erased: seq<Byte>, text: seq<Byte>, delim: seq<Byte>) {
    && |fields| == |erased| + 1 == Delimiters(text, delim) + 1
    && (forall f :: f in fields ==> IsField(f, delim))
    && (forall c :: c in erased ==> c in delim)
    && Joined(fields, erased) == text
  }

  ghost predicate IsField(f: seq<Byte>, delim: seq<Byte>) { forall c :: c in f ==> c != 0 && c !in delim }

  lemma RebuildsOne(f: seq<Byte>, delim: seq<Byte>)
    requires IsField(f, delim)
    ensures Rebuilds([f], [], f, delim)
  {
    NoDelimiters(f, delim);
  }

  lemma RebuildsMore(f: seq<Byte>, d: Byte, fields: seq<seq<Byte>>, erased: seq<Byte>, text: seq<Byte>,
                     delim: seq<Byte>)
    requires IsField(f, delim) && d in delim && Rebuilds(fields, erased, text, delim)
    ensures Rebuilds([f] + fields, [d] + erased, f + [d] + text, delim)
  {
    NoDelimiters(f, delim);
    DelimitersOfSum(f + [d], text, delim);
    DelimitersOfSum(f, [d], delim);
    assert Delimiters([d], delim) == 1 + Delimiters([], delim);
    assert ([f] + fields)[1..] == fields && ([d] + erased)[1..] == erased;
  }

  lemma {:induction false} SplitRebuilds(s: seq<Byte>, p: nat, delim: seq<Byte>)
    requires p <= |s|
    ensures var split := SplitAll(s, p, delim); Rebuilds(split.fields, split.erased, s[p..Stop(s, p, [])], delim)
    decreases |s| - p
  {
    hide Rebuilds, Stop;
    var e := Stop(s, p, delim);
    if e < |s| && s[e] != 0 {
      FieldThenRest(s, p, delim);
      SplitRebuilds(s[e := 0], e + 1, delim);
      var rest := SplitAll(s[e := 0], e + 1, delim);
      RebuildsMore(s[p..e], s[e], rest.fields, rest.erased, s[e := 0][e + 1..Stop(s, p, [])], delim);
    } else {
      StopsAtEnd(s, p, delim);
      RebuildsOne(s[p..e], delim);
    }
  }

  lemma {:induction false} StopsAtEnd(s: seq<Byte>, p: nat, delim: seq<Byte>)
    requires p <= |s| && (Stop(s, p, delim) < |s| ==> s[Stop(s, p, delim)] == 0)
    ensures Stop(s, p, []) == Stop(s, p, delim)
    decreases |s| - p
  {
    if p < |s| && s[p] != 0 {
      StopsAtEnd(s, p + 1, delim);
    }
  }

  /** The memory differs from what it was only in that the delimiters between p and z are erased. */
  ghost predicate Erased(s: seq<Byte>, m: seq<Byte>, p: nat, z: nat, delim: seq<Byte>) {
    |m| == |s| && forall j :: 0 <= j < |s| ==> m[j] == if p <= j < z && s[j] in delim then 0 else s[j]
  }

  lemma ErasedMore(s: seq<Byte>, m: seq<Byte>, p: nat, e: nat, z: nat, delim: seq<Byte>)
    requires p <= e < z <= |s| && s[e] in delim && forall j :: p <= j < e ==> s[j] !in delim
    requires Erased(s[e := 0], m, e + 1, z, delim)
    ensures Erased(s, m, p, z, delim)
  {
  }

  lemma {:induction false} SplitErasesDelimiters(s: seq<Byte>, p: nat, delim: seq<Byte>)
    requires p <= |s|
    ensures Erased(s, SplitAll(s, p, delim).memory, p, Stop(s, p, []), delim)
    decreases |s| - p
  {
    hide Stop, Erased;
    var e := Stop(s, p, delim);
    if e < |s| && s[e] != 0 {
      FieldThenRest(s, p, delim);
      SplitErasesDelimiters(s[e := 0], e + 1, delim);
      ErasedMore(s, SplitAll(s, p, delim).memory, p, e, Stop(s, p, []), delim);
    } else {
      StopsAtEnd(s, p, delim);
      NothingErased(s, p, e, delim);
    }
  }

  lemma NothingErased(s: seq<Byte>, p: nat, e: nat, delim: seq<Byte>)
    requires e <= |s| && forall j :: p <= j < e ==> s[j] !in delim
    ensures Erased(s, s, p, e, delim)
  {
  }
}
