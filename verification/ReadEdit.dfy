/** `sys_read`: a reader of keyboard characters in which backspace takes back the latest one. */
module ReadEdit {
  import opened Words
  import opened Memory
  import opened KeyQueue
  import opened ScanCodes
  import opened Keyboard
  import Terminal

  const BACKSPACE: Byte := 8

  /** What is typed so far, after one more character. */
  function EditStep(text: seq<Byte>, c: Byte): seq<Byte> {
    if c != BACKSPACE then text + [c]
    else if text == [] then []
    else text[..|text| - 1]
  }

  /** The text that an input leaves when it is edited as it comes in. */
  function EditedText(input: seq<Byte>): seq<Byte> {
    if input == [] then [] else EditStep(EditedText(input[..|input| - 1]), input[|input| - 1])
  }

  // ---- what editing means ----

  /** Characters minus backspaces. */
  function Net(input: seq<Byte>): int {
    if input == [] then 0
    else Net(input[..|input| - 1]) + if input[|input| - 1] == BACKSPACE then -1 else 1
  }

  /** The net number typed after position i and before position j. */
  function Since(input: seq<Byte>, i: nat, j: nat): int {
    if i < j <= |input| then Net(input[i + 1..j]) else 0
  }

  /** The character at position i is never taken back: at no later point have more backspaces than characters
      come in after it. */
  ghost predicate Survives(input: seq<Byte>, i: nat)
    requires i < |input|
  {
    input[i] != BACKSPACE && forall j :: i < j <= |input| ==> Since(input, i, j) >= 0
  }

  /** The positions of the text's characters in the input. */
  function Positions(input: seq<Byte>): seq<nat> {
    if input == [] then []
    else
      var before := Positions(input[..|input| - 1]);
      if input[|input| - 1] != BACKSPACE then before + [|input| - 1]
      else if before == [] then []
      else before[..|before| - 1]
  }

  /** The text is the characters of the input at increasing positions p. */
  ghost predicate Picks(input: seq<Byte>, text: seq<Byte>, p: seq<nat>) {
    && |text| == |p|
    && (forall k :: 0 <= k < |p| ==> p[k] < |input| && text[k] == input[p[k]] && input[p[k]] != BACKSPACE)
    && (forall k, l :: 0 <= k < l < |p| ==> p[k] < p[l])
  }

  lemma PicksPush(input: seq<Byte>, c: Byte, text: seq<Byte>, p: seq<nat>)
    requires Picks(input, text, p) && c != BACKSPACE
    ensures Picks(input + [c], text + [c], p + [|input|])
  {
  }

  lemma PicksPop(input: seq<Byte>, text: seq<Byte>, p: seq<nat>)
    requires Picks(input, text, p) && p != []
    ensures Picks(input + [BACKSPACE], text[..|text| - 1], p[..|p| - 1])
  {
  }

  /** The characters of the text above each of those at positions p are the net number typed since. */
  ghost predicate NetsAbove(input: seq<Byte>, p: seq<nat>) {
    forall k {:trigger p[k]} :: 0 <= k < |p| ==> p[k] < |input| && Net(input[p[k] + 1..]) == |p| - 1 - k
  }

  lemma NetSince(input: seq<Byte>, c: Byte, i: nat)
    requires i < |input|
    ensures Net((input + [c])[i + 1..]) == Net(input[i + 1..]) + if c == BACKSPACE then -1 else 1
  {
    var since := (input + [c])[i + 1..];
    assert since[..|since| - 1] == input[i + 1..] && since[|since| - 1] == c;
  }

  lemma NetsPush(input: seq<Byte>, c: Byte, p: seq<nat>)
    requires NetsAbove(input, p) && c != BACKSPACE
    ensures NetsAbove(input + [c], p + [|input|])
  {
    hide Net;
    var input', p' := input + [c], p + [|input|];
    forall k | 0 <= k < |p'| ensures p'[k] < |input'| && Net(input'[p'[k] + 1..]) == |p'| - 1 - k {
      if k < |p| {
        assert p'[k] == p[k];
        NetSince(input, c, p[k]);
      } else {
        assert input'[p'[k] + 1..] == [];
        NetOfNothing();
      }
    }
  }

  lemma NetsPop(input: seq<Byte>, p: seq<nat>)
    requires NetsAbove(input, p) && p != []
    ensures NetsAbove(input + [BACKSPACE], p[..|p| - 1])
  {
    hide Net;
    var input', p' := input + [BACKSPACE], p[..|p| - 1];
    forall k | 0 <= k < |p'| ensures p'[k] < |input'| && Net(input'[p'[k] + 1..]) == |p'| - 1 - k {
      assert p'[k] == p[k];
      NetSince(input, BACKSPACE, p[k]);
    }
  }

  lemma NetOfNothing()
    ensures Net([]) == 0
  {
  }

  /** The text is the characters at those positions, which increase; the characters above each one are the net
      number typed since. */
  lemma {:induction false} TextAtPositions(input: seq<Byte>)
    ensures Picks(input, EditedText(input), Positions(input)) && NetsAbove(input, Positions(input))
  {
    hide Picks, NetsAbove;
    if input == [] {
      NothingPicked();
    } else {
      var before, c := input[..|input| - 1], input[|input| - 1];
      var text, p := EditedText(before), Positions(before);
      TextAtPositions(before);
      assert before + [c] == input;
      SameLength(before, text, p);
      if c != BACKSPACE {
        PicksPush(before, c, text, p);
        NetsPush(before, c, p);
      } else if p != [] {
        PicksPop(before, text, p);
        NetsPop(before, p);
      } else {
        NothingPicked();
      }
    }
  }

  lemma NothingPicked()
    ensures forall input :: Picks(input, [], []) && NetsAbove(input, [])
  {
  }

  lemma SameLength(input: seq<Byte>, text: seq<Byte>, p: seq<nat>)
    requires Picks(input, text, p)
    ensures |text| == |p|
  {
  }

  lemma SurvivesOneMore(input: seq<Byte>, i: nat)
    requires i < |input| - 1
    ensures Survives(input, i) <==> Survives(input[..|input| - 1], i) && Net(input[i + 1..]) >= 0
  {
    var before := input[..|input| - 1];
    forall j | i < j <= |before| ensures Since(input, i, j) == Since(before, i, j) {
      assert input[i + 1..j] == before[i + 1..j];
    }
    assert input[i + 1..|input|] == input[i + 1..];
    assert Since(input, i, |input|) == Net(input[i + 1..]);
  }

  /** The text is exactly the surviving characters, in order. */
  lemma {:induction false} TextIsTheSurvivors(input: seq<Byte>, i: nat)
    requires i < |input|
    ensures i in Positions(input) <==> Survives(input, i)
  {
    var before := input[..|input| - 1];
    if i < |before| {
      TextIsTheSurvivors(before, i);
      SurvivesOneMore(input, i);
      KeptOneMore(before, input[|input| - 1], i);
      assert before + [input[|input| - 1]] == input;
    } else {
      LastSurvives(input);
    }
  }

  /** What a position of the text's characters tells. */
  lemma AtPosition(input: seq<Byte>, text: seq<Byte>, p: seq<nat>, i: nat) returns (k: nat)
    requires Picks(input, text, p) && NetsAbove(input, p) && i in p
    ensures k < |p| && p[k] == i && i < |input| && Net(input[i + 1..]) == |p| - 1 - k
    ensures i == p[|p| - 1] <==> k == |p| - 1
  {
    hide Net;
    k :| 0 <= k < |p| && p[k] == i;
  }

  lemma InPush(p: seq<nat>, x: nat, i: nat)
    ensures i in p + [x] <==> i in p || i == x
  {
  }

  lemma InPop(input: seq<Byte>, text: seq<Byte>, p: seq<nat>, i: nat)
    requires Picks(input, text, p) && p != []
    ensures i in p[..|p| - 1] <==> i in p && i != p[|p| - 1]
  {
    var q := p[..|p| - 1];
    assert p == q + [p[|p| - 1]];
    assert forall k :: 0 <= k < |q| ==> q[k] < p[|p| - 1];
  }

  lemma PositionsOneMore(input: seq<Byte>, c: Byte)
    ensures var p := Positions(input);
      Positions(input + [c]) ==
        if c != BACKSPACE then p + [|input|] else if p == [] then [] else p[..|p| - 1]
  {
    assert (input + [c])[..|input|] == input;
  }

  /** Position i keeps its place after one more character exactly when it had one and the net since is not negative. */
  lemma KeptOneMore(input: seq<Byte>, c: Byte, i: nat)
    requires i < |input|
    ensures i in Positions(input + [c]) <==> i in Positions(input) && Net((input + [c])[i + 1..]) >= 0
  {
    hide Net, EditedText, Picks, NetsAbove, Positions;
    var p := Positions(input);
    TextAtPositions(input);
    PositionsOneMore(input, c);
    NetSince(input, c, i);
    if c != BACKSPACE {
      InPush(p, |input|, i);
    } else if p != [] {
      InPop(input, EditedText(input), p, i);
    }
    if i in p {
      var k := AtPosition(input, EditedText(input), p, i);
    }
  }

  lemma LastSurvives(input: seq<Byte>)
    requires input != []
    ensures |input| - 1 in Positions(input) <==> Survives(input, |input| - 1)
  {
    TextAtPositions(input[..|input| - 1]);
    assert Since(input, |input| - 1, |input|) == 0;
  }

  /** No backspace is ever in the text, so a one-character read never delivers one. */
  lemma NoBackspaceIsDelivered(input: seq<Byte>)
    ensures BACKSPACE !in EditedText(input)
  {
    TextAtPositions(input);
  }

  // ---- what the reader sees ----

  /** At some point a backspace comes in when there is nothing to take back. */
  ghost predicate TakesBackTooMuch(input: seq<Byte>) {
    exists n: nat :: n < |input| && input[n] == BACKSPACE && EditedText(input[..n]) == []
  }

  predicate Echoable(input: seq<Byte>) { forall c :: c in input ==> c == BACKSPACE || Terminal.Plain(c) }

  /** The text never reaches beyond the row that the cursor is in. */
  ghost predicate FitsRow(col: nat, input: seq<Byte>) {
    forall n: nat :: n <= |input| ==> col + |EditedText(input[..n])| <= Terminal.WIDTH
  }

  /** From column `col` on, the last row of d' is that of d with the text written over it. */
  ghost predicate EchoShows(d: Terminal.Document, d': Terminal.Document, text: seq<Byte>)
    requires d.rows != [] && d.col + |text| <= 80
  {
    var n := |d.rows| - 1;
    && |d'.rows| == n + 1 && d'.rows[..n] == d.rows[..n] && d'.col == d.col + |text|
    && (forall k :: 0 <= k < d.col ==> d'.rows[n][k] == d.rows[n][k])
    && (forall k :: 0 <= k < |text| ==> d'.rows[n][d.col + k] == Terminal.Cell(text[k], Terminal.COLOURS))
  }

  lemma CellEchoed(d: Terminal.Document, d1: Terminal.Document, text: seq<Byte>, c: Byte)
    requires d.rows != [] && d1.rows != [] && d.col + |text| < 80 && EchoShows(d, d1, text)
    ensures var rows := Terminal.PutLast(d1, d1.col, Terminal.Cell(c, Terminal.COLOURS));
      EchoShows(d, Terminal.Document(rows, d1.col + 1), text + [c])
  {
  }

  lemma CellErased(d: Terminal.Document, d1: Terminal.Document, text: seq<Byte>)
    requires d.rows != [] && d1.rows != [] && d.col + |text| <= 80 && EchoShows(d, d1, text) && text != []
    ensures var rows := Terminal.PutLast(d1, d1.col - 1, Terminal.BLANK);
      EchoShows(d, Terminal.Document(rows, d1.col - 1), text[..|text| - 1])
  {
  }

  lemma EchoStep(d: Terminal.Document, d1: Terminal.Document, text: seq<Byte>, c: Byte)
    requires Terminal.DocOk(d) && Terminal.DocOk(d1) && (c == BACKSPACE || Terminal.Plain(c))
    requires d.col + |text| <= 80 && EchoShows(d, d1, text) && d.col + |EditStep(text, c)| <= 80
    ensures
      if c == BACKSPACE && text == [] && d.col > 0 then Terminal.Write(d1, c).col < d.col
      else EchoShows(d, Terminal.Write(d1, c), EditStep(text, c))
  {
    hide EchoShows, Terminal.PutLast;
    ShownColumn(d, d1, text);
    if c != BACKSPACE {
      CellEchoed(d, d1, text, c);
    } else if text != [] {
      CellErased(d, d1, text);
    } else if d.col == 0 {
      assert Terminal.Write(d1, c) == d1;
    }
  }

  lemma TakesBackOneMore(input: seq<Byte>)
    requires input != []
    ensures var before := input[..|input| - 1];
      TakesBackTooMuch(input) <==>
        TakesBackTooMuch(before) || (input[|input| - 1] == BACKSPACE && EditedText(before) == [])
  {
    hide EditedText;
    var before := input[..|input| - 1];
    assert forall n: nat :: n < |before| ==> before[..n] == input[..n];
    if TakesBackTooMuch(before) {
      var n: nat :| n < |before| && before[n] == BACKSPACE && EditedText(before[..n]) == [];
      assert input[n] == BACKSPACE && input[..n] == before[..n];
    }
  }

  lemma FitsBefore(col: nat, input: seq<Byte>)
    requires input != [] && FitsRow(col, input)
    ensures FitsRow(col, input[..|input| - 1]) && col + |EditedText(input)| <= Terminal.WIDTH
  {
    hide EditedText;
    var before := input[..|input| - 1];
    assert input[..|input|] == input;
    forall n: nat | n <= |before| ensures col + |EditedText(before[..n])| <= Terminal.WIDTH {
      assert before[..n] == input[..n];
    }
  }

  /** While a line is typed that fits the row, the reader sees exactly the text that `sys_read` will deliver, unless a
      backspace came in when there was nothing to take back: that one still erases what stood before the line. */
  lemma {:induction false} EchoIsTheText(d: Terminal.Document, input: seq<Byte>)
    requires Terminal.DocOk(d) && Echoable(input) && FitsRow(d.col, input)
    ensures d.col + |EditedText(input)| <= 80
    ensures EchoShows(d, Terminal.WriteAll(d, input), EditedText(input)) <==> d.col == 0 || !TakesBackTooMuch(input)
    ensures d.col > 0 && TakesBackTooMuch(input) ==>
      Terminal.WriteAll(d, input).col < d.col + |EditedText(input)|
  {
    hide EchoShows, EditStep, Terminal.Write, TakesBackTooMuch, FitsRow;
    if input == [] {
      NothingEchoed(d);
    } else {
      var before, c := input[..|input| - 1], input[|input| - 1];
      FitsBefore(d.col, input);
      EchoIsTheText(d, before);
      TakesBackOneMore(input);
      var d1 := Terminal.WriteAll(d, before);
      if d.col == 0 || !TakesBackTooMuch(before) {
        EchoStep(d, d1, EditedText(before), c);
        ShownColumn(d, Terminal.Write(d1, c), EditedText(input));
      } else {
        EchoBehind(d, d1, EditedText(before), c);
        ShownColumn(d, Terminal.Write(d1, c), EditedText(input));
      }
    }
  }

  lemma NothingEchoed(d: Terminal.Document)
    requires Terminal.DocOk(d)
    ensures EchoShows(d, d, []) && !TakesBackTooMuch([])
  {
  }

  lemma ShownColumn(d: Terminal.Document, d': Terminal.Document, text: seq<Byte>)
    requires d.rows != [] && d.col + |text| <= 80
    ensures EchoShows(d, d', text) ==> d'.col == d.col + |text|
  {
  }

  lemma EchoBehind(d: Terminal.Document, d1: Terminal.Document, text: seq<Byte>, c: Byte)
    requires Terminal.DocOk(d1) && (c == BACKSPACE || Terminal.Plain(c))
    requires d.col > 0 && d1.col < d.col + |text| <= 80
    ensures Terminal.Write(d1, c).col < d.col + |EditStep(text, c)|
  {
  }

  // ---- the system call ----

  lemma {:induction false} FlattenInTwo(batches: seq<seq<Code>>, k: nat, n: nat)
    requires k + n <= |batches|
    ensures Flatten(batches[..k + n]) == Flatten(batches[..k]) + Flatten(batches[k..][..n])
    decreases n
  {
    hide Flatten;
    if n == 0 {
      FlattenNothing(batches[k..]);
    } else {
      FlattenInTwo(batches, k, n - 1);
      FlattenOneMore(batches, k + n - 1);
      FlattenOneMore(batches[k..], n - 1);
      Associate(Flatten(batches[..k]), Flatten(batches[k..][..n - 1]), batches[k + n - 1]);
    }
  }

  lemma Associate(a: seq<Code>, b: seq<Code>, c: seq<Code>)
    ensures (a + b) + c == a + (b + c)
  {
  }

  lemma FlattenNothing(batches: seq<seq<Code>>)
    ensures Flatten(batches[..0]) == []
  {
  }

  lemma EditedTextOneMore(input: seq<Byte>, c: Byte)
    ensures EditedText(input + [c]) == EditStep(EditedText(input), c)
  {
    assert (input + [c])[..|input|] == input;
  }

  /** What a call leaves: `taken` is what it read from the keyboard, whose interrupts arrived meanwhile. */
  ghost predicate ReadSoFar(buf: seq<Byte>, numRead: nat, count: nat, taken: seq<Byte>) {
    && numRead <= |buf| && buf[..numRead] == EditedText(taken)
    && forall n :: 0 <= n < |taken| ==> |EditedText(taken[..n])| < count
  }

  lemma ReadOneMore(buf: seq<Byte>, numRead: nat, count: nat, taken: seq<Byte>, c: Byte, buf': seq<Byte>, numRead': nat)
    requires ReadSoFar(buf, numRead, count, taken) && numRead < count <= |buf| == |buf'|
    requires if c != BACKSPACE then numRead' == numRead + 1 && buf' == buf[numRead := c]
             else if numRead == 0 then numRead' == 0 && buf' == buf
             else numRead' == numRead - 1 && buf' == buf[numRead - 1 := 0]
    ensures ReadSoFar(buf', numRead', count, taken + [c])
  {
    EditedTextOneMore(taken, c);
    forall n | 0 <= n < |taken| + 1 ensures |EditedText((taken + [c])[..n])| < count {
      if n < |taken| {
        assert (taken + [c])[..n] == taken[..n];
      } else {
        assert (taken + [c])[..n] == taken;
      }
    }
  }

  /** The body of the loop, for the character it got. */
  method PutInBuffer(buf: array<Byte>, numRead: nat, count: nat, current: Byte, ghost taken: seq<Byte>) returns (n: nat)
    requires numRead < count <= buf.Length && ReadSoFar(buf[..], numRead, count, taken)
    modifies buf
    ensures n <= count && ReadSoFar(buf[..], n, count, taken + [current])
    ensures forall i :: count <= i < buf.Length ==> buf[i] == old(buf[i])
  {
    hide ReadSoFar;
    ghost var before := buf[..];
    n := numRead;
    if current == BACKSPACE {
      if numRead > 0 {
        n := numRead - 1;
        buf[n] := 0;
      }
    } else {
      buf[numRead] := current;
      n := numRead + 1;
    }
    ReadOneMore(before, numRead, count, taken, current, buf[..], n);
  }

  /** Where a call stands: `taken` is what it took from the keyboard and echoed, while `used` batches of interrupts
      arrived, since the keyboard's history was `history`, it had delivered `delivered`, and the screen was `shown`. */
  ghost predicate Reading(kb: Keyboard, screen: Terminal.Terminal, arrivals: seq<seq<Code>>, used: nat,
                          history: seq<Code>, delivered: seq<Byte>, shown: Terminal.Screen, taken: seq<Byte>)
    requires |shown.cells| == 2000
    reads kb, kb.keyBuffer, screen, screen.term
  {
    && kb.Valid() && kb.trace.queue.pc.Wait?
    && used <= |arrivals| && kb.history == history + Flatten(arrivals[..used])
    && kb.trace.delivered == delivered + taken <= kb.trace.accepted
    && screen.Ready() && screen.State() == Terminal.PutAll(shown, taken)
  }

  /** The call of `kgetc` in the loop. */
  method ReadKey(kb: Keyboard, screen: Terminal.Terminal, arrivals: seq<seq<Code>>, used: nat,
                 ghost history: seq<Code>, ghost delivered: seq<Byte>, ghost shown: Terminal.Screen,
                 ghost taken: seq<Byte>) returns (c: Option<Byte>, used': nat)
    requires |shown.cells| == 2000 && screen.term != kb.keyBuffer
    requires Reading(kb, screen, arrivals, used, history, delivered, shown, taken)
    modifies kb, kb.keyBuffer, screen, screen.term
    ensures Reading(kb, screen, arrivals, used', history, delivered, shown,
                    if c.Some? then taken + [c.value] else taken)
    ensures c.None? ==> used' == |arrivals| && kb.trace.delivered == kb.trace.accepted
    ensures used <= used' <= |arrivals| && |kb.trace.delivered| <= |kb.trace.accepted|
    ensures c.Some? && used' == used ==>
      |kb.trace.accepted| - |kb.trace.delivered| < |old(kb.trace.accepted)| - |old(kb.trace.delivered)|
  {
    hide Terminal.PutChar, Terminal.PutAll, TraceOk, AllOfText, ScanCodes.Run, Flatten;
    var more;
    c, more := kb.Kgetc(screen, arrivals[used..]);
    FlattenInTwo(arrivals, used, more);
    used' := used + more;
    if c.Some? {
      Terminal.OneMoreCharacter(shown, taken, c.value);
    }
  }

  /** `sys_read`, with interrupts arriving in batches between the statements of each `kgetc`. Without `done` it is
      still waiting when all batches have arrived. The live part of the buffer is the edited form of what the call
      took from the keyboard; the call ends when it first holds `count` characters. All that it took, backspaces
      included, is echoed on the screen. */
  method SysRead(kb: Keyboard, screen: Terminal.Terminal, fd: int, buf: array<Byte>, count: nat,
                 arrivals: seq<seq<Code>>)
    returns (result: int, used: nat, done: bool, numRead: nat, ghost taken: seq<Byte>)
    requires kb.Valid() && kb.trace.queue.pc.Wait? && buf != kb.keyBuffer && count <= buf.Length
    requires screen.Ready() && screen.term != kb.keyBuffer && screen.term != buf
    modifies kb, kb.keyBuffer, screen, screen.term, buf
    ensures Reading(kb, screen, arrivals, used, old(kb.history), old(kb.trace.delivered), old(screen.State()), taken)
    ensures fd != 0 ==> done && result == -1 && kb.trace == old(kb.trace) && taken == [] && buf[..] == old(buf[..])
    ensures fd == 0 ==> ReadSoFar(buf[..], numRead, count, taken)
    ensures fd == 0 && done ==> result == numRead == count
    ensures fd == 0 && !done ==> used == |arrivals| && numRead < count && kb.trace.delivered == kb.trace.accepted
    ensures forall i :: count <= i < buf.Length ==> buf[i] == old(buf[i])
    ensures kb.trace.dropped == [] ==> kb.trace.delivered <= Text(kb.history)
  {
    hide ReadSoFar, EditedText, TraceOk, EditStep, AllOfText, ScanCodes.Run, Text, Terminal.PutChar, Reading;
    used, numRead, taken := 0, 0, [];
    ghost var history, delivered, shown := kb.history, kb.trace.delivered, screen.State();
    NothingTaken(kb, screen, arrivals);
    if fd != 0 {
      TextDelivered(kb, screen, arrivals, used, history, delivered, shown, taken);
      return -1, 0, true, 0, [];
    }
    NothingRead(buf[..], count);
    while numRead < count
      invariant Reading(kb, screen, arrivals, used, history, delivered, shown, taken)
      invariant used <= |arrivals| && numRead <= count && ReadSoFar(buf[..], numRead, count, taken)
      invariant forall i :: count <= i < buf.Length ==> buf[i] == old(buf[i])
      decreases |arrivals| - used, |kb.trace.accepted| - |kb.trace.delivered|
    {
      var c;
      c, used := ReadKey(kb, screen, arrivals, used, history, delivered, shown, taken);
      if c.None? {
        TextDelivered(kb, screen, arrivals, used, history, delivered, shown, taken);
        return 0, used, false, numRead, taken;
      }
      var current := c.value;
      numRead := PutInBuffer(buf, numRead, count, current, taken);
      taken := taken + [current];
    }
    TextDelivered(kb, screen, arrivals, used, history, delivered, shown, taken);
    return numRead, used, true, numRead, taken;
  }

  lemma NothingTaken(kb: Keyboard, screen: Terminal.Terminal, arrivals: seq<seq<Code>>)
    requires kb.Valid() && kb.trace.queue.pc.Wait? && screen.Ready()
    ensures Reading(kb, screen, arrivals, 0, kb.history, kb.trace.delivered, screen.State(), [])
  {
    DeliveredIsAccepted(kb.trace);
  }

  lemma TextDelivered(kb: Keyboard, screen: Terminal.Terminal, arrivals: seq<seq<Code>>, used: nat,
                      history: seq<Code>, delivered: seq<Byte>, shown: Terminal.Screen, taken: seq<Byte>)
    requires |shown.cells| == 2000 && Reading(kb, screen, arrivals, used, history, delivered, shown, taken)
    ensures kb.trace.dropped == [] ==> kb.trace.delivered <= Text(kb.history)
  {
    hide TraceOk, Terminal.PutAll;
    DeliveredIsText(kb.trace, kb.history);
  }

  lemma NothingRead(buf: seq<Byte>, count: nat)
    ensures ReadSoFar(buf, 0, count, [])
  {
  }

  lemma DeliveredIsText(t: Trace, history: seq<Code>)
    requires AllOfText(t, ScanCodes.Run(history).1) && t.delivered <= t.accepted
    ensures t.dropped == [] ==> t.delivered <= Text(history)
  {
    HistoryTypesItsText(history);
  }

  lemma DeliveredIsAccepted(t: Trace)
    requires TraceOk(t)
    ensures t.delivered <= t.accepted
  {
    assert t.accepted == t.delivered + (InFlight(t.queue) + Contents(t.queue));
  }
}
