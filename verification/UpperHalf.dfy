/** The operations on upper-half addresses. The boot loader's upper-half tables may be shared and map large pages;
    an operation that meets only tables on its way leaves the lower half and the invariant alone. */
module UpperHalf {
  import opened Words
  import opened Memory
  import opened PageTree
  import opened TreeEdits
  import opened Mapping
  import opened UnmapLowerHalf
  import opened AddressSpace

  /** No entry on the way to an address has the page-size bit of a large page. */
  ghost predicate TablesOnly(m: Mem, r: Frame, address: nat) {
    !Entry(m, r, Prefix(address, 1)).pageSize && !Entry(m, r, Prefix(address, 2)).pageSize
  }

  /** Nothing of the lower half has changed: tables, entries, and what the pages hold. */
  ghost predicate LowerKept(m: Mem, m': Mem, r: Frame) {
    && |m'| == |m|
    && (forall q {:trigger Walk(m', r, q)} {:trigger Walk(m, r, q)} :: Lower(q) ==> Walk(m', r, q) == Walk(m, r, q))
    && (forall q {:trigger Entry(m', r, q)} {:trigger Entry(m, r, q)} :: Lower(q) && q.Sub? ==>
          Entry(m', r, q) == Entry(m, r, q))
    && (forall q {:trigger Walk(m, r, q)} :: Lower(q) && Depth(q) == 4 && Walk(m, r, q).Some? ==>
          SamePage(m, m', Walk(m, r, q).value))
  }

  lemma LowerKeptTwice(m: Mem, m1: Mem, m2: Mem, r: Frame)
    requires LowerKept(m, m1, r) && LowerKept(m1, m2, r)
    ensures LowerKept(m, m2, r)
  {
    forall q | Lower(q) ensures Walk(m2, r, q) == Walk(m, r, q) {
      assert Walk(m1, r, q) == Walk(m, r, q);
    }
    forall q | Lower(q) && q.Sub? ensures Entry(m2, r, q) == Entry(m, r, q) {
      assert Entry(m1, r, q) == Entry(m, r, q);
    }
    forall q | Lower(q) && Depth(q) == 4 && Walk(m, r, q).Some? ensures SamePage(m, m2, Walk(m, r, q).value) {
      assert Walk(m1, r, q) == Walk(m, r, q);
      assert SamePage(m, m1, Walk(m, r, q).value) && SamePage(m1, m2, Walk(m, r, q).value);
    }
  }

  lemma LowerKeptPages(m: Mem, m': Mem, r: Frame)
    requires LowerKept(m, m', r)
    ensures Pages(m', r) == Pages(m, r)
  {
    forall p ensures (p in Pages(m', r) <==>
        p in Pages(m, r)) && (p in Pages(m, r) ==> Pages(m', r)[p] == Pages(m, r)[p]) {
      if IsPagePath(p) {
        assert Walk(m', r, p) == Walk(m, r, p) && Entry(m', r, p) == Entry(m, r, p);
      }
    }
  }

  // ---- writing an entry of an upper-half table ----

  /** m' differs from m only in entry i of the table at p, and in the free frame f, which it may have cleared. */
  ghost predicate UpperWritten(m: Mem, m': Mem, r: Frame, free: seq<Frame>, p: Path, i: nat, e: Word, f: Frame) {
    && Tree(m, r, free, 4) && Upper(Sub(p, i)) && Walk(m, r, p).Some? && |m'| == |m|
    && (forall x: nat, j: nat {:trigger At(m', x, j)} :: j < ENTRIES ==>
          At(m', x, j) == if x == Walk(m, r, p).value && j == i then e
                          else if x == f && f in free then ZERO else At(m, x, j))
  }

  lemma UpperParent(p: Path, i: nat)
    requires Upper(Sub(p, i))
    ensures Valid(p) && Depth(p) <= 3 && Node(p, 4) && (p.Root? ==> i >= 256) && (p.Sub? ==> Upper(p))
  {
  }

  lemma {:induction false} LowerReadsSame(m: Mem, m': Mem, r: Frame, free: seq<Frame>, p: Path, i: nat, e: Word,
      f: Frame, q: Path)
    requires UpperWritten(m, m', r, free, p, i, e, f) && Lower(q)
    ensures Walk(m', r, q) == Walk(m, r, q)
    ensures q.Sub? ==> Entry(m', r, q) == Entry(m, r, q)
  {
    if q.Sub? {
      UpperParent(p, i);
      assert Lower(q.parent) by {
        assert q.parent.Root? || Top(q.parent) == Top(q);
      }
      LowerReadsSame(m, m', r, free, p, i, e, f, q.parent);
      var x := Walk(m, r, q.parent);
      assert Node(q.parent, 4);
      if x.Some? {
        assert x == Walk(m, r, p) ==> q.parent == p;
        assert x.value !in free;
      }
    }
  }

  lemma LowerIsKept(m: Mem, m': Mem, r: Frame, free: seq<Frame>, p: Path, i: nat, e: Word, f: Frame)
    requires UpperWritten(m, m', r, free, p, i, e, f)
    ensures LowerKept(m, m', r)
  {
    forall q | Lower(q)
      ensures Walk(m', r, q) == Walk(m, r, q) && (q.Sub? ==> Entry(m', r, q) == Entry(m, r, q))
    {
      LowerReadsSame(m, m', r, free, p, i, e, f, q);
    }
    UpperParent(p, i);
    forall q | Lower(q) && Depth(q) == 4 && Walk(m, r, q).Some? ensures SamePage(m, m', Walk(m, r, q).value) {
      assert Node(q, 4);
    }
  }

  /** What an entry may lead to: nowhere, or frame f. */
  predicate LeadsTo(e: Word, f: Frame) { !e.present || e.address == f }

  /** What is there stays there, and what is new leads to a frame of `taken`. */
  ghost predicate OnlyGrown(m: Mem, m': Mem, r: Frame, taken: set<Frame>) {
    && (forall q {:trigger Walk(m', r, q)} {:trigger Walk(m, r, q)} :: Valid(q) ==>
          if Walk(m, r, q).Some? then Walk(m', r, q) == Walk(m, r, q)
          else Walk(m', r, q).Some? ==> Walk(m', r, q).value in taken)
    && (forall q {:trigger Entry(m', r, q)} {:trigger Entry(m, r, q)} ::
          Valid(q) && q.Sub? && Entry(m, r, q).present ==> Entry(m', r, q) == Entry(m, r, q))
  }

  /** No cell has changed but cell i of frame t and those of the frames of `taken`. */
  ghost predicate CellsKept(m: Mem, m': Mem, t: Frame, i: nat, taken: set<Frame>) {
    forall x: nat, j: nat {:trigger At(m', x, j)} :: j < ENTRIES && x !in taken && !(x == t && j == i) ==>
      At(m', x, j) == At(m, x, j)
  }

  /** Filling an absent entry moves nothing that is mapped, and a path it adds leads to f. */
  lemma {:induction false} UpperGrows(m: Mem, m': Mem, r: Frame, free: seq<Frame>, p: Path, i: nat, e: Word,
      f: Frame, q: Path)
    requires UpperWritten(m, m', r, free, p, i, e, f) && f in free && LeadsTo(e, f)
    requires !At(m, Walk(m, r, p).value, i).present && Valid(q)
    ensures if Walk(m, r, q).Some? then Walk(m', r, q) == Walk(m, r, q)
            else Walk(m', r, q).Some? ==> Walk(m', r, q).value == f
    ensures q.Sub? && Entry(m, r, q).present ==> Entry(m', r, q) == Entry(m, r, q)
    ensures q.Sub? && SameOtherBits(At(m, Walk(m, r, p).value, i), e) ==> SameOtherBits(Entry(m, r, q), Entry(m', r, q))
  {
    if q.Sub? {
      UpperGrows(m, m', r, free, p, i, e, f, q.parent);
      UpperParent(p, i);
      assert Node(q.parent, 4) && Node(p, 4);
      assert Walk(m, r, p).value !in free;
      if Walk(m, r, q.parent).Some? {
        assert Walk(m, r, q.parent).value !in free;
        assert Entry(m', r, q) ==
          if Walk(m, r, q.parent) == Walk(m, r, p) && q.index == i then e else Entry(m, r, q);
      } else if Walk(m', r, q.parent).Some? {
        assert Entry(m', r, q) == At(m', f, q.index) == ZERO;
      }
    }
  }

  lemma UpperOnlyGrown(m: Mem, m': Mem, r: Frame, free: seq<Frame>, p: Path, i: nat, e: Word, f: Frame)
    requires UpperWritten(m, m', r, free, p, i, e, f) && f in free && LeadsTo(e, f)
    requires !At(m, Walk(m, r, p).value, i).present
    ensures OnlyGrown(m, m', r, {f}) && CellsKept(m, m', Walk(m, r, p).value, i, {f})
    ensures SameOtherBits(At(m, Walk(m, r, p).value, i), e) ==> BitsKept(m, m', r)
  {
    hide Walk, Entry, SameOtherBits;
    forall q | Valid(q)
      ensures if Walk(m, r, q).Some? then Walk(m', r, q) == Walk(m, r, q)
              else Walk(m', r, q).Some? ==> Walk(m', r, q).value == f
      ensures q.Sub? && Entry(m, r, q).present ==> Entry(m', r, q) == Entry(m, r, q)
      ensures q.Sub? && SameOtherBits(At(m, Walk(m, r, p).value, i), e) ==>
        SameOtherBits(Entry(m, r, q), Entry(m', r, q))
    {
      UpperGrows(m, m', r, free, p, i, e, f, q);
    }
  }

  lemma OnlyGrownTwice(m: Mem, m1: Mem, m2: Mem, r: Frame, a: set<Frame>, b: set<Frame>)
    requires OnlyGrown(m, m1, r, a) && OnlyGrown(m1, m2, r, b)
    ensures OnlyGrown(m, m2, r, a + b)
  {
    forall q | Valid(q)
      ensures if Walk(m, r, q).Some? then Walk(m2, r, q) == Walk(m, r, q)
              else Walk(m2, r, q).Some? ==> Walk(m2, r, q).value in a + b
      ensures q.Sub? && Entry(m, r, q).present ==> Entry(m2, r, q) == Entry(m, r, q)
    {
      var w := Walk(m1, r, q);
      if q.Sub? {
        var e := Entry(m1, r, q);
      }
    }
  }

  /** One table or page installed in the upper half: its frame leaves the pool. */
  lemma UpperInstallKeepsTree(m: Mem, m': Mem, r: Frame, g: Ledger, p: Path, i: nat, e: Word)
    requires g.free != [] && g.free[0] !in g.free[1..] && 0 < g.free[0] < |m|
    requires UpperWritten(m, m', r, g.free, p, i, e, g.free[0]) && LeadsTo(e, g.free[0]) && Partition(m, r, g)
    requires !At(m, Walk(m, r, p).value, i).present
    ensures var g' := g.(free := g.free[1..], leaked := g.leaked + {g.free[0]});
      Tree(m', r, g'.free, 4) && Partition(m', r, g')
  {
    var f, free' := g.free[0], g.free[1..];
    LowerIsKept(m, m', r, g.free, p, i, e, f);
    assert forall x: Frame :: x in g.free <==> x == f || x in free' by {
      assert g.free == [f] + free';
    }
    UpperOnlyGrown(m, m', r, g.free, p, i, e, f);
    forall q | Node(q, 4)
      ensures Walk(m', r, q) == Walk(m, r, q) || (Upper(q) && (Walk(m', r, q) == Some(f) || Walk(m', r, q).None?))
    {
      if !Upper(q) {
        assert Lower(q);
      }
    }
    assert Tree(m', r, free', 4);
    forall x: Frame ensures Owned(m', r, x) <==> Owned(m, r, x) {
      SameOwners(m, m', r, x);
    }
    OwnedIsNotFree(m, r, g.free, f);
  }

  lemma SameOwners(m: Mem, m': Mem, r: Frame, x: Frame)
    requires LowerKept(m, m', r)
    ensures Owned(m', r, x) <==> Owned(m, r, x)
  {
    if p :| Lower(p) && p.Sub? && Walk(m, r, p) == Some(x) {
      assert Walk(m', r, p) == Some(x);
    }
    if p :| Lower(p) && p.Sub? && Walk(m', r, p) == Some(x) {
      assert Walk(m, r, p) == Some(x);
    }
  }

  lemma LowerKeepsBits(m: Mem, m': Mem, r: Frame)
    requires LowerKept(m, m', r) && NoLargePages(m, r) && Permissive(m, r)
    ensures NoLargePages(m', r) && Permissive(m', r)
  {
    forall p | Lower(p) && 2 <= Depth(p) <= 3 ensures !Entry(m', r, p).pageSize {
      assert Entry(m', r, p) == Entry(m, r, p);
    }
    forall p | Lower(p) && 1 <= Depth(p) <= 3 && Walk(m', r, p).Some?
      ensures Entry(m', r, p).user && Entry(m', r, p).writable && !Entry(m', r, p).noExecute
    {
      assert Walk(m', r, p) == Walk(m, r, p) && Entry(m', r, p) == Entry(m, r, p);
    }
  }

  // ---- vm_map ----

  /** No large page from a level downwards. */
  ghost predicate TablesBelow(m: Mem, r: Frame, address: nat, level: Level) {
    && (1 < level ==> !Entry(m, r, Prefix(address, 1)).pageSize)
    && (2 < level ==> !Entry(m, r, Prefix(address, 2)).pageSize)
  }

  ghost function Members(frames: seq<Frame>): set<Frame> { set x | x in frames }

  /** The first k free frames, or all if there are fewer. */
  ghost function FirstFree(g: Ledger, k: nat): set<Frame> { Members(g.free[..Min(k, |g.free|)]) }

  /** The ledger after k frames were taken for the upper half. */
  ghost function Taken(g: Ledger, k: nat): Ledger {
    g.(free := g.free[Min(k, |g.free|)..], leaked := g.leaked + FirstFree(g, k))
  }

  lemma FirstOfMore(free: seq<Frame>, n: nat)
    requires n < |free|
    ensures free[1..][n..] == free[n + 1..]
    ensures Members(free[..n + 1]) == {free[0]} + Members(free[1..][..n])
  {
    assert free[..n + 1] == [free[0]] + free[1..][..n];
  }

  lemma FirstOne(g: Ledger)
    requires g.free != []
    ensures FirstFree(g, 1) == {g.free[0]}
    ensures Taken(g, 1) == g.(free := g.free[1..], leaked := g.leaked + {g.free[0]})
  {
    assert g.free[..1] == [g.free[0]];
  }

  lemma Unite(a: set<Frame>, b: set<Frame>, c: set<Frame>)
    ensures (a + b) + c == a + (b + c)
  {
  }

  lemma TakenMore(g: Ledger, k: nat)
    requires g.free != []
    ensures Taken(Taken(g, 1), k) == Taken(g, k + 1)
    ensures Taken(g, 1) == g.(free := g.free[1..], leaked := g.leaked + {g.free[0]})
    ensures FirstFree(g, 1) == {g.free[0]} && FirstFree(g, k + 1) == {g.free[0]} + FirstFree(Taken(g, 1), k)
  {
    hide Members;
    FirstOne(g);
    FirstOfMore(g.free, Min(k, |g.free| - 1));
    Unite(g.leaked, {g.free[0]}, FirstFree(Taken(g, 1), k));
  }

  /** Only one entry was filled, that of the address in its table at a level; all else that is new lies in `taken`. */
  ghost predicate UpperGrown(m: Mem, m': Mem, r: Frame, taken: set<Frame>, level: TableLevel, address: nat) {
    var t := Walk(m, r, Prefix(address, level));
    t.Some? && OnlyGrown(m, m', r, taken) && CellsKept(m, m', t.value, Index(address, level), taken)
  }

  /** One round of the loop that allocates. */
  lemma UpperFillStep(s: Phys, r: Frame, g: Ledger, address: nat, level: TableLevel, user: bool, writable: bool,
      executable: bool)
    returns (s': Phys, e: Word)
    requires Inv(s, r, g) && !LowerHalf(address) && TablesBelow(s.mem, r, address, level) && g.free != []
    requires Walk(s.mem, r, Prefix(address, level)).Some? && !Entry(s.mem, r, Prefix(address, level - 1)).present
    ensures Alloc(s).1 == g.free[0] > 0
    ensures var table := Walk(s.mem, r, Prefix(address, level)).value;
      && s' == Fill(Alloc(s).0, table, Index(address, level), Alloc(s).1, level, user, writable, executable)
      && At(s'.mem, table, Index(address, level)) == e && Entry(s'.mem, r, Prefix(address, level - 1)) == e
    ensures e.present && e.address == g.free[0]
    ensures level == 1 ==> e.user == user && e.writable == writable && e.noExecute == executable
    ensures Inv(s', r, Taken(g, 1)) && LowerKept(s.mem, s'.mem, r)
    ensures UpperGrown(s.mem, s'.mem, r, {g.free[0]}, level, address) && BitsKept(s.mem, s'.mem, r)
    ensures LeadsWith(Entry(s.mem, r, Prefix(address, level - 1)), e, level == 1, g.free[0], user, writable, executable)
    ensures Walk(s'.mem, r, Prefix(address, level - 1)) == Some(g.free[0]) && IsClear(s'.mem, g.free[0])
  {
    hide Inv;
    var p, i, f := Prefix(address, level), Index(address, level), g.free[0];
    var t, next := Walk(s.mem, r, p).value, Prefix(address, level - 1);
    assert next == Sub(p, i) && Upper(next);
    e := NewEntry(Entry(s.mem, r, next), f, level, user, writable, executable);
    UpperInstallStep(s, r, g, p, i, e);
    assert Chain(s, g.free) && t != f by { UpperNotFree(s, r, g, p, i); }
    FillIsInstall(s, r, g.free, p, level, i, user, writable, executable);
    s' := Phys(Installed(s.mem, f, t, i, e), Alloc(s).0.top);
  }

  lemma UpperNotFree(s: Phys, r: Frame, g: Ledger, p: Path, i: nat)
    requires Inv(s, r, g) && Upper(Sub(p, i)) && Walk(s.mem, r, p).Some?
    ensures Chain(s, g.free) && 0 < Walk(s.mem, r, p).value < |s.mem| && Walk(s.mem, r, p).value !in g.free
  {
    UpperParent(p, i);
  }

  /** Clearing the first free frame and pointing an absent upper-half entry at it. */
  lemma UpperInstallStep(s: Phys, r: Frame, g: Ledger, p: Path, i: nat, e: Word)
    requires Inv(s, r, g) && g.free != [] && Upper(Sub(p, i)) && Walk(s.mem, r, p).Some?
    requires !Entry(s.mem, r, Sub(p, i)).present && LeadsTo(e, g.free[0])
    ensures var t := Walk(s.mem, r, p).value;
      var m' := Installed(s.mem, g.free[0], t, i, e);
      && Inv(Phys(m', Alloc(s).0.top), r, Taken(g, 1)) && LowerKept(s.mem, m', r)
      && OnlyGrown(s.mem, m', r, {g.free[0]}) && CellsKept(s.mem, m', t, i, {g.free[0]})
      && (SameOtherBits(Entry(s.mem, r, Sub(p, i)), e) ==> BitsKept(s.mem, m', r))
      && g.free[0] > 0 && IsClear(m', g.free[0]) && At(m', t, i) == e && Walk(m', r, p) == Some(t)
  {
    var t, f := Walk(s.mem, r, p).value, g.free[0];
    var m' := Installed(s.mem, f, t, i, e);
    UpperNotFree(s, r, g, p, i);
    AtInstalled(s.mem, f, t, i, e);
    assert UpperWritten(s.mem, m', r, g.free, p, i, e, f) by { UpperParent(p, i); }
    LowerIsKept(s.mem, m', r, g.free, p, i, e, f);
    UpperParent(p, i);
    UpperOnlyGrown(s.mem, m', r, g.free, p, i, e, f);
    hide Inv, UpperWritten, LowerKept;
    TakenMore(g, 0);
    UpperInstallInv(s, m', r, g, p, i, e);
  }

  lemma UpperInstallInv(s: Phys, m': Mem, r: Frame, g: Ledger, p: Path, i: nat, e: Word)
    requires Inv(s, r, g) && g.free != [] && LeadsTo(e, g.free[0])
    requires UpperWritten(s.mem, m', r, g.free, p, i, e, g.free[0]) && !Entry(s.mem, r, Sub(p, i)).present
    ensures Inv(Phys(m', Alloc(s).0.top), r, g.(free := g.free[1..], leaked := g.leaked + {g.free[0]})) && g.free[0] > 0
  {
    UpperNotFree(s, r, g, p, i);
    AllocPops(s, g.free);
    UpperInstallKeepsTree(s.mem, m', r, g, p, i, e);
    LowerIsKept(s.mem, m', r, g.free, p, i, e, g.free[0]);
    LowerKeepsBits(s.mem, m', r);
    assert Chain(Phys(m', Alloc(s).0.top), g.free[1..]) by {
      assert forall x: Frame :: x in g.free[1..] ==> x in g.free && x != g.free[0];
      ChainFrame(Alloc(s).0, m', g.free[1..]);
    }
    hide Tree, Partition, UpperWritten, NoLargePages, Permissive, Chain, LowerKept;
  }

  /** What `vm_map` leaves behind on an upper-half address: k frames were wanted, and the first entry found absent
      was that of the address at level k. */
  ghost predicate UpperMapped(s: Phys, s': Phys, ok: bool, r: Frame, g: Ledger, k: Level, address: nat,
                              user: bool, writable: bool, noExecute: bool)
  {
    && Inv(s', r, Taken(g, k)) && LowerKept(s.mem, s'.mem, r)
    && ok == (0 < k <= |g.free|)
    && (if k == 0 then s' == s else UpperGrown(s.mem, s'.mem, r, FirstFree(g, k), k, address))
    && WayFilled(s.mem, s'.mem, r, g.free, k, address, user, writable, noExecute)
    && (ok ==> FreshPage(s'.mem, r, Leaf(address), g.free[k - 1], user, writable, noExecute))
  }

  lemma UpperMappedNothing(s: Phys, r: Frame, g: Ledger, k: Level, address: nat, user: bool, writable: bool,
      noExecute: bool)
    requires Inv(s, r, g) && (k == 0 || (g.free == [] && Walk(s.mem, r, Prefix(address, k)).Some?))
    ensures UpperMapped(s, s, false, r, g, k, address, user, writable, noExecute)
  {
    hide Inv, Prefix, Index, Entry, WayFilled;
    LowerKeptItself(s.mem, r);
    NothingFilled(s.mem, r, g.free, k, address, user, writable, noExecute);
    assert g.free[Min(k, |g.free|)..] == g.free && g.free[..Min(k, |g.free|)] == [];
    assert Taken(g, k) == g;
  }

  /** An entry filled at level k + 1, and then the rest of the way. */
  lemma UpperMappedMore(s: Phys, s1: Phys, s': Phys, ok: bool, r: Frame, g: Ledger, k: TableLevel, address: nat,
                        user: bool, writable: bool, noExecute: bool)
    requires g.free != [] && k < 4 && LowerKept(s.mem, s1.mem, r)
    requires UpperGrown(s.mem, s1.mem, r, {g.free[0]}, k + 1, address)
    requires Walk(s1.mem, r, Prefix(address, k)) == Some(g.free[0]) && BitsKept(s.mem, s1.mem, r)
    requires LeadsWith(Entry(s.mem, r, Prefix(address, k)), Entry(s1.mem, r, Prefix(address, k)), false, g.free[0],
                       user, writable, noExecute)
    requires UpperMapped(s1, s', ok, r, Taken(g, 1), k, address, user, writable, noExecute)
    ensures UpperMapped(s, s', ok, r, g, k + 1, address, user, writable, noExecute)
  {
    hide Inv, LowerKept, FreshPage, OnlyGrown, Prefix, Index, Taken, FirstFree, WayFilled, BitsKept, LeadsWith;
    TakenMore(g, k);
    FilledMore(s.mem, s1.mem, s'.mem, r, g.free, k + 1, address, user, writable, noExecute);
    LowerKeptTwice(s.mem, s1.mem, s'.mem, r);
    OnlyGrownTwice(s.mem, s1.mem, s'.mem, r, {g.free[0]}, FirstFree(Taken(g, 1), k));
  }

  lemma UpperPresentLeads(m: Mem, r: Frame, address: nat, level: TableLevel)
    requires TablesBelow(m, r, address, level)
    ensures var next := Prefix(address, level - 1);
      Walk(m, r, next) == if Entry(m, r, next).present then Some(Entry(m, r, next).address) else None
  {
  }

  lemma {:induction false} UpperMapSpec(s: Phys, r: Frame, g: Ledger, address: nat, level: TableLevel, t: Frame,
                                        user: bool, writable: bool, executable: bool)
    requires Inv(s, r, g) && !LowerHalf(address) && TablesBelow(s.mem, r, address, level)
    requires Walk(s.mem, r, Prefix(address, level)) == Some(t)
    ensures var (s', ok) := MapFrom(s, t, address, level, user, writable, executable);
      UpperMapped(s, s', ok, r, g, Missing(s.mem, r, address, level), address, user, writable, executable)
    decreases level
  {
    hide Inv, Index, UpperMapped, Fill, BitsKept, LeadsWith;
    var next := Prefix(address, level - 1);
    assert next == Sub(Prefix(address, level), Index(address, level));
    assert Entry(s.mem, r, next) == At(s.mem, t, Index(address, level));
    UpperPresentLeads(s.mem, r, address, level);
    if Entry(s.mem, r, next).present {
      if level > 1 {
        UpperMapSpec(s, r, g, address, level - 1, Walk(s.mem, r, next).value, user, writable, executable);
      } else {
        UpperMappedNothing(s, r, g, 0, address, user, writable, executable);
      }
    } else if g.free == [] {
      EmptyAlloc(s, r, g);
      UpperMappedNothing(s, r, g, level, address, user, writable, executable);
    } else {
      var s1, e := UpperFillStep(s, r, g, address, level, user, writable, executable);
      if level > 1 {
        BelowFill(s1.mem, r, address, level, g.free[0]);
        UpperMapSpec(s1, r, Taken(g, 1), address, level - 1, g.free[0], user, writable, executable);
        var (s', ok) := MapFrom(s1, g.free[0], address, level - 1, user, writable, executable);
        UpperMappedMore(s, s1, s', ok, r, g, level - 1, address, user, writable, executable);
      } else {
        UpperMappedLast(s, s1, r, g, address, e, user, writable, executable);
      }
    }
  }

  lemma EmptyAlloc(s: Phys, r: Frame, g: Ledger)
    requires Inv(s, r, g) && g.free == []
    ensures Alloc(s) == (s, 0)
  {
    AllocPops(s, g.free);
  }

  /** Below a table just installed there is nothing. */
  lemma BelowFill(m: Mem, r: Frame, address: nat, level: TableLevel, f: Frame)
    requires level > 1 && Walk(m, r, Prefix(address, level - 1)) == Some(f) && IsClear(m, f)
    ensures TablesBelow(m, r, address, level - 1) && Missing(m, r, address, level - 1) == level - 1
  {
    var rest := Prefix(address, level - 2);
    assert rest == Sub(Prefix(address, level - 1), Index(address, level - 1)) && Entry(m, r, rest) == ZERO;
    if level == 4 {
      assert Prefix(address, 1).parent == Prefix(address, 2);
      assert Walk(m, r, Prefix(address, 2)).None?;
    }
  }

  lemma UpperMappedLast(s: Phys, s': Phys, r: Frame, g: Ledger, address: nat, e: Word, user: bool, writable: bool,
      executable: bool)
    requires g.free != [] && Inv(s', r, Taken(g, 1)) && LowerKept(s.mem, s'.mem, r)
    requires Entry(s'.mem, r, Leaf(address)) == e && Walk(s'.mem, r, Leaf(address)) == Some(g.free[0])
    requires e.user == user && e.writable == writable && e.noExecute == executable && IsClear(s'.mem, g.free[0])
    requires UpperGrown(s.mem, s'.mem, r, {g.free[0]}, 1, address) && BitsKept(s.mem, s'.mem, r)
    requires LeadsWith(Entry(s.mem, r, Leaf(address)), e, true, g.free[0], user, writable, executable)
    ensures UpperMapped(s, s', true, r, g, 1, address, user, writable, executable)
  {
    hide Inv, LowerKept, UpperGrown, WayFilled, BitsKept, LeadsWith;
    TakenMore(g, 0);
    NothingFilled(s'.mem, r, g.free[1..], 0, address, user, writable, executable);
    FilledMore(s.mem, s'.mem, s'.mem, r, g.free, 1, address, user, writable, executable);
  }

  /** `vm_map` on an upper-half address: it succeeds exactly when the page was unmapped and the freelist holds the
      missing tables and the page. What was mapped stays where and as it was, in both halves; of all cells only one
      entry and the frames taken are written; any other path that now exists leads to a frame taken. These frames
      are no longer managed. */
  lemma UpperMap(s: Phys, r: Frame, g: Ledger, address: nat, user: bool, writable: bool, executable: bool)
    requires Inv(s, r, g) && !LowerHalf(address) && TablesOnly(s.mem, r, address)
    ensures var (s', ok) := MapFrom(s, r, address, 4, user, writable, executable);
      var k := Missing(s.mem, r, address, 4);
      && UpperMapped(s, s', ok, r, g, k, address, user, writable, executable)
      && Pages(s'.mem, r) == Pages(s.mem, r)
  {
    hide Inv, MapFrom;
    assert Prefix(address, 4) == Root && Walk(s.mem, r, Root) == Some(r);
    UpperMapSpec(s, r, g, address, 4, r, user, writable, executable);
    LowerKeptPages(s.mem, MapFrom(s, r, address, 4, user, writable, executable).0.mem, r);
  }

  // ---- vm_protect ----

  /** Path q ends in cell i of frame t. Where tables are shared, several paths do. */
  ghost predicate EndsIn(m: Mem, r: Frame, q: Path, t: Frame, i: nat) {
    q.Sub? && Walk(m, r, q.parent) == Some(t) && q.index == i
  }

  /** No path leads elsewhere than before, and no entry has changed but the one in cell i of frame t, which is e. */
  ghost predicate CellRewritten(m: Mem, m': Mem, r: Frame, t: Frame, i: nat, e: Word) {
    && (forall q {:trigger Walk(m', r, q)} {:trigger Walk(m, r, q)} :: Valid(q) ==> Walk(m', r, q) == Walk(m, r, q))
    && (forall q {:trigger Entry(m', r, q)} {:trigger Entry(m, r, q)} :: Valid(q) && q.Sub? ==>
          Entry(m', r, q) == if EndsIn(m, r, q, t, i) then e else Entry(m, r, q))
    && CellsKept(m, m', t, i, {})
  }

  /** A cell that keeps its present bit, page-size bit and address leads where it led. */
  lemma {:induction false} RightsMoveNothing(m: Mem, r: Frame, t: Frame, i: nat, e: Word, q: Path)
    requires Valid(q) && t < |m| && i < ENTRIES
    requires var was := At(m, t, i); e.present == was.present && e.pageSize == was.pageSize && e.address == was.address
    ensures Walk(Put(m, t, i, e), r, q) == Walk(m, r, q)
    ensures q.Sub? ==> Entry(Put(m, t, i, e), r, q) == if EndsIn(m, r, q, t, i) then e else Entry(m, r, q)
  {
    AtPut(m, t, i, e);
    if q.Sub? {
      RightsMoveNothing(m, r, t, i, e, q.parent);
    }
  }

  lemma UpperPutInv(s: Phys, m': Mem, r: Frame, g: Ledger, p: Path, i: nat, e: Word)
    requires Inv(s, r, g) && Upper(Sub(p, i)) && Walk(s.mem, r, p).Some?
    requires m' == Put(s.mem, Walk(s.mem, r, p).value, i, e)
    requires Tree(m', r, g.free, 4)
    ensures Inv(s.(mem := m'), r, g) && LowerKept(s.mem, m', r) && At(m', Walk(s.mem, r, p).value, i) == e
  {
    var t := Walk(s.mem, r, p).value;
    UpperNotFree(s, r, g, p, i);
    UpperParent(p, i);
    AtPut(s.mem, t, i, e);
    assert UpperWritten(s.mem, m', r, g.free, p, i, e, t);
    LowerIsKept(s.mem, m', r, g.free, p, i, e, t);
    LowerKeepsBits(s.mem, m', r);
    forall x: Frame ensures Owned(m', r, x) <==> Owned(s.mem, r, x) {
      SameOwners(s.mem, m', r, x);
    }
    ChainFrame(s, m', g.free);
  }

  lemma UpperRewrite(s: Phys, r: Frame, g: Ledger, p: Path, i: nat, e: Word)
    requires Inv(s, r, g) && Upper(Sub(p, i)) && Walk(s.mem, r, p).Some?
    requires var was := Entry(s.mem, r, Sub(p, i));
      e.present == was.present && e.pageSize == was.pageSize && e.address == was.address
    ensures var m' := Put(s.mem, Walk(s.mem, r, p).value, i, e);
      && Inv(s.(mem := m'), r, g) && LowerKept(s.mem, m', r)
      && CellRewritten(s.mem, m', r, Walk(s.mem, r, p).value, i, e)
  {
    var t := Walk(s.mem, r, p).value;
    var m' := Put(s.mem, t, i, e);
    UpperNotFree(s, r, g, p, i);
    UpperParent(p, i);
    forall q | Valid(q)
      ensures Walk(m', r, q) == Walk(s.mem, r, q)
      ensures q.Sub? ==> Entry(m', r, q) == if EndsIn(s.mem, r, q, t, i) then e else Entry(s.mem, r, q)
    {
      RightsMoveNothing(s.mem, r, t, i, e, q);
    }
    AtPut(s.mem, t, i, e);
    SameWalksKeepTree(s.mem, m', r, g);
    UpperPutInv(s, m', r, g, p, i, e);
  }

  /** What `vm_protect` leaves behind on an upper-half address. */
  ghost predicate UpperProtected(s: Phys, s': Phys, ok: bool, r: Frame, g: Ledger, address: nat,
                                 user: bool, writable: bool, noExecute: bool)
  {
    && ok == Walk(s.mem, r, Leaf(address)).Some? && (!ok ==> s' == s)
    && Inv(s', r, g) && LowerKept(s.mem, s'.mem, r)
    && (ok ==>
          var t, e := Walk(s.mem, r, Prefix(address, 1)), Entry(s.mem, r, Leaf(address));
          t.Some? && CellRewritten(s.mem, s'.mem, r, t.value, Index(address, 1),
            e.(user := user, writable := writable, noExecute := noExecute)))
  }

  /** `vm_protect` on an upper-half address rewrites the rights in the page's entry. No page moves or changes, and no
      other entry does. It fails exactly when the page is not mapped. */
  lemma {:induction false} UpperProtect(s: Phys, r: Frame, g: Ledger, address: nat, level: TableLevel, t: Frame,
                                        user: bool, writable: bool, executable: bool)
    requires Inv(s, r, g) && !LowerHalf(address) && TablesBelow(s.mem, r, address, level)
    requires Walk(s.mem, r, Prefix(address, level)) == Some(t)
    ensures var (s', ok) := ProtectFrom(s, t, address, level, user, writable, executable);
      UpperProtected(s, s', ok, r, g, address, user, writable, executable)
    decreases level
  {
    hide Inv, Index, LowerKept, CellRewritten;
    var p, next := Prefix(address, level), Prefix(address, level - 1);
    assert next == Sub(p, Index(address, level)) && Upper(next);
    UpperPresentLeads(s.mem, r, address, level);
    if Walk(s.mem, r, next).None? {
      AbsentBelow(s.mem, r, address, level - 1);
      LowerKeptItself(s.mem, r);
    } else if level > 1 {
      UpperProtect(s, r, g, address, level - 1, Walk(s.mem, r, next).value, user, writable, executable);
    } else {
      UpperRewrite(s, r, g, p, Index(address, 1),
        Entry(s.mem, r, next).(user := user, writable := writable, noExecute := executable));
    }
  }

  lemma LowerKeptItself(m: Mem, r: Frame)
    ensures LowerKept(m, m, r)
  {
  }

  // ---- vm_unmap ----

  /** The way of path q uses cell i of frame t. */
  ghost predicate Passes(m: Mem, r: Frame, q: Path, t: Frame, i: nat) {
    q.Sub? && (EndsIn(m, r, q, t, i) || Passes(m, r, q.parent, t, i))
  }

  /** The paths that used cell i of frame t lead nowhere now; every other path leads where it led, with the same
      entry. */
  ghost predicate PathsRemoved(m: Mem, m': Mem, r: Frame, t: Frame, i: nat) {
    && (forall q {:trigger Walk(m', r, q)} {:trigger Walk(m, r, q)} :: Valid(q) ==>
          Walk(m', r, q) == if Passes(m, r, q, t, i) then None else Walk(m, r, q))
    && (forall q {:trigger Entry(m', r, q)} {:trigger Entry(m, r, q)} ::
          Valid(q) && q.Sub? && !Passes(m, r, q, t, i) ==> Entry(m', r, q) == Entry(m, r, q))
  }

  lemma {:induction false} MarkingRemoves(m: Mem, r: Frame, t: Frame, i: nat, e: Word, q: Path)
    requires Valid(q) && t < |m| && i < ENTRIES && !e.present
    ensures Walk(Put(m, t, i, e), r, q) == if Passes(m, r, q, t, i) then None else Walk(m, r, q)
    ensures q.Sub? && !Passes(m, r, q, t, i) ==> Entry(Put(m, t, i, e), r, q) == Entry(m, r, q)
  {
    AtPut(m, t, i, e);
    if q.Sub? {
      MarkingRemoves(m, r, t, i, e, q.parent);
    }
  }

  lemma UpperMarkAbsent(s: Phys, r: Frame, g: Ledger, p: Path, i: nat, e: Word)
    requires Inv(s, r, g) && Upper(Sub(p, i)) && Walk(s.mem, r, p).Some? && !e.present
    ensures var m' := Put(s.mem, Walk(s.mem, r, p).value, i, e);
      && Inv(s.(mem := m'), r, g) && LowerKept(s.mem, m', r)
      && PathsRemoved(s.mem, m', r, Walk(s.mem, r, p).value, i) && CellsKept(s.mem, m', Walk(s.mem, r, p).value, i, {})
      && At(m', Walk(s.mem, r, p).value, i) == e
  {
    var t := Walk(s.mem, r, p).value;
    var m' := Put(s.mem, t, i, e);
    UpperNotFree(s, r, g, p, i);
    UpperParent(p, i);
    AtPut(s.mem, t, i, e);
    assert UpperWritten(s.mem, m', r, g.free, p, i, e, t);
    LowerIsKept(s.mem, m', r, g.free, p, i, e, t);
    forall q | Valid(q)
      ensures Walk(m', r, q) == if Passes(s.mem, r, q, t, i) then None else Walk(s.mem, r, q)
      ensures q.Sub? && !Passes(s.mem, r, q, t, i) ==> Entry(m', r, q) == Entry(s.mem, r, q)
    {
      MarkingRemoves(s.mem, r, t, i, e, q);
    }
    assert Tree(m', r, g.free, 4);
    UpperPutInv(s, m', r, g, p, i, e);
  }

  /** No table and no lower-half page is at frame f. */
  ghost predicate NotInUse(m: Mem, r: Frame, f: Frame) {
    forall q {:trigger Walk(m, r, q)} :: Node(q, 4) ==> Walk(m, r, q) != Some(f)
  }

  /** Writing frame f leaves a path to f: the first one that reaches it reads no cell of it. */
  lemma {:induction false} FirstReach(m: Mem, m': Mem, r: Frame, f: Frame, q: Path) returns (hit: bool, q0: Path)
    requires Valid(q)
    requires forall x: nat, j: nat {:trigger At(m', x, j)} :: x != f && j < ENTRIES ==> At(m', x, j) == At(m, x, j)
    ensures !hit ==> Walk(m', r, q) == Walk(m, r, q)
    ensures hit ==> Node(q0, 4) && Walk(m', r, q0) == Some(f)
  {
    hit, q0 := false, q;
    if q.Sub? {
      hit, q0 := FirstReach(m, m', r, f, q.parent);
      if !hit && Walk(m, r, q.parent) == Some(f) {
        hit, q0 := true, q.parent;
      }
    }
  }

  /** The frame is NULL, or a frame of memory that is neither free nor in use. */
  ghost predicate CanFree(m: Mem, r: Frame, g: Ledger, f: Frame) {
    f == 0 || (f < |m| && f !in g.free && NotInUse(m, r, f))
  }

  /** The ledger after frame f was freed that the ledger may not have managed. */
  ghost function Released(g: Ledger, f: Frame): Ledger {
    if f == 0 then g else Ledger([f] + g.free, g.leaked - {f}, g.pool + {f})
  }

  /** All paths and entries read the same, and no cell outside frame f has changed. */
  ghost predicate OnlyFrame(m: Mem, m': Mem, r: Frame, f: Frame) {
    && (forall q {:trigger Walk(m', r, q)} {:trigger Walk(m, r, q)} :: Valid(q) ==> Walk(m', r, q) == Walk(m, r, q))
    && (forall q {:trigger Entry(m', r, q)} {:trigger Entry(m, r, q)} :: Valid(q) && q.Sub? ==>
          Entry(m', r, q) == Entry(m, r, q))
    && (forall x: nat, j: nat {:trigger At(m', x, j)} :: x != f && j < ENTRIES ==> At(m', x, j) == At(m, x, j))
  }

  lemma OnlyFrameCell(m: Mem, m': Mem, r: Frame, f: Frame, t: Frame, i: nat)
    requires OnlyFrame(m, m', r, f) && t != f && i < ENTRIES
    ensures At(m', t, i) == At(m, t, i)
  {
  }

  /** Freeing a frame keeps the invariant exactly when it is NULL, or a frame of memory that is not free and at which
      there is no table and no lower-half page. */
  lemma FreeKeepsInvIff(s: Phys, r: Frame, g: Ledger, f: Frame)
    requires Inv(s, r, g)
    ensures (exists g' :: Inv(Free(s, f), r, g')) <==> CanFree(s.mem, r, g, f)
    ensures CanFree(s.mem, r, g, f) ==>
      && Inv(Free(s, f), r, Released(g, f)) && LowerKept(s.mem, Free(s, f).mem, r)
      && OnlyFrame(s.mem, Free(s, f).mem, r, f)
  {
    if f == 0 {
      LowerKeptItself(s.mem, r);
      assert Inv(Free(s, f), r, g);
    } else if CanFree(s.mem, r, g, f) {
      FreeUnused(s, r, g, f);
    } else {
      forall g' ensures !Inv(Free(s, f), r, g') {
        if Inv(Free(s, f), r, g') {
          FreeUsed(s, r, g, f, g');
        }
      }
    }
  }

  lemma FreeUnused(s: Phys, r: Frame, g: Ledger, f: Frame)
    requires Inv(s, r, g) && 0 < f < |s.mem| && f !in g.free && NotInUse(s.mem, r, f)
    ensures Inv(Free(s, f), r, Released(g, f)) && LowerKept(s.mem, Free(s, f).mem, r)
    ensures OnlyFrame(s.mem, Free(s, f).mem, r, f)
  {
    var g1 := g.(leaked := g.leaked - {f}, pool := g.pool + {f});
    assert Tree(s.mem, r, [f] + g.free, 4);
    assert !Owned(s.mem, r, f) by {
      if p :| Lower(p) && p.Sub? && Walk(s.mem, r, p) == Some(f) {
        assert Node(p, 4);
      }
    }
    assert Partition(s.mem, r, g1.(free := [f] + g.free));
    PushStep(s, r, g1, f);
    forall q | Lower(q) && Depth(q) == 4 && Walk(s.mem, r, q).Some?
      ensures SamePage(s.mem, Free(s, f).mem, Walk(s.mem, r, q).value)
    {
      assert Node(q, 4);
    }
  }

  lemma FreeUsed(s: Phys, r: Frame, g: Ledger, f: Frame, g': Ledger)
    requires Inv(s, r, g) && f != 0 && Inv(Free(s, f), r, g')
    ensures f < |s.mem| && f !in g.free && NotInUse(s.mem, r, f)
  {
    var s' := Free(s, f);
    assert f < |s.mem| && g'.free[0] == f;
    FreeIsSafeIffNotFree(s, g.free, f);
    AtPut(s.mem, f, 0, Link(s.top));
    forall q | Node(q, 4) ensures Walk(s.mem, r, q) != Some(f) {
      var hit, q0 := FirstReach(s.mem, s'.mem, r, f, q);
      assert Walk(s'.mem, r, q0) != Some(f) || !hit;
      assert f in g'.free && Walk(s'.mem, r, q) != Some(f);
    }
  }

  /** The memory after the page's entry has been marked absent. */
  ghost function EntryRemoved(m: Mem, r: Frame, address: nat): Mem
    requires Walk(m, r, Prefix(address, 1)).Some?
  {
    Put(m, Walk(m, r, Prefix(address, 1)).value, Index(address, 1), Entry(m, r, Leaf(address)).(present := false))
  }

  lemma {:induction false} UpperUnmapWalk(s: Phys, r: Frame, g: Ledger, address: nat, level: TableLevel, t: Frame)
    requires Inv(s, r, g) && !LowerHalf(address) && TablesBelow(s.mem, r, address, level)
    requires Walk(s.mem, r, Prefix(address, level)) == Some(t)
    ensures Walk(s.mem, r, Leaf(address)).Some? ==> Walk(s.mem, r, Prefix(address, 1)).Some?
    ensures UnmapFrom(s, t, address, level) ==
      if Walk(s.mem, r, Leaf(address)).None? then (s, false)
      else (Free(s.(mem := EntryRemoved(s.mem, r, address)), Walk(s.mem, r, Leaf(address)).value), true)
    decreases level
  {
    hide Inv, Index, Free;
    var p, next := Prefix(address, level), Prefix(address, level - 1);
    assert next == Sub(p, Index(address, level)) && Upper(next);
    assert Entry(s.mem, r, next) == At(s.mem, t, Index(address, level));
    UpperPresentLeads(s.mem, r, address, level);
    if Walk(s.mem, r, next).None? {
      AbsentBelow(s.mem, r, address, level - 1);
    } else if level > 1 {
      UpperUnmapWalk(s, r, g, address, level - 1, Walk(s.mem, r, next).value);
    } else {
      UpperNotFree(s, r, g, p, Index(address, 1));
      AtPut(s.mem, t, Index(address, 1), Entry(s.mem, r, next).(present := false));
    }
  }

  /** What `vm_unmap` of a mapped upper-half page leaves behind when its frame f may be freed. */
  ghost predicate UpperUnmapped(s: Phys, s': Phys, r: Frame, g: Ledger, address: nat) {
    var t, f := Walk(s.mem, r, Prefix(address, 1)), Walk(s.mem, r, Leaf(address));
    && t.Some? && f.Some? && Inv(s', r, Released(g, f.value)) && LowerKept(s.mem, s'.mem, r)
    && PathsRemoved(s.mem, s'.mem, r, t.value, Index(address, 1))
    && CellsKept(s.mem, s'.mem, t.value, Index(address, 1), {f.value})
    && At(s'.mem, t.value, Index(address, 1)) == Entry(s.mem, r, Leaf(address)).(present := false)
  }

  /** A table whose entry was marked absent is still in use. */
  lemma TableStaysInUse(m: Mem, m1: Mem, r: Frame, g: Ledger, p: Path, t: Frame, i: nat, f: Frame)
    requires Valid(p) && Node(p, 4) && Walk(m, r, p) == Some(t) && t > 0 && CellsKept(m, m1, t, i, {})
    requires CanFree(m1, r, g, f)
    ensures f != t
  {
    var hit, q0 := FirstReach(m, m1, r, t, p);
    var q := if hit then q0 else p;
    assert Walk(m1, r, q) == Some(t);
  }

  lemma RemovedThenFreed(m: Mem, m1: Mem, m2: Mem, r: Frame, t: Frame, i: nat, f: Frame)
    requires PathsRemoved(m, m1, r, t, i) && CellsKept(m, m1, t, i, {}) && OnlyFrame(m1, m2, r, f)
    ensures PathsRemoved(m, m2, r, t, i) && CellsKept(m, m2, t, i, {f})
  {
    forall q | Valid(q)
      ensures Walk(m2, r, q) == if Passes(m, r, q, t, i) then None else Walk(m, r, q)
      ensures q.Sub? && !Passes(m, r, q, t, i) ==> Entry(m2, r, q) == Entry(m, r, q)
    {
      assert Walk(m1, r, q) == if Passes(m, r, q, t, i) then None else Walk(m, r, q);
      assert q.Sub? ==> Entry(m2, r, q) == Entry(m1, r, q);
    }
  }

  /** `vm_unmap` on an upper-half address gives the page's frame to the freelist, whatever it is. That keeps the
      invariant exactly when, once the entry is absent, the frame is NULL or a frame of memory that is not free and
      at which there is no table and no lower-half page; then every path through that entry is gone, every other one
      is as before, and only that entry and that frame are written. */
  lemma UpperUnmap(s: Phys, r: Frame, g: Ledger, address: nat)
    requires Inv(s, r, g) && !LowerHalf(address) && TablesOnly(s.mem, r, address)
    ensures var (s', ok) := UnmapFrom(s, r, address, 4);
      && ok == Walk(s.mem, r, Leaf(address)).Some? && (!ok ==> s' == s)
      && (ok ==>
            && Walk(s.mem, r, Prefix(address, 1)).Some?
            && var m1, f := EntryRemoved(s.mem, r, address), Walk(s.mem, r, Leaf(address)).value;
               && ((exists g' :: Inv(s', r, g')) <==> CanFree(m1, r, g, f))
               && (CanFree(m1, r, g, f) ==> UpperUnmapped(s, s', r, g, address)))
  {
    hide Inv, UnmapFrom, LowerKept, CanFree, Index, Free, PathsRemoved, CellsKept, OnlyFrame;
    assert Prefix(address, 4) == Root && Walk(s.mem, r, Root) == Some(r);
    UpperUnmapWalk(s, r, g, address, 4, r);
    if Walk(s.mem, r, Leaf(address)).Some? {
      var t, i := Walk(s.mem, r, Prefix(address, 1)).value, Index(address, 1);
      var m1, f := EntryRemoved(s.mem, r, address), Walk(s.mem, r, Leaf(address)).value;
      assert Leaf(address) == Sub(Prefix(address, 1), i) && Upper(Leaf(address));
      UpperMarkAbsent(s, r, g, Prefix(address, 1), i, Entry(s.mem, r, Leaf(address)).(present := false));
      FreeKeepsInvIff(s.(mem := m1), r, g, f);
      if CanFree(m1, r, g, f) {
        LowerKeptTwice(s.mem, m1, Free(s.(mem := m1), f).mem, r);
        RemovedThenFreed(s.mem, m1, Free(s.(mem := m1), f).mem, r, t, i, f);
        UpperNotFree(s, r, g, Prefix(address, 1), i);
        UpperParent(Prefix(address, 1), i);
        TableStaysInUse(s.mem, m1, r, g, Prefix(address, 1), t, i, f);
        OnlyFrameCell(m1, Free(s.(mem := m1), f).mem, r, f, t, i);
      }
    }
  }

  // ---- large pages ----

  /** Where the way to an address is made of tables down to a level, `vm_map` goes on below that level with whatever
      frame the present entry there names. */
  lemma {:induction false} EntryIsFollowed(s: Phys, r: Frame, address: nat, level: TableLevel, top: TableLevel,
                                           t: Frame, user: bool, writable: bool, executable: bool)
    requires level <= top && level > 1 && Walk(s.mem, r, Prefix(address, top)) == Some(t)
    requires Walk(s.mem, r, Prefix(address, level)).Some? && Entry(s.mem, r, Prefix(address, level - 1)).present
    ensures MapFrom(s, t, address, top, user, writable, executable) ==
      MapFrom(s, Entry(s.mem, r, Prefix(address, level - 1)).address, address, level - 1, user, writable, executable)
    decreases top
  {
    hide Index, Fill;
    var next := Prefix(address, top - 1);
    assert next == Sub(Prefix(address, top), Index(address, top));
    assert Entry(s.mem, r, next) == At(s.mem, t, Index(address, top));
    if top > level {
      WayIsThere(s.mem, r, address, level, top - 1);
      EntryIsFollowed(s, r, address, level, top - 1, Walk(s.mem, r, next).value, user, writable, executable);
    }
  }

  lemma {:induction false} WayIsThere(m: Mem, r: Frame, address: nat, level: Level, above: Level)
    requires level <= above && Walk(m, r, Prefix(address, level)).Some?
    ensures Walk(m, r, Prefix(address, above)).Some?
    decreases above - level
  {
    if level < above {
      assert Prefix(address, level).parent == Prefix(address, level + 1);
      WayIsThere(m, r, address, level + 1, above);
    }
  }

  /** What a 2 MiB page is to `vm_map`: a table. It writes an entry into the page exactly when the cell there does not
      look present and a frame is free; so the condition that only tables are met cannot be left out. */
  lemma LargePageIsTakenForATable(s: Phys, r: Frame, g: Ledger, address: nat, user: bool, writable: bool,
      executable: bool)
    requires Inv(s, r, g) && Walk(s.mem, r, Prefix(address, 2)).Some?
    requires var large := Entry(s.mem, r, Prefix(address, 1));
      large.present && large.pageSize && large.address < |s.mem|
    ensures var f, i := Entry(s.mem, r, Prefix(address, 1)).address, Index(address, 1);
      var (s', ok) := MapFrom(s, r, address, 4, user, writable, executable);
      && (ok <==> !At(s.mem, f, i).present && g.free != [])
      && (!SamePage(s.mem, s'.mem, f) <==> ok) && (!ok ==> s' == s)
      && (ok ==> At(s'.mem, f, i).present && At(s'.mem, f, i).address == g.free[0])
  {
    hide Index, Inv, MapFrom;
    assert Prefix(address, 4) == Root && Chain(s, g.free) by { ChainOf(s, r, g); }
    EntryIsFollowed(s, r, address, 2, 4, r, user, writable, executable);
    LastRound(s, Entry(s.mem, r, Prefix(address, 1)).address, g.free, address, user, writable, executable);
  }

  /** The last round of `vm_map`, on any frame taken for a level-1 table. */
  lemma LastRound(s: Phys, f: Frame, free: seq<Frame>, address: nat, user: bool, writable: bool, executable: bool)
    requires Chain(s, free) && f < |s.mem|
    ensures var i := Index(address, 1);
      var (s', ok) := MapFrom(s, f, address, 1, user, writable, executable);
      && (ok <==> !At(s.mem, f, i).present && free != [])
      && (!SamePage(s.mem, s'.mem, f) <==> ok) && (!ok ==> s' == s)
      && (ok ==> At(s'.mem, f, i).present && At(s'.mem, f, i).address == free[0])
  {
    hide Index;
    var i := Index(address, 1);
    AllocPops(s, free);
    if free != [] {
      var m := Zeroed(s.mem, free[0]);
      AtZeroed(s.mem, free[0]);
      AtPut(m, f, i, NewEntry(At(m, f, i), free[0], 1, user, writable, executable));
    }
  }

  /** A 1 GiB page, in a frame that is not free, is likewise taken for a table. If the cell there does not look
      present, an entry is written into the page exactly when a frame is free; if it does, the frame it names is
      taken for a table in turn. */
  lemma HugePageIsTakenForATable(s: Phys, r: Frame, g: Ledger, address: nat, user: bool, writable: bool,
      executable: bool)
    requires Inv(s, r, g) && Walk(s.mem, r, Prefix(address, 3)).Some?
    requires var huge := Entry(s.mem, r, Prefix(address, 2));
      huge.present && huge.pageSize && huge.address < |s.mem| && huge.address !in g.free
    ensures var f := Entry(s.mem, r, Prefix(address, 2)).address;
      var cell, result := At(s.mem, f, Index(address, 2)), MapFrom(s, r, address, 4, user, writable, executable);
      && (cell.present ==> result == MapFrom(s, cell.address, address, 1, user, writable, executable))
      && (!cell.present ==>
            && (!SamePage(s.mem, result.0.mem, f) <==> g.free != [])
            && (result.1 <==> |g.free| >= 2))
  {
    hide Index, Inv;
    var f, i := Entry(s.mem, r, Prefix(address, 2)).address, Index(address, 2);
    assert Prefix(address, 4) == Root && Chain(s, g.free) by { ChainOf(s, r, g); }
    EntryIsFollowed(s, r, address, 3, 4, r, user, writable, executable);
    if !At(s.mem, f, i).present {
      AllocPops(s, g.free);
      if g.free != [] {
        var s1 := Alloc(s).0;
        var s2 := Fill(s1, f, i, g.free[0], 2, user, writable, executable);
        FilledTable(s, g.free, f, i, s2, user, writable, executable);
        FillsInTheNewTable(s2, g.free[0], g.free[1..], f, address, user, writable, executable);
      }
    }
  }

  lemma ChainOf(s: Phys, r: Frame, g: Ledger)
    requires Inv(s, r, g)
    ensures Chain(s, g.free)
  {
  }

  lemma FilledTable(s: Phys, free: seq<Frame>, f: Frame, i: nat, s2: Phys, user: bool, writable: bool, executable: bool)
    requires Chain(s, free) && free != [] && f < |s.mem| && f !in free && i < ENTRIES && !At(s.mem, f, i).present
    requires s2 == Fill(Alloc(s).0, f, i, free[0], 2, user, writable, executable)
    ensures Chain(s2, free[1..]) && IsClear(s2.mem, free[0]) && free[0] !in free[1..] && |s2.mem| == |s.mem|
    ensures At(s2.mem, f, i).present && At(s2.mem, f, i).address == free[0] && !SamePage(s.mem, s2.mem, f)
  {
    AllocPops(s, free);
    var m := Zeroed(s.mem, free[0]);
    AtZeroed(s.mem, free[0]);
    AtPut(m, f, i, NewEntry(At(m, f, i), free[0], 2, user, writable, executable));
    assert forall x: Frame :: x in free[1..] ==> x in free;
    ChainFrame(Alloc(s).0, s2.mem, free[1..]);
  }

  lemma FillsInTheNewTable(s: Phys, t: Frame, free: seq<Frame>, f: Frame, address: nat, user: bool, writable: bool,
      executable: bool)
    requires Chain(s, free) && IsClear(s.mem, t) && f != t && f !in free && t < |s.mem|
    ensures var (s', ok) := MapFrom(s, t, address, 1, user, writable, executable);
      (ok <==> free != []) && SamePage(s.mem, s'.mem, f)
  {
    hide Index;
    AllocPops(s, free);
    if free != [] {
      var m := Zeroed(s.mem, free[0]);
      AtZeroed(s.mem, free[0]);
      AtPut(m, t, Index(address, 1), NewEntry(At(m, t, Index(address, 1)), free[0], 1, user, writable, executable));
    }
  }

  // ---- both halves ----

  /** The way to an address from a level downwards meets no large page. */
  ghost predicate Passable(m: Mem, r: Frame, address: nat, level: Level) {
    LowerHalf(address) || TablesBelow(m, r, address, level)
  }

  lemma PassableBelow(m: Mem, r: Frame, address: nat, level: Level)
    requires Passable(m, r, address, 4)
    ensures Passable(m, r, address, level)
  {
  }

  lemma WholeWay(m: Mem, r: Frame, address: nat)
    ensures TablesBelow(m, r, address, 4) <==> TablesOnly(m, r, address)
  {
  }

  /** One level down: the table can be read, and its entry leads to the next table or page if it is present. */
  lemma Descend(s: Phys, r: Frame, g: Ledger, address: nat, level: TableLevel, t: Frame)
    requires Inv(s, r, g) && Passable(s.mem, r, address, level) && Walk(s.mem, r, Prefix(address, level)) == Some(t)
    ensures Chain(s, g.free) && t < |s.mem| && t !in g.free
    ensures var e := At(s.mem, t, Index(address, level));
      Walk(s.mem, r, Prefix(address, level - 1)) == if e.present then Some(e.address) else None
  {
    var p, next := Prefix(address, level), Prefix(address, level - 1);
    assert next == Sub(p, Index(address, level));
    if LowerHalf(address) {
      PresentLeads(s.mem, r, next);
      assert Node(p, 4);
    } else {
      UpperPresentLeads(s.mem, r, address, level);
      UpperNotFree(s, r, g, p, Index(address, level));
    }
  }

  /** The round of `vm_map` that allocates. */
  lemma AnyFillStep(s: Phys, r: Frame, g: Ledger, address: nat, level: TableLevel, t: Frame,
                    user: bool, writable: bool, executable: bool)
    returns (s': Phys, g': Ledger)
    requires Inv(s, r, g) && Passable(s.mem, r, address, level) && Walk(s.mem, r, Prefix(address, level)) == Some(t)
    requires !At(s.mem, t, Index(address, level)).present && g.free != []
    ensures Alloc(s).1 == g.free[0] > 0 && g'.free == g.free[1..]
    ensures s' == Fill(Alloc(s).0, t, Index(address, level), Alloc(s).1, level, user, writable, executable)
    ensures At(s'.mem, t, Index(address, level)).address == g.free[0]
    ensures Inv(s', r, g') && Walk(s'.mem, r, Prefix(address, level - 1)) == Some(g.free[0])
    ensures level > 1 ==> Passable(s'.mem, r, address, level - 1)
  {
    hide Inv, Fill;
    Descend(s, r, g, address, level, t);
    assert Entry(s.mem, r, Prefix(address, level - 1)) == At(s.mem, t, Index(address, level));
    if LowerHalf(address) {
      var e;
      s', e := FillStep(s, r, g, address, level, user, writable, executable);
      g' := g.(free := g.free[1..]);
      AllocPops(s, g.free);
    } else {
      var e;
      s', e := UpperFillStep(s, r, g, address, level, user, writable, executable);
      g' := Taken(g, 1);
      if level > 1 {
        BelowFill(s'.mem, r, address, level, g.free[0]);
      }
    }
  }

  /** The page can be unmapped without harm. */
  ghost predicate CanUnmap(m: Mem, r: Frame, g: Ledger, address: nat) {
    || Walk(m, r, Leaf(address)).None?
    || (Walk(m, r, Prefix(address, 1)).Some? &&
        CanFree(EntryRemoved(m, r, address), r, g, Walk(m, r, Leaf(address)).value))
  }

  lemma MappedIsPassable(m: Mem, r: Frame, address: nat)
    requires Walk(m, r, Leaf(address)).Some?
    ensures Passable(m, r, address, 4)
  {
    var p2, p1, p0 := Prefix(address, 2), Prefix(address, 1), Prefix(address, 0);
    assert p0.parent == p1 && p1.parent == p2;
    assert Walk(m, r, p1).Some? && Walk(m, r, p2).Some?;
  }

  /** The page has these rights. */
  predicate HasRights(p: PageInfo, user: bool, writable: bool, noExecute: bool) {
    p.user == user && p.writable == writable && p.noExecute == noExecute
  }

  /** Every lower-half page is as it was, or is new and has these rights. */
  ghost predicate NewPagesHave(m: Mem, m': Mem, r: Frame, user: bool, writable: bool, noExecute: bool) {
    forall p :: p in Pages(m', r) ==>
      (p in Pages(m, r) && Pages(m', r)[p] == Pages(m, r)[p]) || HasRights(Pages(m', r)[p], user, writable, noExecute)
  }

  /** The address lies in a page, and its entry has these rights. */
  ghost predicate LeafHas(m: Mem, r: Frame, address: nat, user: bool, writable: bool, noExecute: bool) {
    Walk(m, r, Leaf(address)).Some? && HasRights(InfoOf(Entry(m, r, Leaf(address))), user, writable, noExecute)
  }

  /** What a successful `vm_map` leaves at a lower-half address. */
  lemma MappedRights(s: Phys, s': Phys, ok: bool, r: Frame, g: Ledger, address: nat, user: bool, writable: bool,
      executable: bool)
    requires MapRefined(s, s', ok, r, g, Missing(s.mem, r, address, 4), Leaf(address), user, writable, executable)
    ensures NewPagesHave(s.mem, s'.mem, r, user, writable, executable)
    ensures ok ==> LeafHas(s'.mem, r, address, user, writable, executable)
  {
    hide Inv, Walk, Entry, Missing, KeepsData, IsClear;
    if ok {
      assert Leaf(address) in Pages(s'.mem, r);
    }
  }

  /** `vm_map` in either half: when it succeeds, what it grants, and that a mapped page cannot be mapped again, to no
      effect. */
  lemma AnyMap(s: Phys, r: Frame, g: Ledger, address: nat, user: bool, writable: bool, executable: bool)
    returns (s': Phys, ok: bool, g': Ledger)
    requires Inv(s, r, g) && Passable(s.mem, r, address, 4)
    ensures (s', ok) == MapFrom(s, r, address, 4, user, writable, executable)
    ensures Inv(s', r, g') && (ok <==> 0 < Missing(s.mem, r, address, 4) <= |g.free|)
    ensures ok ==> Passable(s'.mem, r, address, 4) && Missing(s'.mem, r, address, 4) == 0
    ensures Missing(s.mem, r, address, 4) == 0 ==> s' == s
    ensures NewPagesHave(s.mem, s'.mem, r, user, writable, executable)
    ensures ok ==> LeafHas(s'.mem, r, address, user, writable, executable)
  {
    hide Inv, MapFrom, Index, LowerKept, UpperGrown, Pages, MapRefined, WayFilled, OffWayKept;
    assert Prefix(address, 4) == Root && Walk(s.mem, r, Root) == Some(r);
    var k := Missing(s.mem, r, address, 4);
    var result := MapFrom(s, r, address, 4, user, writable, executable);
    s', ok := result.0, result.1;
    if LowerHalf(address) {
      MapRefines(s, r, g, address, user, writable, executable);
      MappedRights(s, s', ok, r, g, address, user, writable, executable);
      g' := g.(free := g.free[Min(k, |g.free|)..]);
    } else {
      UpperMap(s, r, g, address, user, writable, executable);
      g' := Taken(g, k);
    }
    if ok {
      MappedIsPassable(s'.mem, r, address);
      MissingNothing(s'.mem, r, address, 4);
    }
  }
}
