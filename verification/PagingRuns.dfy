/** Whole runs of the page-table operations, from the boot loader's tables on. */
module PagingRuns {
  import opened Words
  import opened Memory
  import opened PageTree
  import opened TreeEdits
  import opened Mapping
  import opened UnmapLowerHalf
  import opened AddressSpace
  import opened UpperHalf

  /** One call, or one store by the processor through a mapped lower-half page. */
  datatype Op =
    | Map(address: nat, user: bool, writable: bool, executable: bool)
    | Unmap(address: nat)
    | Protect(address: nat, user: bool, writable: bool, executable: bool)
    | Clear
    | Store(address: nat, cell: nat, value: Word)

  /** Operations on lower-half addresses are always safe. Those on upper-half addresses are safe as long as no large
      page is on the way, and, for `vm_unmap`, as long as the frame it frees is neither free nor in use; a large page
      or such a frame would do harm (`LargePageIsTakenForATable`, `FreeKeepsInvIff`). */
  predicate LowerOp(op: Op) { op.Clear? || LowerHalf(op.address) }

  ghost predicate Legal(s: Phys, r: Frame, g: Ledger, op: Op) {
    LowerOp(op) ||
    (TablesOnly(s.mem, r, op.address) && !op.Store? && (op.Unmap? ==> CanUnmap(s.mem, r, g, op.address)))
  }

  function Step(s: Phys, r: Frame, op: Op): Phys {
    match op
    case Map(a, u, w, x) => MapFrom(s, r, a, 4, u, w, x).0
    case Unmap(a) => UnmapFrom(s, r, a, 4).0
    case Protect(a, u, w, x) => ProtectFrom(s, r, a, 4, u, w, x).0
    case Clear => UnmapLower(s, r)
    case Store(a, j, w) =>
      var f := Walk(s.mem, r, Leaf(a));
      if f.Some? && j < ENTRIES then s.(mem := Put(s.mem, f.value, j, w)) else s
  }

  function Run(s: Phys, r: Frame, ops: seq<Op>): Phys {
    if ops == [] then s else Step(Run(s, r, ops[..|ops| - 1]), r, ops[|ops| - 1])
  }

  ghost function NextLedger(s: Phys, r: Frame, g: Ledger, op: Op): Ledger {
    match op
    case Map(a, _, _, _) =>
      var k := Missing(s.mem, r, a, 4);
      if LowerHalf(a) then g.(free := g.free[Min(k, |g.free|)..]) else Taken(g, k)
    case Unmap(a) =>
      var f := Walk(s.mem, r, Leaf(a));
      if f.None? then g
      else if LowerHalf(a) then g.(free := [f.value] + g.free)
      else Released(g, f.value)
    case Protect(_, _, _, _) => g
    case Clear => Unmapped(s.mem, r, g)
    case Store(_, _, _) => g
  }

  ghost function RunLedger(s: Phys, r: Frame, g: Ledger, ops: seq<Op>): Ledger {
    if ops == [] then g
    else
      var before := ops[..|ops| - 1];
      NextLedger(Run(s, r, before), r, RunLedger(s, r, g, before), ops[|ops| - 1])
  }

  ghost predicate SameUpperHalf(m: Mem, m': Mem, r: Frame) {
    forall q {:trigger Entry(m', r, q)} {:trigger Entry(m, r, q)} :: Upper(q) ==> Entry(m', r, q) == Entry(m, r, q)
  }

  /** No lower-half entry has gained a bit other than those for its frame and rights. */
  ghost predicate NoNewBits(m: Mem, m': Mem, r: Frame) {
    forall q {:trigger Entry(m', r, q)} {:trigger Entry(m, r, q)} :: Lower(q) && q.Sub? ==>
      SameOtherBits(Entry(m, r, q), Entry(m', r, q)) || NoOtherBits(Entry(m', r, q))
  }

  lemma NoNewBitsTwice(m: Mem, m1: Mem, m2: Mem, r: Frame)
    requires NoNewBits(m, m1, r) && NoNewBits(m1, m2, r)
    ensures NoNewBits(m, m2, r)
  {
    hide Entry;
    forall q | Lower(q) && q.Sub?
      ensures SameOtherBits(Entry(m, r, q), Entry(m2, r, q)) || NoOtherBits(Entry(m2, r, q))
    {
      assert SameOtherBits(Entry(m, r, q), Entry(m1, r, q)) || NoOtherBits(Entry(m1, r, q));
    }
  }

  lemma NoBitsThere(m: Mem, r: Frame)
    ensures NoNewBits(m, m, r) && SameUpperHalf(m, m, r)
  {
    hide Entry;
  }

  lemma StepKeepsInv(s: Phys, r: Frame, g: Ledger, op: Op)
    requires Inv(s, r, g) && Legal(s, r, g, op)
    ensures Inv(Step(s, r, op), r, NextLedger(s, r, g, op)) && NoNewBits(s.mem, Step(s, r, op).mem, r)
    ensures LowerOp(op) ==> SameUpperHalf(s.mem, Step(s, r, op).mem, r)
    ensures !LowerOp(op) ==> LowerKept(s.mem, Step(s, r, op).mem, r)
  {
    if LowerOp(op) {
      LowerStepKeepsInv(s, r, g, op);
    } else {
      UpperStepKeepsInv(s, r, g, op);
      KeptHasNoNewBits(s.mem, Step(s, r, op).mem, r);
    }
  }

  lemma KeptHasNoNewBits(m: Mem, m': Mem, r: Frame)
    requires LowerKept(m, m', r)
    ensures NoNewBits(m, m', r)
  {
    hide Entry, Walk;
  }

  lemma UpperStepKeepsInv(s: Phys, r: Frame, g: Ledger, op: Op)
    requires Inv(s, r, g) && Legal(s, r, g, op) && !LowerOp(op)
    ensures Inv(Step(s, r, op), r, NextLedger(s, r, g, op)) && LowerKept(s.mem, Step(s, r, op).mem, r)
  {
    hide Inv, MapFrom, UnmapFrom, ProtectFrom, LowerKept, CanFree, Index;
    assert Prefix(op.address, 4) == Root && Walk(s.mem, r, Root) == Some(r);
    match op
    case Map(a, u, w, x) =>
      UpperMap(s, r, g, a, u, w, x);
    case Unmap(a) =>
      UpperUnmap(s, r, g, a);
      LowerKeptItself(s.mem, r);
    case Protect(a, u, w, x) =>
      WholeWay(s.mem, r, a);
      UpperProtect(s, r, g, a, 4, r, u, w, x);
  }

  /** Filling entries on the way to a lower-half address changes no upper-half one and adds no other bits. */
  lemma FillingChanges(m: Mem, m': Mem, r: Frame, free: seq<Frame>, k: Level, a: nat, user: bool, writable: bool,
                       noExecute: bool)
    requires LowerHalf(a) && WayFilled(m, m', r, free, k, a, user, writable, noExecute) && OffWayKept(m, m', r, a)
    ensures SameUpperHalf(m, m', r) && NoNewBits(m, m', r)
  {
    hide Entry;
    forall q | Upper(q) ensures Entry(m', r, q) == Entry(m, r, q) {
      assert q.Sub? && !OnWay(q, a);
    }
  }

  /** Nor does changing one lower-half entry without its other bits. */
  lemma EditChanges(m: Mem, m': Mem, r: Frame, target: Path, e: Word)
    requires target.Sub? && Edited(m, m', r, target, e) && !Upper(target) && SameOtherBits(Entry(m, r, target), e)
    ensures SameUpperHalf(m, m', r) && NoNewBits(m, m', r)
  {
    hide Entry;
    forall q | Upper(q) ensures Entry(m', r, q) == Entry(m, r, q) {
      assert q.Sub? && q != target;
    }
  }

  lemma EmptyingChanges(m: Mem, m': Mem, r: Frame)
    requires LowerHalfEmptied(m, m', r)
    ensures SameUpperHalf(m, m', r) && NoNewBits(m, m', r)
  {
    hide Entry, Walk;
  }

  lemma LowerStepKeepsInv(s: Phys, r: Frame, g: Ledger, op: Op)
    requires Inv(s, r, g) && LowerOp(op)
    ensures Inv(Step(s, r, op), r, NextLedger(s, r, g, op))
    ensures SameUpperHalf(s.mem, Step(s, r, op).mem, r) && NoNewBits(s.mem, Step(s, r, op).mem, r)
  {
    hide Inv, KeepsEntries, KeepsPages, SameUpperHalf, NoNewBits, MapFrom, UnmapFrom, ProtectFrom, UnmapLower, Missing,
      Index, LowerHalfEmptied, WayFilled, OffWayKept, Edited, Entry, FreshPage;
    assert Walk(s.mem, r, Root) == Some(r);
    NoBitsThere(s.mem, r);
    var s' := Step(s, r, op);
    match op
    case Map(a, u, w, x) =>
      assert Prefix(a, 4) == Root && LowerLeaf(a);
      MapFromSpec(s, r, g, a, 4, u, w, x);
      FillingChanges(s.mem, s'.mem, r, g.free, Missing(s.mem, r, a, 4), a, u, w, x);
    case Unmap(a) =>
      assert Prefix(a, 4) == Root && LowerLeaf(a);
      UnmapFromSpec(s, r, g, a, 4);
      if s' != s {
        EditChanges(s.mem, s'.mem, r, Leaf(a), Entry(s.mem, r, Leaf(a)).(present := false));
      }
    case Protect(a, u, w, x) =>
      assert Prefix(a, 4) == Root && LowerLeaf(a);
      ProtectFromSpec(s, r, g, a, 4, u, w, x);
      if s' != s {
        EditChanges(s.mem, s'.mem, r, Leaf(a), Entry(s'.mem, r, Leaf(a)));
      }
    case Clear =>
      UnmapLowerKeepsInv(s, r, g);
      EmptyingChanges(s.mem, s'.mem, r);
    case Store(a, j, w) =>
      assert LowerLeaf(a);
      if Walk(s.mem, r, Leaf(a)).Some? && j < ENTRIES {
        DataStep(s, r, g, Leaf(a), j, w);
        EditChanges(s.mem, s'.mem, r, Leaf(a), Entry(s.mem, r, Leaf(a)));
      }
  }

  predicate LowerLeaf(a: nat) { Lower(Leaf(a)) && !Upper(Leaf(a)) }

  /** Every operation of a run is safe in the state it meets. */
  ghost predicate LegalRun(s: Phys, r: Frame, g: Ledger, ops: seq<Op>) {
    ops == [] ||
    (var before := ops[..|ops| - 1];
     LegalRun(s, r, g, before) && Legal(Run(s, r, before), r, RunLedger(s, r, g, before), ops[|ops| - 1]))
  }

  predicate LowerRun(ops: seq<Op>) { forall op :: op in ops ==> LowerOp(op) }

  lemma {:induction false} LowerRunsAreLegal(s: Phys, r: Frame, g: Ledger, ops: seq<Op>)
    requires LowerRun(ops)
    ensures LegalRun(s, r, g, ops)
  {
    if ops != [] {
      LowerRunsAreLegal(s, r, g, ops[..|ops| - 1]);
    }
  }

  // ---- what a program sees of a run ----

  /** The page of the lower half that a store writes to. */
  ghost predicate WrittenBy(op: Op, p: Path) { op.Store? && p == Leaf(op.address) }

  /** What an operation does to the map and to the pages: only `vm_map` adds one, a fresh clear one, if the freelist
      holds what is missing; only `vm_protect` changes rights, of its page alone; only a store changes a page. */
  ghost predicate Stepped(s: Phys, s': Phys, r: Frame, g: Ledger, op: Op) {
    var pages, pages' := Pages(s.mem, r), Pages(s'.mem, r);
    && (match op
        case Map(a, u, w, x) =>
          var k := Missing(s.mem, r, a, 4);
          if LowerHalf(a) && 0 < k <= |g.free| then
            Leaf(a) !in pages && pages' == pages[Leaf(a) := PageInfo(g.free[k - 1], u, w, x)] &&
            IsClear(s'.mem, g.free[k - 1])
          else pages' == pages
        case Unmap(a) => pages' == pages - {Leaf(a)}
        case Protect(a, u, w, x) =>
          pages' == if Leaf(a) in pages then pages[Leaf(a) := PageInfo(pages[Leaf(a)].frame, u, w, x)] else pages
        case Clear => pages' == imap[]
        case Store(a, j, w) =>
          && pages' == pages
          && (Leaf(a) in pages && j < ENTRIES ==>
                forall i: nat | i < ENTRIES ::
                  At(s'.mem, pages[Leaf(a)].frame, i) == if i == j then w else At(s.mem, pages[Leaf(a)].frame, i)))
    && (forall p :: p in pages && p in pages' && !WrittenBy(op, p) ==> SamePage(s.mem, s'.mem, pages[p].frame))
  }

  lemma UpperStepOnMap(s: Phys, r: Frame, g: Ledger, op: Op)
    requires Inv(s, r, g) && Legal(s, r, g, op) && !LowerOp(op)
    ensures Stepped(s, Step(s, r, op), r, g, op)
  {
    hide Inv, Legal, Step, Missing, IsClear, Index, LowerHalf;
    UpperStepKeepsInv(s, r, g, op);
    var s' := Step(s, r, op);
    LowerKeptPages(s.mem, s'.mem, r);
    LeafIsPage(op.address);
    assert Leaf(op.address) !in Pages(s.mem, r);
    assert Pages(s.mem, r) - {Leaf(op.address)} == Pages(s.mem, r);
  }

  lemma LowerStepOnMap(s: Phys, r: Frame, g: Ledger, op: Op)
    requires Inv(s, r, g) && LowerOp(op)
    ensures Stepped(s, Step(s, r, op), r, g, op)
  {
    hide Inv, Pages, MapFrom, UnmapFrom, ProtectFrom, UnmapLower, Missing, Index, WayFilled, OffWayKept, Edited, Entry,
      IsClear, Walk, Leaf;
    var pages := Pages(s.mem, r);
    match op
    case Map(a, u, w, x) =>
      MapOnMap(s, r, g, a, u, w, x);
    case Unmap(a) =>
      UnmapRefines(s, r, g, a);
      assert Leaf(a) !in pages ==> pages - {Leaf(a)} == pages;
    case Protect(a, u, w, x) =>
      ProtectRefines(s, r, g, a, u, w, x);
    case Clear =>
      UnmapLowerRefines(s, r, g);
    case Store(a, j, w) =>
      StoreOnMap(s, r, g, a, j, w);
  }

  lemma MapOnMap(s: Phys, r: Frame, g: Ledger, a: nat, user: bool, writable: bool, executable: bool)
    requires Inv(s, r, g) && LowerHalf(a)
    ensures Stepped(s, Step(s, r, Map(a, user, writable, executable)), r, g, Map(a, user, writable, executable))
  {
    hide Inv, Pages, MapFrom, Missing, LowerHalf, WayFilled, OffWayKept, IsClear, Leaf;
    MapRefines(s, r, g, a, user, writable, executable);
  }

  lemma StoreOnMap(s: Phys, r: Frame, g: Ledger, a: nat, j: nat, w: Word)
    requires Inv(s, r, g) && LowerHalf(a)
    ensures Stepped(s, Step(s, r, Store(a, j, w)), r, g, Store(a, j, w))
  {
    hide Inv, Pages, Walk, Leaf, LowerHalf;
    LeafIsPage(a);
    WalkOfPage(s.mem, r, Leaf(a));
    if Leaf(a) in Pages(s.mem, r) && j < ENTRIES {
      StoreRefines(s, r, g, Leaf(a), j, w);
    }
  }

  lemma WalkOfPage(m: Mem, r: Frame, p: Path)
    requires IsPagePath(p)
    ensures Walk(m, r, p) == if p in Pages(m, r) then Some(Pages(m, r)[p].frame) else None
  {
  }

  lemma StepOnMap(s: Phys, r: Frame, g: Ledger, op: Op)
    requires Inv(s, r, g) && Legal(s, r, g, op)
    ensures Stepped(s, Step(s, r, op), r, g, op)
  {
    hide Inv, Step, Stepped;
    if LowerOp(op) {
      LowerStepOnMap(s, r, g, op);
    } else {
      UpperStepOnMap(s, r, g, op);
    }
  }

  /** Every run is, step by step, a run of the plain map from pages to frames and rights. */
  lemma {:induction false} RunsOnTheMap(s: Phys, r: Frame, g: Ledger, ops: seq<Op>, k: nat)
    requires Inv(s, r, g) && LegalRun(s, r, g, ops) && k < |ops|
    ensures Stepped(Run(s, r, ops[..k]), Run(s, r, ops[..k + 1]), r, RunLedger(s, r, g, ops[..k]), ops[k])
  {
    hide Inv, Step, Stepped, Legal, NextLedger;
    var before := ops[..|ops| - 1];
    if k + 1 < |ops| {
      RunsOnTheMap(s, r, g, before, k);
      assert before[..k] == ops[..k] && before[..k + 1] == ops[..k + 1];
    } else {
      RunKeepsInv(s, r, g, before);
      StepOnMap(Run(s, r, before), r, RunLedger(s, r, g, before), ops[k]);
      assert ops[..k + 1] == ops && ops[..k] == before;
    }
  }

  // ---- what every run keeps ----

  /** Runs keep the invariant, and no entry of the lower half gains a bit beyond its frame and rights. The pool only
      grows by frames that the boot loader had mapped in the upper half, and runs on the lower half keep the pool and
      the upper half as they were. */
  lemma {:induction false} RunKeepsInv(s: Phys, r: Frame, g: Ledger, ops: seq<Op>)
    requires Inv(s, r, g) && LegalRun(s, r, g, ops)
    ensures Inv(Run(s, r, ops), r, RunLedger(s, r, g, ops))
    ensures g.pool <= RunLedger(s, r, g, ops).pool
    ensures (forall op :: op in ops && op.Unmap? ==> LowerOp(op)) ==>
      RunLedger(s, r, g, ops).pool == g.pool && g.leaked <= RunLedger(s, r, g, ops).leaked
    ensures LowerRun(ops) ==> SameUpperHalf(s.mem, Run(s, r, ops).mem, r)
    ensures NoNewBits(s.mem, Run(s, r, ops).mem, r)
  {
    hide Inv, Legal, Step, NoNewBits;
    if ops == [] {
      NoBitsThere(s.mem, r);
    } else {
      var before, op := ops[..|ops| - 1], ops[|ops| - 1];
      RunKeepsInv(s, r, g, before);
      StepKeepsInv(Run(s, r, before), r, RunLedger(s, r, g, before), op);
      NoNewBitsTwice(s.mem, Run(s, r, before).mem, Run(s, r, ops).mem, r);
      LedgerGrows(Run(s, r, before), r, RunLedger(s, r, g, before), op);
    }
  }

  lemma LedgerGrows(s: Phys, r: Frame, g: Ledger, op: Op)
    ensures g.pool <= NextLedger(s, r, g, op).pool
    ensures (op.Unmap? ==> LowerOp(op)) ==>
      && NextLedger(s, r, g, op).pool == g.pool
      && g.leaked <= NextLedger(s, r, g, op).leaked
  {
  }

  lemma PageFrames(m: Mem, r: Frame, f: Frame)
    ensures IsPage(m, r, f) <==> exists p :: p in Pages(m, r) && Pages(m, r)[p].frame == f
  {
    if p :| p in Pages(m, r) && Pages(m, r)[p].frame == f {
      assert Walk(m, r, p) == Some(f);
    }
    if IsPage(m, r, f) {
      var p :| Lower(p) && Depth(p) == 4 && Walk(m, r, p) == Some(f);
      assert p in Pages(m, r) && Pages(m, r)[p].frame == f;
    }
  }

  lemma PagesAreOwned(s: Phys, r: Frame, g: Ledger, f: Frame)
    requires Inv(s, r, g) && IsPage(s.mem, r, f)
    ensures f in g.pool && f !in g.leaked
  {
    var p :| Lower(p) && Depth(p) == 4 && Walk(s.mem, r, p) == Some(f);
    assert Owned(s.mem, r, f);
  }

  lemma FreeIsNotLeaked(s: Phys, r: Frame, g: Ledger, f: Frame)
    requires Inv(s, r, g) && f in g.free
    ensures f !in g.leaked
  {
  }

  lemma FirstAreFree(g: Ledger, k: nat, f: Frame)
    ensures f in FirstFree(g, k) <==> f in g.free[..Min(k, |g.free|)]
    ensures f in FirstFree(g, k) ==> f in g.free
  {
  }

  /** Frames are leaked by clearing the lower half, which leaks exactly those of the pages mapped at that moment, and
      by mapping in the upper half, which takes exactly those it needs off the freelist. */
  lemma LeaksExactlyThePages(s: Phys, r: Frame, g: Ledger, op: Op, f: Frame)
    requires Inv(s, r, g)
    ensures f in NextLedger(s, r, g, op).leaked && f !in g.leaked <==>
      || (op.Clear? && exists p :: p in Pages(s.mem, r) && Pages(s.mem, r)[p].frame == f)
      || (op.Map? && !LowerHalf(op.address) && f in g.free[..Min(Missing(s.mem, r, op.address, 4), |g.free|)])
  {
    hide Inv, Pages, IsPage, Missing, LowerHalf, FirstFree, Walk, Pushed3;
    PageFrames(s.mem, r, f);
    if IsPage(s.mem, r, f) {
      PagesAreOwned(s, r, g, f);
    }
    if f in g.free {
      FreeIsNotLeaked(s, r, g, f);
    }
    if op.Map? {
      FirstAreFree(g, Missing(s.mem, r, op.address, 4), f);
    }
  }

  /** The freelist is a chain without repetition, no two lower-half paths share a frame, no frame is both free and in
      use, and free, owned and leaked frames partition the pool. */
  ghost predicate Safe(s: Phys, r: Frame, g: Ledger) {
    && Chain(s, g.free)
    && (forall i, j :: 0 <= i < j < |g.free| ==> g.free[i] != g.free[j])
    && (forall p, q {:trigger Walk(s.mem, r, p), Walk(s.mem, r, q)} ::
          Lower(p) && Lower(q) && Walk(s.mem, r, p).Some? && Walk(s.mem, r, p) == Walk(s.mem, r, q) ==> p == q)
    && (forall p {:trigger Walk(s.mem, r, p)} ::
          Lower(p) && Walk(s.mem, r, p).Some? ==> Walk(s.mem, r, p).value !in g.free)
    && Partition(s.mem, r, g)
  }

  lemma InvIsSafe(s: Phys, r: Frame, g: Ledger)
    requires Inv(s, r, g)
    ensures Safe(s, r, g)
  {
    hide Walk, Partition;
    forall i, j | 0 <= i < j < |g.free| ensures g.free[i] != g.free[j] {
      ChainHasNoDuplicates(s, g.free, i, j);
    }
    forall p | Lower(p) ensures Node(p, 4) {
    }
  }

  /** The tables below the root that lead to lower-half pages hold entries without other bits. */
  ghost predicate CleanTables(m: Mem, r: Frame) {
    forall q {:trigger Entry(m, r, q)} :: Lower(q) && Depth(q) >= 2 ==> NoOtherBits(Entry(m, r, q))
  }

  lemma StayClean(m: Mem, m': Mem, r: Frame)
    requires CleanTables(m, r) && NoNewBits(m, m', r)
    ensures CleanTables(m', r)
  {
    hide Entry;
    forall q | Lower(q) && Depth(q) >= 2 ensures NoOtherBits(Entry(m', r, q)) {
      assert NoOtherBits(Entry(m, r, q));
    }
  }

  lemma SameUpperTwice(m: Mem, m1: Mem, m2: Mem, r: Frame)
    requires SameUpperHalf(m, m1, r) && SameUpperHalf(m1, m2, r)
    ensures SameUpperHalf(m, m2, r)
  {
    forall q | Upper(q) ensures Entry(m2, r, q) == Entry(m, r, q) {
      assert Entry(m1, r, q) == Entry(m, r, q);
    }
  }

  /** Every state reached after boot is safe, and the entries on the way to its lower-half pages have no bits beyond
      frame and rights, but for those the boot loader left in the root table. Runs on the lower half keep the boot
      loader's upper-half entries, and the pool is the frames that were free after the first clearing. */
  lemma EveryRunIsSafe(s0: Phys, r: Frame, free0: seq<Frame>, ops: seq<Op>)
    requires Chain(s0, free0) && Tree(s0.mem, r, free0, 3)
    requires LegalRun(UnmapLower(s0, r), r, FirstLedger(s0, r, free0), ops)
    ensures
      var s1, g1 := UnmapLower(s0, r), FirstLedger(s0, r, free0);
      var s, g := Run(s1, r, ops), RunLedger(s1, r, g1, ops);
      && Safe(s, r, g) && g1.pool <= g.pool
      && CleanTables(s.mem, r) && NoNewBits(s0.mem, s.mem, r)
      && (LowerRun(ops) ==> SameUpperHalf(s0.mem, s.mem, r) && g.pool == g1.pool)
  {
    hide Inv, Safe, LegalRun, Run, RunLedger, UnmapLower, SameUpperHalf, NoNewBits, CleanTables, Tree, Chain;
    var s1, g1 := UnmapLower(s0, r), FirstLedger(s0, r, free0);
    FirstUnmapFoundsInv(s0, r, free0);
    FirstKeepsUpper(s0, r, free0);
    RunKeepsInv(s1, r, g1, ops);
    var s := Run(s1, r, ops);
    InvIsSafe(s, r, RunLedger(s1, r, g1, ops));
    StayClean(s1.mem, s.mem, r);
    NoNewBitsTwice(s0.mem, s1.mem, s.mem, r);
    if LowerRun(ops) {
      SameUpperTwice(s0.mem, s1.mem, s.mem, r);
    }
  }

  lemma FirstKeepsUpper(s0: Phys, r: Frame, free0: seq<Frame>)
    requires Chain(s0, free0) && Tree(s0.mem, r, free0, 3)
    ensures SameUpperHalf(s0.mem, UnmapLower(s0, r).mem, r) && NoNewBits(s0.mem, UnmapLower(s0, r).mem, r)
    ensures CleanTables(UnmapLower(s0, r).mem, r)
  {
    UnmapLowerSpec(s0, r, free0);
    hide UnmapLower, Entry, Walk, Tree, Chain;
    EmptyingChanges(s0.mem, UnmapLower(s0, r).mem, r);
  }

  /** The ledger after the first `unmap_lower_half`: its freelist is the pool. */
  ghost function FirstLedger(s0: Phys, r: Frame, free0: seq<Frame>): Ledger {
    var free := Pushed3(s0.mem, r, 256, free0);
    Ledger(free, {}, set f | f in free)
  }
}
