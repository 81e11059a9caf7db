/** `sys_mmap`: a bump allocator of pages over `vm_map`. */
module Mmap {
  import opened Words
  import opened Memory
  import opened PageTree
  import opened Mapping
  import opened UnmapLowerHalf
  import opened AddressSpace
  import opened UpperHalf
  import opened FrameDemand
  import opened PageRanges
  import opened Pager

  const MMAP_START: nat := 0x90_0000_0000
  const TWO_63: nat := 0x8000_0000_0000_0000

  /** Bit 1 of the flags makes the pages writable, a clear bit 0 makes them non-executable. */
  function Writable(flags: int): bool { flags / 2 % 2 == 1 }

  function NoExecute(flags: int): bool { flags % 2 == 0 }

  /** A length as the signed counter `size_left`. */
  function Signed(length: nat): int { if length < TWO_63 then length else length - TWO_64 }

  /** The do-while loop: final state, `mmap_next_start`, and whether every mapping succeeded. */
  function MmapFrom(s: Phys, r: Frame, address: nat, next: nat, sizeLeft: int, fixed: bool, flags: int)
    : (Phys, nat, bool)
    decreases sizeLeft
  {
    var (s1, ok) := MapFrom(s, r, address, 4, true, Writable(flags), NoExecute(flags));
    if !ok then (s1, next, false)
    else if sizeLeft - 4096 > 0 then
      MmapFrom(s1, r, if fixed then address else next + 4096, next + 4096, sizeLeft - 4096, fixed, flags)
    else (s1, next + 4096, true)
  }

  /** The rights that `sys_mmap` gives its pages. */
  function FlagRights(flags: int): PageRights { PageRights(true, Writable(flags), NoExecute(flags)) }

  /** What a call may grant: user access, writing exactly when bit 1 of its flags is set, and execution exactly when
      bit 0 is. */
  predicate GrantedBy(p: PageInfo, flags: int) {
    p.user && p.writable == (flags % 4 >= 2) && p.noExecute == (flags % 2 == 0)
  }

  /** The two flags on their own. */
  lemma GrantedBits(p: PageInfo, flags: int, q: int, w: nat, x: nat)
    requires flags == 4 * q + 2 * w + x && w <= 1 && x <= 1
    ensures GrantedBy(p, flags) <==> p.user && p.writable == (w == 1) && p.noExecute == (x == 0)
  {
    LowBits(flags, q, 2 * w + x, 2 * q + w, x);
  }

  lemma LowBits(n: int, q: int, c: nat, h: int, x: nat)
    requires n == 4 * q + c && c < 4 && n == 2 * h + x && x < 2
    ensures n % 4 == c && n % 2 == x
  {
  }

  lemma FlagsGrant(p: PageInfo, flags: int)
    requires HasRights(p, true, Writable(flags), NoExecute(flags))
    ensures GrantedBy(p, flags)
  {
    var q, w, x := flags / 4, flags % 4 / 2, flags % 2;
    TwoBits(flags, q, w, x);
  }

  lemma TwoBits(flags: int, q: int, w: int, x: int)
    requires q == flags / 4 && w == flags % 4 / 2 && x == flags % 2
    ensures flags / 2 % 2 == w && 0 <= w <= 1 && (w == 1 <==> flags % 4 >= 2)
  {
    assert flags / 2 == 2 * q + w;
  }

  /** Every lower-half page is as it was, or is new and has what the flags grant. */
  ghost predicate OnlyGranted(m: Mem, m': Mem, r: Frame, flags: int) {
    forall p :: p in Pages(m', r) ==>
      (p in Pages(m, r) && Pages(m', r)[p] == Pages(m, r)[p]) || GrantedBy(Pages(m', r)[p], flags)
  }

  /** All these pages are new, and have what the flags grant. */
  ghost predicate AllGranted(m: Mem, m': Mem, r: Frame, run: set<Path>, flags: int) {
    forall p :: p in run ==> p !in Pages(m, r) && p in Pages(m', r) && GrantedBy(Pages(m', r)[p], flags)
  }

  lemma NothingGranted(m: Mem, r: Frame, flags: int)
    ensures OnlyGranted(m, m, r, flags)
  {
  }

  lemma NewAreGranted(m: Mem, m': Mem, r: Frame, flags: int)
    requires NewPagesHave(m, m', r, true, Writable(flags), NoExecute(flags))
    ensures OnlyGranted(m, m', r, flags)
  {
    hide Pages, GrantedBy, Writable, NoExecute;
    forall p | p in Pages(m', r) && HasRights(Pages(m', r)[p], true, Writable(flags), NoExecute(flags))
      ensures GrantedBy(Pages(m', r)[p], flags)
    {
      FlagsGrant(Pages(m', r)[p], flags);
    }
  }

  lemma AddedAreGranted(s: Phys, s': Phys, r: Frame, run: set<Path>, flags: int)
    requires RangeAdded(ViewOf(s, r), ViewOf(s', r), run, FlagRights(flags))
    ensures OnlyGranted(s.mem, s'.mem, r, flags) && AllGranted(s.mem, s'.mem, r, run, flags)
  {
    hide Pages, GrantedBy, Writable, NoExecute, IsClear, SamePage;
    var v, v' := ViewOf(s, r), ViewOf(s', r);
    forall p | p in run ensures GrantedBy(v'.pages[p], flags) {
      FlagsGrant(v'.pages[p], flags);
    }
    forall p | p in v.pages ensures p in v'.pages && v'.pages[p] == v.pages[p] {
      assert Kept(v, v', p);
    }
  }

  /** What a NULL-address call does: it maps consecutive pages from `next` until all are mapped or one is
      refused, and advances `mmap_next_start` by the number of pages mapped. */
  ghost predicate MmapDone(v: View, v': View, next: nat, next': nat, ok: bool, length: nat, n: nat, run: set<Path>,
      flags: int) {
    && next' == next + 4096 * n && n <= PagesFor(length) && (ok <==> n == PagesFor(length))
    && run == PageRun(next, n)
    && RangeAdded(v, v', run, FlagRights(flags))
  }

  lemma MmapDoneCons(v: View, v1: View, v': View, next: nat, next': nat, ok: bool, length: nat, n: nat,
      run: set<Path>, flags: int)
    requires length > 4096 && RangeAdded(v, v1, {Leaf(next)}, FlagRights(flags))
    requires MmapDone(v1, v', next + 4096, next', ok, length - 4096, n, run, flags)
    ensures MmapDone(v, v', next, next', ok, length, n + 1, {Leaf(next)} + run, flags)
  {
    RangeAddedCons(v, v1, v', Leaf(next), run, FlagRights(flags));
    assert PageRun(next, n + 1) == {Leaf(next)} + PageRun(next + 4096, n);
  }

  lemma MmapFromRound(s: Phys, s1: Phys, r: Frame, address: nat, next: nat, sizeLeft: int, fixed: bool, flags: int,
                      s': Phys, next': nat, ok: bool)
    requires (s1, true) == MapFrom(s, r, address, 4, true, Writable(flags), NoExecute(flags))
    requires
      (s', next', ok) ==
        if sizeLeft > 4096 then
          MmapFrom(s1, r, if fixed then address else next + 4096, next + 4096, sizeLeft - 4096, fixed, flags)
        else (s1, next + 4096, true)
    ensures (s', next', ok) == MmapFrom(s, r, address, next, sizeLeft, fixed, flags)
  {
  }

  /** The pages wanted lie below 2^47, or at least those that there are frames for do. */
  ghost predicate Fits(next: nat, length: nat, g: Ledger) {
    next + length + 4095 < TWO_47 || next + 4096 * |g.free| < TWO_47
  }

  /** The condition under which a NULL-address call succeeds. */
  ghost predicate CanMmap(m: Mem, r: Frame, g: Ledger, next: nat, length: nat) {
    next + 4096 * PagesFor(length) <= TWO_47 && CanMap(m, r, g, PageRun(next, PagesFor(length)))
  }

  lemma CanMmapRest(m: Mem, m1: Mem, r: Frame, g: Ledger, g1: Ledger, next: nat, length: nat)
    requires length > 4096 && CanMap(m, r, g, {Leaf(next)}) && Took(m, m1, r, g, g1, {Leaf(next)})
    ensures CanMmap(m1, r, g1, next + 4096, length - 4096) <==> CanMmap(m, r, g, next, length)
  {
    hide CanMap, Took, Leaf, PageRun;
    var n := PagesFor(length);
    assert n - 1 == PagesFor(length - 4096);
    if next + 4096 * n <= TWO_47 {
      CanMapTail(m, m1, r, g, g1, next, n);
    }
  }

  lemma CannotMmap(m: Mem, r: Frame, g: Ledger, next: nat, length: nat)
    requires !CanMap(m, r, g, {Leaf(next)})
    ensures !CanMmap(m, r, g, next, length)
  {
    hide CanMap, Leaf, PageRun;
    if CanMap(m, r, g, PageRun(next, PagesFor(length))) {
      CanMapFirst(m, r, g, next, PagesFor(length));
    }
  }

  /** A NULL-address call in any lower-half address space: what it maps, how far it advances, and exactly when it
      succeeds. Each page takes a frame, so the pages run out before the addresses do. */
  lemma MmapSpec(s: Phys, r: Frame, g: Ledger, next: nat, length: nat, flags: int)
    returns (s': Phys, next': nat, ok: bool, g': Ledger, n: nat, run: set<Path>)
    requires Inv(s, r, g) && 0 < length && Fits(next, length, g)
    ensures (s', next', ok) == MmapFrom(s, r, next, next, length, false, flags)
    ensures Inv(s', r, g') && next' + 4096 * |g'.free| <= next + 4096 * |g.free|
    ensures MmapDone(ViewOf(s, r), ViewOf(s', r), next, next', ok, length, n, run, flags)
    ensures OnlyGranted(s.mem, s'.mem, r, flags) && AllGranted(s.mem, s'.mem, r, run, flags)
    ensures ok <==> CanMmap(s.mem, r, g, next, length)
    ensures !ok ==> !CanMap(s'.mem, r, g', {Leaf(next')})
  {
    hide Pages, Inv, RangeAdded, MmapFrom, CanMap, CanMmap, OnlyGranted, AllGranted, Leaf;
    s', next', ok, g', n, run := MmapRun(s, r, g, next, length, flags);
    AddedAreGranted(s, s', r, run, flags);
  }

  lemma {:induction false} MmapRun(s: Phys, r: Frame, g: Ledger, next: nat, length: nat, flags: int)
    returns (s': Phys, next': nat, ok: bool, g': Ledger, n: nat, run: set<Path>)
    requires Inv(s, r, g) && 0 < length && Fits(next, length, g)
    ensures (s', next', ok) == MmapFrom(s, r, next, next, length, false, flags)
    ensures Inv(s', r, g') && next' + 4096 * |g'.free| <= next + 4096 * |g.free|
    ensures MmapDone(ViewOf(s, r), ViewOf(s', r), next, next', ok, length, n, run, flags)
    ensures ok <==> CanMmap(s.mem, r, g, next, length)
    ensures !ok ==> !CanMap(s'.mem, r, g', {Leaf(next')})
    decreases length
  {
    hide Pages, Inv, RangeAdded, AllKept, MapFrom, CanMap, Took, CanMmap, Leaf;
    var s1, g1;
    s1, ok, g1 := MapPage(s, r, g, next, FlagRights(flags));
    g' := g1;
    if !ok {
      s', next', n, run := s1, next, 0, {};
      CannotMmap(s.mem, r, g, next, length);
      return;
    }
    if length > 4096 {
      s', next', ok, g', n, run := MmapRun(s1, r, g1, next + 4096, length - 4096, flags);
      MmapDoneCons(ViewOf(s, r), ViewOf(s1, r), ViewOf(s', r), next, next', ok, length, n, run, flags);
      CanMmapRest(s.mem, s1.mem, r, g, g1, next, length);
      n, run := n + 1, {Leaf(next)} + run;
    } else {
      s', next', n, run := s1, next + 4096, 1, {Leaf(next)};
      assert PageRun(next, 1) == {Leaf(next)} + PageRun(next + 4096, 0) == {Leaf(next)};
      OnePage(s.mem, r, g, next, length);
    }
    MmapFromRound(s, s1, r, next, next, length, false, flags, s', next', ok);
  }

  lemma OnePage(m: Mem, r: Frame, g: Ledger, next: nat, length: nat)
    requires length <= 4096 && next + 4096 <= TWO_47
    ensures CanMmap(m, r, g, next, length) <==> CanMap(m, r, g, {Leaf(next)})
  {
    hide Leaf;
    assert PageRun(next, 1) == {Leaf(next)} + PageRun(next + 4096, 0) == {Leaf(next)};
  }

  // ---- the other calls ----

  /** A call at a fixed address never moves on to a second page. It does what one `vm_map` of that address does and,
      if that maps the page, still advances `mmap_next_start`; it succeeds exactly when the length fits one page,
      that page is not mapped, and the freelist holds the tables and the page that are missing. */
  lemma FixedAddressMapsOnePage(s: Phys, r: Frame, g: Ledger, address: nat, next: nat, length: nat, flags: int)
    returns (s1: Phys, ok: bool, g1: Ledger)
    requires Inv(s, r, g) && Passable(s.mem, r, address, 4) && 0 < length < TWO_63 && address != 0
    ensures (s1, ok) == MapFrom(s, r, address, 4, true, Writable(flags), NoExecute(flags)) && Inv(s1, r, g1)
    ensures ok <==> 0 < Missing(s.mem, r, address, 4) <= |g.free|
    ensures MmapFrom(s, r, address, next, Signed(length), true, flags) ==
      (s1, if ok then next + 4096 else next, ok && length <= 4096)
    ensures OnlyGranted(s.mem, s1.mem, r, flags) && (ok ==> GrantedAt(s1.mem, r, address, flags))
  {
    hide Inv, MapFrom, Passable, Missing, Leaf, LeafHas, NewPagesHave, OnlyGranted, GrantedAt, Writable, NoExecute;
    s1, ok, g1 := AnyMap(s, r, g, address, true, Writable(flags), NoExecute(flags));
    if ok {
      var _, _, _ := AnyMap(s1, r, g1, address, true, Writable(flags), NoExecute(flags));
      LeafGranted(s1.mem, r, address, flags);
    }
    NewAreGranted(s.mem, s1.mem, r, flags);
  }

  /** The address lies in a page, of either half, that has what the flags grant. */
  ghost predicate GrantedAt(m: Mem, r: Frame, address: nat, flags: int) {
    Walk(m, r, Leaf(address)).Some? && GrantedBy(InfoOf(Entry(m, r, Leaf(address))), flags)
  }

  lemma LeafGranted(m: Mem, r: Frame, address: nat, flags: int)
    requires LeafHas(m, r, address, true, Writable(flags), NoExecute(flags))
    ensures GrantedAt(m, r, address, flags)
  {
    hide Walk, Writable, NoExecute, GrantedBy;
    FlagsGrant(InfoOf(Entry(m, r, Leaf(address))), flags);
  }

  /** A length whose signed reading is negative maps a single page. */
  lemma HugeLengthMapsOnePage(s: Phys, r: Frame, address: nat, next: nat, length: nat, fixed: bool, flags: int)
    requires TWO_63 <= length < TWO_64
    ensures var (s1, ok) := MapFrom(s, r, address, 4, true, Writable(flags), NoExecute(flags));
      MmapFrom(s, r, address, next, Signed(length), fixed, flags) == (s1, if ok then next + 4096 else next, ok)
  {
  }

  // ---- runs of calls ----

  /** One system call, or anything else the kernel does to the tables meanwhile. */
  datatype Call = Mmap(address: nat, length: nat, flags: int) | Other(after: Phys)

  /** The addresses a successful NULL-address call gave out. */
  datatype Block = Block(start: nat, length: nat)

  /** State, `mmap_next_start` and the blocks given out, after a sequence of calls. */
  function RunCalls(s: Phys, r: Frame, next: nat, calls: seq<Call>): (Phys, nat, seq<Block>) {
    if calls == [] then (s, next, [])
    else
      var (s1, next1, blocks) := RunCalls(s, r, next, calls[..|calls| - 1]);
      match calls[|calls| - 1]
      case Other(after) => (after, next1, blocks)
      case Mmap(a, n, flags) =>
        if n == 0 then (s1, next1, blocks)
        else
          var (s2, next2, ok) := MmapFrom(s1, r, if a == 0 then next1 else a, next1, Signed(n), a != 0, flags);
          (s2, next2, if a == 0 && ok then blocks + [Block(next1, n)] else blocks)
  }

  lemma {:induction false} NextAdvances(s: Phys, r: Frame, address: nat, next: nat, sizeLeft: int, fixed: bool,
      flags: int)
    ensures var (s', next', ok) := MmapFrom(s, r, address, next, sizeLeft, fixed, flags);
      next <= next' && (ok ==> next' == next + 4096 * PagesFor(sizeLeft))
    decreases sizeLeft
  {
    hide MapFrom;
    var (s1, ok) := MapFrom(s, r, address, 4, true, Writable(flags), NoExecute(flags));
    if ok && sizeLeft > 4096 {
      NextAdvances(s1, r, if fixed then address else next + 4096, next + 4096, sizeLeft - 4096, fixed, flags);
    }
  }

  /** Whatever happens in between, the blocks of successful NULL-address calls never overlap. */
  lemma {:induction false} BlocksAreDisjoint(s: Phys, r: Frame, next: nat, calls: seq<Call>)
    requires forall c :: c in calls && c.Mmap? ==> c.length < TWO_63
    ensures var (s', next', blocks) := RunCalls(s, r, next, calls);
      && next <= next'
      && (forall i :: 0 <= i < |blocks| ==> next <= blocks[i].start && blocks[i].start + blocks[i].length <= next')
      && (forall i, j :: 0 <= i < j < |blocks| ==> blocks[i].start + blocks[i].length <= blocks[j].start)
  {
    if calls != [] {
      var before, c := calls[..|calls| - 1], calls[|calls| - 1];
      BlocksAreDisjoint(s, r, next, before);
      var (s1, next1, blocks) := RunCalls(s, r, next, before);
      if c.Mmap? && c.length > 0 {
        NextAdvances(s1, r, if c.address == 0 then next1 else c.address, next1, Signed(c.length), c.address != 0,
            c.flags);
      }
    }
  }

  // ---- the system call ----

  /** Exactly when a NULL-address call succeeds. */
  lemma MmapSucceedsIff(s: Phys, r: Frame, g: Ledger, next: nat, length: nat, flags: int)
    requires Inv(s, r, g) && 0 < length && Fits(next, length, g)
    ensures MmapFrom(s, r, next, next, length, false, flags).2 <==> CanMmap(s.mem, r, g, next, length)
  {
    hide Inv, MmapFrom, CanMmap;
    var _, _, _, _, _, _ := MmapSpec(s, r, g, next, length, flags);
  }

  /** What any call grants: only what its flags say, on every page of the result of a NULL-address call, and at the
      first address if anything was mapped. */
  lemma CallGrants(s: Phys, r: Frame, g: Ledger, address: nat, next: nat, length: nat, flags: int)
    returns (s': Phys, next': nat, ok: bool)
    requires Inv(s, r, g) && 0 < length < TWO_64
    requires address == 0 ==> LowerHalf(next) && (length < TWO_63 ==> Fits(next, length, g))
    requires address != 0 ==> Passable(s.mem, r, address, 4)
    ensures var start := if address == 0 then next else address;
      && (s', next', ok) == MmapFrom(s, r, start, next, Signed(length), address != 0, flags)
      && (next' != next ==> GrantedAt(s'.mem, r, start, flags))
    ensures OnlyGranted(s.mem, s'.mem, r, flags)
    ensures address == 0 && length < TWO_63 && ok ==>
      AllGranted(s.mem, s'.mem, r, PageRun(next, PagesFor(length)), flags)
  {
    hide Inv, MapFrom, Passable, LowerHalf, Leaf, OnlyGranted, AllGranted, GrantedAt, Pages, CanMmap, CanMap,
      RangeAdded, Missing, Writable, NoExecute, LeafHas, NewPagesHave;
    if length < TWO_63 && address == 0 {
      var g', n, run;
      s', next', ok, g', n, run := MmapSpec(s, r, g, next, length, flags);
      if n > 0 {
        FirstGranted(s.mem, s'.mem, r, next, n, flags);
      }
    } else if length < TWO_63 {
      var s1, ok1, g1 := FixedAddressMapsOnePage(s, r, g, address, next, length, flags);
      s', next', ok := s1, if ok1 then next + 4096 else next, ok1 && length <= 4096;
    } else {
      var start := if address == 0 then next else address;
      if address == 0 {
        LowIsPassable(s.mem, r, start);
      }
      var s1, ok1, g1 := AnyMap(s, r, g, start, true, Writable(flags), NoExecute(flags));
      if ok1 {
        LeafGranted(s1.mem, r, start, flags);
      }
      NewAreGranted(s.mem, s1.mem, r, flags);
      HugeLengthMapsOnePage(s, r, start, next, length, address != 0, flags);
      s', next', ok := s1, if ok1 then next + 4096 else next, ok1;
    }
  }

  lemma FirstGranted(m: Mem, m': Mem, r: Frame, next: nat, n: nat, flags: int)
    requires n > 0 && AllGranted(m, m', r, PageRun(next, n), flags)
    ensures GrantedAt(m', r, next, flags)
  {
    hide Leaf, GrantedBy;
    assert PageRun(next, n) == {Leaf(next)} + PageRun(next + 4096, n - 1);
    assert Leaf(next) in PageRun(next, n);
  }

  lemma FrameUsed(s: Phys, s': Phys, r: Frame, g: Ledger, address: nat, flags: int)
    requires LowerHalf(address) ==>
      MapRefined(s, s', true, r, g, Missing(s.mem, r, address, 4), Leaf(address), true, Writable(flags),
          NoExecute(flags))
    requires !LowerHalf(address) ==>
      UpperMapped(s, s', true, r, g, Missing(s.mem, r, address, 4), address, true, Writable(flags),
          NoExecute(flags))
    ensures 0 < Missing(s.mem, r, address, 4) <= |g.free|
  {
    hide Inv, Pages, Missing, Index;
  }

  lemma LowIsPassable(m: Mem, r: Frame, address: nat)
    requires LowerHalf(address)
    ensures Passable(m, r, address, 4)
  {
  }

  lemma StillPassable(s: Phys, s': Phys, r: Frame, g: Ledger, address: nat, flags: int)
    requires Inv(s, r, g) && Passable(s.mem, r, address, 4)
    requires (s', true) == MapFrom(s, r, address, 4, true, Writable(flags), NoExecute(flags))
    ensures Passable(s'.mem, r, address, 4)
  {
    hide Inv, MapFrom, Passable, Missing;
    var _, _, _ := AnyMap(s, r, g, address, true, Writable(flags), NoExecute(flags));
  }

  class MmapCalls {
    const fm: FrameManager
    var mmapNextStart: nat

    constructor (fm: FrameManager)
      ensures this.fm == fm && mmapNextStart == 0x90_0000_0000
    {
      this.fm := fm;
      mmapNextStart := MMAP_START;
    }

    /** One round's `vm_map`. */
    method MapOne(root: nat, address: nat, flags: int) returns (ok: bool)
      requires fm.Valid(root) && Passable(fm.phys.mem, root / 4096, address, 4)
      modifies fm, fm.ram
      ensures fm.Valid(root)
      ensures (fm.phys, ok) == MapFrom(old(fm.phys), root / 4096, address, 4, true, Writable(flags), NoExecute(flags))
      ensures ok ==> Passable(fm.phys.mem, root / 4096, address, 4) && |fm.ledger.free| < |old(fm.ledger).free|
    {
      hide MapFrom, Inv, MapRefined, UpperMapped, Index, Passable, Missing, Leaf, LowerHalf;
      ghost var s, g := fm.phys, fm.ledger;
      ok := fm.VmMap(root, address, true, Writable(flags), NoExecute(flags));
      if ok {
        FrameUsed(s, fm.phys, root / 4096, g, address, flags);
        StillPassable(s, fm.phys, root / 4096, g, address, flags);
      }
    }

    /** `sys_mmap` in the address space rooted at `root`; -1 reports failure. */
    method SysMmap(root: nat, address: nat, length: nat, flags: int) returns (result: int)
      requires fm.Valid(root) && length < TWO_64
      requires address == 0 ==> 0 < length < TWO_63 ==> Fits(mmapNextStart, length, fm.ledger)
      requires address == 0 ==> LowerHalf(mmapNextStart)
      requires address != 0 ==> Passable(fm.phys.mem, root / 4096, address, 4)
      requires length < TWO_63 || TWO_63 + 4096 <= length
      modifies this, fm, fm.ram
      ensures fm.Valid(root)
      ensures length == 0 ==> result == -1 && fm.phys == old(fm.phys) && mmapNextStart == old(mmapNextStart)
      ensures length > 0 ==>
        var start := if address == 0 then old(mmapNextStart) else address;
        var (s', next', ok) := MmapFrom(old(fm.phys), root / 4096, start, old(mmapNextStart), Signed(length),
            address != 0, flags);
        fm.phys == s' && mmapNextStart == next' && result == if ok then start else -1
      ensures address == 0 && 0 < length < TWO_63 ==>
        (result != -1 <==> CanMmap(old(fm.phys).mem, root / 4096, old(fm.ledger), old(mmapNextStart), length))
      ensures OnlyGranted(old(fm.phys).mem, fm.phys.mem, root / 4096, flags)
      ensures address == 0 && 0 < length < TWO_63 && result != -1 ==>
        AllGranted(old(fm.phys).mem, fm.phys.mem, root / 4096, PageRun(result, PagesFor(length)), flags)
      ensures mmapNextStart != old(mmapNextStart) ==>
        GrantedAt(fm.phys.mem, root / 4096, if address == 0 then old(mmapNextStart) else address, flags)
    {
      hide MapFrom, Inv, CanMmap, Passable, LowerHalf, OnlyGranted, AllGranted, GrantedAt;
      if length == 0 {
        NothingGranted(fm.phys.mem, root / 4096, flags);
        return -1;
      }
      ghost var _, _, _ := CallGrants(fm.phys, root / 4096, fm.ledger, address, mmapNextStart, length, flags);
      if address == 0 && length < TWO_63 {
        MmapSucceedsIff(fm.phys, root / 4096, fm.ledger, mmapNextStart, length, flags);
      }
      var addressToMap := if address == 0 then mmapNextStart else address;
      if address == 0 {
        LowIsPassable(fm.phys.mem, root / 4096, addressToMap);
      }
      result := addressToMap;
      var sizeLeft := Signed(length);
      var more := true;
      while more
        invariant fm.Valid(root) && result == (if address == 0 then old(mmapNextStart) else address)
        invariant more ==> sizeLeft <= Signed(length)
        invariant more && address == 0 ==> addressToMap == mmapNextStart && LowerHalf(addressToMap)
        invariant address == 0 && 0 < length < TWO_63 && more ==>
          sizeLeft > 0 && Fits(mmapNextStart, sizeLeft, fm.ledger)
        invariant more && address != 0 ==> addressToMap == address
        invariant more ==> Passable(fm.phys.mem, root / 4096, addressToMap, 4)
        invariant
          MmapFrom(old(fm.phys), root / 4096, result, old(mmapNextStart), Signed(length), address != 0, flags) ==
          if more then MmapFrom(fm.phys, root / 4096, addressToMap, mmapNextStart, sizeLeft, address != 0, flags)
          else (fm.phys, mmapNextStart, true)
        decreases more, sizeLeft
      {
        var ok := MapOne(root, addressToMap, flags);
        if !ok {
          return -1;
        }
        mmapNextStart := mmapNextStart + 4096;
        if address == 0 {
          addressToMap := mmapNextStart;
        }
        sizeLeft := sizeLeft - 4096;
        more := sizeLeft > 0;
        if more && address == 0 {
          LowAddress(addressToMap);
          LowIsPassable(fm.phys.mem, root / 4096, addressToMap);
        }
      }
    }
  }
}
