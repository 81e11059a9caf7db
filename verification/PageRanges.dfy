/** Ranges of consecutive pages, and what mapping them does to what a program sees. */
module PageRanges {
  import opened Words
  import opened Memory
  import opened PageTree
  import opened Mapping
  import opened UnmapLowerHalf
  import opened AddressSpace
  import opened FrameDemand

  /** The lower half as a program sees it: the map, and what the frames hold. */
  datatype View = View(pages: PageMap, mem: Mem)

  ghost function ViewOf(s: Phys, r: Frame): View { View(Pages(s.mem, r), s.mem) }

  /** Page p is mapped as it was and holds what it held. */
  ghost predicate Kept(v: View, v': View, p: Path)
    requires p in v.pages
  {
    p in v'.pages && v'.pages[p] == v.pages[p] && SamePage(v.mem, v'.mem, v.pages[p].frame)
  }

  /** How many pages a length needs. */
  function PagesFor(length: int): nat { if length <= 4096 then 1 else (length + 4095) / 4096 }

  /** The n consecutive pages from `start`. */
  ghost function PageRun(start: nat, n: nat): set<Path>
    decreases n
  {
    if n == 0 then {} else {Leaf(start)} + PageRun(start + 4096, n - 1)
  }

  lemma {:induction false} RunCoversBytes(start: nat, n: nat, x: nat)
    requires start % 4096 == 0 && start <= x < start + 4096 * n
    ensures Leaf(x) in PageRun(start, n)
    decreases n
  {
    if x < start + 4096 {
      WithinPage(start, x);
    } else {
      RunCoversBytes(start + 4096, n - 1, x);
    }
  }

  datatype PageRights = PageRights(user: bool, writable: bool, noExecute: bool)

  function RightsOf(p: PageInfo): PageRights { PageRights(p.user, p.writable, p.noExecute) }

  /** Everything mapped before is kept. */
  ghost predicate AllKept(v: View, v': View) { forall p :: p in v.pages ==> Kept(v, v', p) }

  /** From v to v' exactly the pages of `run` were added, clear and with the given rights. */
  ghost predicate RangeAdded(v: View, v': View, run: set<Path>, rights: PageRights) {
    && AllKept(v, v')
    && (forall p :: p in v'.pages ==> p in v.pages || p in run)
    && (forall p :: p in run ==>
         && p !in v.pages && p in v'.pages
         && RightsOf(v'.pages[p]) == rights && IsClear(v'.mem, v'.pages[p].frame))
  }

  /** Everything mapped before is kept, and only pages of `run` are new. */
  ghost predicate OnlyAdds(v: View, v': View, run: set<Path>) {
    AllKept(v, v') && forall p :: p in v'.pages ==> p in v.pages || p in run
  }

  lemma OnlyAddsTwice(v: View, v1: View, v2: View, a: set<Path>, b: set<Path>)
    requires OnlyAdds(v, v1, a) && OnlyAdds(v1, v2, b)
    ensures OnlyAdds(v, v2, a + b)
  {
    AllKeptTwice(v, v1, v2);
  }

  lemma OnlyAddsMore(v: View, v': View, a: set<Path>, b: set<Path>)
    requires OnlyAdds(v, v', a) && a <= b
    ensures OnlyAdds(v, v', b)
  {
  }

  lemma AddedIsOnly(v: View, v': View, run: set<Path>, rights: PageRights)
    requires RangeAdded(v, v', run, rights)
    ensures OnlyAdds(v, v', run)
  {
  }

  lemma AllKeptTwice(v: View, v1: View, v2: View)
    requires AllKept(v, v1) && AllKept(v1, v2)
    ensures AllKept(v, v2)
  {
    forall p | p in v.pages ensures Kept(v, v2, p) {
      assert Kept(v, v1, p) && Kept(v1, v2, p);
    }
  }

  lemma RangeAddedCons(v: View, v1: View, v': View, p: Path, run: set<Path>, rights: PageRights)
    requires RangeAdded(v, v1, {p}, rights) && RangeAdded(v1, v', run, rights)
    ensures RangeAdded(v, v', {p} + run, rights)
  {
    AllKeptTwice(v, v1, v');
    assert p in {p};
    assert Kept(v1, v', p);
    forall q | q in v.pages ensures q !in run {
      assert Kept(v, v1, q);
    }
  }

  // ---- when pages can be mapped ----

  ghost predicate PagePaths(run: set<Path>) { forall p :: p in run ==> IsPagePath(p) }

  /** None of the pages is mapped, and the freelist holds a frame for each table and page that is missing. */
  ghost predicate CanMap(m: Mem, r: Frame, g: Ledger, run: set<Path>) {
    && (forall p :: p in run ==> p !in Pages(m, r))
    && |Demand(Present(m, r), run)| <= |g.free|
  }

  /** Exactly the tables and pages on the way to `run` were installed, and their frames taken from the freelist. */
  ghost predicate Took(m: Mem, m': Mem, r: Frame, g: Ledger, g': Ledger, run: set<Path>) {
    && Present(m', r) == Grown(Present(m, r), run)
    && |g'.free| == |g.free| - |Demand(Present(m, r), run)|
  }

  lemma TookMore(m: Mem, m1: Mem, m2: Mem, r: Frame, g: Ledger, g1: Ledger, g2: Ledger, a: set<Path>, b: set<Path>)
    requires Took(m, m1, r, g, g1, a) && Took(m1, m2, r, g1, g2, b)
    ensures Took(m, m2, r, g, g2, a + b)
  {
    DemandAdds(Present(m, r), a, b);
  }

  lemma {:induction false} WayIsShallow(p: Path, q: Path)
    requires Depth(p) <= 4 && q in Way(p) && Depth(q) == 4
    ensures q == p
  {
    if q != p {
      WayIsShorter(p.parent, q);
    }
  }

  lemma {:induction false} WayIsShorter(p: Path, q: Path)
    requires q in Way(p)
    ensures Depth(q) <= Depth(p)
  {
    if q != p {
      WayIsShorter(p.parent, q);
    }
  }

  /** After some pages were mapped, others can be mapped exactly when all of them could have been. */
  lemma CanMapRest(m: Mem, m1: Mem, r: Frame, g: Ledger, g1: Ledger, a: set<Path>, b: set<Path>)
    requires PagePaths(a) && PagePaths(b) && a !! b
    requires CanMap(m, r, g, a) && Took(m, m1, r, g, g1, a)
    ensures CanMap(m1, r, g1, b) <==> CanMap(m, r, g, a + b)
  {
    DemandAdds(Present(m, r), a, b);
    forall p | p in b ensures p in Pages(m1, r) <==> p in Pages(m, r) {
      assert IsPagePath(p);
      if p in Ways(a) {
        var q :| q in a && p in Way(q);
        WayIsShallow(q, p);
      }
      assert p in Pages(m1, r) <==> p in Present(m1, r);
      assert p in Pages(m, r) <==> p in Present(m, r);
    }
    assert forall p :: p in a + b <==> p in a || p in b;
  }

  lemma CanMapPart(m: Mem, r: Frame, g: Ledger, a: set<Path>, b: set<Path>)
    requires CanMap(m, r, g, a + b)
    ensures CanMap(m, r, g, a)
  {
    DemandAdds(Present(m, r), a, b);
  }

  /** A page of a run below 2^47 does not come again. */
  lemma {:induction false} RunGoesOn(start: nat, next: nat, n: nat)
    requires start + 4096 <= next && next + 4096 * n <= TWO_47
    ensures Leaf(start) !in PageRun(next, n) && PagePaths(PageRun(next, n))
    decreases n
  {
    if n > 0 {
      RunGoesOn(start, next + 4096, n - 1);
      DifferentPages(start, next);
      LowAddress(next);
      LeafIsPage(next);
    }
  }

  lemma CanMapFirst(m: Mem, r: Frame, g: Ledger, start: nat, n: nat)
    requires n > 0 && CanMap(m, r, g, PageRun(start, n))
    ensures CanMap(m, r, g, {Leaf(start)})
  {
    hide CanMap, Leaf;
    assert PageRun(start, n) == {Leaf(start)} + PageRun(start + 4096, n - 1);
    CanMapPart(m, r, g, {Leaf(start)}, PageRun(start + 4096, n - 1));
  }

  /** Once the first page of a run is mapped, the rest can be exactly when the whole run could. */
  lemma CanMapTail(m: Mem, m1: Mem, r: Frame, g: Ledger, g1: Ledger, start: nat, n: nat)
    requires n > 0 && start + 4096 * n <= TWO_47
    requires CanMap(m, r, g, {Leaf(start)}) && Took(m, m1, r, g, g1, {Leaf(start)})
    ensures CanMap(m1, r, g1, PageRun(start + 4096, n - 1)) <==> CanMap(m, r, g, PageRun(start, n))
  {
    hide CanMap, Took, Leaf;
    assert PageRun(start, n) == {Leaf(start)} + PageRun(start + 4096, n - 1);
    RunGoesOn(start, start + 4096, n - 1);
    LowAddress(start);
    LeafIsPage(start);
    CanMapRest(m, m1, r, g, g1, {Leaf(start)}, PageRun(start + 4096, n - 1));
  }

  lemma DifferentPages(x: nat, y: nat)
    requires x + 4096 <= y < TWO_47
    ensures Leaf(x) != Leaf(y)
  {
    hide Leaf;
    SamePathSamePage(x, y);
    assert x / 4096 < y / 4096 < 0x8_0000_0000;
  }

  lemma StillRefused(m: Mem, r: Frame, g: Ledger, p: Path)
    requires IsPagePath(p) && (p in Pages(m, r) || g.free == [])
    ensures !CanMap(m, r, g, {p})
  {
    assert p in Way(p) && p in {p};
    assert p in Pages(m, r) <==> p in Present(m, r);
    if p !in Present(m, r) {
      assert p in Demand(Present(m, r), {p});
    }
  }

  /** One page. */
  lemma MapPage(s: Phys, r: Frame, g: Ledger, address: nat, rights: PageRights) returns (s': Phys, ok: bool, g': Ledger)
    requires Inv(s, r, g) && address < TWO_47
    ensures (s', ok) == MapFrom(s, r, address, 4, rights.user, rights.writable, rights.noExecute)
    ensures Inv(s', r, g') && AllKept(ViewOf(s, r), ViewOf(s', r))
    ensures ok <==> CanMap(s.mem, r, g, {Leaf(address)})
    ensures ok ==> RangeAdded(ViewOf(s, r), ViewOf(s', r), {Leaf(address)}, rights)
    ensures ok ==> Took(s.mem, s'.mem, r, g, g', {Leaf(address)}) && |g'.free| < |g.free|
    ensures !ok ==> RangeAdded(ViewOf(s, r), ViewOf(s', r), {}, rights) && !CanMap(s'.mem, r, g', {Leaf(address)})
    ensures |g'.free| <= |g.free| && g'.leaked == g.leaked
  {
    hide Inv, Pages, MapFrom, Missing, Index, Leaf, MapRefined, RangeAdded, CanMap, Took;
    LowAddress(address);
    LeafIsPage(address);
    var k, p := Missing(s.mem, r, address, 4), Leaf(address);
    MapRefines(s, r, g, address, rights.user, rights.writable, rights.noExecute);
    MissingIsDemand(s.mem, r, address);
    var result := MapFrom(s, r, address, 4, rights.user, rights.writable, rights.noExecute);
    s', ok := result.0, result.1;
    g' := g.(free := g.free[Min(k, |g.free|)..]);
    PageAdded(s, s', ok, r, g, k, p, rights);
    if ok {
      MapGrowsBy(s, r, g, address, rights.user, rights.writable, rights.noExecute);
    }
    PageTaken(s, s', ok, r, g, g', k, p, rights);
  }

  lemma PageTaken(s: Phys, s': Phys, ok: bool, r: Frame, g: Ledger, g': Ledger, k: nat, p: Path, rights: PageRights)
    requires MapRefined(s, s', ok, r, g, k, p, rights.user, rights.writable, rights.noExecute) && IsPagePath(p)
    requires k == |Demand(Present(s.mem, r), {p})| && g' == g.(free := g.free[Min(k, |g.free|)..])
    requires ok ==> Present(s'.mem, r) == Grown(Present(s.mem, r), {p})
    ensures Inv(s', r, g') && |g'.free| <= |g.free|
    ensures ok <==> CanMap(s.mem, r, g, {p})
    ensures ok ==> Took(s.mem, s'.mem, r, g, g', {p}) && |g'.free| < |g.free|
    ensures !ok ==> !CanMap(s'.mem, r, g', {p})
  {
    hide Inv, Pages, Present, Demand, KeepsData, IsClear;
    if !ok {
      StillRefused(s'.mem, r, g', p);
    }
  }

  lemma PageAdded(s: Phys, s': Phys, ok: bool, r: Frame, g: Ledger, k: nat, p: Path, rights: PageRights)
    requires MapRefined(s, s', ok, r, g, k, p, rights.user, rights.writable, rights.noExecute)
    ensures RangeAdded(ViewOf(s, r), ViewOf(s', r), if ok then {p} else {}, rights)
    ensures AllKept(ViewOf(s, r), ViewOf(s', r))
  {
    hide Inv, IsClear, Pages;
    var pages := Pages(s.mem, r);
    if ok {
      assert Pages(s'.mem, r) == pages[p := PageInfo(g.free[k - 1], rights.user, rights.writable, rights.noExecute)];
    }
  }
}
