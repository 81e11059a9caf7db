/** The simple view of an address space: a partial map from page number to page.
    Each page-table operation is one update of that map. */
module AddressSpace {
  import opened Words
  import opened Memory
  import opened PageTree
  import opened TreeEdits
  import opened Mapping
  import opened UnmapLowerHalf

  datatype PageInfo = PageInfo(frame: Frame, user: bool, writable: bool, noExecute: bool)

  /** A page of the lower half is named by its four indices; `PageNumbers` relates them to page numbers. */
  predicate IsPagePath(p: Path) { Lower(p) && Depth(p) == 4 }

  type PageMap = imap<Path, PageInfo>

  function InfoOf(e: Word): PageInfo { PageInfo(e.address, e.user, e.writable, e.noExecute) }

  /** The lower half of the address space rooted at r. */
  ghost function Pages(m: Mem, r: Frame): PageMap {
    imap p: Path | IsPagePath(p) && Walk(m, r, p).Some? :: InfoOf(Entry(m, r, p))
  }

  /** The number of the page an address lies in: bits 12 to 47. */
  function PageOf(address: nat): nat { address / 0x1000 % 0x10_0000_0000 }

  // ---- addresses, page numbers and paths ----

  /** The four indices are the base-512 digits of the page number. */
  lemma IndicesOfPage(address: nat)
    ensures PageOf(address) ==
      Index(address, 1) + 512 * (Index(address, 2) + 512 * (Index(address, 3) + 512 * Index(address, 4)))
  {
    var n := address / 0x1000;
    assert address / 0x20_0000 == n / 512;
    var n2 := n / 512;
    assert address / 0x4000_0000 == n2 / 512;
    var n3 := n2 / 512;
    assert address / 0x80_0000_0000 == n3 / 512;
    var n4 := n3 / 512;
    Digits(n, n2, n3, n4);
  }

  lemma Digits(n: nat, n2: nat, n3: nat, n4: nat)
    requires n2 == n / 512 && n3 == n2 / 512 && n4 == n3 / 512
    ensures n % 0x10_0000_0000 == n % 512 + 512 * (n2 % 512 + 512 * (n3 % 512 + 512 * (n4 % 512)))
  {
    Remainder(n, n4 / 512, n % 512 + 512 * (n2 % 512 + 512 * (n3 % 512 + 512 * (n4 % 512))));
  }

  lemma Remainder(n: nat, q: nat, low: nat)
    requires n == low + 0x10_0000_0000 * q && low < 0x10_0000_0000
    ensures n % 0x10_0000_0000 == low
  {
  }

  lemma SameDigits(a: nat, b: nat, c: nat, d: nat, a': nat, b': nat, c': nat, d': nat)
    requires a < 512 && b < 512 && c < 512 && a' < 512 && b' < 512 && c' < 512
    requires a + 512 * (b + 512 * (c + 512 * d)) == a' + 512 * (b' + 512 * (c' + 512 * d'))
    ensures a == a' && b == b' && c == c' && d == d'
  {
    assert b + 512 * (c + 512 * d) == b' + 512 * (c' + 512 * d');
    assert c + 512 * d == c' + 512 * d';
  }

  /** Two addresses share a path exactly when they share a page number. */
  lemma SamePathSamePage(a: nat, b: nat)
    ensures Leaf(a) == Leaf(b) <==> PageOf(a) == PageOf(b)
  {
    IndicesOfPage(a);
    IndicesOfPage(b);
    LeafIs(a);
    LeafIs(b);
    if PageOf(a) == PageOf(b) {
      SameDigits(Index(a, 1), Index(a, 2), Index(a, 3), Index(a, 4),
                 Index(b, 1), Index(b, 2), Index(b, 3), Index(b, 4));
    }
  }

  lemma LeafIs(a: nat)
    ensures Leaf(a) == Sub(Sub(Sub(Sub(Root, Index(a, 4)), Index(a, 3)), Index(a, 2)), Index(a, 1))
  {
    assert Prefix(a, 3) == Sub(Root, Index(a, 4));
    assert Prefix(a, 2) == Sub(Prefix(a, 3), Index(a, 3));
    assert Prefix(a, 1) == Sub(Prefix(a, 2), Index(a, 2));
  }

  lemma WithinPage(start: nat, x: nat)
    requires start % 0x1000 == 0 && start <= x < start + 0x1000
    ensures Leaf(x) == Leaf(start)
  {
    hide Leaf;
    assert x / 0x1000 == start / 0x1000;
    SamePathSamePage(x, start);
  }

  lemma PageOfPage(v: nat)
    ensures PageOf(0x1000 * v) == v % 0x10_0000_0000
  {
  }

  lemma LowerHalfPages(address: nat)
    ensures LowerHalf(address) <==> PageOf(address) < 0x8_0000_0000
  {
    IndicesOfPage(address);
    TopDigit(Index(address, 1), Index(address, 2), Index(address, 3), Index(address, 4));
  }

  lemma TopDigit(a: nat, b: nat, c: nat, d: nat)
    requires a < 512 && b < 512 && c < 512
    ensures d < 256 <==> a + 512 * (b + 512 * (c + 512 * d)) < 0x8_0000_0000
  {
  }

  lemma LeafIsPage(address: nat)
    ensures LowerHalf(address) <==> IsPagePath(Leaf(address))
  {
  }

  /** Lower-half page numbers and page paths are in bijection. */
  lemma PageNumbers(v: nat, address: nat)
    requires v < 0x8_0000_0000
    ensures IsPagePath(Leaf(0x1000 * v))
    ensures Leaf(0x1000 * v) == Leaf(address) <==> v == PageOf(address)
  {
    assert PageOf(0x1000 * v) == v by { PageOfPage(v); }
    SamePathSamePage(0x1000 * v, address);
    LowerHalfPages(0x1000 * v);
    LeafIsPage(0x1000 * v);
  }

  /** A page path has four indices, the first below 256. */
  lemma FourIndices(p: Path) returns (a: nat, b: nat, c: nat, d: nat)
    requires IsPagePath(p)
    ensures a < 512 && b < 512 && c < 512 && d < 256 && p == Sub(Sub(Sub(Sub(Root, d), c), b), a)
  {
    var p1 := p.parent;
    assert Depth(p1) == 3 && Valid(p1) && Top(p) == Top(p1);
    var p2 := p1.parent;
    assert Depth(p2) == 2 && Valid(p2) && Top(p1) == Top(p2);
    var p3 := p2.parent;
    assert Depth(p3) == 1 && Valid(p3) && Top(p2) == Top(p3);
    assert p3.parent == Root;
    a, b, c, d := p.index, p1.index, p2.index, p3.index;
  }

  /** Every page path is the path of some page number. */
  lemma EveryPageHasANumber(p: Path) returns (v: nat)
    requires IsPagePath(p)
    ensures v < 0x8_0000_0000 && Leaf(0x1000 * v) == p
  {
    hide Index, IsPagePath, Leaf, PageOf;
    var a, b, c, d := FourIndices(p);
    v := a + 512 * (b + 512 * (c + 512 * d));
    var address := 0x1000 * v;
    TopDigit(a, b, c, d);
    PageOfPage(v);
    IndicesOfPage(address);
    SameDigits(Index(address, 1), Index(address, 2), Index(address, 3), Index(address, 4), a, b, c, d);
    LeafIs(address);
  }

  const TWO_47: nat := 0x8000_0000_0000

  lemma LowAddress(a: nat)
    requires a < TWO_47
    ensures LowerHalf(a)
  {
    LowerHalfPages(a);
  }

  // ---- what the operations do to the map ----

  /** Two maps that agree everywhere but at one page. */
  lemma AgreeElsewhere(a: PageMap, b: PageMap, target: Path)
    requires forall p :: p != target ==> (p in b <==> p in a) && (p in a ==> b[p] == a[p])
    ensures target in b ==> b == a[target := b[target]]
    ensures target !in b ==> b == a - {target}
    ensures (target in a <==> target in b) && (target in a ==> b[target] == a[target]) ==> b == a
  {
  }

  /** Changing one page's entry changes the map at that page only. */
  lemma PagesAfter(m: Mem, m': Mem, r: Frame, target: Path)
    requires KeepsEntries(m, m', r, target) && IsPagePath(target)
    ensures Walk(m', r, target).Some? ==> Pages(m', r) == Pages(m, r)[target := InfoOf(Entry(m', r, target))]
    ensures Walk(m', r, target).None? ==> Pages(m', r) == Pages(m, r) - {target}
    ensures Entry(m', r, target) == Entry(m, r, target) ==> Pages(m', r) == Pages(m, r)
  {
    forall p | p != target
      ensures (p in Pages(m', r) <==> p in Pages(m, r)) && (p in Pages(m, r) ==> Pages(m', r)[p] == Pages(m, r)[p])
    {
      SamePagesElsewhere(m, m', r, target, p);
    }
    assert Entry(m', r, target) == Entry(m, r, target) ==> Walk(m', r, target) == Walk(m, r, target);
    hide Walk, Entry, KeepsEntries;
    AgreeElsewhere(Pages(m, r), Pages(m', r), target);
  }

  lemma SamePagesElsewhere(m: Mem, m': Mem, r: Frame, target: Path, p: Path)
    requires KeepsEntries(m, m', r, target) && p != target
    ensures p in Pages(m', r) <==> p in Pages(m, r)
    ensures p in Pages(m, r) ==> Pages(m', r)[p] == Pages(m, r)[p]
  {
    if IsPagePath(p) {
      assert Entry(m', r, p) == Entry(m, r, p);
    }
  }

  /** Every mapped page, except the one at `target`, still holds what it held. */
  ghost predicate KeepsData(m: Mem, m': Mem, r: Frame, target: Path) {
    forall p :: p in Pages(m, r) && p != target ==> SamePage(m, m', Pages(m, r)[p].frame)
  }

  /** What `vm_map` did, in terms of the map: k frames were wanted. */
  ghost predicate MapRefined(s: Phys, s': Phys, ok: bool, r: Frame, g: Ledger, k: nat, page: Path,
                             user: bool, writable: bool, noExecute: bool)
  {
    && Inv(s', r, g.(free := g.free[Min(k, |g.free|)..]))
    && (k == 0 <==> page in Pages(s.mem, r))
    && ok == (page !in Pages(s.mem, r) && k <= |g.free|)
    && (k == 0 ==> s' == s)
    && KeepsData(s.mem, s'.mem, r, page)
    && (!ok ==> Pages(s'.mem, r) == Pages(s.mem, r))
    && (ok ==>
         && Pages(s'.mem, r) == Pages(s.mem, r)[page := PageInfo(g.free[k - 1], user, writable, noExecute)]
         && IsClear(s'.mem, g.free[k - 1]))
  }

  lemma MapResultRefines(s: Phys, s': Phys, ok: bool, r: Frame, g: Ledger, k: nat, page: Path,
                         user: bool, writable: bool, noExecute: bool)
    requires IsPagePath(page) && MapResult(s, s', ok, r, g, k, page, user, writable, noExecute)
    requires k == 0 <==> Walk(s.mem, r, page).Some?
    ensures MapRefined(s, s', ok, r, g, k, page, user, writable, noExecute)
  {
    hide Inv, KeepsEntries, SamePage, IsClear;
    PagesAfter(s.mem, s'.mem, r, page);
  }

  /** `vm_map` is one insertion of a fresh clear page. It succeeds exactly when the page was unmapped and
      the freelist holds the missing tables and the page; when it fails no translation has changed. */
  lemma MapRefines(s: Phys, r: Frame, g: Ledger, address: nat, user: bool, writable: bool, executable: bool)
    requires Inv(s, r, g) && LowerHalf(address)
    ensures var (s', ok) := MapFrom(s, r, address, 4, user, writable, executable);
      && MapRefined(s, s', ok, r, g, Missing(s.mem, r, address, 4), Leaf(address), user, writable, executable)
      && WayFilled(s.mem, s'.mem, r, g.free, Missing(s.mem, r, address, 4), address, user, writable, executable)
      && OffWayKept(s.mem, s'.mem, r, address)
  {
    assert Prefix(address, 4) == Root && Walk(s.mem, r, Root) == Some(r);
    MapFromSpec(s, r, g, address, 4, user, writable, executable);
    var (s', ok) := MapFrom(s, r, address, 4, user, writable, executable);
    MissingNothing(s.mem, r, address, 4);
    MapResultRefines(s, s', ok, r, g, Missing(s.mem, r, address, 4), Leaf(address), user, writable, executable);
  }

  lemma {:induction false} MissingNothing(m: Mem, r: Frame, address: nat, level: TableLevel)
    ensures Missing(m, r, address, level) == 0 <==> Walk(m, r, Leaf(address)).Some?
    decreases level
  {
    if Walk(m, r, Prefix(address, level - 1)).None? {
      AbsentBelow(m, r, address, level - 1);
    } else if level > 1 {
      MissingNothing(m, r, address, level - 1);
    }
  }

  /** What `vm_unmap` did: one removal; the page's frame is at the front of the freelist. */
  ghost predicate UnmapRefined(s: Phys, s': Phys, ok: bool, r: Frame, g: Ledger, page: Path) {
    && ok == (page in Pages(s.mem, r))
    && (!ok ==> s' == s)
    && (ok ==>
         && Inv(s', r, g.(free := [Pages(s.mem, r)[page].frame] + g.free))
         && Pages(s'.mem, r) == Pages(s.mem, r) - {page}
         && KeepsData(s.mem, s'.mem, r, page))
  }

  lemma UnmapResultRefines(s: Phys, s': Phys, ok: bool, r: Frame, g: Ledger, page: Path)
    requires IsPagePath(page) && UnmapResult(s, s', ok, r, g, page)
    ensures UnmapRefined(s, s', ok, r, g, page)
  {
    hide Inv, KeepsEntries, SamePage;
    if ok {
      PagesAfter(s.mem, s'.mem, r, page);
    }
  }

  lemma UnmapRefines(s: Phys, r: Frame, g: Ledger, address: nat)
    requires Inv(s, r, g) && LowerHalf(address)
    ensures var (s', ok) := UnmapFrom(s, r, address, 4);
      && UnmapRefined(s, s', ok, r, g, Leaf(address))
      && (ok ==> Edited(s.mem, s'.mem, r, Leaf(address), Entry(s.mem, r, Leaf(address)).(present := false)))
  {
    assert Prefix(address, 4) == Root && Walk(s.mem, r, Root) == Some(r);
    UnmapFromSpec(s, r, g, address, 4);
    var (s', ok) := UnmapFrom(s, r, address, 4);
    UnmapResultRefines(s, s', ok, r, g, Leaf(address));
  }

  /** What `vm_protect` did: the rights of one page are rewritten and no page moves or changes. */
  ghost predicate ProtectRefined(s: Phys, s': Phys, ok: bool, r: Frame, g: Ledger, page: Path,
                                 user: bool, writable: bool, noExecute: bool)
  {
    && ok == (page in Pages(s.mem, r))
    && (!ok ==> s' == s)
    && Inv(s', r, g)
    && (ok ==>
         && Pages(s'.mem, r) ==
            Pages(s.mem, r)[page := PageInfo(Pages(s.mem, r)[page].frame, user, writable, noExecute)]
         && KeepsData(s.mem, s'.mem, r, page) && SamePage(s.mem, s'.mem, Pages(s.mem, r)[page].frame))
  }

  lemma ProtectResultRefines(s: Phys, s': Phys, ok: bool, r: Frame, g: Ledger, page: Path,
                             user: bool, writable: bool, noExecute: bool)
    requires Inv(s, r, g) && IsPagePath(page) && ProtectResult(s, s', ok, r, g, page, user, writable, noExecute)
    ensures ProtectRefined(s, s', ok, r, g, page, user, writable, noExecute)
  {
    hide Inv, KeepsEntries, SamePage;
    if ok {
      PagesAfter(s.mem, s'.mem, r, page);
    }
  }

  lemma ProtectRefines(s: Phys, r: Frame, g: Ledger, address: nat, user: bool, writable: bool, executable: bool)
    requires Inv(s, r, g) && LowerHalf(address)
    ensures var (s', ok) := ProtectFrom(s, r, address, 4, user, writable, executable);
      && ProtectRefined(s, s', ok, r, g, Leaf(address), user, writable, executable)
      && (ok ==> Edited(s.mem, s'.mem, r, Leaf(address), Entry(s.mem, r, Leaf(address)).(user := user,
          writable := writable, noExecute := executable)))
  {
    assert Prefix(address, 4) == Root && Walk(s.mem, r, Root) == Some(r);
    ProtectFromSpec(s, r, g, address, 4, user, writable, executable);
    var (s', ok) := ProtectFrom(s, r, address, 4, user, writable, executable);
    ProtectResultRefines(s, s', ok, r, g, Leaf(address), user, writable, executable);
  }

  /** `unmap_lower_half` empties the map. */
  lemma UnmapLowerRefines(s: Phys, r: Frame, g: Ledger)
    requires Inv(s, r, g)
    ensures Inv(UnmapLower(s, r), r, Unmapped(s.mem, r, g)) && Pages(UnmapLower(s, r).mem, r) == imap[]
  {
    UnmapLowerKeepsInv(s, r, g);
  }

  /** A store of one cell through a mapped page changes that cell of that page and nothing else. */
  lemma StoreRefines(s: Phys, r: Frame, g: Ledger, page: Path, j: nat, w: Word)
    requires Inv(s, r, g) && page in Pages(s.mem, r) && j < ENTRIES
    ensures
      var f := Pages(s.mem, r)[page].frame;
      var s' := s.(mem := Put(s.mem, f, j, w));
      && Inv(s', r, g) && Pages(s'.mem, r) == Pages(s.mem, r)
      && (forall i: nat | i < ENTRIES :: At(s'.mem, f, i) == if i == j then w else At(s.mem, f, i))
      && KeepsData(s.mem, s'.mem, r, page)
  {
    DataStep(s, r, g, page, j, w);
    PagesAfter(s.mem, Put(s.mem, Pages(s.mem, r)[page].frame, j, w), r, page);
  }

  /** Mapping a page and unmapping it again restores the map. The freelist loses exactly the tables that
      had to be installed; if none was missing it is restored as it was. */
  lemma MapThenUnmap(s: Phys, r: Frame, g: Ledger, address: nat, user: bool, writable: bool, executable: bool)
    requires Inv(s, r, g) && LowerHalf(address)
    requires MapFrom(s, r, address, 4, user, writable, executable).1
    ensures
      var k := Missing(s.mem, r, address, 4);
      var s1 := MapFrom(s, r, address, 4, user, writable, executable).0;
      var (s2, ok) := UnmapFrom(s1, r, address, 4);
      && ok && 1 <= k <= |g.free|
      && Pages(s2.mem, r) == Pages(s.mem, r)
      && Chain(s2, g.free[k - 1..])
      && (k == 1 ==> Chain(s2, g.free))
  {
    hide Inv, Pages, MapFrom, UnmapFrom, Missing, KeepsData, IsClear, Chain;
    var k := Missing(s.mem, r, address, 4);
    MapRefines(s, r, g, address, user, writable, executable);
    var s1 := MapFrom(s, r, address, 4, user, writable, executable).0;
    UnmapRefines(s1, r, g.(free := g.free[k..]), address);
    var (s2, ok) := UnmapFrom(s1, r, address, 4);
    InsertThenRemove(s, s1, s2, ok, r, g, k, Leaf(address), user, writable, executable);
  }

  lemma InsertThenRemove(s: Phys, s1: Phys, s2: Phys, ok: bool, r: Frame, g: Ledger, k: nat, page: Path,
                         user: bool, writable: bool, noExecute: bool)
    requires k <= |g.free| && MapRefined(s, s1, true, r, g, k, page, user, writable, noExecute)
    requires UnmapRefined(s1, s2, ok, r, g.(free := g.free[k..]), page)
    ensures ok && 1 <= k && Pages(s2.mem, r) == Pages(s.mem, r)
    ensures Chain(s2, g.free[k - 1..]) && (k == 1 ==> Chain(s2, g.free))
  {
    hide Pages, KeepsData, IsClear, Chain, Tree, NoLargePages, Permissive, Partition;
    var pages, info := Pages(s.mem, r), PageInfo(g.free[k - 1], user, writable, noExecute);
    RemoveInserted(pages, page, info);
    var pages1 := Pages(s1.mem, r);
    assert pages1 == pages[page := info];
    assert Chain(s2, [info.frame] + g.free[k..]);
    assert g.free[k - 1..] == [info.frame] + g.free[k..];
    assert g.free[0..] == g.free;
  }

  lemma RemoveInserted(pages: PageMap, page: Path, info: PageInfo)
    requires page !in pages
    ensures pages[page := info] - {page} == pages && page in pages[page := info] && pages[page := info][page] == info
  {
  }

  // ---- access rights ----

  /** The rights the processor grants: every level must allow user access and writing, none may forbid execution. */
  ghost function Rights(m: Mem, r: Frame, address: nat): (bool, bool, bool) {
    var e4, e3 := Entry(m, r, Prefix(address, 3)), Entry(m, r, Prefix(address, 2));
    var e2, e1 := Entry(m, r, Prefix(address, 1)), Entry(m, r, Prefix(address, 0));
    (e4.user && e3.user && e2.user && e1.user,
     e4.writable && e3.writable && e2.writable && e1.writable,
     e4.noExecute || e3.noExecute || e2.noExecute || e1.noExecute)
  }

  /** For a mapped page they are the page entry's own bits. */
  lemma RightsAreThePages(s: Phys, r: Frame, g: Ledger, address: nat)
    requires Inv(s, r, g) && LowerHalf(address) && Leaf(address) in Pages(s.mem, r)
    ensures var p := Pages(s.mem, r)[Leaf(address)];
      Rights(s.mem, r, address) == (p.user, p.writable, p.noExecute)
  {
    assert Prefix(address, 0).parent == Prefix(address, 1) && Prefix(address, 1).parent == Prefix(address, 2);
    assert Prefix(address, 2).parent == Prefix(address, 3);
    assert Walk(s.mem, r, Prefix(address, 1)).Some?;
    assert Walk(s.mem, r, Prefix(address, 2)).Some?;
    assert Walk(s.mem, r, Prefix(address, 3)).Some?;
  }
}
