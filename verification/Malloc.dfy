/** The user library's `malloc`: a bump allocator of bytes over `mmap`. */
module Malloc {
  import opened Words
  import opened Memory
  import opened PageTree
  import opened Mapping
  import opened AddressSpace
  import opened FrameDemand
  import opened PageRanges
  import opened Pager
  import opened Mmap
  import opened VirtualBytes

  // MAP_ANONYMOUS | MAP_PRIVATE, which the kernel reads as writable and executable.
  const MAP_FLAGS: int := 3

  // What `mmap` returns when the system call returns -1.
  const FAILED: nat := 0xFFFF_FFFF_FFFF_FFFF

  /** A 64-bit unsigned result. */
  function Wrap(x: nat): (r: nat)
    ensures r < TWO_64 && (x < 2 * TWO_64 ==> r == x || r + TWO_64 == x)
  {
    if x < TWO_64 then x else x % 0x1_0000_0000_0000_0000
  }

  /** A 64-bit unsigned difference. */
  function Less(x: nat, y: nat): (r: nat)
    requires y < TWO_64
    ensures (r + y == x || r + y == x + TWO_64) && (x < TWO_64 ==> r < TWO_64)
  {
    if y <= x then x - y else x + TWO_64 - y
  }

  /** The macro ROUND_UP on 64-bit unsigned numbers, for the two multiples it is used with. The last few numbers
      wrap around to 0. */
  function RoundUp(x: nat, y: nat): (n: nat)
    requires x < TWO_64 && (y == 16 || y == 4096)
    ensures n < TWO_64 && (n == 0 || x <= n < x + y)
    ensures (y == 16 ==> n % 16 == 0) && (y == 4096 ==> n % 4096 == 0)
    ensures n == 0 <==> x == 0 || x > TWO_64 - y
  {
    if y == 16 then
      if x % 16 == 0 then x else
      Next16(x);
      Wrap(x + (16 - x % 16))
    else if x % 4096 == 0 then x else
      Next4096(x);
      Wrap(x + (4096 - x % 4096))
  }

  lemma Next16(x: nat)
    ensures (x + (16 - x % 16)) % 16 == 0 && (x < TWO_64 ==> x + (16 - x % 16) <= TWO_64)
  {
    assert x + (16 - x % 16) == 16 * (x / 16 + 1);
  }

  lemma Next4096(x: nat)
    ensures (x + (4096 - x % 4096)) % 4096 == 0 && (x < TWO_64 ==> x + (4096 - x % 4096) <= TWO_64)
  {
    assert x + (4096 - x % 4096) == 4096 * (x / 4096 + 1);
  }

  /** The globals `bump` and `space_remaining`. */
  datatype Heap = Heap(bump: nat, space: nat)

  datatype World = World(phys: Phys, next: nat, heap: Heap)

  /** A size_t. */
  type Size = n: nat | n < 0x1_0000_0000_0000_0000

  /** Does this request call `mmap`? */
  predicate NeedsMmap(heap: Heap, sz: Size) {
    heap.space < RoundUp(sz, 16)
  }

  /** The length of the `mmap` call a request makes. */
  function RefillLength(sz: Size): nat { RoundUp(RoundUp(sz, 16), 4096) }

  /** The `mmap` call a request makes; length 0 is refused. */
  function Refill(w: World, r: Frame, sz: Size): (Phys, nat, bool) {
    if RefillLength(sz) == 0 then (w.phys, w.next, false)
    else MmapFrom(w.phys, r, w.next, w.next, Signed(RefillLength(sz)), false, MAP_FLAGS)
  }

  /** The call reports success, and its length was not read as a negative number. */
  predicate RefillOk(w: World, r: Frame, sz: Size) { Refill(w, r, sz).2 && RefillLength(sz) < TWO_63 }

  /** The condition under which it does. */
  ghost predicate CanRefill(w: World, r: Frame, g: Ledger, sz: Size) {
    0 < RefillLength(sz) < TWO_63 && CanMmap(w.phys.mem, r, g, w.next, RefillLength(sz))
  }

  /** The addresses a request may get lie below 2^47, or at least those that there are frames for do. */
  ghost predicate Room(next: nat, sz: Size, g: Ledger) {
    next + sz + 0x3000 < TWO_47 || next + 4096 * |g.free| < TWO_47
  }

  function MallocStep(w: World, r: Frame, sz: Size): (World, nat) {
    var n := RoundUp(sz, 16);
    if NeedsMmap(w.heap, sz) then
      var (phys, next, ok) := Refill(w, r, sz);
      var newmem := if ok then w.next else FAILED;
      if newmem == 0 then (World(phys, next, w.heap), 0)
      else (World(phys, next, Heap(Wrap(newmem + n), Less(RefillLength(sz), n))), newmem)
    else (w.(heap := Heap(Wrap(w.heap.bump + n), w.heap.space - n)), w.heap.bump)
  }

  /** A page a program can read, write and execute. */
  predicate HeapPage(p: PageInfo) { p.user && p.writable && !p.noExecute }

  /** Every byte of [a, a + n) lies in such a page. */
  ghost predicate HeapRange(pages: PageMap, a: nat, n: nat) {
    forall x: nat :: a <= x < a + n ==> Leaf(x) in pages && HeapPage(pages[Leaf(x)])
  }

  /** A program may use the bytes of [a, a + n): each lies in a mapped page, and the entries of all four levels
      together allow user access, writing and execution. */
  ghost predicate Usable(m: Mem, r: Frame, a: nat, n: nat) {
    forall x: nat :: a <= x < a + n ==> Leaf(x) in Pages(m, r) && Rights(m, r, x) == (true, true, false)
  }

  lemma UsableIsHeapRange(s: Phys, r: Frame, g: Ledger, a: nat, n: nat)
    requires Inv(s, r, g)
    ensures Usable(s.mem, r, a, n) <==> HeapRange(Pages(s.mem, r), a, n)
  {
    hide Inv, Leaf, Rights, LowerHalf;
    forall x: nat | Leaf(x) in Pages(s.mem, r)
      ensures Rights(s.mem, r, x) == (true, true, false) <==> HeapPage(Pages(s.mem, r)[Leaf(x)])
    {
      LeafIsPage(x);
      RightsAreThePages(s, r, g, x);
    }
  }

  /** The unissued region and the blocks issued so far are usable, aligned, and mutually disjoint. */
  ghost predicate HeapOk(w: World, r: Frame, blocks: seq<Block>) {
    && w.next % 4096 == 0
    && w.heap.bump % 16 == 0 && w.heap.space % 16 == 0 && w.heap.bump + w.heap.space <= w.next
    && HeapRange(Pages(w.phys.mem, r), w.heap.bump, w.heap.space)
    && (forall i :: 0 <= i < |blocks| ==> BlockOk(w, r, blocks[i]))
    && (forall i, j :: 0 <= i < j < |blocks| ==> Apart(blocks[i], blocks[j]))
  }

  /** An issued block: aligned, usable, and not in the unissued region or above it. */
  ghost predicate BlockOk(w: World, r: Frame, b: Block) {
    && b.start % 16 == 0 && b.start + b.length <= w.next
    && HeapRange(Pages(w.phys.mem, r), b.start, b.length)
    && Apart(b, Block(w.heap.bump, w.heap.space))
  }

  /** A program may use every byte issued so far, and what is still unissued. */
  ghost predicate HeapUsable(w: World, r: Frame, blocks: seq<Block>) {
    && Usable(w.phys.mem, r, w.heap.bump, w.heap.space)
    && (forall i :: 0 <= i < |blocks| ==> Usable(w.phys.mem, r, blocks[i].start, blocks[i].length))
  }

  lemma HeapIsUsable(w: World, r: Frame, g: Ledger, blocks: seq<Block>)
    requires Inv(w.phys, r, g) && HeapOk(w, r, blocks)
    ensures HeapUsable(w, r, blocks)
  {
    hide Inv, Pages, Usable, HeapRange;
    UsableIsHeapRange(w.phys, r, g, w.heap.bump, w.heap.space);
    forall i | 0 <= i < |blocks| ensures Usable(w.phys.mem, r, blocks[i].start, blocks[i].length) {
      assert BlockOk(w, r, blocks[i]);
      UsableIsHeapRange(w.phys, r, g, blocks[i].start, blocks[i].length);
    }
  }

  predicate Apart(a: Block, b: Block) {
    a.length == 0 || b.length == 0 || a.start + a.length <= b.start || b.start + b.length <= a.start
  }

  lemma RoomFits(next: nat, sz: Size, g: Ledger)
    requires Room(next, sz, g)
    ensures next < TWO_47 && Fits(next, RefillLength(sz), g)
  {
  }

  /** Whether a refill succeeds is decided by the state: it does exactly when none of its pages is mapped and the
      freelist holds a frame for each table and page that is missing. */
  lemma RefillSucceedsIff(w: World, r: Frame, g: Ledger, sz: Size)
    requires Inv(w.phys, r, g) && Room(w.next, sz, g)
    ensures RefillOk(w, r, sz) <==> CanRefill(w, r, g, sz)
  {
    hide MapFrom, MmapFrom, Inv, Pages, CanMmap, RoundUp;
    RoomFits(w.next, sz, g);
    if 0 < RefillLength(sz) < TWO_63 {
      var _, _, _, _, _, _ := MmapSpec(w.phys, r, g, w.next, RefillLength(sz), MAP_FLAGS);
    }
  }

  /** A successful refill makes the whole new region usable and keeps what was mapped. */
  lemma RefillMaps(w: World, r: Frame, g: Ledger, sz: Size) returns (phys: Phys, next: nat, g': Ledger)
    requires Inv(w.phys, r, g) && w.next % 4096 == 0 && Room(w.next, sz, g)
    requires RefillOk(w, r, sz)
    ensures var len := RefillLength(sz);
      && (phys, next, true) == Refill(w, r, sz) && Inv(phys, r, g')
      && next == w.next + len <= TWO_47 && next + 4096 * |g'.free| <= w.next + 4096 * |g.free|
      && HeapRange(Pages(phys.mem, r), w.next, len)
      && AllKept(ViewOf(w.phys, r), ViewOf(phys, r))
      && (forall x: nat :: w.next <= x < w.next + len ==> Leaf(x) !in Pages(w.phys.mem, r))
  {
    hide MapFrom, MmapFrom, Inv, Index, Pages, RoundUp, PageRun, CanMap, OnlyGranted;
    var len := RefillLength(sz);
    RoomFits(w.next, sz, g);
    var ok, n, run;
    phys, next, ok, g', n, run := MmapSpec(w.phys, r, g, w.next, len, MAP_FLAGS);
    assert 4096 * n == len;
    forall x: nat | w.next <= x < w.next + len
      ensures Leaf(x) in Pages(phys.mem, r) && HeapPage(Pages(phys.mem, r)[Leaf(x)])
      ensures Leaf(x) !in Pages(w.phys.mem, r)
    {
      RunCoversBytes(w.next, n, x);
    }
  }

  /** Any refill, successful or not, keeps everything mapped. */
  lemma RefillKeeps(w: World, r: Frame, g: Ledger, sz: Size) returns (phys: Phys, next: nat, ok: bool, g': Ledger)
    requires Inv(w.phys, r, g) && Room(w.next, sz, g)
    ensures (phys, next, ok) == Refill(w, r, sz) && Inv(phys, r, g')
    ensures AllKept(ViewOf(w.phys, r), ViewOf(phys, r))
    ensures w.next <= next && next + 4096 * |g'.free| <= w.next + 4096 * |g.free|
  {
    hide MapFrom, MmapFrom, Inv, Index, Pages, RoundUp, PageRun, CanMap, SamePage;
    RoomFits(w.next, sz, g);
    var len := RefillLength(sz);
    phys, next, ok, g' := w.phys, w.next, false, g;
    if len >= TWO_63 {
      phys, ok, g' := MapPage(w.phys, r, g, w.next, FlagRights(MAP_FLAGS));
      next := if ok then w.next + 4096 else w.next;
      HugeLengthMapsOnePage(w.phys, r, w.next, w.next, len, false, MAP_FLAGS);
    } else if len > 0 {
      var n, run;
      phys, next, ok, g', n, run := MmapSpec(w.phys, r, g, w.next, len, MAP_FLAGS);
    } else {
      KeptItself(ViewOf(w.phys, r));
    }
  }

  lemma KeptItself(v: View)
    ensures AllKept(v, v)
  {
  }

  /** A request whose `mmap` succeeds, or that needs none, issues a fresh aligned block of at least the requested
      size, all of which the program may use. */
  lemma MallocKeepsHeapOk(w: World, r: Frame, g: Ledger, blocks: seq<Block>, sz: Size) returns (g': Ledger)
    requires Inv(w.phys, r, g) && HeapOk(w, r, blocks) && Room(w.next, sz, g)
    requires NeedsMmap(w.heap, sz) ==> RefillOk(w, r, sz) && w.next != 0
    ensures var (w', p) := MallocStep(w, r, sz);
      && Inv(w'.phys, r, g') && HeapOk(w', r, blocks + [Block(p, RoundUp(sz, 16))])
      && HeapUsable(w', r, blocks + [Block(p, RoundUp(sz, 16))])
      && w.next <= w'.next && w'.next + 4096 * |g'.free| <= w.next + 4096 * |g.free|
  {
    hide Inv, Pages, MmapFrom, Leaf, Refill, HeapOk, HeapUsable, MallocStep, RoundUp, HeapRange, RefillOk, AllKept;
    var n := RoundUp(sz, 16);
    HeapFacts(w, r, blocks);
    g' := g;
    if NeedsMmap(w.heap, sz) {
      g' := IssueFresh(w, r, g, blocks, sz);
    } else {
      StepWithoutMmap(w, r, sz);
      assert n % 16 == 0 && (w.heap.space - n) % 16 == 0 by { SixteenMultiples(w.heap.space, n); }
      Carve(w, w.(heap := Heap(w.heap.bump + n, w.heap.space - n)), r, blocks, w.heap.bump, n);
    }
    var result := MallocStep(w, r, sz);
    HeapIsUsable(result.0, r, g', blocks + [Block(result.1, n)]);
  }

  /** The case that calls `mmap`. */
  lemma IssueFresh(w: World, r: Frame, g: Ledger, blocks: seq<Block>, sz: Size) returns (g': Ledger)
    requires Inv(w.phys, r, g) && HeapOk(w, r, blocks) && Room(w.next, sz, g)
    requires NeedsMmap(w.heap, sz) && RefillOk(w, r, sz) && w.next != 0
    ensures var (w', p) := MallocStep(w, r, sz);
      && Inv(w'.phys, r, g') && HeapOk(w', r, blocks + [Block(p, RoundUp(sz, 16))])
      && w.next <= w'.next && w'.next + 4096 * |g'.free| <= w.next + 4096 * |g.free|
  {
    hide Inv, Pages, MmapFrom, Leaf, Refill, HeapOk, MallocStep, RoundUp, HeapRange, RefillOk, AllKept, NeedsMmap, Room,
      RefillLength;
    var n, len := RoundUp(sz, 16), RefillLength(sz);
    HeapFacts(w, r, blocks);
    var phys, next;
    phys, next, g' := RefillMaps(w, r, g, sz);
    StepWithMmap(w, r, sz, next);
    KeptPages(ViewOf(w.phys, r), ViewOf(phys, r));
    FreshMultiples(w.next, len, n);
    Carve(w, World(phys, next, Heap(w.next + n, len - n)), r, blocks, w.next, n);
  }

  lemma FreshMultiples(next: nat, len: nat, n: nat)
    requires next % 4096 == 0 && len % 4096 == 0 && n % 16 == 0
    ensures next % 16 == 0 && (len - n) % 16 == 0 && (next + len) % 4096 == 0
  {
    PageMultiples(next, 0);
    PageMultiples(len, n);
    PagesAdd(next, len);
  }

  lemma PagesAdd(a: nat, b: nat)
    requires a % 4096 == 0 && b % 4096 == 0
    ensures (a + b) % 4096 == 0
  {
  }

  lemma KeptPages(v: View, v': View)
    requires AllKept(v, v')
    ensures forall p :: p in v.pages ==> p in v'.pages && v'.pages[p] == v.pages[p]
  {
    forall p | p in v.pages ensures p in v'.pages && v'.pages[p] == v.pages[p] {
      assert Kept(v, v', p);
    }
  }

  lemma SixteenMultiples(a: nat, b: nat)
    requires a % 16 == 0 && b % 16 == 0
    ensures (a - b) % 16 == 0
  {
  }

  lemma PageMultiples(a: nat, b: nat)
    requires a % 4096 == 0 && b % 16 == 0
    ensures (a - b) % 16 == 0
  {
    var p, q := a / 4096, b / 16;
    assert a == 4096 * p && b == 16 * q;
    Sixteens(a - b, 256 * p - q);
  }

  lemma Sixteens(n: int, k: int)
    requires n == 16 * k
    ensures n % 16 == 0
  {
  }

  /** What a step is when nothing wraps around. */
  lemma StepWithoutMmap(w: World, r: Frame, sz: Size)
    requires !NeedsMmap(w.heap, sz) && w.heap.bump + w.heap.space <= TWO_47
    ensures var n := RoundUp(sz, 16);
      && n <= w.heap.space
      && MallocStep(w, r, sz) == (w.(heap := Heap(w.heap.bump + n, w.heap.space - n)), w.heap.bump)
  {
    hide Refill, RoundUp;
  }

  lemma StepWithMmap(w: World, r: Frame, sz: Size, next: nat)
    requires NeedsMmap(w.heap, sz) && RefillOk(w, r, sz) && w.next != 0
    requires next == Refill(w, r, sz).1 == w.next + RefillLength(sz) <= TWO_47
    ensures var n := RoundUp(sz, 16);
      && 0 < n <= RefillLength(sz) && n % 16 == 0 && RefillLength(sz) % 4096 == 0
      && MallocStep(w, r, sz) == (World(Refill(w, r, sz).0, next, Heap(w.next + n, RefillLength(sz) - n)), w.next)
  {
    hide MmapFrom;
  }

  lemma HeapFacts(w: World, r: Frame, blocks: seq<Block>)
    requires HeapOk(w, r, blocks)
    ensures w.next % 4096 == 0 && w.heap.bump + w.heap.space <= w.next
    ensures w.heap.bump % 16 == 0 && w.heap.space % 16 == 0
    ensures HeapRange(Pages(w.phys.mem, r), w.heap.bump, w.heap.space)
  {
  }

  /** Issuing n bytes from the front of a region: the unissued one, or a fresh one above everything. */
  lemma Carve(w: World, w': World, r: Frame, blocks: seq<Block>, start: nat, n: nat)
    requires HeapOk(w, r, blocks)
    requires w'.next % 4096 == 0 && w.next <= w'.next && start % 16 == 0 && n % 16 == 0 && w'.heap.space % 16 == 0
    requires w'.heap.bump == start + n && w'.heap.bump + w'.heap.space <= w'.next
    requires HeapRange(Pages(w'.phys.mem, r), start, n + w'.heap.space)
    requires forall p :: p in Pages(w.phys.mem, r) ==>
      p in Pages(w'.phys.mem, r) && Pages(w'.phys.mem, r)[p] == Pages(w.phys.mem, r)[p]
    requires w.next <= start || (start == w.heap.bump && n + w'.heap.space == w.heap.space)
    ensures HeapOk(w', r, blocks + [Block(start, n)])
  {
    hide Pages, HeapRange, BlockOk, Apart;
    RangeParts(Pages(w'.phys.mem, r), start, n, w'.heap.space);
    SixteensAdd(start, n);
    NewBlock(w', r, start, n);
    forall i | 0 <= i < |blocks| ensures BlockOk(w', r, blocks[i]) && Apart(blocks[i], Block(start, n)) {
      assert BlockOk(w, r, blocks[i]);
      KeptBlock(w, w', r, blocks[i], start, n);
    }
    var all := blocks + [Block(start, n)];
    forall i | 0 <= i < |all| ensures BlockOk(w', r, all[i]) {
      assert i < |blocks| ==> all[i] == blocks[i];
    }
    forall i, j | 0 <= i < j < |all| ensures Apart(all[i], all[j]) {
      assert all[i] == blocks[i];
      assert j < |blocks| ==> all[j] == blocks[j];
    }
  }

  lemma SixteensAdd(a: nat, b: nat)
    requires a % 16 == 0 && b % 16 == 0
    ensures (a + b) % 16 == 0
  {
  }

  /** A block issued before stays as it was, apart from the new one and from the rest. */
  lemma KeptBlock(w: World, w': World, r: Frame, b: Block, start: nat, n: nat)
    requires BlockOk(w, r, b) && w.next <= w'.next && w'.heap.bump == start + n
    requires forall p :: p in Pages(w.phys.mem, r) ==>
      p in Pages(w'.phys.mem, r) && Pages(w'.phys.mem, r)[p] == Pages(w.phys.mem, r)[p]
    requires w.next <= start || (start == w.heap.bump && n + w'.heap.space == w.heap.space)
    ensures BlockOk(w', r, b) && Apart(b, Block(start, n))
  {
    hide Pages, HeapRange;
    RangeStays(Pages(w.phys.mem, r), Pages(w'.phys.mem, r), b.start, b.length);
  }

  lemma NewBlock(w: World, r: Frame, start: nat, n: nat)
    requires start % 16 == 0 && start + n <= w.next && w.heap.bump == start + n
    requires HeapRange(Pages(w.phys.mem, r), start, n)
    ensures BlockOk(w, r, Block(start, n))
  {
    hide Pages, HeapRange;
  }

  lemma RangeParts(pages: PageMap, a: nat, n: nat, k: nat)
    requires HeapRange(pages, a, n + k)
    ensures HeapRange(pages, a, n) && HeapRange(pages, a + n, k)
  {
    hide Leaf;
  }

  lemma RangeStays(pages: PageMap, pages': PageMap, a: nat, n: nat)
    requires HeapRange(pages, a, n) && forall p :: p in pages ==> p in pages' && pages'[p] == pages[p]
    ensures HeapRange(pages', a, n)
  {
    hide Leaf;
  }

  // ---- whole runs ----

  /** The world after a sequence of requests, and the blocks issued. */
  function RunMalloc(w: World, r: Frame, sizes: seq<Size>): (World, seq<Block>)
  {
    if sizes == [] then (w, [])
    else
      var (w1, blocks) := RunMalloc(w, r, sizes[..|sizes| - 1]);
      var (w2, p) := MallocStep(w1, r, sizes[|sizes| - 1]);
      (w2, blocks + [Block(p, RoundUp(sizes[|sizes| - 1], 16))])
  }

  /** Every `mmap` made along the way succeeds. */
  ghost predicate MmapsSucceed(w: World, r: Frame, sizes: seq<Size>)
  {
    sizes == [] ||
    (var sz, w1 := sizes[|sizes| - 1], RunMalloc(w, r, sizes[..|sizes| - 1]).0;
     && MmapsSucceed(w, r, sizes[..|sizes| - 1])
     && (NeedsMmap(w1.heap, sz) ==> RefillOk(w1, r, sz)))
  }

  /** The addresses asked for stay below 2^47. */
  ghost predicate AddressesFit(w: World, r: Frame, sizes: seq<Size>)
  {
    sizes == [] ||
    (var sz, w1 := sizes[|sizes| - 1], RunMalloc(w, r, sizes[..|sizes| - 1]).0;
     AddressesFit(w, r, sizes[..|sizes| - 1]) && w1.next + sz + 0x3000 < TWO_47)
  }

  /** A program that has just started, with fewer frames free than there are addresses left, or asking for little
      enough. */
  ghost predicate FreshHeap(w: World, r: Frame, g: Ledger, sizes: seq<Size>) {
    && Inv(w.phys, r, g) && w.next % 4096 == 0 && 0 < w.next && w.heap == Heap(0, 0)
    && (w.next + 4096 * |g.free| < TWO_47 || AddressesFit(w, r, sizes))
  }

  /** From an empty heap, any run of requests issues 16-byte aligned blocks that the program may use and that
      never overlap each other or what is still unissued. */
  lemma {:induction false} EveryHeapRunIsOk(w: World, r: Frame, g: Ledger, sizes: seq<Size>) returns (g': Ledger)
    requires FreshHeap(w, r, g, sizes) && MmapsSucceed(w, r, sizes)
    ensures var (w', blocks) := RunMalloc(w, r, sizes);
      && Inv(w'.phys, r, g') && HeapOk(w', r, blocks) && HeapUsable(w', r, blocks)
      && w.next <= w'.next && w'.next + 4096 * |g'.free| <= w.next + 4096 * |g.free|
  {
    hide Inv, Pages, MmapFrom, Leaf, Refill, MallocStep, RoundUp, RefillOk, Rights;
    g' := g;
    if sizes != [] {
      var before := sizes[..|sizes| - 1];
      g' := EveryHeapRunIsOk(w, r, g, before);
      var (w1, blocks) := RunMalloc(w, r, before);
      g' := MallocKeepsHeapOk(w1, r, g', blocks, sizes[|sizes| - 1]);
    }
  }

  // ---- failures ----

  /** An address that no page of the lower half contains. */
  ghost predicate Unmappable(x: nat) { !IsPagePath(Leaf(x)) }

  lemma FailedIsUnmappable()
    ensures Unmappable(FAILED) && Unmappable(TWO_47)
  {
    LeafIsPage(FAILED);
    LeafIsPage(TWO_47);
  }

  /** What a request returns when its refill fails: the address 2^64 - 1, or the start of a region of which only the
      first page is mapped. Either way the block holds an address that is never mapped. */
  lemma FailedBlock(w: World, r: Frame, sz: Size) returns (x: nat)
    requires NeedsMmap(w.heap, sz) && !RefillOk(w, r, sz) && 0 < w.next < TWO_47
    ensures var p := MallocStep(w, r, sz).1;
      p <= x < p + sz && x < p + RoundUp(sz, 16) && Unmappable(x) && (p == FAILED <==> !Refill(w, r, sz).2)
  {
    hide MmapFrom, Leaf;
    FailedIsUnmappable();
    x := if Refill(w, r, sz).2 then TWO_47 else FAILED;
  }

  /** A request is not told that its `mmap` failed, nor that its size wrapped around. So a program that asks for sz
      bytes, and has not met a failure yet, may use them exactly when this condition held before the call. */
  lemma UsableIff(w: World, r: Frame, g: Ledger, blocks: seq<Block>, sz: Size)
    requires Inv(w.phys, r, g) && HeapOk(w, r, blocks) && 0 < sz && Room(w.next, sz, g) && w.next != 0
    ensures var (w', p) := MallocStep(w, r, sz);
      && (Usable(w'.phys.mem, r, p, sz) <==>
            sz <= TWO_64 - 16 && (!NeedsMmap(w.heap, sz) || CanRefill(w, r, g, sz)))
      && (p == FAILED <==> NeedsMmap(w.heap, sz) && !Refill(w, r, sz).2)
  {
    hide Inv, Pages, MmapFrom, Leaf, Refill, HeapOk, HeapUsable, MallocStep, RoundUp, RefillOk, CanRefill, Rights;
    var (w', p) := MallocStep(w, r, sz);
    RefillSucceedsIff(w, r, g, sz);
    HeapFacts(w, r, blocks);
    if NeedsMmap(w.heap, sz) && !RefillOk(w, r, sz) {
      var x := FailedBlock(w, r, sz);
      UnmappableIsUnmapped(w'.phys.mem, r, x);
    } else {
      var g' := MallocKeepsHeapOk(w, r, g, blocks, sz);
      IssuedBlock(w', r, blocks, Block(p, RoundUp(sz, 16)));
      IssuedAt(w, r, g, sz);
      if sz > TWO_64 - 16 {
        FailedIsUnmappable();
        UnmappableIsUnmapped(w'.phys.mem, r, TWO_47);
      }
    }
  }

  /** What a request promises a program that has not met a failure yet: it may use the bytes it asked for exactly when
      the size did not wrap around and no refill was needed or it could be made. */
  ghost predicate Answered(w: World, w': World, r: Frame, g: Ledger, blocks: seq<Block>, sz: Size, p: nat) {
    HeapOk(w, r, blocks) && 0 < sz && Room(w.next, sz, g) && w.next != 0 ==>
      (Usable(w'.phys.mem, r, p, sz) <==> sz <= TWO_64 - 16 && (!NeedsMmap(w.heap, sz) || CanRefill(w, r, g, sz)))
  }

  lemma StepAnswers(w: World, r: Frame, g: Ledger, blocks: seq<Block>, sz: Size)
    requires Inv(w.phys, r, g)
    ensures Answered(w, MallocStep(w, r, sz).0, r, g, blocks, sz, MallocStep(w, r, sz).1)
  {
    hide Inv, HeapOk, MallocStep, Usable, CanRefill, RoundUp;
    if HeapOk(w, r, blocks) && 0 < sz && Room(w.next, sz, g) && w.next != 0 {
      UsableIff(w, r, g, blocks, sz);
    }
  }

  lemma UnmappableIsUnmapped(m: Mem, r: Frame, x: nat)
    requires Unmappable(x)
    ensures Leaf(x) !in Pages(m, r)
  {
  }

  lemma IssuedBlock(w: World, r: Frame, blocks: seq<Block>, b: Block)
    requires HeapUsable(w, r, blocks + [b])
    ensures Usable(w.phys.mem, r, b.start, b.length)
  {
    hide Usable;
    assert (blocks + [b])[|blocks|] == b;
  }

  /** A request that gets what it needs is answered with an address below 2^47. */
  lemma IssuedAt(w: World, r: Frame, g: Ledger, sz: Size)
    requires Inv(w.phys, r, g) && w.next % 4096 == 0 && Room(w.next, sz, g) && w.next != 0
    requires w.heap.bump + w.heap.space <= w.next
    requires NeedsMmap(w.heap, sz) ==> RefillOk(w, r, sz)
    ensures MallocStep(w, r, sz).1 < TWO_47 && (NeedsMmap(w.heap, sz) ==> sz <= TWO_64 - 16)
    ensures NeedsMmap(w.heap, sz) ==> Refill(w, r, sz).2
    ensures sz <= RoundUp(sz, 16) <==> sz <= TWO_64 - 16
  {
    hide Inv, MmapFrom;
  }

  /** From an empty heap, a program may use every block of a run exactly when every refill on the way succeeded. */
  lemma BlocksAreUsableIff(w: World, r: Frame, g: Ledger, sizes: seq<Size>)
    requires FreshHeap(w, r, g, sizes)
    ensures var (w', blocks) := RunMalloc(w, r, sizes);
      (forall b :: b in blocks ==> Usable(w'.phys.mem, r, b.start, b.length)) <==> MmapsSucceed(w, r, sizes)
  {
    hide Inv, Pages, MmapFrom, Leaf, MallocStep, MmapsSucceed, FreshHeap, RunMalloc, Rights, HeapOk;
    var (w', blocks) := RunMalloc(w, r, sizes);
    if MmapsSucceed(w, r, sizes) {
      var g' := EveryHeapRunIsOk(w, r, g, sizes);
      assert forall i :: 0 <= i < |blocks| ==> Usable(w'.phys.mem, r, blocks[i].start, blocks[i].length);
    } else {
      var b, x := FailureShows(w, r, g, sizes);
      UnmappableIsUnmapped(w'.phys.mem, r, x);
    }
  }

  /** The first failure leaves a block with an address that is never mapped. */
  lemma {:induction false} FailureShows(w: World, r: Frame, g: Ledger, sizes: seq<Size>) returns (b: Block, x: nat)
    requires FreshHeap(w, r, g, sizes) && !MmapsSucceed(w, r, sizes)
    ensures b in RunMalloc(w, r, sizes).1 && b.start <= x < b.start + b.length && Unmappable(x)
    decreases |sizes|
  {
    hide Inv, Pages, MmapFrom, Leaf, MallocStep, Refill, RefillOk, RoundUp, HeapOk, Unmappable;
    var before, sz := sizes[..|sizes| - 1], sizes[|sizes| - 1];
    if !MmapsSucceed(w, r, before) {
      b, x := FailureShows(w, r, g, before);
    } else {
      var g' := EveryHeapRunIsOk(w, r, g, before);
      var w1 := RunMalloc(w, r, before).0;
      assert Room(w1.next, sz, g');
      x := FailedBlock(w1, r, sz);
      b := Block(MallocStep(w1, r, sz).1, RoundUp(sz, 16));
    }
  }

  /** A request, whether it succeeds or not, keeps everything mapped. */
  lemma RequestKeeps(w: World, r: Frame, g: Ledger, sz: Size) returns (g': Ledger)
    requires Inv(w.phys, r, g) && Room(w.next, sz, g)
    ensures var w' := MallocStep(w, r, sz).0;
      && Inv(w'.phys, r, g') && AllKept(ViewOf(w.phys, r), ViewOf(w'.phys, r))
      && w.next <= w'.next && w'.next + 4096 * |g'.free| <= w.next + 4096 * |g.free|
  {
    hide Inv, Pages, Refill, RoundUp, AllKept;
    g' := g;
    if NeedsMmap(w.heap, sz) {
      var phys, next, ok;
      phys, next, ok, g' := RefillKeeps(w, r, g, sz);
    } else {
      KeptItself(ViewOf(w.phys, r));
    }
  }

  /** So does any run of requests, whatever fails on the way. */
  lemma {:induction false} AnyRunKeeps(w: World, r: Frame, g: Ledger, sizes: seq<Size>) returns (g': Ledger)
    requires Inv(w.phys, r, g) && (w.next + 4096 * |g.free| < TWO_47 || AddressesFit(w, r, sizes))
    ensures var w' := RunMalloc(w, r, sizes).0;
      && Inv(w'.phys, r, g') && AllKept(ViewOf(w.phys, r), ViewOf(w'.phys, r))
      && w.next <= w'.next && w'.next + 4096 * |g'.free| <= w.next + 4096 * |g.free|
    decreases |sizes|
  {
    hide Inv, Pages, MallocStep, AllKept;
    g' := g;
    if sizes == [] {
      KeptItself(ViewOf(w.phys, r));
    } else {
      var before, sz := sizes[..|sizes| - 1], sizes[|sizes| - 1];
      var g1 := AnyRunKeeps(w, r, g, before);
      var w1 := RunMalloc(w, r, before).0;
      g' := RequestKeeps(w1, r, g1, sz);
      AllKeptTwice(ViewOf(w.phys, r), ViewOf(w1.phys, r), ViewOf(MallocStep(w1, r, sz).0.phys, r));
    }
  }

  /** What a request leaves whose `mmap` fails: for a size rounded to n, the heap starts at n - 1 and ends one short of
      the length that was wanted. */
  lemma FailedRequest(w: World, r: Frame, sz: Size)
    requires NeedsMmap(w.heap, sz) && !Refill(w, r, sz).2
    ensures var (w', p) := MallocStep(w, r, sz);
      var n := RoundUp(sz, 16);
      && p == FAILED && n > 0 && w'.heap == Heap(n - 1, Less(RefillLength(sz), n))
      && n - 1 + w'.heap.space == Less(RefillLength(sz), 1)
  {
    hide MmapFrom, Refill;
  }

  /** Such a failure is real, and the heap does not recover from it: with no frame free the first request returns
      2^64 - 1, and the next one returns the misaligned address 15 without asking for memory. */
  lemma FailureIsNotNoticed(w: World, r: Frame, g: Ledger)
    requires Inv(w.phys, r, g) && g.free == [] && 0 < w.next < TWO_47 && w.heap == Heap(0, 0)
    ensures
      var (w1, p1) := MallocStep(w, r, 16);
      var (w2, p2) := MallocStep(w1, r, 16);
      && p1 == FAILED && w1.heap == Heap(15, 4080) && !NeedsMmap(w1.heap, 16) && p2 == 15
      && Pages(w2.phys.mem, r) == Pages(w.phys.mem, r)
  {
    hide Inv, Pages, MapFrom, Missing, Index, KeepsData;
    LowAddress(w.next);
    MapRefines(w.phys, r, g, w.next, true, Writable(MAP_FLAGS), NoExecute(MAP_FLAGS));
  }

  /** A request, whether it succeeds or not, changes no byte that can be read. */
  lemma MallocKeepsBytes(w: World, r: Frame, g: Ledger, sz: Size, x: nat)
    requires Inv(w.phys, r, g) && Room(w.next, sz, g) && Leaf(x) in Pages(w.phys.mem, r)
    ensures var (w', _) := MallocStep(w, r, sz);
      Leaf(x) in Pages(w'.phys.mem, r) && Peek(ViewOf(w'.phys, r), x) == Peek(ViewOf(w.phys, r), x)
  {
    hide Inv, Pages, Leaf, Peek, Refill, RoundUp;
    if NeedsMmap(w.heap, sz) {
      var phys, _, _, _ := RefillKeeps(w, r, g, sz);
      assert Kept(ViewOf(w.phys, r), ViewOf(phys, r), Leaf(x));
      KeptReadsSame(ViewOf(w.phys, r), ViewOf(phys, r), x);
    }
  }

  /** Writing n bytes anywhere in one block changes no byte of any other block, and leaves the heap as it was. */
  lemma BlocksDoNotInterfere(w: World, r: Frame, g: Ledger, blocks: seq<Block>, i: nat, a: nat, data: seq<Byte>)
    requires Inv(w.phys, r, g) && HeapOk(w, r, blocks) && w.next <= TWO_47 && i < |blocks|
    requires blocks[i].start <= a && a + |data| <= blocks[i].start + blocks[i].length
    ensures
      var w' := w.(phys := PokeAll(w.phys, r, a, data, |data|));
      && Inv(w'.phys, r, g) && HeapOk(w', r, blocks) && HeapUsable(w', r, blocks)
      && (forall x: nat :: a <= x < a + |data| ==> Peek(ViewOf(w'.phys, r), x) == data[x - a])
      && (forall j: nat, x: nat ::
            j < |blocks| && j != i && blocks[j].start <= x < blocks[j].start + blocks[j].length ==>
            Peek(ViewOf(w'.phys, r), x) == Peek(ViewOf(w.phys, r), x))
  {
    hide Inv, Pages, Leaf, Peek, PokeAll, HeapUsable;
    assert BlockOk(w, r, blocks[i]);
    CopyStores(w.phys, r, g, a, data, |data|);
    assert data[..|data|] == data;
    var w' := w.(phys := PokeAll(w.phys, r, a, data, |data|));
    var v, v' := ViewOf(w.phys, r), ViewOf(w'.phys, r);
    assert v'.pages == v.pages;
    forall j: nat | j < |blocks| ensures BlockOk(w', r, blocks[j]) {
      assert BlockOk(w, r, blocks[j]);
    }
    forall j: nat, x: nat | j < |blocks| && j != i && blocks[j].start <= x < blocks[j].start + blocks[j].length
      ensures Peek(v', x) == Peek(v, x)
    {
      assert BlockOk(w, r, blocks[j]) && Leaf(x) in v.pages;
      assert if j < i then Apart(blocks[j], blocks[i]) else Apart(blocks[i], blocks[j]);
    }
    HeapIsUsable(w', r, g, blocks);
  }

  // ---- the library function ----

  class Allocator {
    const kernel: MmapCalls
    var bump: nat
    var spaceRemaining: nat

    constructor (kernel: MmapCalls)
      ensures this.kernel == kernel && bump == 0 && spaceRemaining == 0
    {
      this.kernel := kernel;
      bump, spaceRemaining := 0, 0;
    }

    ghost function State(): World
      reads this, kernel, kernel.fm
    {
      World(kernel.fm.phys, kernel.mmapNextStart, Heap(bump, spaceRemaining))
    }

    /** `malloc`, in the address space rooted at `root`, after it has issued these blocks. */
    method Malloc(root: nat, sz: Size, ghost blocks: seq<Block>) returns (result: nat)
      requires kernel.fm.Valid(root)
      requires NeedsMmap(Heap(bump, spaceRemaining), sz) ==>
        Room(kernel.mmapNextStart, sz, kernel.fm.ledger) && RefillLength(sz) != TWO_63
      modifies this, kernel, kernel.fm, kernel.fm.ram
      ensures kernel.fm.Valid(root)
      ensures (State(), result) == MallocStep(old(State()), root / 4096, sz)
      ensures Answered(old(State()), State(), root / 4096, old(kernel.fm.ledger), blocks, sz, result)
    {
      hide MmapFrom, Inv, CanMmap, RoundUp, Answered, Room, Fits, OnlyGranted, AllGranted, GrantedAt, LowerHalf;
      StepAnswers(State(), root / 4096, kernel.fm.ledger, blocks, sz);
      var n := RoundUp(sz, 16);
      if spaceRemaining < n {
        var roundedUp := RoundUp(n, 4096);
        RoomFits(kernel.mmapNextStart, sz, kernel.fm.ledger);
        LowAddress(kernel.mmapNextStart);
        var mapped := kernel.SysMmap(root, 0, roundedUp, MAP_FLAGS);
        var newmem := if mapped < 0 then FAILED else mapped;
        if newmem == 0 {
          return 0;
        }
        bump, spaceRemaining := newmem, roundedUp;
      }
      result := bump;
      bump, spaceRemaining := Wrap(bump + n), Less(spaceRemaining, n);
    }
  }
}
