/** The layers together: boot, program loading, and the program's heap. */
module Kernel {
  import opened Words
  import opened Memory
  import opened PageTree
  import opened Mapping
  import opened UnmapLowerHalf
  import opened AddressSpace
  import opened FrameDemand
  import opened PageRanges
  import opened VirtualBytes
  import opened Boot
  import opened Mmap
  import opened Malloc
  import opened ElfFile
  import opened Loader

  /** What the boot loader hands over: an empty freelist, tables in a tree, and usable entries that are disjoint, lie
      in memory and hold no page table. */
  ghost predicate BootState(s: Phys, r: Frame, entries: seq<MapEntry>) {
    && s.top == 0 && Tree(s.mem, r, [], 3) && Disjoint(Sections(entries))
    && (forall c :: c in Sections(entries) ==> c.end <= 4096 * |s.mem| && c.end < 0x10_0000_0000_0000)
    && (forall c, x: Frame :: c in Sections(entries) && InSection(x, c) ==> NoTableAt(s.mem, r, x))
  }

  /** A machine with n clear frames. */
  function BlankMachine(n: Frame): Phys {
    var m: Mem := seq(n, _ => ClearPage());
    Phys(m, 0)
  }

  lemma {:induction false} BlankMachineMapsNothing(n: Frame, r: Frame, q: Path)
    requires r < n && Valid(q) && q.Sub?
    ensures Walk(BlankMachine(n).mem, r, q).None?
  {
    if q.parent.Sub? {
      BlankMachineMapsNothing(n, r, q.parent);
    }
  }

  /** Such states exist: the frames above an empty root table can be usable memory. */
  lemma BlankMachineCanBoot(n: Frame, r: Frame)
    requires 0 < r < n
    ensures BootState(BlankMachine(n), r, [MapEntry(4096 * (r + 1), 4096 * (n - r - 1), 1)])
  {
    var s, entry := BlankMachine(n), MapEntry(4096 * (r + 1), 4096 * (n - r - 1), 1);
    assert [entry][..0] == [];
    assert Sections([entry]) == [Section(entry.base, entry.base + entry.length)];
    forall q | Valid(q) ensures Walk(s.mem, r, q) == if q.Root? then Some(r) else None {
      if q.Sub? {
        BlankMachineMapsNothing(n, r, q);
      }
    }
  }

  /** The memory work of `_start`: build the pool, clear the lower half, load a program. */
  function Start(s: Phys, r: Frame, entries: seq<MapEntry>, modules: seq<Module>, name: seq<Byte>): (Phys, int)
    requires ExecOk(modules, name) && forall c :: c in Sections(entries) ==> c.end < 0x10_0000_0000_0000
  {
    RunExec(UnmapLower(FreeSections(s, Sections(entries)), r), r, modules, name)
  }

  /** The frames that are free when the first program is loaded: the usable pages, and the boot loader's lower-half
      tables. */
  ghost function FreeAtStart(s: Phys, r: Frame, entries: seq<MapEntry>): seq<Frame>
    requires forall c :: c in Sections(entries) ==> c.end < 0x10_0000_0000_0000
  {
    Pushed3(FreeSections(s, Sections(entries)).mem, r, 256, SectionFrames(Sections(entries), []))
  }

  /** From the boot loader's state to the first program: it is entered exactly when it is an executable with segments
      on pages of their own and the free frames suffice, and then the lower half is exactly its image, with a whole
      stack exactly when the frames suffice for that too and no segment is in its place. */
  lemma StartLoadsTheProgram(s: Phys, r: Frame, entries: seq<MapEntry>, modules: seq<Module>,
      name: seq<Byte>) returns (g: Ledger)
    requires BootState(s, r, entries) && ExecOk(modules, name)
    ensures var (s', result) := Start(s, r, entries, modules, name);
      var i := FindModule(modules, name, 0);
      && Inv(s', r, g)
      && (result == 1 <==>
            && i < |modules| && FileType(modules[i].file) == ET_EXEC && SegmentsApart(modules[i].file, 0)
            && ImageSize(modules[i].file) <= |FreeAtStart(s, r, entries)|)
      && (result == 1 ==> ProcessImage(ViewOf(s', r), modules[i].file))
      && (result == 1 ==>
            (StackReady(ViewOf(s', r), modules[i].file) <==> StackFits(modules[i].file, |FreeAtStart(s, r, entries)|)))
      && (i < |modules| ==>
            forall h, table {:trigger Describes(modules[i].file, h, table)} :: Describes(modules[i].file, h, table) ==>
              ExecAsTold(ViewOf(s', r), result, modules[i].file, h, table, |FreeAtStart(s, r, entries)|))
  {
    hide Inv, Tree, ProcessImage, RunExec, FileOk, UnmapLower, FreeSections, SegmentsApart, ImageSize, ImagePages,
      StackReady, StackFits, AllKept, ExecAsTold, Describes, FileType;
    BootBuildsThePool(s, r, entries);
    var s1, free := FreeSections(s, Sections(entries)), SectionFrames(Sections(entries), []);
    FirstUnmapFoundsInv(s1, r, free);
    var freed := Pushed3(s1.mem, r, 256, free);
    var g1 := Ledger(freed, {}, set f | f in freed);
    ClearingClear(s1, r, free, g1);
    g := ExecBuildsTheImage(UnmapLower(s1, r), r, g1, modules, name);
  }

  /** Clearing a lower half that is clear already frees nothing. */
  lemma ClearingClear(s: Phys, r: Frame, free: seq<Frame>, g: Ledger)
    requires Chain(s, free) && Tree(s.mem, r, free, 3) && Inv(UnmapLower(s, r), r, g)
    ensures FreeAfterClearing(UnmapLower(s, r).mem, r, g) == |g.free|
  {
    hide UnmapLower, Pushed3;
    var m := UnmapLower(s, r).mem;
    UnmapLowerSpec(s, r, free);
    forall i: nat | i < 256 ensures !At(m, r, i).present {
      RootEntry(m, r, i);
    }
    NothingToPush(m, r, 256, g.free);
  }

  lemma RootEntry(m: Mem, r: Frame, i: nat)
    requires i < 256
    ensures Lower(Sub(Root, i)) && (Walk(m, r, Sub(Root, i)).Some? <==> At(m, r, i).present)
  {
    assert Valid(Root) && Depth(Root) == 0;
    assert Walk(m, r, Root) == Some(r);
    assert Entry(m, r, Sub(Root, i)) == At(m, r, i);
    assert Depth(Sub(Root, i)) == 1;
  }

  lemma {:induction false} NothingToPush(m: Mem, r: Frame, n: nat, free: seq<Frame>)
    requires n <= 256 && forall i: nat :: i < 256 ==> !At(m, r, i).present
    ensures Pushed3(m, r, n, free) == free
    decreases n
  {
    if n > 0 {
      NothingToPush(m, r, n - 1, free);
    }
  }

  // ---- the program's heap ----

  /** None of the n bytes from `start` lies in a page that was mapped in v. */
  ghost predicate Misses(v: View, start: nat, n: nat) {
    forall x: nat :: start <= x < start + n ==> Leaf(x) !in v.pages
  }

  ghost predicate BlocksMiss(v: View, blocks: seq<Block>) {
    forall i :: 0 <= i < |blocks| ==> Misses(v, blocks[i].start, blocks[i].length)
  }

  /** No byte of the heap, issued or not, lies in a page that was mapped in v. */
  ghost predicate Outside(v: View, w: World, blocks: seq<Block>) {
    Misses(v, w.heap.bump, w.heap.space) && BlocksMiss(v, blocks)
  }

  /** Addresses that differ by a multiple of 2^48 lie in the same page, so counting on from 2^64 is wrapping around. */
  lemma PageWraps(x: nat)
    ensures Leaf(x + TWO_64) == Leaf(x) && Leaf(x + 2 * TWO_47) == Leaf(x)
  {
    hide Leaf;
    SamePathSamePage(x + TWO_64, x);
    SamePathSamePage(x + 2 * TWO_47, x);
    PageMod(x / 0x1000, 1);
    PageMod(x / 0x1000, 0x1_0000);
  }

  lemma PageMod(n: nat, k: nat)
    ensures (n + 0x10_0000_0000 * k) % 0x10_0000_0000 == n % 0x10_0000_0000
  {
  }

  lemma MissesWrap(v: View, start: nat, n: nat)
    requires start < 2 * TWO_64
    ensures Misses(v, Wrap(start), n) <==> Misses(v, start, n)
  {
    hide Leaf;
    if start >= TWO_64 {
      var start0 := start - TWO_64;
      assert Wrap(start) == start0;
      if Misses(v, start, n) {
        forall x: nat | start0 <= x < start0 + n ensures Leaf(x) !in v.pages {
          PageWraps(x);
          assert Leaf(x + TWO_64) !in v.pages;
        }
      }
      if Misses(v, start0, n) {
        forall x: nat | start <= x < start + n ensures Leaf(x) !in v.pages {
          PageWraps(x - TWO_64);
          assert Leaf(x - TWO_64) !in v.pages;
        }
      }
    }
  }

  lemma MissesInTwo(v: View, start: nat, a: nat, b: nat)
    ensures Misses(v, start, a + b) <==> Misses(v, start, a) && Misses(v, start + a, b)
  {
    hide Leaf;
  }

  /** A request that cuts n bytes off the front of a region of a + n bytes. */
  lemma MissesCut(v: View, start: nat, n: nat, a: nat)
    requires start < TWO_64 && n < TWO_64
    ensures Misses(v, start, n) && Misses(v, Wrap(start + n), a) <==> Misses(v, start, n + a)
  {
    hide Misses;
    MissesWrap(v, start + n, a);
    MissesInTwo(v, start, n, a);
  }

  /** Only pages of the lower half are mapped. */
  ghost predicate LowerView(v: View) { forall p :: p in v.pages ==> IsPagePath(p) }

  /** 2^64 - 1 is no address of such a page, and after it come the addresses from 0 on. */
  lemma MissesFailed(v: View, n: nat)
    requires LowerView(v) && n > 0
    ensures Misses(v, FAILED, n) <==> Misses(v, 0, n - 1)
  {
    hide Leaf, LowerView;
    MissesInTwo(v, FAILED, 1, n - 1);
    MissesWrap(v, TWO_64, n - 1);
    assert Misses(v, FAILED, 1) by { FailedMisses(v); }
  }

  lemma FailedMisses(v: View)
    requires LowerView(v)
    ensures Misses(v, FAILED, 1)
  {
    hide Leaf;
    FailedIsUnmappable();
  }

  /** A region of 2^63 bytes or more comes by every page. */
  lemma HugeMisses(v: View, start: nat, n: nat)
    requires LowerView(v) && start < TWO_47 && n >= TWO_63
    ensures Misses(v, start, n) <==> v.pages == imap[]
  {
    hide Leaf;
    if p :| p in v.pages {
      var u := EveryPageHasANumber(p);
      PageWraps(0x1000 * u);
      assert Leaf(0x1000 * u + 2 * TWO_47) == p;
    }
  }

  /** The new region of a request that calls `mmap` is outside v: always after a success; after a failure exactly
      when no page of v contains an address below the length wanted, less one. (A length from 2^63 on is read as a
      negative number: one page is mapped, and the heap believes that it owns every address.) */
  ghost predicate RefillMisses(v: View, w: World, r: Frame, sz: Size) {
    RefillOk(w, r, sz) || if Refill(w, r, sz).2 then v.pages == imap[] else Misses(v, 0, Less(RefillLength(sz), 1))
  }

  lemma RequestMisses(v: View, w: World, r: Frame, g: Ledger, blocks: seq<Block>, sz: Size)
    requires Inv(w.phys, r, g) && Room(w.next, sz, g) && w.next != 0 && w.next % 4096 == 0
    requires AllKept(v, ViewOf(w.phys, r)) && LowerView(v) && w.heap.bump < TWO_64
    ensures var (w', p) := MallocStep(w, r, sz);
      && w'.heap.bump < TWO_64
      && (Outside(v, w', blocks + [Block(p, RoundUp(sz, 16))]) <==>
            if NeedsMmap(w.heap, sz) then BlocksMiss(v, blocks) && RefillMisses(v, w, r, sz) else Outside(v, w, blocks))
  {
    hide Inv, Pages, Leaf, MmapFrom, RoundUp, Misses, LowerView, AllKept, Refill, RefillLength;
    var n := RoundUp(sz, 16);
    var (w', p) := MallocStep(w, r, sz);
    BlocksMissMore(v, blocks, Block(p, n));
    if !NeedsMmap(w.heap, sz) {
      MissesCut(v, w.heap.bump, n, w.heap.space - n);
    } else if !Refill(w, r, sz).2 {
      FailedRequest(w, r, sz);
      MissesFailed(v, n);
      MissesInTwo(v, 0, n - 1, w'.heap.space);
    } else {
      RefilledHeap(w, r, g, sz);
      MissesCut(v, w.next, n, RefillLength(sz) - n);
      if RefillOk(w, r, sz) {
        var _, _, _ := RefillMaps(w, r, g, sz);
        NewMisses(v, ViewOf(w.phys, r), w.next, RefillLength(sz));
      } else {
        HugeMisses(v, w.next, RefillLength(sz));
      }
    }
  }

  lemma BlocksMissMore(v: View, blocks: seq<Block>, b: Block)
    ensures BlocksMiss(v, blocks + [b]) <==> BlocksMiss(v, blocks) && Misses(v, b.start, b.length)
  {
    hide Misses;
    var more := blocks + [b];
    assert more[|blocks|] == b && forall i :: 0 <= i < |blocks| ==> more[i] == blocks[i];
  }

  lemma RefilledHeap(w: World, r: Frame, g: Ledger, sz: Size)
    requires Room(w.next, sz, g) && NeedsMmap(w.heap, sz) && Refill(w, r, sz).2 && w.next != 0
    ensures var (w', p) := MallocStep(w, r, sz);
      var n := RoundUp(sz, 16);
      && p == w.next < TWO_47 && n <= RefillLength(sz)
      && w'.heap == Heap(Wrap(w.next + n), RefillLength(sz) - n)
  {
    hide MmapFrom;
  }

  lemma NewMisses(v: View, v': View, start: nat, n: nat)
    requires AllKept(v, v') && forall x: nat :: start <= x < start + n ==> Leaf(x) !in v'.pages
    ensures Misses(v, start, n)
  {
    hide Leaf;
    forall x: nat | start <= x < start + n ensures Leaf(x) !in v.pages {
      assert Leaf(x) in v.pages ==> Kept(v, v', Leaf(x));
    }
  }

  /** Every refill made along the way misses v. */
  ghost predicate RefillsMiss(v: View, w: World, r: Frame, sizes: seq<Size>) {
    sizes == [] ||
    (var sz, w1 := sizes[|sizes| - 1], RunMalloc(w, r, sizes[..|sizes| - 1]).0;
     RefillsMiss(v, w, r, sizes[..|sizes| - 1]) && (NeedsMmap(w1.heap, sz) ==> RefillMisses(v, w1, r, sz)))
  }

  /** At every point of a run the heap is outside v. */
  ghost predicate AlwaysOutside(v: View, w: World, r: Frame, sizes: seq<Size>) {
    (sizes == [] || AlwaysOutside(v, w, r, sizes[..|sizes| - 1])) &&
    Outside(v, RunMalloc(w, r, sizes).0, RunMalloc(w, r, sizes).1)
  }

  lemma {:induction false} HeapStaysOutsideIff(w: World, r: Frame, g: Ledger, sizes: seq<Size>)
    requires FreshHeap(w, r, g, sizes)
    ensures var (v, w') := (ViewOf(w.phys, r), RunMalloc(w, r, sizes).0);
      && w'.next % 4096 == 0 && w'.heap.bump < TWO_64
      && (AlwaysOutside(v, w, r, sizes) <==> RefillsMiss(v, w, r, sizes))
    decreases |sizes|
  {
    hide Inv, Pages, Leaf, MallocStep, Outside, RefillMisses, AllKept, RoundUp;
    var v := ViewOf(w.phys, r);
    if sizes == [] {
      EmptyIsOutside(w, r);
    } else {
      var before, sz := sizes[..|sizes| - 1], sizes[|sizes| - 1];
      HeapStaysOutsideIff(w, r, g, before);
      var g1 := AnyRunKeeps(w, r, g, before);
      var (w1, blocks) := RunMalloc(w, r, before);
      OnlyLower(w.phys, r);
      RequestMisses(v, w1, r, g1, blocks, sz);
      OutsideBlocks(v, w1, blocks);
      NextIsPage(w1, r, sz);
    }
  }

  lemma OnlyLower(s: Phys, r: Frame)
    ensures LowerView(ViewOf(s, r))
  {
  }

  lemma OutsideBlocks(v: View, w: World, blocks: seq<Block>)
    ensures Outside(v, w, blocks) ==> BlocksMiss(v, blocks)
  {
  }

  /** `mmap_next_start` moves by whole pages. */
  lemma NextIsPage(w: World, r: Frame, sz: Size)
    requires w.next % 4096 == 0
    ensures MallocStep(w, r, sz).0.next % 4096 == 0
  {
    hide MmapFrom, RoundUp;
    if RefillLength(sz) != 0 {
      MmapNextIsPage(w.phys, r, w.next, w.next, Signed(RefillLength(sz)), MAP_FLAGS);
    }
  }

  lemma {:induction false} MmapNextIsPage(s: Phys, r: Frame, address: nat, next: nat, sizeLeft: int, flags: int)
    requires next % 4096 == 0
    ensures MmapFrom(s, r, address, next, sizeLeft, false, flags).1 % 4096 == 0
    decreases sizeLeft
  {
    hide MapFrom;
    var (s1, ok) := MapFrom(s, r, address, 4, true, Writable(flags), NoExecute(flags));
    if ok && sizeLeft > 4096 {
      MmapNextIsPage(s1, r, next + 4096, next + 4096, sizeLeft - 4096, flags);
    }
  }

  lemma EmptyIsOutside(w: World, r: Frame)
    requires w.heap == Heap(0, 0)
    ensures Outside(ViewOf(w.phys, r), w, [])
  {
  }

  lemma {:induction false} SuccessesMiss(v: View, w: World, r: Frame, sizes: seq<Size>)
    requires MmapsSucceed(w, r, sizes)
    ensures RefillsMiss(v, w, r, sizes)
    decreases |sizes|
  {
    hide RunMalloc, RefillOk;
    if sizes != [] {
      SuccessesMiss(v, w, r, sizes[..|sizes| - 1]);
    }
  }

  /** A program that was just loaded, and then calls `malloc` any number of times, whether memory lasts or not: its
      segments still read as the file says. Its heap is outside the image at every point exactly when every refill
      misses it (`RefillMisses`), and so always when the refills succeed. */
  lemma HeapLeavesTheImage(w: World, r: Frame, g: Ledger, file: seq<Byte>, sizes: seq<Size>) returns (g': Ledger)
    requires FileOk(file) && ProcessImage(ViewOf(w.phys, r), file) && FreshHeap(w, r, g, sizes)
    ensures
      var (v, w') := (ViewOf(w.phys, r), RunMalloc(w, r, sizes).0);
      && Inv(w'.phys, r, g')
      && (forall k: nat :: Loadable(file, k) ==>
            SegmentOk(file, HeaderAt(file, k)) && SegmentLoaded(ViewOf(w'.phys, r), file, HeaderAt(file, k)))
      && (AlwaysOutside(v, w, r, sizes) <==> RefillsMiss(v, w, r, sizes))
      && (MmapsSucceed(w, r, sizes) ==>
            && AlwaysOutside(v, w, r, sizes)
            && HeapOk(w', r, RunMalloc(w, r, sizes).1) && HeapUsable(w', r, RunMalloc(w, r, sizes).1))
  {
    hide Inv, Pages, AlwaysOutside, RefillsMiss, SegmentLoaded, HeaderAt, Loadable, RunMalloc, MmapsSucceed, HeapOk,
      HeapUsable;
    g' := AnyRunKeeps(w, r, g, sizes);
    HeapStaysOutsideIff(w, r, g, sizes);
    if MmapsSucceed(w, r, sizes) {
      SuccessesMiss(ViewOf(w.phys, r), w, r, sizes);
      var _ := EveryHeapRunIsOk(w, r, g, sizes);
    }
    var w' := RunMalloc(w, r, sizes).0;
    forall k: nat | Loadable(file, k)
      ensures SegmentOk(file, HeaderAt(file, k)) && SegmentLoaded(ViewOf(w'.phys, r), file, HeaderAt(file, k))
    {
      LoadableIsOk(file, k);
      LoadedStays(ViewOf(w.phys, r), ViewOf(w'.phys, r), file, HeaderAt(file, k));
    }
  }

  /** The condition can fail, for any page: with no frame free two requests are enough for `malloc` to hand out bytes
      of the page at address a. The first one fails; the second one is answered without asking for memory. */
  lemma FailureHandsOutAnyPage(w: World, r: Frame, g: Ledger, a: nat)
    requires Inv(w.phys, r, g) && g.free == [] && 0 < w.next < TWO_47 && w.heap == Heap(0, 0)
    requires a % 4096 == 0 && a < TWO_47 && Leaf(a) in Pages(w.phys.mem, r)
    ensures var (w1, p1) := MallocStep(w, r, a + 16);
      var (w2, p2) := MallocStep(w1, r, 16);
      && p1 == FAILED && w1.heap == Heap(a + 15, 4080) && !NeedsMmap(w1.heap, 16) && p2 == a + 15
      && (forall x: nat :: p2 <= x < p2 + 16 ==> Leaf(x) == Leaf(a) && Leaf(x) in Pages(w2.phys.mem, r))
  {
    hide Inv, Pages, MmapFrom, Leaf, MallocStep, Refill, RoundUp, RefillLength;
    assert RoundUp(a + 16, 16) == a + 16 && RefillLength(a + 16) == a + 4096 by { PageRounds(a); }
    NothingFree(w, r, g, a + 16);
    FailedRequest(w, r, a + 16);
    var g1 := RequestKeeps(w, r, g, a + 16);
    var w1 := MallocStep(w, r, a + 16).0;
    StepWithoutMmap(w1, r, 16);
    forall x: nat | a + 15 <= x < a + 31 ensures Leaf(x) == Leaf(a) && Leaf(x) in Pages(w1.phys.mem, r) {
      WithinPage(a, x);
      assert Kept(ViewOf(w.phys, r), ViewOf(w1.phys, r), Leaf(a));
    }
  }

  lemma PageRounds(a: nat)
    requires a % 4096 == 0 && a < TWO_47
    ensures RoundUp(a + 16, 16) == a + 16 && RefillLength(a + 16) == a + 4096
  {
    var p := a / 4096;
    assert a == 4096 * p;
    Sixteens(a + 16, 256 * p + 1);
    assert (a + 16) % 4096 == 16;
  }

  lemma NothingFree(w: World, r: Frame, g: Ledger, sz: Size)
    requires Inv(w.phys, r, g) && g.free == [] && w.next < TWO_47 && 0 < RefillLength(sz)
    ensures !Refill(w, r, sz).2
  {
    hide Inv, Pages, MapFrom, RoundUp, Leaf;
    var _, ok, _ := MapPage(w.phys, r, g, w.next, FlagRights(MAP_FLAGS));
    assert !ok;
  }
}
