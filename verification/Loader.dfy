/** `run_exec_elf` as a function of the machine state: it builds a process image through the page tables. */
module Loader {
  import opened Words
  import opened Memory
  import opened PageTree
  import opened Mapping
  import opened UnmapLowerHalf
  import opened AddressSpace
  import opened FrameDemand
  import opened PageRanges
  import opened VirtualBytes
  import opened ElfFile
  import Strings

  // ---- the file ----

  /** The little-endian number in n bytes of the file; 0 beyond its end. */
  function Field(file: seq<Byte>, at: nat, n: nat): nat
    decreases n
  {
    if n == 0 then 0 else (if at < |file| then file[at] else 0) + 256 * Field(file, at + 1, n - 1)
  }

  const ET_EXEC: nat := 2
  const PT_LOAD: nat := 1

  function FileType(file: seq<Byte>): nat { Field(file, 16, 2) }

  function HeaderCount(file: seq<Byte>): nat { Field(file, 56, 2) }

  function EntryPoint(file: seq<Byte>): nat { Field(file, 24, 8) }

  /** A program header: the fields the loader uses. */
  datatype Header = Header(kind: nat, flags: nat, offset: nat, vaddr: nat, filesz: nat, memsz: nat)

  /** Entry k of the program header table. */
  function HeaderAt(file: seq<Byte>, k: nat): Header {
    var at := Field(file, 32, 8) + 56 * k;
    Header(Field(file, at, 4), Field(file, at + 4, 4), Field(file, at + 8, 8), Field(file, at + 16, 8),
           Field(file, at + 32, 8), Field(file, at + 40, 8))
  }

  // ---- what the loader reads of a file written in the format's order ----

  /** A number that n bytes can hold is read back from them. */
  lemma {:induction false} FieldReads(file: seq<Byte>, at: nat, v: nat, n: nat)
    requires v < Capacity(n) && Holds(file, at, LittleEndian(v, n))
    ensures Field(file, at, n) == v
    decreases n
  {
    if n > 0 {
      assert LittleEndian(v, n) == [v % 256] + LittleEndian(v / 256, n - 1);
      HoldsParts(file, at, [v % 256], LittleEndian(v / 256, n - 1));
      FirstByteRead(file, at, v % 256);
      Quotient256(v, n);
      FieldReads(file, at + 1, v / 256, n - 1);
    }
  }

  lemma FirstByteRead(file: seq<Byte>, at: nat, b: Byte)
    requires Holds(file, at, [b])
    ensures at < |file| && file[at] == b
  {
    assert file[at..at + 1][0] == b;
  }

  lemma Quotient256(v: nat, n: nat)
    requires n > 0 && v < Capacity(n)
    ensures v / 256 < Capacity(n - 1) && v == v % 256 + 256 * (v / 256)
  {
  }

  lemma Capacities()
    ensures Capacity(2) == 0x1_0000 && Capacity(4) == 0x1_0000_0000 && Capacity(8) == 0x1_0000_0000_0000_0000
  {
    assert Capacity(2) == 0x1_0000;
    assert Capacity(4) == 0x1_0000_0000;
    assert Capacity(6) == 0x1_0000_0000_0000;
  }

  /** Whatever else is in the file, the loader reads what its headers say. */
  lemma HeadersAreRead(file: seq<Byte>, h: FileHeader, table: seq<ProgramHeader>)
    requires Describes(file, h, table)
    ensures FileType(file) == h.kind && EntryPoint(file) == h.entry && HeaderCount(file) == |table|
    ensures forall k: nat :: k < |table| ==> HeaderAt(file, k) == UsedFields(table[k])
  {
    hide Holds, Field, HeaderBytes, TableBytes, ProgramBytes, Capacity;
    Capacities();
    HeaderFields(file, h);
    FieldReads(file, 16, h.kind, 2);
    FieldReads(file, 24, h.entry, 8);
    FieldReads(file, 32, h.tableOffset, 8);
    FieldReads(file, 56, h.programHeaders, 2);
    forall k: nat | k < |table| ensures HeaderAt(file, k) == UsedFields(table[k]) {
      EntryHeld(file, h.tableOffset, table, k);
      ProgramIsRead(file, h.tableOffset + 56 * k, table[k]);
    }
  }

  /** The fields of a program header that the loader uses. */
  function UsedFields(p: ProgramHeader): Header { Header(p.kind, p.flags, p.offset, p.vaddr, p.filesz, p.memsz) }

  lemma ProgramIsRead(file: seq<Byte>, at: nat, p: ProgramHeader)
    requires Holds(file, at, ProgramBytes(p))
    ensures Field(file, at, 4) == p.kind && Field(file, at + 4, 4) == p.flags
    ensures Field(file, at + 8, 8) == p.offset && Field(file, at + 16, 8) == p.vaddr
    ensures Field(file, at + 32, 8) == p.filesz && Field(file, at + 40, 8) == p.memsz
  {
    hide Holds, Field, ProgramBytes, Capacity;
    Capacities();
    ProgramFields(file, at, p);
    FieldReads(file, at, p.kind, 4);
    FieldReads(file, at + 4, p.flags, 4);
    FieldReads(file, at + 8, p.offset, 8);
    FieldReads(file, at + 16, p.vaddr, 8);
    FieldReads(file, at + 32, p.filesz, 8);
    FieldReads(file, at + 40, p.memsz, 8);
  }

  /** Bits 1 and 0 of a segment's flags: writable, executable. */
  function SegmentWritable(flags: nat): bool { flags / 2 % 2 == 1 }

  function SegmentNoExecute(flags: nat): bool { flags % 2 == 0 }

  // ---- the code ----

  /** The do-while loop that maps a segment's pages: kernel-only, writable, not executable. */
  function MapRange(s: Phys, r: Frame, address: nat, sizeLeft: int): (Phys, bool)
    decreases sizeLeft
  {
    var (s1, ok) := MapFrom(s, r, address, 4, false, true, true);
    if !ok then (s1, false)
    else if sizeLeft - 4096 > 0 then MapRange(s1, r, address + 4096, sizeLeft - 4096)
    else (s1, true)
  }

  /** Where a segment's first page starts, and the bytes from there to its end. */
  function FirstByte(h: Header): nat { h.vaddr - h.vaddr % 4096 }

  function Span(h: Header): nat { h.memsz + h.vaddr % 4096 }

  /** The part of the file that is copied. */
  function Content(file: seq<Byte>, h: Header): seq<Byte>
    requires h.offset + h.filesz <= |file|
  {
    file[h.offset..h.offset + h.filesz]
  }

  /** Map a segment, copy its bytes, and give its first page the rights it asks for. */
  function LoadSegment(s: Phys, r: Frame, file: seq<Byte>, h: Header): (Phys, bool)
    requires h.offset + h.filesz <= |file|
  {
    var (s1, ok) := MapRange(s, r, FirstByte(h), Span(h));
    if !ok then (s1, false)
    else
      var s2 := PokeAll(s1, r, h.vaddr, Content(file, h), h.filesz);
      (ProtectFrom(s2, r, h.vaddr, 4, true, SegmentWritable(h.flags), SegmentNoExecute(h.flags)).0, true)
  }

  /** What the loader asks of a loadable segment: its bytes are in the file, its size fits the loop counters, and it
      lies in the lower half. */
  predicate SegmentOk(file: seq<Byte>, h: Header) {
    && h.offset + h.filesz <= |file|
    && h.filesz <= h.memsz && h.memsz + 4096 <= 0x8000_0000
    && h.vaddr + h.memsz + 4095 < TWO_47
  }

  predicate FileOk(file: seq<Byte>) {
    forall k: nat :: k < HeaderCount(file) && HeaderAt(file, k).kind == PT_LOAD ==> SegmentOk(file, HeaderAt(file, k))
  }

  /** The loop over the program headers, in round i and at header k. A loadable header at address 0 is skipped
      without moving on to the next one. */
  function LoadFrom(s: Phys, r: Frame, file: seq<Byte>, i: nat, k: nat): (Phys, bool)
    requires FileOk(file) && k <= i
    decreases HeaderCount(file) - i
  {
    if i >= HeaderCount(file) then (s, true)
    else
      var h := HeaderAt(file, k);
      if h.kind != PT_LOAD then LoadFrom(s, r, file, i + 1, k + 1)
      else if h.vaddr == 0 then LoadFrom(s, r, file, i + 1, k)
      else
        var (s1, ok) := LoadSegment(s, r, file, h);
        if !ok then (s1, false) else LoadFrom(s1, r, file, i + 1, k + 1)
  }

  const STACK: nat := 0x700_0000_0000

  /** The loop that maps n pages of the user stack: user, writable, and with a clear no-execute bit. A failure is
      ignored. */
  function MapStack(s: Phys, r: Frame, n: nat): Phys {
    if n == 0 then s else MapFrom(MapStack(s, r, n - 1), r, STACK + 4096 * (n - 1), 4, true, true, false).0
  }

  // ---- what mapping a range does ----

  const LOADING: PageRights := PageRights(false, true, true)

  lemma MapRangeRound(s: Phys, s1: Phys, r: Frame, address: nat, sizeLeft: int, s': Phys, ok: bool)
    requires (s1, true) == MapFrom(s, r, address, 4, false, true, true)
    requires (s', ok) == if sizeLeft > 4096 then MapRange(s1, r, address + 4096, sizeLeft - 4096) else (s1, true)
    ensures (s', ok) == MapRange(s, r, address, sizeLeft)
  {
  }

  lemma {:induction false} MapRangeSpec(s: Phys, r: Frame, g: Ledger, address: nat, sizeLeft: nat)
    returns (s': Phys, ok: bool, g': Ledger)
    requires Inv(s, r, g) && address + sizeLeft + 4095 < TWO_47
    ensures (s', ok) == MapRange(s, r, address, sizeLeft)
    ensures Inv(s', r, g') && g'.leaked == g.leaked
    ensures OnlyAdds(ViewOf(s, r), ViewOf(s', r), PageRun(address, PagesFor(sizeLeft)))
    ensures ok <==> CanMap(s.mem, r, g, PageRun(address, PagesFor(sizeLeft)))
    ensures ok ==> RangeAdded(ViewOf(s, r), ViewOf(s', r), PageRun(address, PagesFor(sizeLeft)), LOADING)
    ensures ok ==> Took(s.mem, s'.mem, r, g, g', PageRun(address, PagesFor(sizeLeft)))
    decreases sizeLeft
  {
    hide Pages, Inv, RangeAdded, OnlyAdds, MapFrom, CanMap, Took, Leaf;
    var s1, g1;
    s1, ok, g1 := MapPage(s, r, g, address, LOADING);
    g' := g1;
    var n := PagesFor(sizeLeft);
    AddedIsOnly(ViewOf(s, r), ViewOf(s1, r), if ok then {Leaf(address)} else {}, LOADING);
    if !ok {
      s' := s1;
      OnlyAddsMore(ViewOf(s, r), ViewOf(s', r), {}, PageRun(address, n));
      if CanMap(s.mem, r, g, PageRun(address, n)) {
        CanMapFirst(s.mem, r, g, address, n);
      }
      return;
    }
    assert PageRun(address, n) == {Leaf(address)} + PageRun(address + 4096, n - 1);
    if sizeLeft > 4096 {
      s', ok, g' := MapRangeSpec(s1, r, g1, address + 4096, sizeLeft - 4096);
      OnlyAddsTwice(ViewOf(s, r), ViewOf(s1, r), ViewOf(s', r), {Leaf(address)}, PageRun(address + 4096, n - 1));
      CanMapTail(s.mem, s1.mem, r, g, g1, address, n);
      if ok {
        RangeAddedCons(ViewOf(s, r), ViewOf(s1, r), ViewOf(s', r), Leaf(address), PageRun(address + 4096, n - 1),
            LOADING);
        TookMore(s.mem, s1.mem, s'.mem, r, g, g1, g', {Leaf(address)}, PageRun(address + 4096, n - 1));
      }
    } else {
      s' := s1;
      assert PageRun(address + 4096, 0) == {};
      assert PageRun(address, n) == {Leaf(address)};
    }
    MapRangeRound(s, s1, r, address, sizeLeft, s', ok);
  }

  // ---- one segment ----

  ghost function SegmentPages(h: Header): set<Path> { PageRun(FirstByte(h), PagesFor(Span(h))) }

  /** The segment's bytes can be read through the page tables: those of the file, then zeros. */
  ghost predicate BytesLoaded(v: View, file: seq<Byte>, h: Header)
    requires h.offset + h.filesz <= |file|
  {
    forall x: nat {:trigger Peek(v, x)} :: h.vaddr <= x < h.vaddr + h.memsz ==>
      Leaf(x) in v.pages && Peek(v, x) == if x < h.vaddr + h.filesz then file[h.offset + (x - h.vaddr)] else 0
  }

  /** The segment can be read, its first page has the rights the segment asks for, and its other pages keep the rights
      they were loaded with. */
  ghost predicate SegmentLoaded(v: View, file: seq<Byte>, h: Header)
    requires h.offset + h.filesz <= |file|
  {
    && BytesLoaded(v, file, h)
    && (forall p :: p in SegmentPages(h) ==> p in v.pages && RightsOf(v.pages[p]) == SegmentRights(h, p))
  }

  function SegmentRights(h: Header, p: Path): PageRights {
    if p == Leaf(h.vaddr) then PageRights(true, SegmentWritable(h.flags), SegmentNoExecute(h.flags)) else LOADING
  }

  /** From v to v' exactly the segment's pages were added, and it is loaded there. */
  ghost predicate SegmentAdded(v: View, v': View, file: seq<Byte>, h: Header)
    requires h.offset + h.filesz <= |file|
  {
    && AllKept(v, v') && SegmentLoaded(v', file, h)
    && (forall p :: p in v'.pages ==> p in v.pages || p in SegmentPages(h))
    && (forall p :: p in SegmentPages(h) ==> p !in v.pages)
  }

  lemma SegmentCovers(h: Header, x: nat)
    requires h.vaddr <= x < h.vaddr + h.memsz || x == h.vaddr
    ensures Leaf(x) in SegmentPages(h)
  {
    var start, n := FirstByte(h), PagesFor(Span(h));
    assert start % 4096 == 0 && start <= x < start + 4096 * n;
    RunCoversBytes(start, n, x);
  }

  lemma ClearReadsZero(v: View, x: nat)
    requires Leaf(x) in v.pages && IsClear(v.mem, v.pages[Leaf(x)].frame)
    ensures Peek(v, x) == 0
  {
    hide ByteOf, Leaf;
    ByteOfZero(x % 8);
  }

  /** Mapping and copying. */
  lemma CopyLoads(v: View, v1: View, v2: View, file: seq<Byte>, h: Header, x: nat)
    requires SegmentOk(file, h) && RangeAdded(v, v1, SegmentPages(h), LOADING)
    requires Stored(v1, v2, h.vaddr, Content(file, h))
    requires h.vaddr <= x < h.vaddr + h.memsz
    ensures Leaf(x) in v2.pages && Peek(v2, x) == if x < h.vaddr + h.filesz then file[h.offset + (x - h.vaddr)] else 0
  {
    hide Leaf, PageRun, Peek;
    SegmentCovers(h, x);
    ClearReadsZero(v1, x);
    assert Peek(v2, x) == if h.vaddr <= x < h.vaddr + h.filesz then Content(file, h)[x - h.vaddr] else Peek(v1, x);
  }

  lemma CopyKeeps(v: View, v1: View, v2: View, file: seq<Byte>, h: Header, p: Path)
    requires SegmentOk(file, h) && RangeAdded(v, v1, SegmentPages(h), LOADING)
    requires Stored(v1, v2, h.vaddr, Content(file, h))
    requires p in v.pages
    ensures p !in SegmentPages(h) && Kept(v, v2, p)
  {
    hide Leaf, PageRun, Peek;
    assert Kept(v, v1, p);
    if Covers(h.vaddr, h.filesz, p) {
      var x: nat :| h.vaddr <= x < h.vaddr + h.filesz && Leaf(x) == p;
      SegmentCovers(h, x);
    }
  }

  /** Changing the rights of a segment's first page. */
  ghost predicate Protected(v: View, v': View, p: Path, rights: PageRights) {
    && p in v.pages && v'.pages == v.pages[p := PageInfo(v.pages[p].frame, rights.user, rights.writable,
        rights.noExecute)]
    && forall q :: q in v.pages ==> SamePage(v.mem, v'.mem, v.pages[q].frame)
  }

  lemma SegmentSteps(v: View, v1: View, v2: View, v3: View, file: seq<Byte>, h: Header)
    requires SegmentOk(file, h) && RangeAdded(v, v1, SegmentPages(h), LOADING)
    requires Stored(v1, v2, h.vaddr, Content(file, h))
    requires Protected(v2, v3, Leaf(h.vaddr), SegmentRights(h, Leaf(h.vaddr)))
    ensures SegmentAdded(v, v3, file, h)
  {
    hide PageRun, Leaf, RangeAdded, Stored, Protected, AllKept, BytesLoaded;
    SegmentReads(v, v1, v2, v3, file, h);
    SegmentKeeps(v, v1, v2, v3, file, h);
    SegmentRightsSet(v, v1, v2, v3, file, h);
  }

  lemma SegmentReads(v: View, v1: View, v2: View, v3: View, file: seq<Byte>, h: Header)
    requires SegmentOk(file, h) && RangeAdded(v, v1, SegmentPages(h), LOADING)
    requires Stored(v1, v2, h.vaddr, Content(file, h))
    requires Protected(v2, v3, Leaf(h.vaddr), SegmentRights(h, Leaf(h.vaddr)))
    ensures BytesLoaded(v3, file, h)
  {
    hide PageRun, Peek, Covers, Leaf, RangeAdded, Stored, SegmentPages;
    forall x: nat | h.vaddr <= x < h.vaddr + h.memsz
      ensures Leaf(x) in v3.pages && Peek(v3, x) == if x < h.vaddr + h.filesz then file[h.offset + (x - h.vaddr)] else 0
    {
      CopyLoads(v, v1, v2, file, h, x);
      KeptReadsSame(v2, v3, x);
    }
  }

  lemma SegmentKeeps(v: View, v1: View, v2: View, v3: View, file: seq<Byte>, h: Header)
    requires SegmentOk(file, h) && RangeAdded(v, v1, SegmentPages(h), LOADING)
    requires Stored(v1, v2, h.vaddr, Content(file, h))
    requires Protected(v2, v3, Leaf(h.vaddr), SegmentRights(h, Leaf(h.vaddr)))
    ensures AllKept(v, v3) && forall p :: p in SegmentPages(h) ==> p !in v.pages
  {
    hide PageRun, Peek, Covers, Leaf, RangeAdded, Stored, SegmentPages;
    SegmentCovers(h, h.vaddr);
    forall p | p in v.pages ensures Kept(v, v3, p) && p !in SegmentPages(h) {
      CopyKeeps(v, v1, v2, file, h, p);
    }
  }

  lemma SegmentRightsSet(v: View, v1: View, v2: View, v3: View, file: seq<Byte>, h: Header)
    requires SegmentOk(file, h) && RangeAdded(v, v1, SegmentPages(h), LOADING)
    requires Stored(v1, v2, h.vaddr, Content(file, h))
    requires Protected(v2, v3, Leaf(h.vaddr), SegmentRights(h, Leaf(h.vaddr)))
    ensures forall p :: p in SegmentPages(h) ==> p in v3.pages && RightsOf(v3.pages[p]) == SegmentRights(h, p)
    ensures forall p :: p in v3.pages ==> p in v.pages || p in SegmentPages(h)
  {
    hide PageRun, Peek, Covers, Leaf, IsClear, SamePage, Kept;
    SegmentCovers(h, h.vaddr);
  }

  /** A segment gets the rights it asks for on all its pages exactly when it fits one page. */
  lemma RightsAreGrantedIff(v: View, file: seq<Byte>, h: Header)
    requires SegmentOk(file, h) && SegmentLoaded(v, file, h)
    ensures (forall p :: p in SegmentPages(h) ==>
              RightsOf(v.pages[p]) == PageRights(true, SegmentWritable(h.flags), SegmentNoExecute(h.flags)))
        <==> Span(h) <= 4096
  {
    hide Leaf, Peek;
    var start, n := FirstByte(h), PagesFor(Span(h));
    assert SegmentPages(h) == {Leaf(start)} + PageRun(start + 4096, n - 1);
    assert start / 4096 == h.vaddr / 4096;
    assert PageOf(start) == PageOf(h.vaddr);
    SamePathSamePage(start, h.vaddr);
    assert Leaf(start) == Leaf(h.vaddr);
    if Span(h) > 4096 {
      assert Leaf(start + 4096) in PageRun(start + 4096, n - 1);
      DifferentPages(start, start + 4096);
      var p := Leaf(start + 4096);
      assert p in SegmentPages(h) && RightsOf(v.pages[p]) == SegmentRights(h, p);
    } else {
      forall p | p in SegmentPages(h)
        ensures RightsOf(v.pages[p]) == PageRights(true, SegmentWritable(h.flags), SegmentNoExecute(h.flags))
      {
        assert p == Leaf(h.vaddr) && RightsOf(v.pages[p]) == SegmentRights(h, p);
      }
    }
  }

  lemma ProtectedView(s: Phys, s': Phys, ok: bool, r: Frame, g: Ledger, p: Path, rights: PageRights)
    requires ProtectRefined(s, s', ok, r, g, p, rights.user, rights.writable, rights.noExecute) && p in Pages(s.mem, r)
    ensures Protected(ViewOf(s, r), ViewOf(s', r), p, rights)
  {
    hide Inv, Pages, SamePage;
  }

  /** A loaded segment is added to what was there; after a failure everything mapped before is still kept. */
  lemma LoadSegmentSpec(s: Phys, r: Frame, g: Ledger, file: seq<Byte>, h: Header)
    returns (s': Phys, ok: bool, g': Ledger)
    requires Inv(s, r, g) && SegmentOk(file, h)
    ensures (s', ok) == LoadSegment(s, r, file, h) && Inv(s', r, g') && g'.leaked == g.leaked
    ensures OnlyAdds(ViewOf(s, r), ViewOf(s', r), SegmentPages(h))
    ensures ok <==> CanMap(s.mem, r, g, SegmentPages(h))
    ensures ok ==> SegmentAdded(ViewOf(s, r), ViewOf(s', r), file, h) && Took(s.mem, s'.mem, r, g, g', SegmentPages(h))
  {
    hide CanMap, Took, Present;
    hide Inv, Pages, MapFrom, ProtectFrom, Leaf, Peek, PageRun, SegmentLoaded, PokeAll, Stored, Protected;
    var s1;
    s1, ok, g' := MapRangeSpec(s, r, g, FirstByte(h), Span(h));
    if !ok {
      s' := s1;
      return;
    }
    forall x: nat | h.vaddr <= x < h.vaddr + h.filesz ensures Leaf(x) in Pages(s1.mem, r) {
      SegmentCovers(h, x);
    }
    SegmentCovers(h, h.vaddr);
    CopyStores(s1, r, g', h.vaddr, Content(file, h), h.filesz);
    var s2 := PokeAll(s1, r, h.vaddr, Content(file, h), h.filesz);
    assert Content(file, h)[..h.filesz] == Content(file, h);
    LowAddress(h.vaddr);
    ProtectRefines(s2, r, g', h.vaddr, true, SegmentWritable(h.flags), SegmentNoExecute(h.flags));
    s' := ProtectFrom(s2, r, h.vaddr, 4, true, SegmentWritable(h.flags), SegmentNoExecute(h.flags)).0;
    StoredPages(s1, s2, r, h.vaddr, Content(file, h));
    ProtectedView(s2, s', ProtectFrom(s2, r, h.vaddr, 4, true, SegmentWritable(h.flags),
        SegmentNoExecute(h.flags)).1, r, g', Leaf(h.vaddr), SegmentRights(h, Leaf(h.vaddr)));
    SegmentSteps(ViewOf(s, r), ViewOf(s1, r), ViewOf(s2, r), ViewOf(s', r), file, h);
    CopyKeepsPresent(s1, r, g', h.vaddr, Content(file, h), h.filesz);
    VmProtectKeepsPresent(s2, r, g', h.vaddr, SegmentRights(h, Leaf(h.vaddr)));
    TookSamePresent(s.mem, s1.mem, s'.mem, r, g, g', SegmentPages(h));
  }

  lemma TookSamePresent(m: Mem, m1: Mem, m2: Mem, r: Frame, g: Ledger, g1: Ledger, run: set<Path>)
    requires Took(m, m1, r, g, g1, run) && Present(m2, r) == Present(m1, r)
    ensures Took(m, m2, r, g, g1, run)
  {
  }

  lemma VmProtectKeepsPresent(s: Phys, r: Frame, g: Ledger, address: nat, rights: PageRights)
    requires Inv(s, r, g) && LowerHalf(address)
    ensures Present(ProtectFrom(s, r, address, 4, rights.user, rights.writable, rights.noExecute).0.mem, r) ==
      Present(s.mem, r)
  {
    assert Prefix(address, 4) == Root && Walk(s.mem, r, Root) == Some(r);
    FrameDemand.ProtectKeepsPresent(s, r, g, address, 4, r, rights.user, rights.writable, rights.noExecute);
  }

  lemma {:induction false} CopyKeepsPresent(s: Phys, r: Frame, g: Ledger, a: nat, data: seq<Byte>, n: nat)
    requires Inv(s, r, g) && n <= |data| && a + n <= TWO_47
    requires forall x: nat :: a <= x < a + n ==> Leaf(x) in Pages(s.mem, r)
    ensures Present(PokeAll(s, r, a, data, n).mem, r) == Present(s.mem, r)
    decreases n
  {
    hide Inv, Pages, Leaf, Present, Peek;
    if n > 0 {
      var s1 := PokeAll(s, r, a, data, n - 1);
      CopyKeepsPresent(s, r, g, a, data, n - 1);
      CopyStores(s, r, g, a, data, n - 1);
      StoredPages(s, s1, r, a, data[..n - 1]);
      PokeKeepsPresent(s1, r, g, a + n - 1, data[n - 1]);
    }
  }

  lemma PokeKeepsPresent(s: Phys, r: Frame, g: Ledger, x: nat, b: Byte)
    requires Inv(s, r, g) && Leaf(x) in Pages(s.mem, r)
    ensures Present(Poke(s, r, x, b).mem, r) == Present(s.mem, r)
  {
    hide Inv, Leaf, Present, SetByte;
    var f := Pages(s.mem, r)[Leaf(x)].frame;
    assert Walk(s.mem, r, Leaf(x)) == Some(f);
    StoreKeepsPresent(s, r, g, Leaf(x), CellOf(x), SetByte(At(s.mem, f, CellOf(x)), x % 8, b));
  }

  lemma StoredPages(s1: Phys, s2: Phys, r: Frame, a: nat, data: seq<Byte>)
    requires Stored(ViewOf(s1, r), ViewOf(s2, r), a, data)
    ensures Pages(s2.mem, r) == Pages(s1.mem, r)
  {
    hide Pages;
  }

  // ---- all segments ----

  /** Header k is that of a segment that the loader gets to and loads. */
  predicate Loadable(file: seq<Byte>, k: nat) {
    k < HeaderCount(file) && HeaderAt(file, k).kind == PT_LOAD && NoNullBefore(file, k + 1)
  }

  /** No loadable header before header k has address 0. */
  predicate NoNullBefore(file: seq<Byte>, k: nat) {
    forall j: nat :: j < k ==> !(HeaderAt(file, j).kind == PT_LOAD && HeaderAt(file, j).vaddr == 0)
  }

  /** Stuck at a null header, the loop only counts on. */
  lemma {:induction false} NullHeaderEndsLoading(s: Phys, r: Frame, file: seq<Byte>, i: nat, k: nat)
    requires FileOk(file) && k <= i && HeaderAt(file, k).kind == PT_LOAD && HeaderAt(file, k).vaddr == 0
    ensures LoadFrom(s, r, file, i, k) == (s, true)
    decreases HeaderCount(file) - i
  {
    if i < HeaderCount(file) {
      NullHeaderEndsLoading(s, r, file, i + 1, k);
    }
  }

  /** No page belongs to two segments. */
  ghost predicate SegmentsApart(file: seq<Byte>, k: nat) {
    forall i: nat, j: nat :: k <= i < j && Loadable(file, i) && Loadable(file, j) ==>
      SegmentPages(HeaderAt(file, i)) !! SegmentPages(HeaderAt(file, j))
  }

  /** The segments with headers from k on are loaded, on pages that were not mapped in v. */
  ghost predicate AllLoaded(v: View, v': View, file: seq<Byte>, k: nat)
    requires FileOk(file)
  {
    forall j: nat :: k <= j && Loadable(file, j) ==>
      && SegmentLoaded(v', file, HeaderAt(file, j))
      && forall p :: p in SegmentPages(HeaderAt(file, j)) ==> p !in v.pages
  }

  /** Page p belongs to a segment with a header from k on. */
  ghost predicate InSegments(file: seq<Byte>, k: nat, p: Path) {
    exists j: nat :: k <= j && Loadable(file, j) && p in SegmentPages(HeaderAt(file, j))
  }

  /** From v to v' exactly the segments with headers from k on were added, on pages that do not overlap. */
  ghost predicate SegmentsAdded(v: View, v': View, file: seq<Byte>, k: nat)
    requires FileOk(file)
  {
    && AllKept(v, v') && AllLoaded(v, v', file, k) && SegmentsApart(file, k)
    && (forall p :: p in v'.pages ==> p in v.pages || InSegments(file, k, p))
  }

  lemma LoadedStays(v: View, v': View, file: seq<Byte>, h: Header)
    requires h.offset + h.filesz <= |file| && SegmentLoaded(v, file, h) && AllKept(v, v')
    ensures SegmentLoaded(v', file, h)
  {
    hide PageRun, Leaf, Peek;
    forall x: nat | h.vaddr <= x < h.vaddr + h.memsz
      ensures Leaf(x) in v'.pages && Peek(v', x) == if x < h.vaddr + h.filesz then file[h.offset + (x - h.vaddr)] else 0
    {
      assert Peek(v, x) == if x < h.vaddr + h.filesz then file[h.offset + (x - h.vaddr)] else 0;
      assert Kept(v, v', Leaf(x));
      KeptReadsSame(v, v', x);
    }
    forall p | p in SegmentPages(h) ensures p in v'.pages && RightsOf(v'.pages[p]) == SegmentRights(h, p) {
      assert Kept(v, v', p);
    }
  }

  /** The segment of header k, then those of the later ones. */
  lemma SegmentsAddedCons(v: View, v1: View, v': View, file: seq<Byte>, k: nat)
    requires FileOk(file) && Loadable(file, k)
    requires SegmentAdded(v, v1, file, HeaderAt(file, k)) && SegmentsAdded(v1, v', file, k + 1)
    ensures SegmentsAdded(v, v', file, k)
  {
    hide SegmentLoaded, SegmentPages, Loadable, HeaderAt, AllLoaded, SegmentsApart, InSegments;
    LoadableIsOk(file, k);
    AllKeptTwice(v, v1, v');
    LoadedStays(v1, v', file, HeaderAt(file, k));
    SegmentInPages(v1, file, HeaderAt(file, k));
    forall p | p in v.pages ensures p in v1.pages {
      assert Kept(v, v1, p);
    }
    AllLoadedCons(v, v1, v', file, k);
    ApartFromAdded(v1, v', file, k);
    forall p ensures InSegments(file, k, p) <==> p in SegmentPages(HeaderAt(file, k)) || InSegments(file, k + 1, p) {
      InSegmentsCons(file, k, p);
    }
  }

  lemma AllLoadedCons(v: View, v1: View, v': View, file: seq<Byte>, k: nat)
    requires FileOk(file) && Loadable(file, k) && SegmentOk(file, HeaderAt(file, k))
    requires SegmentLoaded(v', file, HeaderAt(file, k)) && AllLoaded(v1, v', file, k + 1)
    requires forall p :: p in SegmentPages(HeaderAt(file, k)) ==> p !in v.pages
    requires forall p :: p in v.pages ==> p in v1.pages
    ensures AllLoaded(v, v', file, k)
  {
    hide SegmentLoaded, SegmentPages, Loadable, HeaderAt;
  }

  lemma ApartFromAdded(v1: View, v': View, file: seq<Byte>, k: nat)
    requires FileOk(file) && Loadable(file, k) && AllLoaded(v1, v', file, k + 1) && SegmentsApart(file, k + 1)
    requires forall p :: p in SegmentPages(HeaderAt(file, k)) ==> p in v1.pages
    ensures SegmentsApart(file, k)
  {
    hide SegmentLoaded, SegmentPages, Loadable, HeaderAt;
  }

  lemma InSegmentsCons(file: seq<Byte>, k: nat, p: Path)
    requires Loadable(file, k)
    ensures InSegments(file, k, p) <==> p in SegmentPages(HeaderAt(file, k)) || InSegments(file, k + 1, p)
  {
    hide SegmentPages, Loadable, HeaderAt;
  }

  lemma LoadableIsOk(file: seq<Byte>, k: nat)
    requires FileOk(file) && Loadable(file, k)
    ensures SegmentOk(file, HeaderAt(file, k))
  {
  }

  lemma SegmentInPages(v: View, file: seq<Byte>, h: Header)
    requires h.offset + h.filesz <= |file| && SegmentLoaded(v, file, h)
    ensures forall p :: p in SegmentPages(h) ==> p in v.pages
  {
  }

  lemma NothingToAdd(v: View, file: seq<Byte>, k: nat)
    requires FileOk(file) && forall j: nat :: k <= j ==> !Loadable(file, j)
    ensures SegmentsAdded(v, v, file, k) && forall run :: OnlyAdds(v, v, run)
  {
  }

  lemma SegmentsAddedSkip(v: View, v': View, file: seq<Byte>, k: nat)
    requires FileOk(file) && !Loadable(file, k) && SegmentsAdded(v, v', file, k + 1)
    ensures SegmentsAdded(v, v', file, k)
  {
    hide SegmentLoaded, SegmentPages, HeaderAt, Loadable, AllKept;
  }

  lemma NextRound(s: Phys, r: Frame, file: seq<Byte>, k: nat)
    requires FileOk(file) && k < HeaderCount(file)
    requires var h := HeaderAt(file, k); h.kind == PT_LOAD ==> h.vaddr != 0
    ensures
      var h := HeaderAt(file, k);
      LoadFrom(s, r, file, k, k) ==
        if h.kind != PT_LOAD then LoadFrom(s, r, file, k + 1, k + 1)
        else if !LoadSegment(s, r, file, h).1 then (LoadSegment(s, r, file, h).0, false)
        else LoadFrom(LoadSegment(s, r, file, h).0, r, file, k + 1, k + 1)
  {
    hide LoadSegment, HeaderAt;
  }

  // ---- when all segments load ----

  /** The pages of all segments from header k on. */
  ghost function ImagePages(file: seq<Byte>, k: nat): set<Path>
    decreases HeaderCount(file) - k
  {
    if k >= HeaderCount(file) then {}
    else if Loadable(file, k) then SegmentPages(HeaderAt(file, k)) + ImagePages(file, k + 1)
    else ImagePages(file, k + 1)
  }

  lemma {:induction false} InImage(file: seq<Byte>, k: nat)
    ensures forall p {:trigger p in ImagePages(file, k)} :: p in ImagePages(file, k) <==> InSegments(file, k, p)
    decreases HeaderCount(file) - k
  {
    hide SegmentPages, HeaderAt, NoNullBefore;
    if k < HeaderCount(file) {
      InImage(file, k + 1);
    }
  }

  lemma ApartCons(file: seq<Byte>, k: nat)
    requires Loadable(file, k)
    ensures SegmentsApart(file, k) <==>
      SegmentPages(HeaderAt(file, k)) !! ImagePages(file, k + 1) && SegmentsApart(file, k + 1)
  {
    hide SegmentPages, HeaderAt, NoNullBefore, Loadable, ImagePages;
    InImage(file, k + 1);
  }

  lemma ImageCons(file: seq<Byte>, k: nat)
    requires Loadable(file, k)
    ensures ImagePages(file, k) == SegmentPages(HeaderAt(file, k)) + ImagePages(file, k + 1)
  {
  }

  lemma ApartSkip(file: seq<Byte>, k: nat)
    requires !Loadable(file, k)
    ensures SegmentsApart(file, k) <==> SegmentsApart(file, k + 1)
    ensures ImagePages(file, k) == ImagePages(file, k + 1)
  {
    hide SegmentPages, HeaderAt;
    if k >= HeaderCount(file) {
      assert ImagePages(file, k) == ImagePages(file, k + 1) == {};
    }
  }

  lemma {:induction false} NothingLoadable(file: seq<Byte>, k: nat)
    requires forall j: nat :: k <= j ==> !Loadable(file, j)
    ensures SegmentsApart(file, k) && ImagePages(file, k) == {}
    decreases HeaderCount(file) - k
  {
    hide SegmentPages, HeaderAt;
    if k < HeaderCount(file) {
      NothingLoadable(file, k + 1);
    }
  }

  lemma {:induction false} ImageArePages(file: seq<Byte>, k: nat)
    requires FileOk(file)
    ensures PagePaths(ImagePages(file, k))
    decreases HeaderCount(file) - k
  {
    hide SegmentPages, HeaderAt;
    if k < HeaderCount(file) {
      ImageArePages(file, k + 1);
      if Loadable(file, k) {
        LoadableIsOk(file, k);
        SegmentArePages(file, HeaderAt(file, k));
      }
    }
  }

  lemma SegmentArePages(file: seq<Byte>, h: Header)
    requires SegmentOk(file, h)
    ensures PagePaths(SegmentPages(h))
  {
    hide Leaf;
    RunArePages(FirstByte(h), PagesFor(Span(h)));
  }

  lemma {:induction false} RunArePages(start: nat, n: nat)
    requires start + 4096 * n <= TWO_47
    ensures PagePaths(PageRun(start, n))
    decreases n
  {
    hide Leaf;
    if n > 0 {
      RunArePages(start + 4096, n - 1);
      LowAddress(start);
      LeafIsPage(start);
    }
  }

  /** The condition under which all segments from header k on load. */
  ghost predicate CanLoad(m: Mem, r: Frame, g: Ledger, file: seq<Byte>, k: nat) {
    SegmentsApart(file, k) && CanMap(m, r, g, ImagePages(file, k))
  }

  lemma CanLoadRest(m: Mem, m1: Mem, r: Frame, g: Ledger, g1: Ledger, file: seq<Byte>, k: nat)
    requires FileOk(file) && Loadable(file, k)
    requires CanMap(m, r, g, SegmentPages(HeaderAt(file, k))) && Took(m, m1, r, g, g1, SegmentPages(HeaderAt(file, k)))
    ensures CanLoad(m1, r, g1, file, k + 1) <==> CanLoad(m, r, g, file, k)
  {
    hide CanMap, Took, SegmentPages, HeaderAt, FileOk, SegmentsApart, ImagePages;
    var a, b := SegmentPages(HeaderAt(file, k)), ImagePages(file, k + 1);
    LoadableIsOk(file, k);
    SegmentArePages(file, HeaderAt(file, k));
    ImageArePages(file, k + 1);
    ImageCons(file, k);
    ApartCons(file, k);
    if a !! b {
      CanMapRest(m, m1, r, g, g1, a, b);
    } else {
      var p :| p in a && p in b;
      TookMaps(m, m1, r, g, g1, a, p);
      MappedCannot(m1, r, g1, b, p);
    }
  }

  lemma TookMaps(m: Mem, m1: Mem, r: Frame, g: Ledger, g1: Ledger, run: set<Path>, p: Path)
    requires Took(m, m1, r, g, g1, run) && p in run && IsPagePath(p)
    ensures p in Pages(m1, r)
  {
    assert p in Way(p);
    assert p in Present(m1, r);
  }

  lemma MappedCannot(m: Mem, r: Frame, g: Ledger, run: set<Path>, p: Path)
    requires p in run && p in Pages(m, r)
    ensures !CanMap(m, r, g, run)
  {
  }

  lemma CannotLoad(m: Mem, r: Frame, g: Ledger, file: seq<Byte>, k: nat)
    requires Loadable(file, k) && !CanMap(m, r, g, SegmentPages(HeaderAt(file, k)))
    ensures !CanLoad(m, r, g, file, k)
  {
    hide CanMap, SegmentPages, HeaderAt, Loadable, SegmentsApart, ImagePages;
    ImageCons(file, k);
    if CanMap(m, r, g, ImagePages(file, k)) {
      CanMapPart(m, r, g, SegmentPages(HeaderAt(file, k)), ImagePages(file, k + 1));
    }
  }

  lemma CanLoadNothing(m: Mem, r: Frame, g: Ledger, file: seq<Byte>, k: nat)
    requires forall j: nat :: k <= j ==> !Loadable(file, j)
    ensures CanLoad(m, r, g, file, k)
  {
    hide Loadable, HeaderAt, SegmentPages;
    NothingLoadable(file, k);
    DemandOfNothing(Present(m, r));
  }

  lemma TookNothing(m: Mem, r: Frame, g: Ledger, file: seq<Byte>, k: nat)
    requires forall j: nat :: k <= j ==> !Loadable(file, j)
    ensures ImagePages(file, k) == {} && Took(m, m, r, g, g, ImagePages(file, k))
  {
    hide Loadable, HeaderAt, SegmentPages, Present;
    NothingLoadable(file, k);
    DemandOfNothing(Present(m, r));
  }

  /** The loop over the headers: what it leaves, and exactly when no segment fails. */
  lemma {:induction false} LoadFromSpec(s: Phys, r: Frame, g: Ledger, file: seq<Byte>, k: nat)
    returns (s': Phys, ok: bool, g': Ledger)
    requires Inv(s, r, g) && FileOk(file) && NoNullBefore(file, k)
    ensures (s', ok) == LoadFrom(s, r, file, k, k) && Inv(s', r, g') && g'.leaked == g.leaked
    ensures OnlyAdds(ViewOf(s, r), ViewOf(s', r), ImagePages(file, k))
    ensures ok <==> CanLoad(s.mem, r, g, file, k)
    ensures ok ==>
      SegmentsAdded(ViewOf(s, r), ViewOf(s', r), file, k) && Took(s.mem, s'.mem, r, g, g', ImagePages(file, k))
    decreases HeaderCount(file) - k
  {
    hide Inv, Pages, HeaderAt, HeaderCount, LoadSegment, SegmentsAdded, SegmentAdded, CanLoad, CanMap, Took, OnlyAdds,
      SegmentPages, ImagePages, Present;
    var h := HeaderAt(file, k);
    if k >= HeaderCount(file) {
      s', ok, g' := s, true, g;
      NothingToAdd(ViewOf(s, r), file, k);
      TookNothing(s.mem, r, g, file, k);
      CanLoadNothing(s.mem, r, g, file, k);
    } else if h.kind != PT_LOAD {
      NextRound(s, r, file, k);
      s', ok, g' := LoadFromSpec(s, r, g, file, k + 1);
      ApartSkip(file, k);
      CanLoadSkip(s.mem, r, g, file, k);
      if ok {
        SegmentsAddedSkip(ViewOf(s, r), ViewOf(s', r), file, k);
      }
    } else if h.vaddr == 0 {
      NullHeaderEndsLoading(s, r, file, k, k);
      s', ok, g' := s, true, g;
      NothingToAdd(ViewOf(s, r), file, k);
      TookNothing(s.mem, r, g, file, k);
      CanLoadNothing(s.mem, r, g, file, k);
    } else {
      NextRound(s, r, file, k);
      ImageCons(file, k);
      var s1, g1;
      s1, ok, g1 := LoadSegmentSpec(s, r, g, file, h);
      g' := g1;
      if !ok {
        s' := s1;
        OnlyAddsMore(ViewOf(s, r), ViewOf(s', r), SegmentPages(h), ImagePages(file, k));
        CannotLoad(s.mem, r, g, file, k);
        return;
      }
      s', ok, g' := LoadFromSpec(s1, r, g1, file, k + 1);
      OnlyAddsTwice(ViewOf(s, r), ViewOf(s1, r), ViewOf(s', r), SegmentPages(h), ImagePages(file, k + 1));
      CanLoadRest(s.mem, s1.mem, r, g, g1, file, k);
      if ok {
        TookMore(s.mem, s1.mem, s'.mem, r, g, g1, g', SegmentPages(h), ImagePages(file, k + 1));
        SegmentsAddedCons(ViewOf(s, r), ViewOf(s1, r), ViewOf(s', r), file, k);
      }
    }
  }

  lemma CanLoadSkip(m: Mem, r: Frame, g: Ledger, file: seq<Byte>, k: nat)
    requires !Loadable(file, k)
    ensures CanLoad(m, r, g, file, k) <==> CanLoad(m, r, g, file, k + 1)
  {
    hide CanMap, SegmentsApart, ImagePages, Loadable;
    ApartSkip(file, k);
  }

  // ---- the stack ----

  const STACK_RIGHTS: PageRights := PageRights(true, true, false)

  ghost function StackPages(n: nat): set<Path> { set k: nat | k < n :: Leaf(STACK + 4096 * k) }

  /** From v to v' at most the stack's pages were added, and everything mapped before is kept. */
  ghost predicate StackAdded(v: View, v': View, n: nat) {
    && AllKept(v, v')
    && forall p :: p in v'.pages && p !in v.pages ==>
         p in StackPages(n) && RightsOf(v'.pages[p]) == STACK_RIGHTS && IsClear(v'.mem, v'.pages[p].frame)
  }

  lemma StackAddedOne(v: View, v1: View, v': View, n: nat, ok: bool)
    requires StackAdded(v, v1, n)
    requires RangeAdded(v1, v', if ok then {Leaf(STACK + 4096 * n)} else {}, STACK_RIGHTS)
    ensures StackAdded(v, v', n + 1)
  {
    hide Leaf;
    AllKeptTwice(v, v1, v');
    forall p | p in v'.pages && p !in v.pages
      ensures p in StackPages(n + 1) && RightsOf(v'.pages[p]) == STACK_RIGHTS && IsClear(v'.mem, v'.pages[p].frame)
    {
      if p in v1.pages {
        assert Kept(v1, v', p);
      }
    }
  }

  /** All the stack's pages were added. */
  ghost predicate StackComplete(v: View, v': View, n: nat) {
    forall p :: p in StackPages(n) ==> p !in v.pages && p in v'.pages
  }

  lemma StackIsPages(n: nat)
    requires n <= 8
    ensures PagePaths(StackPages(n)) && StackPages(n + 1) == StackPages(n) + {Leaf(STACK + 4096 * n)}
    ensures IsPagePath(Leaf(STACK + 4096 * n)) && Leaf(STACK + 4096 * n) !in StackPages(n)
  {
    hide Leaf;
    forall k: nat | k <= n
      ensures IsPagePath(Leaf(STACK + 4096 * k)) && (k < n ==> Leaf(STACK + 4096 * k) != Leaf(STACK + 4096 * n))
    {
      LowAddress(STACK + 4096 * k);
      LeafIsPage(STACK + 4096 * k);
      if k < n {
        DifferentPages(STACK + 4096 * k, STACK + 4096 * n);
      }
    }
  }

  lemma StackCompleteOne(v: View, v1: View, v': View, n: nat, ok: bool)
    requires StackAdded(v, v1, n) && n <= 8
    requires RangeAdded(v1, v', if ok then {Leaf(STACK + 4096 * n)} else {}, STACK_RIGHTS)
    ensures StackComplete(v, v', n + 1) <==> StackComplete(v, v1, n) && ok
  {
    hide Leaf, StackPages, IsClear;
    StackIsPages(n);
    var p := Leaf(STACK + 4096 * n);
    forall q | q in StackPages(n) ensures q in v'.pages <==> q in v1.pages {
      if q in v1.pages {
        assert Kept(v1, v', q);
      }
    }
    if p in v.pages {
      assert Kept(v, v1, p);
    }
  }

  /** The stack is complete exactly when none of its pages was mapped and there were frames for all of them. */
  lemma {:induction false} MapStackSpec(s: Phys, r: Frame, g: Ledger, n: nat) returns (s': Phys, g': Ledger)
    requires Inv(s, r, g) && n <= 8
    ensures s' == MapStack(s, r, n) && Inv(s', r, g') && g'.leaked == g.leaked
    ensures StackAdded(ViewOf(s, r), ViewOf(s', r), n)
    ensures StackComplete(ViewOf(s, r), ViewOf(s', r), n) <==> CanMap(s.mem, r, g, StackPages(n))
    ensures CanMap(s.mem, r, g, StackPages(n)) ==> Took(s.mem, s'.mem, r, g, g', StackPages(n))
  {
    hide Inv, Pages, MapFrom, RangeAdded, StackAdded, StackComplete, CanMap, Took, StackPages, Leaf, Present;
    if n == 0 {
      s', g' := s, g;
      NoStack(s, r, g);
    } else {
      var p := Leaf(STACK + 4096 * (n - 1));
      var s1, g1 := MapStackSpec(s, r, g, n - 1);
      var ok;
      s', ok, g' := MapPage(s1, r, g1, STACK + 4096 * (n - 1), STACK_RIGHTS);
      StackIsPages(n - 1);
      StackAddedOne(ViewOf(s, r), ViewOf(s1, r), ViewOf(s', r), n - 1, ok);
      StackCompleteOne(ViewOf(s, r), ViewOf(s1, r), ViewOf(s', r), n - 1, ok);
      if CanMap(s.mem, r, g, StackPages(n - 1)) {
        CanMapRest(s.mem, s1.mem, r, g, g1, StackPages(n - 1), {p});
        if ok {
          TookMore(s.mem, s1.mem, s'.mem, r, g, g1, g', StackPages(n - 1), {p});
        }
      } else if CanMap(s.mem, r, g, StackPages(n)) {
        CanMapPart(s.mem, r, g, StackPages(n - 1), {p});
      }
    }
  }

  lemma NoStack(s: Phys, r: Frame, g: Ledger)
    ensures StackPages(0) == {} && StackAdded(ViewOf(s, r), ViewOf(s, r), 0)
    ensures StackComplete(ViewOf(s, r), ViewOf(s, r), 0) && CanMap(s.mem, r, g, {}) && Took(s.mem, s.mem, r, g, g, {})
  {
    DemandOfNothing(Present(s.mem, r));
  }

  // ---- the whole call ----

  /** A boot module: its string and its contents. */
  datatype Module = Module(name: seq<Byte>, file: seq<Byte>)

  /** The first module from k on with the given name; the number of modules if there is none. */
  function FindModule(modules: seq<Module>, name: seq<Byte>, k: nat): (i: nat)
    requires k <= |modules|
    ensures k <= i <= |modules|
    ensures i < |modules| ==> Strings.CString(modules[i].name) == Strings.CString(name)
    ensures forall j :: k <= j < i ==> Strings.CString(modules[j].name) != Strings.CString(name)
    decreases |modules| - k
  {
    if k == |modules| || Strings.CString(modules[k].name) == Strings.CString(name) then k
    else FindModule(modules, name, k + 1)
  }

  /** There are modules, and the one to load is well-formed. */
  predicate ExecOk(modules: seq<Module>, name: seq<Byte>) {
    var i := FindModule(modules, name, 0);
    modules != [] && (i < |modules| ==> FileOk(modules[i].file))
  }

  /** `run_exec_elf` up to the jump into the program (result 1), or its error code. */
  function RunExec(s: Phys, r: Frame, modules: seq<Module>, name: seq<Byte>): (Phys, int)
    requires ExecOk(modules, name)
  {
    var i := FindModule(modules, name, 0);
    if i == |modules| then (s, -1)
    else
      var file := modules[i].file;
      var s1 := UnmapLower(s, r);
      if FileType(file) != ET_EXEC then (s1, -2)
      else
        var (s2, ok) := LoadFrom(s1, r, file, 0, 0);
        if !ok then (s2, -3) else (MapStack(s2, r, 8), 1)
  }

  /** The lower half is exactly the process image of a file. */
  ghost predicate ProcessImage(v: View, file: seq<Byte>)
    requires FileOk(file)
  {
    && (forall j: nat :: Loadable(file, j) ==> SegmentLoaded(v, file, HeaderAt(file, j)))
    && SegmentsApart(file, 0)
    && (forall p :: p in v.pages ==>
          || InSegments(file, 0, p)
          || (p in StackPages(8) && RightsOf(v.pages[p]) == STACK_RIGHTS && IsClear(v.mem, v.pages[p].frame)))
  }

  lemma ImageComplete(v0: View, v1: View, v2: View, file: seq<Byte>)
    requires FileOk(file) && v0.pages == imap[] && SegmentsAdded(v0, v1, file, 0) && StackAdded(v1, v2, 8)
    ensures ProcessImage(v2, file)
  {
    hide SegmentPages, Loadable, HeaderAt, StackPages, SegmentLoaded, IsClear;
    forall j: nat | Loadable(file, j) ensures SegmentOk(file, HeaderAt(file, j)) &&
        SegmentLoaded(v2, file, HeaderAt(file, j)) {
      LoadableIsOk(file, j);
      LoadedStays(v1, v2, file, HeaderAt(file, j));
    }
  }

  // ---- the image in terms of the headers written in the file ----

  /** The loader gets to program header k and loads its segment: it is of type 1 (PT_LOAD), and no header of that type
      up to it has address 0. */
  predicate Reached(table: seq<ProgramHeader>, k: nat) {
    && k < |table| && table[k].kind == 1
    && forall j: nat :: j <= k ==> !(table[j].kind == 1 && table[j].vaddr == 0)
  }

  /** The number of the last page that a segment touches. */
  function LastPage(p: ProgramHeader): nat {
    if p.memsz == 0 then p.vaddr / 4096 else (p.vaddr + p.memsz - 1) / 4096
  }

  /** The pages that a segment touches, and at least that of its address. */
  ghost function PagesAt(p: ProgramHeader): set<Path> {
    set n: nat | p.vaddr / 4096 <= n <= LastPage(p) :: Leaf(4096 * n)
  }

  ghost function TablePages(table: seq<ProgramHeader>): set<Path> {
    set k: nat, q | k < |table| && Reached(table, k) && q in PagesAt(table[k]) :: q
  }

  /** No page is touched by two segments. */
  ghost predicate TableApart(table: seq<ProgramHeader>) {
    forall i: nat, j: nat :: i < j && Reached(table, i) && Reached(table, j) ==>
      LastPage(table[i]) < table[j].vaddr / 4096 || LastPage(table[j]) < table[i].vaddr / 4096
  }

  /** The segment's bytes are those of the file at the offset given, then zeros. Its first page is for the user,
      writable if bit 1 of the flags is set and executable if bit 0 is; its other pages are as they were loaded. */
  ghost predicate SegmentAsTold(v: View, file: seq<Byte>, p: ProgramHeader) {
    && p.offset + p.filesz <= |file|
    && (forall x: nat {:trigger Peek(v, x)} :: p.vaddr <= x < p.vaddr + p.memsz ==>
          Leaf(x) in v.pages && Peek(v, x) == if x < p.vaddr + p.filesz then file[p.offset + (x - p.vaddr)] else 0)
    && (forall q :: q in PagesAt(p) ==>
          && q in v.pages
          && if q == Leaf(p.vaddr) then
               && v.pages[q].user && v.pages[q].writable == (p.flags % 4 >= 2)
               && v.pages[q].noExecute == (p.flags % 2 == 0)
             else !v.pages[q].user && v.pages[q].writable && v.pages[q].noExecute)
  }

  /** The lower half holds the segments that the table tells of, and otherwise at most eight clear pages for the
      stack: user, writable, executable. */
  ghost predicate ImageAsTold(v: View, file: seq<Byte>, table: seq<ProgramHeader>) {
    && (forall k: nat :: Reached(table, k) ==> SegmentAsTold(v, file, table[k]))
    && (forall q :: q in v.pages && q !in TablePages(table) ==>
          && (exists n: nat :: n < 8 && q == Leaf(0x700_0000_0000 + 4096 * n))
          && v.pages[q].user && v.pages[q].writable && !v.pages[q].noExecute && IsClear(v.mem, v.pages[q].frame))
  }

  /** The pages of a run, one by one. */
  lemma {:induction false} InRun(start: nat, n: nat, k: nat)
    requires k < n
    ensures Leaf(start + 4096 * k) in PageRun(start, n)
    decreases n
  {
    hide Leaf;
    if k > 0 {
      InRun(start + 4096, n - 1, k - 1);
      assert start + 4096 * k == start + 4096 + 4096 * (k - 1);
    }
  }

  lemma {:induction false} PlaceInRun(start: nat, n: nat, q: Path) returns (k: nat)
    requires q in PageRun(start, n)
    ensures k < n && q == Leaf(start + 4096 * k)
    decreases n
  {
    hide Leaf;
    k := 0;
    if q != Leaf(start) {
      k := PlaceInRun(start + 4096, n - 1, q);
      assert start + 4096 + 4096 * k == start + 4096 * (k + 1);
      k := k + 1;
    }
  }

  lemma CountPages(p: ProgramHeader)
    ensures var h := UsedFields(p);
      FirstByte(h) == 4096 * (p.vaddr / 4096) && p.vaddr / 4096 + PagesFor(Span(h)) == LastPage(p) + 1
  {
    var a, m := p.vaddr / 4096, p.vaddr % 4096;
    assert p.vaddr == 4096 * a + m;
    if p.memsz > 0 {
      var last := p.memsz + m - 1;
      LastOf(a, last);
      RoundedUp(last);
      assert p.vaddr + p.memsz - 1 == 4096 * a + last;
    }
  }

  lemma LastOf(a: nat, last: nat)
    ensures (4096 * a + last) / 4096 == a + last / 4096
  {
    var q, m := last / 4096, last % 4096;
    assert 4096 * a + last == 4096 * (a + q) + m;
  }

  lemma RoundedUp(last: nat)
    ensures PagesFor(last + 1) == last / 4096 + 1
  {
    var q, m := last / 4096, last % 4096;
    assert last + 1 + 4095 == 4096 * (q + 1) + m;
  }

  lemma SegmentTouches(p: ProgramHeader)
    ensures SegmentPages(UsedFields(p)) == PagesAt(p)
  {
    hide Leaf, PageRun;
    var start, n, a := FirstByte(UsedFields(p)), PagesFor(Span(UsedFields(p))), p.vaddr / 4096;
    CountPages(p);
    hide FirstByte, Span, PagesFor, LastPage;
    forall q ensures q in PageRun(start, n) <==> q in PagesAt(p) {
      if q in PageRun(start, n) {
        var k := PlaceInRun(start, n, q);
        assert start + 4096 * k == 4096 * (a + k);
        assert q == Leaf(4096 * (a + k)) && a <= a + k <= LastPage(p);
      } else if m: nat :| a <= m <= LastPage(p) && q == Leaf(4096 * m) {
        assert start + 4096 * (m - a) == 4096 * m;
        InRun(start, n, m - a);
      }
    }
  }

  /** Segments share a page exactly when the intervals of their page numbers meet. */
  lemma ApartIff(p: ProgramHeader, q: ProgramHeader)
    requires LastPage(p) < 0x8_0000_0000 && LastPage(q) < 0x8_0000_0000
    ensures PagesAt(p) !! PagesAt(q) <==> LastPage(p) < q.vaddr / 4096 || LastPage(q) < p.vaddr / 4096
  {
    hide Leaf;
    FirstIsNotAfterLast(p);
    FirstIsNotAfterLast(q);
    hide LastPage;
    var n := if p.vaddr / 4096 < q.vaddr / 4096 then q.vaddr / 4096 else p.vaddr / 4096;
    if n <= LastPage(p) && n <= LastPage(q) {
      assert Leaf(4096 * n) in PagesAt(p) && Leaf(4096 * n) in PagesAt(q);
    } else if path :| path in PagesAt(p) && path in PagesAt(q) {
      var i: nat :| p.vaddr / 4096 <= i <= LastPage(p) && path == Leaf(4096 * i);
      var j: nat :| q.vaddr / 4096 <= j <= LastPage(q) && path == Leaf(4096 * j);
      SameNumber(i, j);
    }
  }

  lemma FirstIsNotAfterLast(p: ProgramHeader)
    ensures p.vaddr / 4096 <= LastPage(p)
  {
  }

  lemma SameNumber(i: nat, j: nat)
    requires i < 0x8_0000_0000 && j < 0x8_0000_0000 && Leaf(4096 * i) == Leaf(4096 * j)
    ensures i == j
  {
    hide Leaf;
    PageNumbers(i, 4096 * j);
    PageOfPage(j);
  }

  lemma LastPageInRange(file: seq<Byte>, p: ProgramHeader)
    requires SegmentOk(file, UsedFields(p))
    ensures LastPage(p) < 0x8_0000_0000
  {
  }

  lemma ReachedIsLoadable(file: seq<Byte>, h: FileHeader, table: seq<ProgramHeader>, k: nat)
    requires Describes(file, h, table)
    ensures Loadable(file, k) <==> Reached(table, k)
  {
    HeadersAreRead(file, h, table);
    hide Describes, HeaderAt, HeaderCount;
    assert k < |table| ==> HeaderAt(file, k) == UsedFields(table[k]);
    if k < |table| {
      assert NoNullBefore(file, k + 1) <==>
        forall j: nat :: j <= k ==> !(table[j].kind == 1 && table[j].vaddr == 0) by {
        forall j: nat | j <= k ensures HeaderAt(file, j) == UsedFields(table[j]) {
        }
      }
    }
  }

  /** The loader's segments are those of the table. */
  lemma TableSegments(file: seq<Byte>, h: FileHeader, table: seq<ProgramHeader>)
    requires FileOk(file) && Describes(file, h, table)
    ensures forall k: nat {:trigger Reached(table, k)} {:trigger Loadable(file, k)} ::
      && (Loadable(file, k) <==> Reached(table, k))
      && (Reached(table, k) ==>
            && HeaderAt(file, k) == UsedFields(table[k]) && SegmentOk(file, UsedFields(table[k]))
            && SegmentPages(HeaderAt(file, k)) == PagesAt(table[k]))
  {
    HeadersAreRead(file, h, table);
    hide HeaderAt, HeaderCount, SegmentPages, PagesAt, NoNullBefore, SegmentOk, UsedFields;
    forall k: nat
      ensures Loadable(file, k) <==> Reached(table, k)
      ensures Reached(table, k) ==>
        && HeaderAt(file, k) == UsedFields(table[k]) && SegmentOk(file, UsedFields(table[k]))
        && SegmentPages(HeaderAt(file, k)) == PagesAt(table[k])
    {
      ReachedIsLoadable(file, h, table, k);
      if Reached(table, k) {
        LoadableIsOk(file, k);
        SegmentTouches(table[k]);
      }
    }
  }

  lemma TableIsImage(file: seq<Byte>, h: FileHeader, table: seq<ProgramHeader>)
    requires FileOk(file) && Describes(file, h, table)
    ensures SegmentsApart(file, 0) <==> TableApart(table)
    ensures ImagePages(file, 0) == TablePages(table)
  {
    TableSegments(file, h, table);
    InImage(file, 0);
    hide Describes, FileOk, HeaderAt, SegmentPages, PagesAt, Loadable, Reached, LastPage, SegmentOk, ImagePages;
    forall i: nat, j: nat | i < j && Reached(table, i) && Reached(table, j)
      ensures SegmentPages(HeaderAt(file, i)) !! SegmentPages(HeaderAt(file, j)) <==>
        LastPage(table[i]) < table[j].vaddr / 4096 || LastPage(table[j]) < table[i].vaddr / 4096
    {
      LastPageInRange(file, table[i]);
      LastPageInRange(file, table[j]);
      ApartIff(table[i], table[j]);
    }
    forall q ensures q in ImagePages(file, 0) <==> q in TablePages(table) {
      SameSegments(file, table, q);
    }
  }

  lemma SameSegments(file: seq<Byte>, table: seq<ProgramHeader>, q: Path)
    requires forall k: nat {:trigger Reached(table, k)} {:trigger Loadable(file, k)} ::
      && (Loadable(file, k) <==> Reached(table, k))
      && (Reached(table, k) ==> k < |table| && SegmentPages(HeaderAt(file, k)) == PagesAt(table[k]))
    ensures InSegments(file, 0, q) <==> q in TablePages(table)
  {
    hide HeaderAt, SegmentPages, PagesAt, Loadable, Reached;
  }

  /** The image of a file, as its headers tell it. */
  lemma ToldImage(v: View, file: seq<Byte>, h: FileHeader, table: seq<ProgramHeader>)
    requires FileOk(file) && Describes(file, h, table) && ProcessImage(v, file)
    ensures ImageAsTold(v, file, table)
  {
    TableSegments(file, h, table);
    TableIsImage(file, h, table);
    InImage(file, 0);
    hide Describes, FileOk, HeaderAt, SegmentPages, PagesAt, Loadable, Reached, SegmentOk, ImagePages, SegmentLoaded,
      SegmentAsTold, IsClear, InSegments, TablePages, StackPages;
    forall k: nat | Reached(table, k) ensures SegmentAsTold(v, file, table[k]) {
      assert Loadable(file, k);
      SegmentIsTold(v, file, table[k]);
    }
    RestIsStack(v, file, table);
  }

  lemma RestIsStack(v: View, file: seq<Byte>, table: seq<ProgramHeader>)
    requires FileOk(file) && ProcessImage(v, file)
    requires forall q :: InSegments(file, 0, q) ==> q in TablePages(table)
    ensures forall q :: q in v.pages && q !in TablePages(table) ==>
      && (exists n: nat :: n < 8 && q == Leaf(0x700_0000_0000 + 4096 * n))
      && v.pages[q].user && v.pages[q].writable && !v.pages[q].noExecute && IsClear(v.mem, v.pages[q].frame)
  {
    hide FileOk, Loadable, SegmentLoaded, IsClear, InSegments, TablePages, StackPages, SegmentsApart, Leaf;
    forall q | q in v.pages && q !in TablePages(table)
      ensures exists n: nat :: n < 8 && q == Leaf(0x700_0000_0000 + 4096 * n)
    {
      assert q in StackPages(8);
      StackIsTold(q);
    }
  }

  lemma StackIsTold(q: Path)
    ensures q in StackPages(8) <==> exists n: nat :: n < 8 && q == Leaf(0x700_0000_0000 + 4096 * n)
  {
    hide Leaf;
  }

  lemma SegmentIsTold(v: View, file: seq<Byte>, p: ProgramHeader)
    requires SegmentOk(file, UsedFields(p)) && SegmentPages(UsedFields(p)) == PagesAt(p)
    requires SegmentLoaded(v, file, UsedFields(p))
    ensures SegmentAsTold(v, file, p)
  {
    hide Leaf, Peek, PageRun, PagesAt, SegmentPages, SegmentWritable, SegmentNoExecute;
    var h := UsedFields(p);
    FlagBits(p.flags);
    forall x: nat | p.vaddr <= x < p.vaddr + p.memsz
      ensures Leaf(x) in v.pages &&
        Peek(v, x) == if x < p.vaddr + p.filesz then file[p.offset + (x - p.vaddr)] else 0
    {
      assert Peek(v, x) == if x < h.vaddr + h.filesz then file[h.offset + (x - h.vaddr)] else 0;
    }
    forall q | q in PagesAt(p)
      ensures q in v.pages && RightsOf(v.pages[q]) == SegmentRights(h, q)
    {
      assert q in SegmentPages(h);
    }
  }

  lemma FlagBits(flags: nat)
    ensures SegmentWritable(flags) == (flags % 4 >= 2) && SegmentNoExecute(flags) == (flags % 2 == 0)
  {
    assert flags == 4 * (flags / 4) + flags % 4;
  }

  /** The tables and pages that the image of a file takes. */
  ghost function ImageSize(file: seq<Byte>): nat { |Ways(ImagePages(file, 0))| }

  /** All of the stack is there: eight clear pages with the stack's rights, none of them a segment's. */
  ghost predicate StackReady(v: View, file: seq<Byte>) {
    forall p :: p in StackPages(8) ==>
      && p in v.pages && p !in ImagePages(file, 0)
      && RightsOf(v.pages[p]) == STACK_RIGHTS && IsClear(v.mem, v.pages[p].frame)
  }

  /** No segment lies where the stack goes, and n frames are enough for the image and the stack. */
  ghost predicate StackFits(file: seq<Byte>, n: nat) {
    StackPages(8) !! ImagePages(file, 0) && |Ways(ImagePages(file, 0) + StackPages(8))| <= n
  }

  lemma StackReadyIff(v0: View, v1: View, v2: View, file: seq<Byte>)
    requires v0.pages == imap[] && OnlyAdds(v0, v1, ImagePages(file, 0)) && StackAdded(v1, v2, 8)
    requires forall p :: p in ImagePages(file, 0) ==> p in v1.pages
    ensures StackReady(v2, file) <==> StackComplete(v1, v2, 8)
  {
    hide ImagePages, StackPages, IsClear;
  }

  lemma StackFitsIff(m: Mem, m1: Mem, r: Frame, g: Ledger, g1: Ledger, file: seq<Byte>)
    requires FileOk(file) && Pages(m, r) == imap[] && Present(m, r) == iset{}
    requires CanMap(m, r, g, ImagePages(file, 0)) && Took(m, m1, r, g, g1, ImagePages(file, 0))
    ensures CanMap(m1, r, g1, StackPages(8)) <==> StackFits(file, |g.free|)
  {
    hide Pages, Present, ImagePages, StackPages, FileOk, Took;
    var a, b := ImagePages(file, 0), StackPages(8);
    ImageArePages(file, 0);
    StackIsPages(8);
    assert Demand(Present(m, r), a + b) == Ways(a + b);
    if a !! b {
      CanMapRest(m, m1, r, g, g1, a, b);
    } else {
      var p :| p in a && p in b;
      TookMaps(m, m1, r, g, g1, a, p);
      MappedCannot(m1, r, g1, b, p);
    }
  }

  lemma ImageMapped(m: Mem, m1: Mem, r: Frame, g: Ledger, g1: Ledger, file: seq<Byte>)
    requires FileOk(file) && Took(m, m1, r, g, g1, ImagePages(file, 0))
    ensures forall p :: p in ImagePages(file, 0) ==> p in Pages(m1, r)
  {
    hide Pages, ImagePages, FileOk, Took;
    ImageArePages(file, 0);
    forall p | p in ImagePages(file, 0) ensures p in Pages(m1, r) {
      TookMaps(m, m1, r, g, g1, ImagePages(file, 0), p);
    }
  }

  /** Loading into a cleared lower half. */
  lemma LoadIntoClear(s: Phys, r: Frame, g: Ledger, file: seq<Byte>) returns (s': Phys, ok: bool, g': Ledger)
    requires Inv(s, r, g) && Pages(s.mem, r) == imap[] && Present(s.mem, r) == iset{} && FileOk(file)
    ensures var (s2, loaded) := LoadFrom(s, r, file, 0, 0);
      && ok == loaded && s' == (if ok then MapStack(s2, r, 8) else s2)
      && Inv(s', r, g') && g'.leaked == g.leaked
    ensures ok <==> SegmentsApart(file, 0) && ImageSize(file) <= |g.free|
    ensures ok ==> ProcessImage(ViewOf(s', r), file)
    ensures ok ==> (StackReady(ViewOf(s', r), file) <==> StackFits(file, |g.free|))
    ensures !ok ==> forall p :: p in Pages(s'.mem, r) ==> p in ImagePages(file, 0)
  {
    hide Inv, Pages, SegmentsAdded, StackAdded, ProcessImage, LoadFrom, MapStack, Present, CanMap, Took, ImagePages,
      FileOk, SegmentsApart, StackComplete, StackReady, StackFits, StackPages, AllKept;
    var s2, g2;
    s2, ok, g2 := LoadFromSpec(s, r, g, file, 0);
    s', g' := s2, g2;
    CanLoadIntoClear(s.mem, r, g, file);
    if ok {
      s', g' := MapStackSpec(s2, r, g2, 8);
      ImageComplete(ViewOf(s, r), ViewOf(s2, r), ViewOf(s', r), file);
      ImageMapped(s.mem, s2.mem, r, g, g2, file);
      StackReadyIff(ViewOf(s, r), ViewOf(s2, r), ViewOf(s', r), file);
      StackFitsIff(s.mem, s2.mem, r, g, g2, file);
    }
  }

  lemma CanLoadIntoClear(m: Mem, r: Frame, g: Ledger, file: seq<Byte>)
    requires Pages(m, r) == imap[] && Present(m, r) == iset{}
    ensures CanLoad(m, r, g, file, 0) <==> SegmentsApart(file, 0) && ImageSize(file) <= |g.free|
  {
    hide Pages, Present, SegmentsApart, ImagePages;
    assert Demand(Present(m, r), ImagePages(file, 0)) == Ways(ImagePages(file, 0));
  }

  /** The outcome in terms of the headers of the file: type 2 is ET_EXEC; n frames were free. */
  ghost predicate ExecAsTold(v: View, result: int, file: seq<Byte>, h: FileHeader, table: seq<ProgramHeader>, n: nat) {
    && (result == -2 <==> h.kind != 2)
    && (result == 1 <==> h.kind == 2 && TableApart(table) && |Ways(TablePages(table))| <= n)
    && (result == 1 ==> ImageAsTold(v, file, table))
  }

  lemma ToldOutcome(v: View, result: int, file: seq<Byte>, n: nat)
    requires FileOk(file) && (result == -2 <==> FileType(file) != ET_EXEC)
    requires result == 1 <==> FileType(file) == ET_EXEC && SegmentsApart(file, 0) && ImageSize(file) <= n
    requires result == 1 ==> ProcessImage(v, file)
    ensures forall h, table {:trigger Describes(file, h, table)} :: Describes(file, h, table) ==>
      ExecAsTold(v, result, file, h, table, n)
  {
    hide Describes, FileOk, ProcessImage, ImageAsTold, SegmentsApart, TableApart, ImagePages, TablePages, FileType;
    forall h, table | Describes(file, h, table) ensures ExecAsTold(v, result, file, h, table, n) {
      HeadersAreRead(file, h, table);
      TableIsImage(file, h, table);
      if result == 1 {
        ToldImage(v, file, h, table);
      }
    }
  }

  /** A program whose stack is whole starts with 32 KiB of clear user memory that it can read and write, at the upper
      end of which the loader sets its stack pointer. */
  lemma StackIsUsable(v: View, file: seq<Byte>, x: nat)
    requires StackReady(v, file) && 0x700_0000_0000 <= x < 0x700_0000_8000
    ensures Leaf(x) in v.pages && v.pages[Leaf(x)].user && v.pages[Leaf(x)].writable && Peek(v, x) == 0
  {
    hide Leaf, Peek, ImagePages, StackPages, IsClear;
    var n := (x - 0x700_0000_0000) / 4096;
    WithinPage(0x700_0000_0000 + 4096 * n, x);
    StackIsTold(Leaf(x));
    assert Leaf(x) == Leaf(0x700_0000_0000 + 4096 * n);
    ClearReadsZero(v, x);
  }

  /** The frames that are free once the lower half has been cleared. */
  ghost function FreeAfterClearing(m: Mem, r: Frame, g: Ledger): nat { |Unmapped(m, r, g).free| }

  /** `run_exec_elf` enters the program exactly when the named file is executable, no page belongs to two of its
      segments, and clearing the lower half frees enough frames for its tables and pages. Then the lower half is
      exactly the image of that file, whatever ran before: each loaded segment reads as its file bytes followed by
      zeros, on pages of its own, and the only other pages are clear stack pages. All eight of these are there
      exactly when no segment is in their place and the frames suffice for them as well; the program is entered
      either way. Of the errors only the unknown name, -1, leaves the caller as it was (or one that had nothing
      mapped): -2, for a file of another type, leaves nothing mapped, and -3, for a load that fails, at most pages of
      segments. The invariant holds after every outcome. All this is also said of the headers that the file was written
      with (`ExecAsTold`). */
  lemma ExecBuildsTheImage(s: Phys, r: Frame, g: Ledger, modules: seq<Module>, name: seq<Byte>) returns (g': Ledger)
    requires Inv(s, r, g) && ExecOk(modules, name)
    ensures
      var (s', result) := RunExec(s, r, modules, name);
      var i := FindModule(modules, name, 0);
      && Inv(s', r, g')
      && (result == -1 <==> i == |modules|) && (result == -1 ==> s' == s)
      && (result == -2 <==> i < |modules| && FileType(modules[i].file) != ET_EXEC)
      && (result == -2 ==> Pages(s'.mem, r) == imap[])
      && (result == -3 ==> forall p :: p in Pages(s'.mem, r) ==> p in ImagePages(modules[i].file, 0))
      && result in {1, -1, -2, -3}
      && (AllKept(ViewOf(s, r), ViewOf(s', r)) <==> result == -1 || Pages(s.mem, r) == imap[])
      && (result == 1 <==>
            && i < |modules| && FileType(modules[i].file) == ET_EXEC && SegmentsApart(modules[i].file, 0)
            && ImageSize(modules[i].file) <= FreeAfterClearing(s.mem, r, g))
      && (result == 1 ==> ProcessImage(ViewOf(s', r), modules[i].file))
      && (result == 1 ==>
            (StackReady(ViewOf(s', r), modules[i].file) <==>
             StackFits(modules[i].file, FreeAfterClearing(s.mem, r, g))))
      && (i < |modules| ==>
            forall h, table {:trigger Describes(modules[i].file, h, table)} :: Describes(modules[i].file, h, table) ==>
              ExecAsTold(ViewOf(s', r), result, modules[i].file, h, table, FreeAfterClearing(s.mem, r, g)))
  {
    hide Inv, Pages, ProcessImage, LoadFrom, MapStack, UnmapLower, FileOk, SegmentsApart, ImageSize, Unmapped, Present,
      ImagePages, StackReady, StackFits, AllKept, ExecAsTold, Describes, FileType;
    g' := g;
    var i := FindModule(modules, name, 0);
    if i == |modules| {
      KeptWhole(ViewOf(s, r));
    } else {
      var s', ok := UnmapLower(s, r), false;
      UnmapLowerRefines(s, r, g);
      NothingPresent(s, r, g);
      g' := Unmapped(s.mem, r, g);
      if FileType(modules[i].file) == ET_EXEC {
        s', ok, g' := LoadIntoClear(s', r, g', modules[i].file);
      }
      ClearedIsGone(s, s', r, g, g');
      ToldOutcome(ViewOf(RunExec(s, r, modules, name).0, r), RunExec(s, r, modules, name).1, modules[i].file,
          FreeAfterClearing(s.mem, r, g));
    }
  }

  lemma KeptWhole(v: View)
    ensures AllKept(v, v)
  {
  }

  /** Pages that were mapped when the lower half was cleared do not come back: their frames are leaked. */
  lemma ClearedIsGone(s: Phys, s': Phys, r: Frame, g: Ledger, g': Ledger)
    requires Inv(s, r, g) && Inv(s', r, g') && g'.leaked == Unmapped(s.mem, r, g).leaked
    ensures AllKept(ViewOf(s, r), ViewOf(s', r)) <==> Pages(s.mem, r) == imap[]
  {
    hide Pushed3;
    var v, v' := ViewOf(s, r), ViewOf(s', r);
    if p :| p in v.pages {
      var f := v.pages[p].frame;
      assert Walk(s.mem, r, p) == Some(f);
      assert Owned(s.mem, r, f) && IsPage(s.mem, r, f);
      assert Walk(s'.mem, r, p) == Some(f) ==> Owned(s'.mem, r, f);
      assert !Kept(v, v', p);
    }
  }

  lemma NothingPresent(s: Phys, r: Frame, g: Ledger)
    requires Inv(s, r, g)
    ensures Present(UnmapLower(s, r).mem, r) == iset{}
  {
    UnmapLowerKeepsInv(s, r, g);
  }
}
