/** The program loader as it runs, on the frame manager's memory. */
module Exec {
  import opened Words
  import opened Memory
  import opened PageTree
  import opened Mapping
  import opened UnmapLowerHalf
  import opened AddressSpace
  import opened UpperHalf
  import opened PageRanges
  import opened Pager
  import opened VirtualBytes
  import opened ElfFile
  import opened Loader
  import Strings

  class ElfLoader {
    const fm: FrameManager

    constructor (fm: FrameManager)
      ensures this.fm == fm
    {
      this.fm := fm;
    }

    /** A store by the processor: it walks the four tables and writes one byte. */
    method StoreByte(root: nat, x: nat, b: Byte)
      requires fm.Valid(root) && x < TWO_47 && Leaf(x) in Pages(fm.phys.mem, root / 4096)
      modifies fm`phys, fm.ram
      ensures fm.Valid(root) && fm.phys == Poke(old(fm.phys), root / 4096, x, b)
    {
      hide OfBits, Bits, SetByte, Permissive, Partition;
      ghost var r: Frame := root / 4096;
      ghost var s := fm.phys;
      LowAddress(x);
      assert Prefix(x, 4) == Root && Walk(s.mem, r, Root) == Some(r);
      var table: Frame := root / 4096;
      var i := 4;
      while i > 0
        invariant 0 <= i <= 4 && fm.Valid(root) && fm.phys == s
        invariant Walk(s.mem, r, Prefix(x, i)) == Some(table)
      {
        assert Prefix(x, i - 1) == Sub(Prefix(x, i), Index(x, i)) && Lower(Prefix(x, i - 1));
        assert table < |s.mem| && table !in fm.ledger.free;
        LeadsToLeaf(s.mem, r, x, i - 1);
        PresentLeads(s.mem, r, Prefix(x, i - 1));
        var e := fm.Load(table, Index(x, i), fm.ledger.free);
        table := e.address;
        i := i - 1;
      }
      assert table < |s.mem| && table !in fm.ledger.free;
      var w := fm.Load(table, CellOf(x), fm.ledger.free);
      PokeStores(s, r, fm.ledger, x, b);
      fm.Write(table, CellOf(x), SetByte(w, x % 8, b));
    }

    /** The do-while loop over a segment's pages. */
    method MapPages(root: nat, address: nat, size: nat) returns (ok: bool)
      requires fm.Valid(root) && address + size + 4095 < TWO_47
      modifies fm, fm.ram
      ensures fm.Valid(root) && (fm.phys, ok) == MapRange(old(fm.phys), root / 4096, address, size)
    {
      hide MapFrom, Inv, MapRefined, UpperMapped, LowerHalf, Leaf, Missing, TablesBelow;
      var sizeLeft: int := size;
      var i, more := 0, true;
      while more
        invariant fm.Valid(root) && sizeLeft == size - 4096 * i
        invariant more ==> i == 0 || sizeLeft > 0
        invariant MapRange(old(fm.phys), root / 4096, address, size) ==
          if more then MapRange(fm.phys, root / 4096, address + i * 4096, sizeLeft) else (fm.phys, true)
        decreases more, sizeLeft
      {
        LowAddress(address + i * 4096);
        ok := fm.VmMap(root, address + i * 4096, false, true, true);
        if !ok {
          return false;
        }
        sizeLeft := sizeLeft - 4096;
        i := i + 1;
        more := sizeLeft > 0;
      }
      return true;
    }

    /** `memcpy` of a segment's bytes to where they belong. */
    method CopyBytes(root: nat, a: nat, data: seq<Byte>)
      requires fm.Valid(root) && a + |data| <= TWO_47
      requires forall x: nat :: a <= x < a + |data| ==> Leaf(x) in Pages(fm.phys.mem, root / 4096)
      modifies fm`phys, fm.ram
      ensures fm.Valid(root) && fm.phys == PokeAll(old(fm.phys), root / 4096, a, data, |data|)
    {
      hide Inv, Pages, Leaf, Poke, Peek;
      for i := 0 to |data|
        invariant fm.Valid(root) && fm.phys == PokeAll(old(fm.phys), root / 4096, a, data, i)
        invariant Pages(fm.phys.mem, root / 4096) == Pages(old(fm.phys).mem, root / 4096)
      {
        ghost var s := fm.phys;
        PokeStores(s, root / 4096, fm.ledger, a + i, data[i]);
        StoredPages(s, Poke(s, root / 4096, a + i, data[i]), root / 4096, a + i, [data[i]]);
        StoreByte(root, a + i, data[i]);
      }
    }

    /** One loadable segment. */
    method LoadOne(root: nat, file: seq<Byte>, h: Header) returns (ok: bool)
      requires fm.Valid(root) && SegmentOk(file, h)
      modifies fm, fm.ram
      ensures fm.Valid(root) && (fm.phys, ok) == LoadSegment(old(fm.phys), root / 4096, file, h)
    {
      hide Inv, Pages, Leaf, Peek, PageRun, MapFrom, ProtectFrom, PokeAll, MapRange, ProtectRefined;
      ghost var s, g := fm.phys, fm.ledger;
      var sizeLeft := h.memsz;
      var vaddrToMap := h.vaddr;
      if h.vaddr % 4096 != 0 {
        vaddrToMap := h.vaddr - h.vaddr % 4096;
        sizeLeft := sizeLeft + h.vaddr % 4096;
      }
      ok := MapPages(root, vaddrToMap, sizeLeft);
      if !ok {
        return;
      }
      ghost var s1, _, g1 := MapRangeSpec(s, root / 4096, g, FirstByte(h), Span(h));
      MappedForCopy(s, s1, root / 4096, h);
      CopyBytes(root, h.vaddr, Content(file, h));
      LowAddress(h.vaddr);
      var _ := fm.VmProtect(root, h.vaddr, true, SegmentWritable(h.flags), SegmentNoExecute(h.flags));
    }

    /** The loop over the program headers. */
    method LoadAll(root: nat, file: seq<Byte>) returns (ok: bool)
      requires fm.Valid(root) && FileOk(file)
      modifies fm, fm.ram
      ensures fm.Valid(root) && (fm.phys, ok) == LoadFrom(old(fm.phys), root / 4096, file, 0, 0)
    {
      hide Inv, LoadSegment, HeaderAt;
      var i, k := 0, 0;
      while i < HeaderCount(file)
        invariant fm.Valid(root) && k <= i
        invariant LoadFrom(old(fm.phys), root / 4096, file, 0, 0) == LoadFrom(fm.phys, root / 4096, file, i, k)
        decreases HeaderCount(file) - i
      {
        var h := HeaderAt(file, k);
        i := i + 1;
        if h.kind == PT_LOAD {
          if h.vaddr == 0 {
            continue;
          }
          ok := LoadOne(root, file, h);
          if !ok {
            return;
          }
        }
        k := k + 1;
      }
      return true;
    }

    /** The loop over the stack's pages. */
    method MapStackPages(root: nat)
      requires fm.Valid(root)
      modifies fm, fm.ram
      ensures fm.Valid(root) && fm.phys == MapStack(old(fm.phys), root / 4096, 8)
    {
      hide MapFrom, Inv, MapRefined, UpperMapped, LowerHalf, Leaf, Missing, TablesBelow;
      var n := 0;
      while STACK + 4096 * n < STACK + 8 * 4096
        invariant n <= 8 && fm.Valid(root) && fm.phys == MapStack(old(fm.phys), root / 4096, n)
      {
        LowAddress(STACK + 4096 * n);
        var _ := fm.VmMap(root, STACK + 4096 * n, true, true, false);
        n := n + 1;
      }
    }

    /** `run_exec_elf`; 1 where it would enter the program, at `entry` and with the given stack pointer. */
    method RunExecElf(root: nat, modules: seq<Module>, name: seq<Byte>)
      returns (result: int, entry: nat, stackPointer: nat)
      requires fm.Valid(root) && root % 4096 == 0 && ExecOk(modules, name)
      requires Strings.Terminated(name) && forall m :: m in modules ==> Strings.Terminated(m.name)
      modifies fm, fm.ram
      ensures fm.Valid(root) && (fm.phys, result) == RunExec(old(fm.phys), root / 4096, modules, name)
      ensures result == 1 ==>
        ProcessImage(ViewOf(fm.phys, root / 4096), modules[FindModule(modules, name, 0)].file)
      ensures result == 1 ==> stackPointer == 0x700_0000_7FF8
      ensures var i := FindModule(modules, name, 0);
        result == 1 ==>
          forall h, table {:trigger Describes(modules[i].file, h, table)} :: Describes(modules[i].file, h, table) ==>
            entry == h.entry && ImageAsTold(ViewOf(fm.phys, root / 4096), modules[i].file, table)
    {
      hide Inv, FileOk, LoadFrom, MapStack, ProcessImage, ImageAsTold, UnmapLower, Strings.CString, Describes,
        StackFits, StackReady, SegmentsApart, TableApart, ImageSize, FileType, EntryPoint;
      entry, stackPointer := 0, 0;
      ghost var _ := ExecBuildsTheImage(fm.phys, root / 4096, fm.ledger, modules, name);
      var file := [];
      var index := 0;
      while index < |modules|
        invariant 0 <= index < |modules|
        invariant FindModule(modules, name, 0) == FindModule(modules, name, index)
        invariant fm.Valid(root) && fm.phys == old(fm.phys)
        decreases |modules| - index
      {
        var current := modules[index];
        var order := Strings.Strcmp(current.name, name);
        index := index + 1;
        if order == 0 {
          file := current.file;
          break;
        } else if index >= |modules| {
          return -1, 0, 0;
        }
      }
      fm.ClearLowerHalf(root);
      if FileType(file) != ET_EXEC {
        return -2, 0, 0;
      }
      var ok := LoadAll(root, file);
      if !ok {
        return -3, 0, 0;
      }
      MapStackPages(root);
      EntryIsTold(file);
      return 1, EntryPoint(file), STACK + 8 * 4096 - 8;
    }
  }

  lemma EntryIsTold(file: seq<Byte>)
    ensures forall h, table {:trigger Describes(file, h, table)} :: Describes(file, h, table) ==>
      EntryPoint(file) == h.entry
  {
    hide Describes, EntryPoint;
    forall h, table | Describes(file, h, table) ensures EntryPoint(file) == h.entry {
      HeadersAreRead(file, h, table);
    }
  }

  lemma MappedForCopy(s: Phys, s1: Phys, r: Frame, h: Header)
    requires RangeAdded(ViewOf(s, r), ViewOf(s1, r), SegmentPages(h), LOADING) && h.filesz <= h.memsz
    ensures forall x: nat :: h.vaddr <= x < h.vaddr + h.filesz ==> Leaf(x) in Pages(s1.mem, r)
  {
    hide Pages, Leaf, PageRun;
    forall x: nat | h.vaddr <= x < h.vaddr + h.filesz ensures Leaf(x) in Pages(s1.mem, r) {
      SegmentCovers(h, x);
    }
  }

  lemma LeadsToLeaf(m: Mem, r: Frame, x: nat, level: Level)
    requires Walk(m, r, Leaf(x)).Some?
    ensures Walk(m, r, Prefix(x, level)).Some?
  {
    if level == 0 || level == 4 {
      assert Walk(m, r, Root) == Some(r);
    } else if Walk(m, r, Prefix(x, level)).None? {
      AbsentBelow(m, r, x, level);
    }
  }
}
