/** The frame manager as it runs: one flat array of memory cells and the global `top`. */
module Pager {
  import opened Words
  import opened Memory
  import opened PageTree
  import opened TreeEdits
  import opened Mapping
  import opened UnmapLowerHalf
  import opened AddressSpace
  import opened UpperHalf

  lemma UnmapRound(s: Phys, t: Frame, address: nat, level: TableLevel)
    ensures var e := At(s.mem, t, Index(address, level));
      && (!e.present ==> UnmapFrom(s, t, address, level) == (s, false))
      && (e.present && level > 1 ==> UnmapFrom(s, t, address, level) == UnmapFrom(s, e.address, address, level - 1))
  {
    hide Index, At;
  }

  /** The ledger after `vm_map` wanted k frames. */
  ghost function MapLedger(g: Ledger, address: nat, k: nat): Ledger {
    if LowerHalf(address) then g.(free := g.free[Min(k, |g.free|)..]) else Taken(g, k)
  }

  /** What `vm_map` leaves, in either half. */
  lemma MapLeaves(s: Phys, r: Frame, g: Ledger, address: nat, user: bool, writable: bool, executable: bool)
    requires Inv(s, r, g) && Passable(s.mem, r, address, 4)
    ensures var (s', ok) := MapFrom(s, r, address, 4, user, writable, executable);
      var k := Missing(s.mem, r, address, 4);
      && Inv(s', r, MapLedger(g, address, k))
      && (LowerHalf(address) ==>
            && MapRefined(s, s', ok, r, g, k, Leaf(address), user, writable, executable)
            && OffWayKept(s.mem, s'.mem, r, address))
      && WayFilled(s.mem, s'.mem, r, g.free, k, address, user, writable, executable)
      && (!LowerHalf(address) ==> UpperMapped(s, s', ok, r, g, k, address, user, writable, executable))
  {
    hide Inv, MapFrom, LowerKept, Index, WayFilled, OffWayKept, Missing, Taken;
    if LowerHalf(address) {
      MapRefines(s, r, g, address, user, writable, executable);
    } else {
      WholeWay(s.mem, r, address);
      UpperMap(s, r, g, address, user, writable, executable);
    }
  }

  /** What `vm_unmap` leaves, in either half. */
  lemma UnmapLeaves(s: Phys, r: Frame, g: Ledger, address: nat)
    requires Inv(s, r, g) && Passable(s.mem, r, address, 4)
    requires LowerHalf(address) || CanUnmap(s.mem, r, g, address)
    ensures var (s', ok) := UnmapFrom(s, r, address, 4);
      && ok == Walk(s.mem, r, Leaf(address)).Some? && (!ok ==> s' == s)
      && (ok ==> Walk(s.mem, r, Leaf(address)).value < |s.mem|)
      && (LowerHalf(address) ==>
            && UnmapRefined(s, s', ok, r, g, Leaf(address))
            && (ok ==> Edited(s.mem, s'.mem, r, Leaf(address), Entry(s.mem, r, Leaf(address)).(present := false)))
            && (ok ==> Inv(s', r, g.(free := [Walk(s.mem, r, Leaf(address)).value] + g.free))))
      && (!LowerHalf(address) ==>
            && (ok ==> UpperUnmapped(s, s', r, g, address))
            && (ok ==> Inv(s', r, Released(g, Walk(s.mem, r, Leaf(address)).value))))
  {
    hide Inv, UnmapFrom, LowerKept, CanFree, Index, Edited, PathsRemoved, CellsKept;
    if LowerHalf(address) {
      UnmapRefines(s, r, g, address);
      LeafIsPage(address);
      LowerLeaf(s, r, g, address);
    } else {
      WholeWay(s.mem, r, address);
      UpperUnmap(s, r, g, address);
      FreeableIsMemory(s, r, g, address);
    }
  }

  lemma LowerLeaf(s: Phys, r: Frame, g: Ledger, address: nat)
    requires Inv(s, r, g) && LowerHalf(address)
    ensures var f := Walk(s.mem, r, Leaf(address));
      && (Leaf(address) in Pages(s.mem, r) <==> f.Some?)
      && (f.Some? ==> f.value < |s.mem| && Pages(s.mem, r)[Leaf(address)].frame == f.value)
  {
    assert Node(Leaf(address), 4);
  }

  lemma FreeableIsMemory(s: Phys, r: Frame, g: Ledger, address: nat)
    requires Inv(s, r, g) && CanUnmap(s.mem, r, g, address)
    ensures Walk(s.mem, r, Leaf(address)).Some? ==> Walk(s.mem, r, Leaf(address)).value < |s.mem|
  {
    assert Walk(s.mem, r, Root) == Some(r);
    assert Node(Root, 4);
  }

  /** What `vm_protect` leaves, in either half. */
  lemma ProtectLeaves(s: Phys, r: Frame, g: Ledger, address: nat, user: bool, writable: bool, executable: bool)
    requires Inv(s, r, g) && Passable(s.mem, r, address, 4)
    ensures var (s', ok) := ProtectFrom(s, r, address, 4, user, writable, executable);
      && Inv(s', r, g)
      && (LowerHalf(address) ==>
            && ProtectRefined(s, s', ok, r, g, Leaf(address), user, writable, executable)
            && (ok ==> Edited(s.mem, s'.mem, r, Leaf(address), Entry(s.mem, r, Leaf(address)).(user := user,
                writable := writable, noExecute := executable))))
      && (!LowerHalf(address) ==> UpperProtected(s, s', ok, r, g, address, user, writable, executable))
  {
    hide Inv, ProtectFrom, LowerKept, Index, CellRewritten, Edited;
    if LowerHalf(address) {
      ProtectRefines(s, r, g, address, user, writable, executable);
    } else {
      assert Prefix(address, 4) == Root && Walk(s.mem, r, Root) == Some(r);
      UpperProtect(s, r, g, address, 4, r, user, writable, executable);
    }
  }

  class FrameManager {
    // Physical memory; the cell at physical address a is ram[a / 8].
    const ram: array<Word>
    // Head of the freelist: a physical address, or 0 for NULL.
    var top: nat
    // The same state as a value: memory frame by frame, and the head as a frame.
    ghost var phys: Phys
    // What the freelist, the leaked frames and the pool are.
    ghost var ledger: Ledger

    /** `phys` is the state of `ram` and `top`. */
    ghost predicate Shape()
      reads this, ram
    {
      && ram.Length == 512 * |phys.mem|
      && top == 4096 * phys.top
      && (forall f: nat, i: nat :: f < |phys.mem| && i < 512 ==> ram[512 * f + i] == phys.mem[f][i])
    }

    /** The invariant for the address space whose level-4 table is at physical address `root`. */
    ghost predicate Valid(root: nat)
      reads this, ram
    {
      Shape() && root < 0x10_0000_0000_0000 && Inv(phys, root / 4096, ledger)
    }

    /** Read a cell of a frame that is not on the freelist. */
    method Load(f: nat, i: nat, ghost free: seq<Frame>) returns (w: Word)
      requires Shape() && f < |phys.mem| && i < 512
      requires f !in free && Chain(phys, free)
      ensures w == At(phys.mem, f, i)
    {
      w := ram[512 * f + i];
    }

    method Write(f: nat, i: nat, w: Word)
      requires Shape() && f < |phys.mem| && i < 512
      modifies this`phys, ram
      ensures Shape() && phys == old(phys).(mem := Put(old(phys).mem, f, i, w))
    {
      ram[512 * f + i] := w;
      phys := phys.(mem := Put(phys.mem, f, i, w));
    }

    /** `pmem_alloc`. */
    method PmemAlloc(ghost free: seq<Frame>) returns (p: nat)
      requires Shape() && Chain(phys, free)
      modifies this`top, this`phys
      ensures Shape() && (phys, p / 4096) == Alloc(old(phys)) && p % 4096 == 0
    {
      if top == 0 {
        return 0;
      }
      p := top;
      var node := top / 4096;
      var link := ram[512 * node];
      assert Bits(link) == 4096 * link.address by {
        assert link == phys.mem[free[0]][0] == At(phys.mem, free[0], 0) == Link(Next(free, 0));
        LinkIsAddress(Next(free, 0));
      }
      top := Bits(link);
      phys := Alloc(phys).0;
    }

    /** `pmem_free`: NULL and unaligned addresses are refused. */
    method PmemFree(p: nat)
      requires Shape() && (p % 4096 == 0 ==> p / 4096 < |phys.mem|)
      modifies this`top, this`phys, ram
      ensures Shape() && phys == if p % 4096 != 0 then old(phys) else Free(old(phys), p / 4096)
    {
      if p == 0 {
        return;
      }
      if p % 4096 != 0 {
        return;
      }
      LinkIsAddress(phys.top);
      Write(p / 4096, 0, OfBits(top));
      top := p;
      phys := phys.(top := p / 4096);
    }

    /** `memset` of a whole page to 0. */
    method ClearFrame(f: nat)
      requires Shape() && f < |phys.mem|
      modifies this`phys, ram
      ensures Shape() && phys == old(phys).(mem := Zeroed(old(phys).mem, f))
    {
      for i := 0 to 512
        invariant Shape() && phys.top == old(phys).top && |phys.mem| == |old(phys).mem|
        invariant forall g: nat, j: nat :: g < |phys.mem| && j < 512 ==>
          phys.mem[g][j] == if g == f && j < i then ZERO else old(phys).mem[g][j]
      {
        Write(f, i, ZERO);
      }
      forall g: nat | g < |phys.mem| ensures phys.mem[g] == Zeroed(old(phys).mem, f)[g] {
      }
    }

    /** The part of `vm_map` that clears a new page and points an entry at it. */
    method FillEntry(table: Frame, index: nat, page: Frame, level: TableLevel, user: bool, writable: bool,
        executable: bool,
                     ghost free: seq<Frame>)
      requires Shape() && Chain(phys, free) && index < 512
      requires table < |phys.mem| && page < |phys.mem| && table !in free && page !in free
      modifies this`phys, ram
      ensures Shape() && phys == Fill(old(phys), table, index, page, level, user, writable, executable)
      ensures table != page ==>
        LeadsWith(At(old(phys).mem, table, index), At(phys.mem, table, index), level == 1, page, user, writable,
                  executable)
    {
      ClearFrame(page);
      AtZeroed(old(phys).mem, page);
      ChainFrame(old(phys), phys.mem, free);
      var was := Load(table, index, free);
      Write(table, index, NewEntry(was, page, level, user, writable, executable));
      AtPut(Zeroed(old(phys).mem, page), table, index, NewEntry(was, page, level, user, writable, executable));
    }

    /** One round of `vm_map`'s loop: descend into the entry or fill it. `done` says that the loop returns `ok`. */
    method MapRound(table: Frame, address: nat, level: TableLevel, user: bool, writable: bool, executable: bool,
                    ghost r: Frame, ghost g: Ledger) returns (done: bool, ok: bool, next: Frame, ghost g': Ledger)
      requires Shape() && Inv(phys, r, g) && Passable(phys.mem, r, address, level)
      requires Walk(phys.mem, r, Prefix(address, level)) == Some(table)
      modifies this`top, this`phys, ram
      ensures Shape()
      ensures done ==> MapFrom(old(phys), table, address, level, user, writable, executable) == (phys, ok)
      ensures !done ==> !ok && Inv(phys, r, g') && Walk(phys.mem, r, Prefix(address, level - 1)) == Some(next)
      ensures !done && level > 1 ==> Passable(phys.mem, r, address, level - 1)
      ensures !done ==>
        MapFrom(old(phys), table, address, level, user, writable, executable) ==
          (if level == 1 then (phys, false) else MapFrom(phys, next, address, level - 1, user, writable, executable))
    {
      hide Inv, Index;
      ghost var s := phys;
      var index := Index(address, level);
      done, ok, next, g' := false, false, 0, g;
      Descend(s, r, g, address, level, table);
      var e := Load(table, index, g.free);
      if e.present {
        next := e.address;
        return;
      }
      AllocPops(s, g.free);
      if g.free != [] {
        ghost var s';
        s', g' := AnyFillStep(s, r, g, address, level, table, user, writable, executable);
      }
      var page := PmemAlloc(g.free);
      if page == 0 {
        done := true;
        return;
      }
      FillEntry(table, index, page / 4096, level, user, writable, executable, g'.free);
      if level == 1 {
        done, ok := true, true;
        return;
      }
      Descend(phys, r, g', address, level - 1, g.free[0]);
      e := Load(table, index, g'.free);
      next := e.address;
    }

    /** `vm_map`. */
    method VmMap(root: nat, address: nat, user: bool, writable: bool, executable: bool) returns (ok: bool)
      requires Valid(root) && Passable(phys.mem, root / 4096, address, 4)
      modifies this, ram
      ensures Valid(root)
      ensures (phys, ok) == MapFrom(old(phys), root / 4096, address, 4, user, writable, executable)
      ensures LowerHalf(address) ==>
        var k := Missing(old(phys).mem, root / 4096, address, 4);
        && MapRefined(old(phys), phys, ok, root / 4096, old(ledger), k, Leaf(address), user, writable, executable)
        && OffWayKept(old(phys).mem, phys.mem, root / 4096, address)
      ensures !LowerHalf(address) ==>
        var k := Missing(old(phys).mem, root / 4096, address, 4);
        UpperMapped(old(phys), phys, ok, root / 4096, old(ledger), k, address, user, writable, executable)
      ensures WayFilled(old(phys).mem, phys.mem, root / 4096, old(ledger).free,
                        Missing(old(phys).mem, root / 4096, address, 4), address, user, writable, executable)
      ensures ledger == MapLedger(old(ledger), address, Missing(old(phys).mem, root / 4096, address, 4))
    {
      hide Inv, Index, TablesBelow, OffWayKept, WayFilled, MapRefined, UpperMapped, MapLedger, Missing;
      ghost var r: Frame := root / 4096;
      ghost var s0, g := phys, ledger;
      assert Prefix(address, 4) == Root && Walk(s0.mem, r, Root) == Some(r);
      var table: Frame := root / 4096;
      var i, done := 4, false;
      ok := false;
      while i > 0 && !done
        invariant 0 <= i <= 4 && Shape() && ledger == old(ledger)
        invariant !done && i > 0 ==> Inv(phys, r, g) && Walk(phys.mem, r, Prefix(address, i)) == Some(table)
        invariant !done && i > 0 ==> Passable(phys.mem, r, address, i)
        invariant MapFrom(s0, r, address, 4, user, writable, executable) ==
          if !done && i > 0 then MapFrom(phys, table, address, i, user, writable, executable) else (phys, ok)
        invariant !done ==> !ok
      {
        done, ok, table, g := MapRound(table, address, i, user, writable, executable, r, g);
        i := i - 1;
      }
      MapLeaves(s0, r, ledger, address, user, writable, executable);
      ledger := MapLedger(ledger, address, Missing(s0.mem, r, address, 4));
    }

    /** The end of `vm_unmap`: mark the page's entry absent and free the page. */
    method RemoveEntry(table: Frame, address: nat, ghost free: seq<Frame>)
      requires Shape() && Chain(phys, free) && table < |phys.mem| && table !in free
      requires At(phys.mem, table, Index(address, 1)).present &&
          At(phys.mem, table, Index(address, 1)).address < |phys.mem|
      modifies this`top, this`phys, ram
      ensures Shape() && (phys, true) == UnmapFrom(old(phys), table, address, 1)
    {
      var index := Index(address, 1);
      var e := Load(table, index, free);
      Write(table, index, e.(present := false));
      AtPut(old(phys).mem, table, index, e.(present := false));
      ChainFrame(old(phys), phys.mem, free);
      e := Load(table, index, free);
      PmemFree(4096 * e.address);
    }

    /** `vm_unmap`. */
    method VmUnmap(root: nat, address: nat) returns (ok: bool)
      requires Valid(root) && Passable(phys.mem, root / 4096, address, 4)
      requires LowerHalf(address) || CanUnmap(phys.mem, root / 4096, ledger, address)
      modifies this, ram
      ensures Valid(root)
      ensures (phys, ok) == UnmapFrom(old(phys), root / 4096, address, 4)
      ensures ok == Walk(old(phys).mem, root / 4096, Leaf(address)).Some?
      ensures LowerHalf(address) ==>
        && UnmapRefined(old(phys), phys, ok, root / 4096, old(ledger), Leaf(address))
        && (ok ==> Edited(old(phys).mem, phys.mem, root / 4096, Leaf(address),
                          Entry(old(phys).mem, root / 4096, Leaf(address)).(present := false)))
        && ledger == if ok then
                       old(ledger).(free := [Walk(old(phys).mem, root / 4096, Leaf(address)).value] + old(ledger).free)
                     else old(ledger)
      ensures !LowerHalf(address) ==>
        && (if ok then UpperUnmapped(old(phys), phys, root / 4096, old(ledger), address) else phys == old(phys))
        && ledger == if ok then Released(old(ledger), Walk(old(phys).mem, root / 4096, Leaf(address)).value)
                     else old(ledger)
    {
      hide Inv, Index, UnmapFrom, UnmapRefined, UpperUnmapped, Edited, TablesBelow, CanFree, EntryRemoved;
      ghost var r: Frame := root / 4096;
      assert Prefix(address, 4) == Root && Walk(phys.mem, r, Root) == Some(r);
      UnmapLeaves(phys, r, ledger, address);
      var table: Frame := root / 4096;
      var toFree := table;
      var i := 4;
      while i > 0
        invariant 0 <= i <= 4 && Shape() && phys == old(phys) && ledger == old(ledger)
        invariant Walk(phys.mem, r, Prefix(address, i)) == Some(table)
        invariant i > 0 ==> UnmapFrom(phys, r, address, 4) == UnmapFrom(phys, table, address, i)
        invariant i == 0 ==> Walk(phys.mem, r, Prefix(address, 1)) == Some(toFree)
        invariant i == 0 ==> At(phys.mem, toFree, Index(address, 1)).present
        invariant i == 0 ==> At(phys.mem, toFree, Index(address, 1)).address == table
        invariant i == 0 ==> UnmapFrom(phys, r, address, 4) == UnmapFrom(phys, toFree, address, 1)
      {
        var index := Index(address, i);
        PassableBelow(phys.mem, r, address, i);
        Descend(phys, r, ledger, address, i, table);
        UnmapRound(phys, table, address, i);
        var e := Load(table, index, ledger.free);
        if !e.present {
          return false;
        }
        if i == 1 {
          toFree := table;
        }
        table := e.address;
        i := i - 1;
      }
      PassableBelow(phys.mem, r, address, 1);
      Descend(phys, r, ledger, address, 1, toFree);
      RemoveEntry(toFree, address, ledger.free);
      ledger := if LowerHalf(address) then ledger.(free := [table] + ledger.free) else Released(ledger, table);
      return true;
    }

    /** `vm_protect`. */
    method VmProtect(root: nat, address: nat, user: bool, writable: bool, executable: bool) returns (ok: bool)
      requires Valid(root) && Passable(phys.mem, root / 4096, address, 4)
      modifies this`phys, ram
      ensures Valid(root)
      ensures (phys, ok) == ProtectFrom(old(phys), root / 4096, address, 4, user, writable, executable)
      ensures LowerHalf(address) ==>
        && ProtectRefined(old(phys), phys, ok, root / 4096, ledger, Leaf(address), user, writable, executable)
        && (ok ==> Edited(old(phys).mem, phys.mem, root / 4096, Leaf(address),
                          Entry(old(phys).mem, root / 4096, Leaf(address)).(user := user, writable := writable,
                              noExecute := executable)))
      ensures !LowerHalf(address) ==>
        UpperProtected(old(phys), phys, ok, root / 4096, ledger, address, user, writable, executable)
    {
      hide Inv, Index, ProtectRefined, UpperProtected, Edited, TablesBelow;
      ghost var r: Frame := root / 4096;
      assert Prefix(address, 4) == Root && Walk(phys.mem, r, Root) == Some(r);
      ProtectLeaves(phys, r, ledger, address, user, writable, executable);
      var table: Frame := root / 4096;
      var i := 4;
      while i > 0
        invariant 0 <= i <= 4 && Shape()
        invariant i > 0 ==> phys == old(phys) && Walk(phys.mem, r, Prefix(address, i)) == Some(table)
        invariant i > 0 ==>
          ProtectFrom(old(phys), r, address, 4, user, writable, executable) ==
          ProtectFrom(phys, table, address, i, user, writable, executable)
        invariant i == 0 ==> ProtectFrom(old(phys), r, address, 4, user, writable, executable) == (phys, true)
      {
        var index := Index(address, i);
        PassableBelow(phys.mem, r, address, i);
        Descend(phys, r, ledger, address, i, table);
        var e := Load(table, index, ledger.free);
        if !e.present {
          return false;
        }
        if i == 1 {
          Write(table, index, e.(user := user, writable := writable, noExecute := executable));
        }
        table := e.address;
        i := i - 1;
      }
      return true;
    }

    /** Does entry i point to a level-1 table? If so, free it. */
    method FreeL1Table(t: Frame, i: nat, ghost m0: Mem, ghost r: Frame, ghost free0: seq<Frame>, ghost k: nat,
        ghost free: seq<Frame>, ghost p: Path)
      requires Tree(m0, r, free0, 3) && Lower(p) && Depth(p) == 2 && Walk(m0, r, p) == Some(t) && i < ENTRIES
      requires Shape() && Mid(phys, m0, r, k, free) && t !in free
      modifies this`top, this`phys, ram
      ensures Shape() && phys == VisitL2(old(phys), t, i)
    {
      assert t < |m0| && Walk(m0, r, Root) == Some(r);
      var e := Load(t, i, free);
      if e.present && !e.pageSize {
        assert Walk(m0, r, Sub(p, i)) == Some(e.address);
        PmemFree(4096 * e.address);
      }
    }

    /** The innermost loop of `unmap_lower_half`, over the level-2 table t at path p. */
    method FreeL1Tables(t: Frame, ghost m0: Mem, ghost r: Frame, ghost free0: seq<Frame>, ghost k: nat,
        ghost free: seq<Frame>, ghost p: Path)
      requires Tree(m0, r, free0, 3) && Lower(p) && Depth(p) == 2 && Walk(m0, r, p) == Some(t)
      requires Shape() && Mid(phys, m0, r, k, free) && Standing(m0, r, p, free)
      modifies this`top, this`phys, ram
      ensures Shape() && phys == FreeL1s(old(phys), t, ENTRIES)
    {
      for i := 0 to 512
        invariant Shape() && phys == FreeL1s(old(phys), t, i)
      {
        FreeL1sSpec(old(phys), m0, r, free0, k, free, p, t, i);
        Standing1(m0, r, free0, p, t, i, free);
        FreeL1Table(t, i, m0, r, free0, k, Pushed1(m0, t, i, free), p);
      }
    }

    /** Does entry i point to a level-2 table? If so, free the tables below it and then the table. */
    method FreeL2Table(t: Frame, i: nat, ghost m0: Mem, ghost r: Frame, ghost free0: seq<Frame>, ghost k: nat,
        ghost free: seq<Frame>, ghost p: Path)
      requires Tree(m0, r, free0, 3) && Lower(p) && Depth(p) == 1 && Walk(m0, r, p) == Some(t) && i < ENTRIES
      requires Shape() && Mid(phys, m0, r, k, free) && t !in free && Standing(m0, r, Sub(p, i), free)
      modifies this`top, this`phys, ram
      ensures Shape() && phys == VisitL3(old(phys), t, i)
    {
      hide Mid, Tree, Standing, Walk, Pushed1, FreeL1s, At;
      ghost var c := Sub(p, i);
      L2StillThere(m0, r, free0, p, t, i, free);
      MidReads(phys, m0, r, k, free, t, i);
      var e := Load(t, i, free);
      if e.present && !e.pageSize {
        ghost var now := Pushed1(m0, e.address, ENTRIES, free);
        FreeL1Tables(e.address, m0, r, free0, k, free, c);
        FreeL1sSpec(old(phys), m0, r, free0, k, free, c, e.address, ENTRIES);
        MidReads(phys, m0, r, k, now, t, i);
        e := Load(t, i, now);
        PmemFree(4096 * e.address);
      }
    }

    /** The middle loop, over the level-3 table t at path p. */
    method FreeL2Tables(t: Frame, ghost m0: Mem, ghost r: Frame, ghost free0: seq<Frame>, ghost k: nat,
        ghost free: seq<Frame>, ghost p: Path)
      requires Tree(m0, r, free0, 3) && Lower(p) && Depth(p) == 1 && Walk(m0, r, p) == Some(t)
      requires Shape() && Mid(phys, m0, r, k, free) && Standing(m0, r, p, free)
      modifies this`top, this`phys, ram
      ensures Shape() && phys == FreeL2s(old(phys), t, ENTRIES)
    {
      for i := 0 to 512
        invariant Shape() && phys == FreeL2s(old(phys), t, i)
      {
        FreeL2sSpec(old(phys), m0, r, free0, k, free, p, t, i);
        Standing2(m0, r, free0, p, t, i, free);
        FreeL2Table(t, i, m0, r, free0, k, Pushed2(m0, t, i, free), p);
      }
    }

    /** Does entry i of the root point to a level-3 table? If so, mark it absent and free what it led to. */
    method FreeL3Table(r: Frame, i: nat, ghost m0: Mem, ghost free0: seq<Frame>, ghost free: seq<Frame>)
      requires Tree(m0, r, free0, 3) && i < 256
      requires Shape() && Mid(phys, m0, r, i, free) && r !in free && Standing(m0, r, Sub(Root, i), free)
      modifies this`top, this`phys, ram
      ensures Shape() && phys == VisitL4(old(phys), r, i)
    {
      hide Mid, Tree, Standing, Walk, Pushed2, FreeL2s, At;
      ghost var c := Sub(Root, i);
      RootChild(m0, r, i);
      RootInMemory(m0, r, free0);
      MidReads(phys, m0, r, i, free, r, i);
      var e := Load(r, i, free);
      if e.present {
        L3StillThere(m0, r, free0, i, e.address, free);
        MarkMid(phys, m0, r, i, free);
        Write(r, i, e.(present := false));
        ghost var s1 := phys;
        MidReads(phys, m0, r, i + 1, free, r, i);
        e := Load(r, i, free);
        ghost var now := Pushed2(m0, e.address, ENTRIES, free);
        FreeL2Tables(e.address, m0, r, free0, i + 1, free, c);
        FreeL2sSpec(s1, m0, r, free0, i + 1, free, c, e.address, ENTRIES);
        MidReads(phys, m0, r, i + 1, now, r, i);
        e := Load(r, i, now);
        PmemFree(4096 * e.address);
      }
    }

    /** `unmap_lower_half`. Every table is read before it is freed, never after. */
    method UnmapLowerHalf(root: nat, ghost free: seq<Frame>)
      requires root % 4096 == 0 && root < 0x10_0000_0000_0000
      requires Shape() && Chain(phys, free) && Tree(phys.mem, root / 4096, free, 3)
      modifies this`top, this`phys, ram
      ensures Shape() && phys == UnmapLower(old(phys), root / 4096)
    {
      var t: Frame := root / 4096;
      for i := 0 to 256
        invariant Shape() && phys == FreeL3s(old(phys), t, i)
      {
        FreeL3sSpec(old(phys), t, free, i);
        Standing3(old(phys).mem, t, free, i);
        FreeL3Table(t, i, old(phys).mem, free, Pushed3(old(phys).mem, t, i, free));
      }
    }

    /** `unmap_lower_half` on an address space that already satisfies the invariant. */
    method ClearLowerHalf(root: nat)
      requires Valid(root) && root % 4096 == 0
      modifies this, ram
      ensures Valid(root)
      ensures phys == UnmapLower(old(phys), root / 4096) && ledger == Unmapped(old(phys).mem, root / 4096, old(ledger))
      ensures Pages(phys.mem, root / 4096) == imap[]
    {
      UnmapLowerHalf(root, ledger.free);
      UnmapLowerRefines(old(phys), root / 4096, ledger);
      ledger := Unmapped(old(phys).mem, root / 4096, ledger);
    }
  }
}
