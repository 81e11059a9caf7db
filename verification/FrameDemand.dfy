/** How many frames mapping a set of pages takes: one for every table or page on the way that is not there yet. */
module FrameDemand {
  import opened Words
  import opened Memory
  import opened PageTree
  import opened TreeEdits
  import opened Mapping
  import opened AddressSpace

  /** The lower-half tables and pages that are there, the root table apart. */
  ghost function Present(m: Mem, r: Frame): iset<Path> {
    iset p: Path | Lower(p) && p.Sub? && Walk(m, r, p).Some?
  }

  /** The tables and the page on the way to a page. */
  ghost function Way(p: Path): set<Path> { if p.Root? then {} else {p} + Way(p.parent) }

  ghost function Ways(run: set<Path>): set<Path> { set q, p | q in run && p in Way(q) :: p }

  /** What has to be installed to map the pages of `run`. */
  ghost function Demand(present: iset<Path>, run: set<Path>): set<Path> { set p | p in Ways(run) && p !in present }

  /** What is there once the pages of `run` are mapped as well. */
  ghost function Grown(present: iset<Path>, run: set<Path>): iset<Path> {
    iset p | p in present || p in Ways(run)
  }

  /** Mapping some pages and then others takes what mapping all of them takes. */
  lemma DemandAdds(present: iset<Path>, a: set<Path>, b: set<Path>)
    ensures |Demand(present, a + b)| == |Demand(present, a)| + |Demand(Grown(present, a), b)|
    ensures Grown(Grown(present, a), b) == Grown(present, a + b)
  {
    hide Way;
    WaysAdd(a, b);
    var first, then' := Demand(present, a), Demand(Grown(present, a), b);
    assert Demand(present, a + b) == first + then';
    assert first !! then';
  }

  lemma WaysAdd(a: set<Path>, b: set<Path>)
    ensures Ways(a + b) == Ways(a) + Ways(b)
  {
    hide Way;
  }

  lemma DemandOfNothing(present: iset<Path>)
    ensures Demand(present, {}) == {} && Grown(present, {}) == present
  {
  }

  // ---- one page ----

  /** The tables and the page below a level on the way to an address. */
  ghost function Below(address: nat, level: Level): set<Path>
    decreases level
  {
    if level == 0 then {} else {Prefix(address, level - 1)} + Below(address, level - 1)
  }

  lemma WayIsBelow(address: nat)
    ensures Ways({Leaf(address)}) == Below(address, 4)
  {
    hide Index;
    var p3, p2, p1, p0 := Prefix(address, 3), Prefix(address, 2), Prefix(address, 1), Prefix(address, 0);
    assert Prefix(address, 4) == Root;
    assert p3.parent == Root && p2.parent == p3 && p1.parent == p2 && p0.parent == p1;
    assert Way(p3) == {p3};
    assert Way(p2) == {p2, p3};
    assert Way(p1) == {p1, p2, p3};
    assert Way(p0) == {p0, p1, p2, p3};
    assert Below(address, 4) == {p3} + Below(address, 3) && Below(address, 3) == {p2} + Below(address, 2);
    assert Below(address, 2) == {p1} + Below(address, 1) && Below(address, 1) == {p0};
  }

  lemma {:induction false} BelowIsDeep(address: nat, level: Level)
    ensures |Below(address, level)| == level
    ensures forall p :: p in Below(address, level) ==> Valid(p) && p.Sub? && Depth(p) > 4 - level
    decreases level
  {
    hide Index;
    if level > 0 {
      BelowIsDeep(address, level - 1);
    }
  }

  lemma {:induction false} AbsentBelowAll(m: Mem, r: Frame, address: nat, level: Level, p: Path)
    requires level < 4 && Walk(m, r, Prefix(address, level)).None? && p in Below(address, level)
    ensures Walk(m, r, p).None?
    decreases level
  {
    if level > 0 {
      assert Entry(m, r, Prefix(address, level - 1)) == ZERO;
      if p != Prefix(address, level - 1) {
        AbsentBelowAll(m, r, address, level - 1, p);
      }
    }
  }

  ghost function Absent(present: iset<Path>, ways: set<Path>): set<Path> { set p | p in ways && p !in present }

  lemma AllAbsent(present: iset<Path>, ways: set<Path>)
    requires forall p :: p in ways ==> p !in present
    ensures Absent(present, ways) == ways
  {
  }

  lemma AbsentCons(present: iset<Path>, p: Path, ways: set<Path>)
    requires p in present
    ensures Absent(present, {p} + ways) == Absent(present, ways)
  {
  }

  lemma InPresent(m: Mem, r: Frame, p: Path)
    requires Lower(p) && p.Sub?
    ensures p in Present(m, r) <==> Walk(m, r, p).Some?
  {
  }

  lemma {:induction false} MissingBelow(m: Mem, r: Frame, address: nat, level: TableLevel)
    requires LowerHalf(address)
    ensures |Absent(Present(m, r), Below(address, level))| == Missing(m, r, address, level)
    decreases level
  {
    hide Index, Present, Absent, Walk, Prefix;
    var next := Prefix(address, level - 1);
    BelowIsDeep(address, level);
    assert Below(address, level) == {next} + Below(address, level - 1);
    assert Lower(next) by { assert Top(next) == Index(address, 4) && LowerHalf(address); }
    InPresent(m, r, next);
    if Walk(m, r, next).None? {
      forall p | p in Below(address, level) ensures p !in Present(m, r) {
        if p != next {
          AbsentBelowAll(m, r, address, level - 1, p);
          NotPresent(m, r, p);
        }
      }
      AllAbsent(Present(m, r), Below(address, level));
    } else {
      AbsentCons(Present(m, r), next, Below(address, level - 1));
      if level > 1 {
        MissingBelow(m, r, address, level - 1);
      } else {
        assert Below(address, 0) == {};
        AllAbsent(Present(m, r), {});
      }
    }
  }

  lemma NotPresent(m: Mem, r: Frame, p: Path)
    requires Walk(m, r, p).None?
    ensures p !in Present(m, r)
  {
  }

  /** The number of frames that mapping one page wants. */
  lemma MissingIsDemand(m: Mem, r: Frame, address: nat)
    requires LowerHalf(address)
    ensures |Demand(Present(m, r), {Leaf(address)})| == Missing(m, r, address, 4)
  {
    WayIsBelow(address);
    MissingBelow(m, r, address, 4);
    assert Demand(Present(m, r), {Leaf(address)}) == Absent(Present(m, r), Below(address, 4));
  }

  // ---- what the operations do to what is there ----

  lemma EditedPresent(m: Mem, m': Mem, r: Frame, target: Path, e: Word)
    requires Edited(m, m', r, target, e) && Lower(target) && target.Sub? && Child(e, Depth(target)).Some?
    ensures Present(m', r) == Present(m, r) + iset{target}
  {
    forall q | Lower(q) ensures Walk(m', r, q) == if q == target then Child(e, Depth(target)) else Walk(m, r, q) {
      EditedWalk(m, m', r, target, e, q);
    }
  }

  /** One round of `vm_map`'s loop, by what it finds. */
  lemma RoundOfMap(s: Phys, r: Frame, g: Ledger, address: nat, level: TableLevel, t: Frame,
                   user: bool, writable: bool, executable: bool)
    returns (s1: Phys, e: Word)
    requires Inv(s, r, g) && LowerHalf(address) && Walk(s.mem, r, Prefix(address, level)) == Some(t)
    ensures var next := Prefix(address, level - 1);
      var result := MapFrom(s, t, address, level, user, writable, executable);
      && (Walk(s.mem, r, next).Some? && level == 1 ==> !result.1)
      && (Walk(s.mem, r, next).Some? && level > 1 ==>
            result == MapFrom(s, Walk(s.mem, r, next).value, address, level - 1, user, writable, executable))
      && (Walk(s.mem, r, next).None? && g.free == [] ==> !result.1)
      && (Walk(s.mem, r, next).None? && g.free != [] ==>
            && Inv(s1, r, g.(free := g.free[1..])) && Walk(s1.mem, r, next) == Some(g.free[0])
            && Present(s1.mem, r) == Present(s.mem, r) + iset{next}
            && result == if level == 1 then (s1, true) else MapFrom(s1, g.free[0], address, level - 1, user,
                writable, executable))
  {
    var next := Prefix(address, level - 1);
    assert Lower(next);
    MapFromRound(s, r, address, level, user, writable, executable);
    AllocPops(s, g.free);
    s1, e := s, ZERO;
    if Walk(s.mem, r, next).None? && g.free != [] {
      s1, e := FillStep(s, r, g, address, level, user, writable, executable);
      EditedPresent(s.mem, s1.mem, r, next, e);
    }
  }

  /** A successful `vm_map` leaves everything on the way there, and nothing else new. */
  lemma {:induction false} MapGrows(s: Phys, r: Frame, g: Ledger, address: nat, level: TableLevel, t: Frame,
                                    user: bool, writable: bool, executable: bool)
    requires Inv(s, r, g) && LowerHalf(address) && Walk(s.mem, r, Prefix(address, level)) == Some(t)
    requires MapFrom(s, t, address, level, user, writable, executable).1
    ensures
      var s' := MapFrom(s, t, address, level, user, writable, executable).0;
      Present(s'.mem, r) == Present(s.mem, r) + iset p | p in Below(address, level)
    decreases level
  {
    hide Inv, Index, MapFrom, Walk, Present, Prefix;
    var next := Prefix(address, level - 1);
    assert Below(address, level) == {next} + Below(address, level - 1);
    var s1, _ := RoundOfMap(s, r, g, address, level, t, user, writable, executable);
    assert Lower(next) && next.Sub? by { assert Top(next) == Index(address, 4) && LowerHalf(address); }
    InPresent(s.mem, r, next);
    if level == 1 {
      assert Below(address, 0) == {};
    } else if Walk(s.mem, r, next).Some? {
      MapGrows(s, r, g, address, level - 1, Walk(s.mem, r, next).value, user, writable, executable);
    } else {
      MapGrows(s1, r, g.(free := g.free[1..]), address, level - 1, g.free[0], user, writable, executable);
    }
  }

  /** The same for a whole `vm_map`. */
  lemma MapGrowsBy(s: Phys, r: Frame, g: Ledger, address: nat, user: bool, writable: bool, executable: bool)
    requires Inv(s, r, g) && LowerHalf(address) && MapFrom(s, r, address, 4, user, writable, executable).1
    ensures Present(MapFrom(s, r, address, 4, user, writable, executable).0.mem, r) ==
      Grown(Present(s.mem, r), {Leaf(address)})
  {
    hide Inv, MapFrom, Present;
    assert Prefix(address, 4) == Root && Walk(s.mem, r, Root) == Some(r);
    MapGrows(s, r, g, address, 4, r, user, writable, executable);
    WayIsBelow(address);
  }

  lemma StoreKeepsPresent(s: Phys, r: Frame, g: Ledger, page: Path, j: nat, w: Word)
    requires Inv(s, r, g) && page in Pages(s.mem, r) && j < ENTRIES
    ensures Present(Put(s.mem, Pages(s.mem, r)[page].frame, j, w), r) == Present(s.mem, r)
  {
    DataStep(s, r, g, page, j, w);
    EditedPresent(s.mem, Put(s.mem, Pages(s.mem, r)[page].frame, j, w), r, page, Entry(s.mem, r, page));
  }

  lemma {:induction false} ProtectKeepsPresent(s: Phys, r: Frame, g: Ledger, address: nat, level: TableLevel, t: Frame,
                                               user: bool, writable: bool, executable: bool)
    requires Inv(s, r, g) && LowerHalf(address) && Walk(s.mem, r, Prefix(address, level)) == Some(t)
    ensures Present(ProtectFrom(s, t, address, level, user, writable, executable).0.mem, r) == Present(s.mem, r)
    decreases level
  {
    var p, next := Prefix(address, level), Prefix(address, level - 1);
    assert next == Sub(p, Index(address, level)) && Lower(next);
    PresentLeads(s.mem, r, next);
    if Walk(s.mem, r, next).Some? {
      if level > 1 {
        ProtectKeepsPresent(s, r, g, address, level - 1, Walk(s.mem, r, next).value, user, writable, executable);
      } else {
        var e := Entry(s.mem, r, next).(user := user, writable := writable, noExecute := executable);
        LeafEdits(s.mem, r, g.free, p, Index(address, 1), e);
        EditedPresent(s.mem, Put(s.mem, t, Index(address, 1), e), r, next, e);
      }
    }
  }
}
