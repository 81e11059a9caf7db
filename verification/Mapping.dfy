/** `vm_map`, `vm_unmap` and `vm_protect` as functions of the machine state, one
    recursive call per level, and what each does to the page tables. */
module Mapping {
  import opened Words
  import opened Memory
  import opened PageTree
  import opened TreeEdits

  type Level = l: nat | l <= 4
  type TableLevel = l: nat | 1 <= l <= 4 witness 1

  /** The nine address bits that index the table at a level. Bits 0 to 11 and 48 to 63 are never used. */
  function Index(address: nat, level: TableLevel): (i: nat)
    ensures i < ENTRIES
  {
    match level
    case 4 => address / 0x80_0000_0000 % 512
    case 3 => address / 0x4000_0000 % 512
    case 2 => address / 0x20_0000 % 512
    case _ => address / 0x1000 % 512
  }

  /** The path to the table at a level on the way to an address; level 0 is the page. */
  function Prefix(address: nat, level: Level): (p: Path)
    ensures Valid(p) && Depth(p) == 4 - level
    ensures level < 4 ==> p.Sub? && Top(p) == Index(address, 4)
    decreases 4 - level
  {
    if level == 4 then Root else Sub(Prefix(address, level + 1), Index(address, level + 1))
  }

  function Leaf(address: nat): Path { Prefix(address, 0) }

  predicate LowerHalf(address: nat) { Index(address, 4) < 256 }

  // ---- the operations ----

  /** The entry written by `vm_map`: permissive above level 1, the caller's bits at level 1. */
  function NewEntry(was: Word, p: Frame, level: TableLevel, user: bool, writable: bool, executable: bool): Word {
    was.(present := true,
         user := if level == 1 then user else true,
         writable := if level == 1 then writable else true,
         noExecute := if level == 1 then executable else false,
         address := p)
  }

  /** `vm_map` from the table at a level downwards. */
  function MapFrom(s: Phys, table: Frame, address: nat, level: TableLevel, user: bool, writable: bool, executable: bool)
    : (Phys, bool)
    decreases level
  {
    var index := Index(address, level);
    var e := At(s.mem, table, index);
    if e.present then
      if level == 1 then (s, false) else MapFrom(s, e.address, address, level - 1, user, writable, executable)
    else
      var (s1, p) := Alloc(s);
      if p == 0 then (s1, false)
      else
        var s2 := Fill(s1, table, index, p, level, user, writable, executable);
        if level == 1 then (s2, true)
        else MapFrom(s2, At(s2.mem, table, index).address, address, level - 1, user, writable, executable)
  }

  /** Clear the new page at address p and point the entry at it. */
  function Fill(s: Phys, table: Frame, index: nat, p: Frame, level: TableLevel, user: bool, writable: bool,
      executable: bool)
    : Phys
  {
    var m := Zeroed(s.mem, p);
    s.(mem := Put(m, table, index, NewEntry(At(m, table, index), p, level, user, writable, executable)))
  }

  /** `vm_unmap` from the table at a level downwards. */
  function UnmapFrom(s: Phys, table: Frame, address: nat, level: TableLevel): (Phys, bool)
    decreases level
  {
    var index := Index(address, level);
    var e := At(s.mem, table, index);
    if !e.present then (s, false)
    else if level > 1 then UnmapFrom(s, e.address, address, level - 1)
    else
      var m := Put(s.mem, table, index, e.(present := false));
      (Free(s.(mem := m), At(m, table, index).address), true)
  }

  /** `vm_protect` from the table at a level downwards. */
  function ProtectFrom(s: Phys, table: Frame, address: nat, level: TableLevel, user: bool, writable: bool,
      executable: bool)
    : (Phys, bool)
    decreases level
  {
    var index := Index(address, level);
    var e := At(s.mem, table, index);
    if !e.present then (s, false)
    else if level > 1 then ProtectFrom(s, e.address, address, level - 1, user, writable, executable)
    else
      (s.(mem := Put(s.mem, table, index, e.(user := user, writable := writable, noExecute := executable))), true)
  }

  // ---- what they do ----

  /** How many frames mapping an address needs: the tables missing below a level, and the page. */
  function Missing(m: Mem, r: Frame, address: nat, level: TableLevel): (n: nat)
    ensures n <= level
    decreases level
  {
    if Walk(m, r, Prefix(address, level - 1)).None? then level
    else if level == 1 then 0
    else Missing(m, r, address, level - 1)
  }

  // ---- what becomes of the other bits of an entry ----

  /** The bits that say nothing about where an entry leads and with which rights are the same. */
  predicate SameOtherBits(e: Word, e': Word) {
    && e'.writeThrough == e.writeThrough && e'.cacheDisable == e.cacheDisable
    && e'.accessed == e.accessed && e'.dirty == e.dirty && e'.pageSize == e.pageSize
    && e'.unused0 == e.unused0 && e'.unused1 == e.unused1
  }

  predicate NoOtherBits(e: Word) {
    && !e.writeThrough && !e.cacheDisable && !e.accessed && !e.dirty && !e.pageSize
    && e.unused0 == 0 && e.unused1 == 0
  }

  /** Entry e became e', which leads to frame f: to a page with the given rights, or to a table, which restricts
      nothing. */
  predicate LeadsWith(e: Word, e': Word, page: bool, f: Frame, user: bool, writable: bool, noExecute: bool) {
    && SameOtherBits(e, e') && e'.present && e'.address == f
    && e'.user == (page ==> user) && e'.writable == (page ==> writable) && e'.noExecute == (page && noExecute)
  }

  /** Every present entry is as it was, and no entry's other bits have changed. */
  ghost predicate BitsKept(m: Mem, m': Mem, r: Frame) {
    forall q {:trigger Entry(m', r, q)} {:trigger Entry(m, r, q)} :: Valid(q) && q.Sub? ==>
      && SameOtherBits(Entry(m, r, q), Entry(m', r, q))
      && (Entry(m, r, q).present ==> Entry(m', r, q) == Entry(m, r, q))
  }

  /** What `vm_map` did to the entries: k of those on the way to the address were missing. From the top down they lead
      to the first free frames, as many as there are, each with the bits that were in its cell before and, in a table
      that is new, with none. */
  ghost predicate WayFilled(m: Mem, m': Mem, r: Frame, free: seq<Frame>, k: Level, address: nat,
                            user: bool, writable: bool, noExecute: bool)
  {
    && BitsKept(m, m', r)
    && (forall q {:trigger Entry(m', r, q)} :: Valid(q) && q.Sub? && Walk(m, r, q.parent).None? ==>
          NoOtherBits(Entry(m', r, q)))
    && (forall l: Level {:trigger Prefix(address, l)} :: k - Min(k, |free|) <= l < k ==>
          LeadsWith(Entry(m, r, Prefix(address, l)), Entry(m', r, Prefix(address, l)), l == 0, free[k - 1 - l],
                    user, writable, noExecute))
  }

  lemma NothingFilled(m: Mem, r: Frame, free: seq<Frame>, k: Level, address: nat, user: bool, writable: bool,
                      noExecute: bool)
    requires k == 0 || free == []
    ensures WayFilled(m, m, r, free, k, address, user, writable, noExecute)
  {
    hide Prefix;
  }

  lemma BitsKeptTwice(m: Mem, m1: Mem, m2: Mem, r: Frame)
    requires BitsKept(m, m1, r) && BitsKept(m1, m2, r)
    ensures BitsKept(m, m2, r)
  {
    hide Entry;
    forall q | Valid(q) && q.Sub?
      ensures SameOtherBits(Entry(m, r, q), Entry(m2, r, q))
      ensures Entry(m, r, q).present ==> Entry(m2, r, q) == Entry(m, r, q)
    {
      assert SameOtherBits(Entry(m, r, q), Entry(m1, r, q));
    }
  }

  lemma NewTablesAreClean(m: Mem, m': Mem, r: Frame, q: Path)
    requires BitsKept(m, m', r) && Valid(q) && q.Sub? && Walk(m, r, q.parent).None?
    ensures NoOtherBits(Entry(m', r, q))
  {
    assert Entry(m, r, q) == ZERO;
  }

  /** The first missing entry filled, and then the rest. */
  lemma FilledMore(m: Mem, m1: Mem, m': Mem, r: Frame, free: seq<Frame>, k: TableLevel, address: nat,
                   user: bool, writable: bool, noExecute: bool)
    requires free != [] && BitsKept(m, m1, r)
    requires var next := Prefix(address, k - 1);
      LeadsWith(Entry(m, r, next), Entry(m1, r, next), k == 1, free[0], user, writable, noExecute)
    requires WayFilled(m1, m', r, free[1..], k - 1, address, user, writable, noExecute)
    ensures WayFilled(m, m', r, free, k, address, user, writable, noExecute)
  {
    BitsKeptTwice(m, m1, m', r);
    forall q | Valid(q) && q.Sub? && Walk(m, r, q.parent).None? ensures NoOtherBits(Entry(m', r, q)) {
      NewTablesAreClean(m, m', r, q);
    }
    hide Entry, Walk, Prefix, Valid;
    forall l: Level | k - Min(k, |free|) <= l < k
      ensures LeadsWith(Entry(m, r, Prefix(address, l)), Entry(m', r, Prefix(address, l)), l == 0, free[k - 1 - l],
                        user, writable, noExecute)
    {
      var q := Prefix(address, l);
      assert SameOtherBits(Entry(m, r, q), Entry(m1, r, q));
      if l < k - 1 {
        assert free[1..][k - 2 - l] == free[k - 1 - l];
      }
    }
  }

  lemma EditKeepsBits(m: Mem, m': Mem, r: Frame, target: Path, e: Word)
    requires target.Sub? && Valid(target) && Edited(m, m', r, target, e)
    requires SameOtherBits(Entry(m, r, target), e) && !Entry(m, r, target).present
    ensures BitsKept(m, m', r)
  {
    hide Entry;
  }

  /** q is the path to a table or the page on the way to the address. */
  predicate OnWay(q: Path, address: nat) { Depth(q) <= 4 && q == Prefix(address, 4 - Depth(q)) }

  lemma PrefixOnWay(address: nat, level: Level)
    ensures OnWay(Prefix(address, level), address)
  {
  }

  /** Every entry off the way to the address is unchanged. */
  ghost predicate OffWayKept(m: Mem, m': Mem, r: Frame, address: nat) {
    forall q {:trigger Entry(m', r, q)} {:trigger Entry(m, r, q)} :: Valid(q) && q.Sub? && !OnWay(q, address) ==>
        Entry(m', r, q) == Entry(m, r, q)
  }

  lemma EditIsOnWay(m: Mem, m1: Mem, m': Mem, r: Frame, address: nat, level: TableLevel, e: Word)
    requires Edited(m, m1, r, Prefix(address, level - 1), e) && OffWayKept(m1, m', r, address)
    ensures OffWayKept(m, m', r, address)
  {
    hide Entry, Prefix, OnWay, Valid;
    PrefixOnWay(address, level - 1);
    forall q | Valid(q) && q.Sub? && !OnWay(q, address) ensures Entry(m', r, q) == Entry(m, r, q) {
      assert Entry(m1, r, q) == Entry(m, r, q);
    }
  }

  lemma OffWayItself(m: Mem, r: Frame, address: nat)
    ensures OffWayKept(m, m, r, address)
  {
  }

  /** Under the invariant a present lower-half entry always leads on. */
  lemma PresentLeads(m: Mem, r: Frame, p: Path)
    requires NoLargePages(m, r) && Lower(p) && p.Sub?
    ensures Walk(m, r, p) == if Entry(m, r, p).present then Some(Entry(m, r, p).address) else None
  {
  }

  /** The step of `vm_map` that fills an entry is one installation. */
  lemma FillIsInstall(s: Phys, r: Frame, free: seq<Frame>, p: Path, level: TableLevel, index: nat, user: bool,
      writable: bool, executable: bool)
    requires Chain(s, free) && free != []
    requires Walk(s.mem, r, p).Some? && Walk(s.mem, r, p).value != free[0] && index < ENTRIES
    ensures
      var t := Walk(s.mem, r, p).value;
      var e := NewEntry(Entry(s.mem, r, Sub(p, index)), Alloc(s).1, level, user, writable, executable);
      && Alloc(s).1 == free[0]
      && e.address == free[0]
      && Fill(Alloc(s).0, t, index, Alloc(s).1, level, user, writable, executable)
         == Phys(Installed(s.mem, free[0], t, index, e), Alloc(s).0.top)
  {
    var f := free[0];
    assert Alloc(s).1 == f && Alloc(s).0.mem == s.mem by { AllocPops(s, free); }
    assert At(Zeroed(s.mem, f), Walk(s.mem, r, p).value, index) == Entry(s.mem, r, Sub(p, index)) by {
      AtZeroed(s.mem, f);
    }
  }

  /** One round of `vm_map`'s loop that allocates. */
  lemma FillStep(s: Phys, r: Frame, g: Ledger, address: nat, level: TableLevel, user: bool, writable: bool,
      executable: bool)
    returns (s': Phys, e: Word)
    requires Inv(s, r, g) && LowerHalf(address)
    requires Walk(s.mem, r, Prefix(address, level)).Some?
    requires Walk(s.mem, r, Prefix(address, level - 1)).None?
    requires g.free != []
    ensures Alloc(s).1 == g.free[0]
    ensures var table := Walk(s.mem, r, Prefix(address, level)).value;
      && s' == Fill(Alloc(s).0, table, Index(address, level), Alloc(s).1, level, user, writable, executable)
      && At(s'.mem, table, Index(address, level)).address == g.free[0]
      && !At(s.mem, table, Index(address, level)).present
    ensures Inv(s', r, g.(free := g.free[1..]))
    ensures Edited(s.mem, s'.mem, r, Prefix(address, level - 1), e) && e.present && e.address == g.free[0]
    ensures level == 1 ==> e.user == user && e.writable == writable && e.noExecute == executable
    ensures LeadsWith(Entry(s.mem, r, Prefix(address, level - 1)), e, level == 1, g.free[0], user, writable, executable)
    ensures Walk(s'.mem, r, Prefix(address, level - 1)) == Some(g.free[0])
    ensures KeepsPages(s.mem, s'.mem, r, Prefix(address, level - 1))
    ensures IsClear(s'.mem, g.free[0])
  {
    var p, i := Prefix(address, level), Index(address, level);
    var table, target := Walk(s.mem, r, p).value, Prefix(address, level - 1);
    assert target == Sub(p, i) && Lower(target);
    assert table != g.free[0] by { assert Node(p, 4); }
    FillIsInstall(s, r, g.free, p, level, i, user, writable, executable);
    e := NewEntry(Entry(s.mem, r, target), Alloc(s).1, level, user, writable, executable);
    s' := Phys(Installed(s.mem, g.free[0], table, i, e), Alloc(s).0.top);
    InstallStep(s, r, g, p, i, e);
    InstallKeepsPages(s.mem, r, g.free, p, i, e);
    EditedWalk(s.mem, s'.mem, r, target, e, target);
  }

  function Min(a: nat, b: nat): nat { if a < b then a else b }

  /** A page just mapped: frame f, clear, with the given bits. */
  ghost predicate FreshPage(m: Mem, r: Frame, p: Path, f: Frame, user: bool, writable: bool, noExecute: bool)
    requires p.Sub?
  {
    && Walk(m, r, p) == Some(f)
    && Entry(m, r, p).user == user && Entry(m, r, p).writable == writable && Entry(m, r, p).noExecute == noExecute
    && IsClear(m, f)
  }

  /** What `vm_map` leaves behind: k frames were wanted. */
  ghost predicate MapResult(s: Phys, s': Phys, ok: bool, r: Frame, g: Ledger, k: nat, target: Path,
                            user: bool, writable: bool, noExecute: bool)
    requires target.Sub?
  {
    && Inv(s', r, g.(free := g.free[Min(k, |g.free|)..]))
    && ok == (0 < k <= |g.free|)
    && |s'.mem| == |s.mem|
    && KeepsEntries(s.mem, s'.mem, r, target)
    && KeepsPages(s.mem, s'.mem, r, target)
    && (k == 0 ==> s' == s)
    && (!ok ==> Entry(s'.mem, r, target) == Entry(s.mem, r, target))
    && (ok ==> FreshPage(s'.mem, r, target, g.free[k - 1], user, writable, noExecute))
  }

  /** One installation above the page, then the rest of the walk. */
  lemma MapResultAfterFill(s: Phys, s1: Phys, s': Phys, ok: bool, r: Frame, g: Ledger, k: nat, filled: Path, e: Word,
                           target: Path, user: bool, writable: bool, noExecute: bool)
    requires target.Sub? && Depth(target) == 4
    requires g.free != [] && filled != target && Depth(filled) < 4 && Lower(filled) && filled.Sub?
    requires Edited(s.mem, s1.mem, r, filled, e) && KeepsPages(s.mem, s1.mem, r, filled)
    requires MapResult(s1, s', ok, r, g.(free := g.free[1..]), k, target, user, writable, noExecute)
    requires Lower(target) && 0 < k && Walk(s.mem, r, target).None?
    ensures MapResult(s, s', ok, r, g, k + 1, target, user, writable, noExecute)
  {
    assert g.free[1..][Min(k, |g.free| - 1)..] == g.free[Min(k + 1, |g.free|)..];
    assert ok ==> g.free[1..][k - 1] == g.free[k];
    forall q | Valid(q) && q.Sub? && (Depth(q) == 4 || Upper(q))
      ensures Entry(s1.mem, r, q) == Entry(s.mem, r, q)
      ensures Walk(s1.mem, r, q) == Walk(s.mem, r, q)
    {
    }
    forall q | Lower(q) && Depth(q) == 4 && q != target && Walk(s.mem, r, q).Some?
      ensures SamePage(s.mem, s'.mem, Walk(s.mem, r, q).value)
    {
      assert SamePage(s.mem, s1.mem, Walk(s.mem, r, q).value);
      assert SamePage(s1.mem, s'.mem, Walk(s1.mem, r, q).value);
    }
  }

  /** Below a missing table everything is missing. */
  lemma {:induction false} AbsentBelow(m: Mem, r: Frame, address: nat, level: Level)
    requires level < 4 && Walk(m, r, Prefix(address, level)).None?
    ensures Walk(m, r, Leaf(address)).None?
  {
    if level > 0 {
      assert Entry(m, r, Prefix(address, level - 1)) == ZERO;
      AbsentBelow(m, r, address, level - 1);
    }
  }

  /** The whole of `vm_map`, from any table on the way. */
  lemma {:induction false} MapFromSpec(s: Phys, r: Frame, g: Ledger, address: nat, level: TableLevel,
                                       user: bool, writable: bool, executable: bool)
    requires Inv(s, r, g) && LowerHalf(address)
    requires Walk(s.mem, r, Prefix(address, level)).Some?
    ensures
      var (s', ok) := MapFrom(s, Walk(s.mem, r, Prefix(address, level)).value, address, level, user, writable,
          executable);
      && MapResult(s, s', ok, r, g, Missing(s.mem, r, address, level), Leaf(address), user, writable, executable)
      && WayFilled(s.mem, s'.mem, r, g.free, Missing(s.mem, r, address, level), address, user, writable, executable)
      && OffWayKept(s.mem, s'.mem, r, address)
    decreases level, 1
  {
    var table, next := Walk(s.mem, r, Prefix(address, level)).value, Prefix(address, level - 1);
    assert Lower(next);
    MapFromRound(s, r, address, level, user, writable, executable);
    assert Chain(s, g.free);
    hide Inv, Index, MapFrom, MapResult, Fill, WayFilled, OffWayKept;
    OffWayItself(s.mem, r, address);
    if Walk(s.mem, r, next).Some? {
      if level > 1 {
        MapFromSpec(s, r, g, address, level - 1, user, writable, executable);
      } else {
        MapNothing(s, r, g, 0, Leaf(address), user, writable, executable);
        NothingFilled(s.mem, r, g.free, 0, address, user, writable, executable);
      }
    } else if g.free == [] {
      AllocPops(s, g.free);
      MapNothing(s, r, g, level, Leaf(address), user, writable, executable);
      NothingFilled(s.mem, r, g.free, level, address, user, writable, executable);
    } else {
      MapFromFilling(s, r, g, address, level, user, writable, executable);
    }
  }

  /** The rounds from the first one that allocates. */
  lemma {:induction false} MapFromFilling(s: Phys, r: Frame, g: Ledger, address: nat, level: TableLevel,
                                          user: bool, writable: bool, executable: bool)
    requires Inv(s, r, g) && LowerHalf(address) && g.free != []
    requires Walk(s.mem, r, Prefix(address, level)).Some? && Walk(s.mem, r, Prefix(address, level - 1)).None?
    ensures
      var (s1, p) := Alloc(s);
      var table := Walk(s.mem, r, Prefix(address, level)).value;
      var s2 := Fill(s1, table, Index(address, level), p, level, user, writable, executable);
      var (s', ok) := if level == 1 then (s2, true) else
        MapFrom(s2, At(s2.mem, table, Index(address, level)).address, address, level - 1, user, writable, executable);
      && p != 0 && MapResult(s, s', ok, r, g, level, Leaf(address), user, writable, executable)
      && WayFilled(s.mem, s'.mem, r, g.free, level, address, user, writable, executable)
      && OffWayKept(s.mem, s'.mem, r, address)
    decreases level, 0
  {
    assert Alloc(s).1 != 0 by { AllocPops(s, g.free); }
    hide Inv, Index, MapFrom, MapResult, Fill, Missing, WayFilled, OffWayKept, BitsKept;
    var s1, e := FillStep(s, r, g, address, level, user, writable, executable);
    FilledAtLevel(s, s1, r, g, address, level, e, user, writable, executable);
    var s' := s1;
    if level > 1 {
      MapFromSpec(s1, r, g.(free := g.free[1..]), address, level - 1, user, writable, executable);
      MapFromAfterFill(s, s1, r, g, address, level, e, user, writable, executable);
      BelowIsMissing(s, s1, r, g, address, level, e);
      s' := MapFrom(s1, g.free[0], address, level - 1, user, writable, executable).0;
    } else {
      MapLast(s, s1, r, g, address, e, user, writable, executable);
      OffWayItself(s1.mem, r, address);
      NothingFilled(s1.mem, r, g.free[1..], 0, address, user, writable, executable);
    }
    FilledMore(s.mem, s1.mem, s'.mem, r, g.free, level, address, user, writable, executable);
    EditIsOnWay(s.mem, s1.mem, s'.mem, r, address, level, e);
  }

  lemma FilledAtLevel(s: Phys, s1: Phys, r: Frame, g: Ledger, address: nat, level: TableLevel, e: Word,
                      user: bool, writable: bool, executable: bool)
    requires NoLargePages(s.mem, r) && LowerHalf(address) && g.free != []
    requires var next := Prefix(address, level - 1);
      && Walk(s.mem, r, next).None? && Edited(s.mem, s1.mem, r, next, e)
      && LeadsWith(Entry(s.mem, r, next), e, level == 1, g.free[0], user, writable, executable)
    ensures BitsKept(s.mem, s1.mem, r) && Entry(s1.mem, r, Prefix(address, level - 1)) == e
  {
    var next := Prefix(address, level - 1);
    assert Lower(next);
    PresentLeads(s.mem, r, next);
    EditKeepsBits(s.mem, s1.mem, r, next, e);
  }

  lemma BelowIsMissing(s: Phys, s1: Phys, r: Frame, g: Ledger, address: nat, level: TableLevel, e: Word)
    requires level > 1 && g.free != [] && Walk(s.mem, r, Prefix(address, level - 1)).None?
    requires Edited(s.mem, s1.mem, r, Prefix(address, level - 1), e)
    requires Walk(s1.mem, r, Prefix(address, level - 1)) == Some(g.free[0])
    ensures Missing(s1.mem, r, address, level - 1) == level - 1
  {
    var next, rest := Prefix(address, level - 1), Prefix(address, level - 2);
    assert rest == Sub(next, Index(address, level - 1)) && Entry(s.mem, r, rest) == ZERO;
    assert Entry(s1.mem, r, rest) == ZERO;
  }

  /** What one round of the loop does, by the entry it finds. */
  lemma MapFromRound(s: Phys, r: Frame, address: nat, level: TableLevel, user: bool, writable: bool, executable: bool)
    requires NoLargePages(s.mem, r) && LowerHalf(address)
    requires Walk(s.mem, r, Prefix(address, level)).Some?
    ensures
      var table, next := Walk(s.mem, r, Prefix(address, level)).value, Walk(s.mem, r, Prefix(address, level - 1));
      var (s1, p) := Alloc(s);
      var s2 := Fill(s1, table, Index(address, level), p, level, user, writable, executable);
      MapFrom(s, table, address, level, user, writable, executable) ==
        if next.Some? then
          if level == 1 then (s, false) else MapFrom(s, next.value, address, level - 1, user, writable, executable)
        else if p == 0 then (s1, false)
        else if level == 1 then (s2, true)
        else
          MapFrom(s2, At(s2.mem, table, Index(address, level)).address, address, level - 1, user, writable, executable)
  {
    var next := Prefix(address, level - 1);
    assert next == Sub(Prefix(address, level), Index(address, level)) && Lower(next);
    PresentLeads(s.mem, r, next);
  }

  lemma MapLast(s: Phys, s': Phys, r: Frame, g: Ledger, address: nat, e: Word, user: bool, writable: bool,
      executable: bool)
    requires g.free != [] && Walk(s.mem, r, Leaf(address)).None?
    requires Inv(s', r, g.(free := g.free[1..]))
    requires Edited(s.mem, s'.mem, r, Leaf(address), e) && e.present && e.address == g.free[0]
    requires e.user == user && e.writable == writable && e.noExecute == executable
    requires KeepsPages(s.mem, s'.mem, r, Leaf(address))
    requires IsClear(s'.mem, g.free[0])
    ensures MapResult(s, s', true, r, g, 1, Leaf(address), user, writable, executable)
  {
    EditedWalk(s.mem, s'.mem, r, Leaf(address), e, Leaf(address));
  }

  lemma MapNothing(s: Phys, r: Frame, g: Ledger, k: nat, target: Path, user: bool, writable: bool, noExecute: bool)
    requires Inv(s, r, g) && target.Sub? && (k == 0 || g.free == [])
    ensures MapResult(s, s, false, r, g, k, target, user, writable, noExecute)
  {
    assert g.free[0..] == g.free;
  }

  lemma MapFromAfterFill(s: Phys, s1: Phys, r: Frame, g: Ledger, address: nat, level: TableLevel, e: Word,
                         user: bool, writable: bool, executable: bool)
    requires LowerHalf(address) && level > 1 && g.free != []
    requires Walk(s.mem, r, Prefix(address, level - 1)).None?
    requires Edited(s.mem, s1.mem, r, Prefix(address, level - 1), e)
    requires KeepsPages(s.mem, s1.mem, r, Prefix(address, level - 1))
    requires Walk(s1.mem, r, Prefix(address, level - 1)) == Some(g.free[0])
    requires
      var (s', ok) := MapFrom(s1, g.free[0], address, level - 1, user, writable, executable);
      MapResult(s1, s', ok, r, g.(free := g.free[1..]), Missing(s1.mem, r, address, level - 1), Leaf(address), user,
          writable, executable)
    ensures
      var (s', ok) := MapFrom(s1, g.free[0], address, level - 1, user, writable, executable);
      MapResult(s, s', ok, r, g, level, Leaf(address), user, writable, executable)
  {
    var next, rest := Prefix(address, level - 1), Prefix(address, level - 2);
    assert rest == Sub(next, Index(address, level - 1)) && Entry(s.mem, r, rest) == ZERO;
    assert Entry(s1.mem, r, rest) == ZERO;
    assert Missing(s1.mem, r, address, level - 1) == level - 1;
    AbsentBelow(s.mem, r, address, level - 1);
    var (s', ok) := MapFrom(s1, g.free[0], address, level - 1, user, writable, executable);
    assert Lower(next) && Lower(Leaf(address));
    MapResultAfterFill(s, s1, s', ok, r, g, level - 1, next, e, Leaf(address), user, writable, executable);
  }

  /** What `vm_unmap` leaves behind. */
  ghost predicate UnmapResult(s: Phys, s': Phys, ok: bool, r: Frame, g: Ledger, target: Path)
    requires target.Sub?
  {
    && ok == Walk(s.mem, r, target).Some?
    && (!ok ==> s' == s)
    && (ok ==>
         && Inv(s', r, g.(free := [Walk(s.mem, r, target).value] + g.free))
         && |s'.mem| == |s.mem|
         && Walk(s'.mem, r, target).None?
         && Edited(s.mem, s'.mem, r, target, Entry(s.mem, r, target).(present := false))
         && KeepsEntries(s.mem, s'.mem, r, target)
         && KeepsPages(s.mem, s'.mem, r, target))
  }

  /** A page's entry marked absent: its frame is in no one's hands. */
  lemma RemovedLeaf(s: Phys, r: Frame, g: Ledger, p: Path, i: nat, s1: Phys, e: Word, f: Frame)
    requires Inv(s, r, g) && Lower(Sub(p, i)) && Depth(p) == 3 && Walk(s.mem, r, p).Some?
    requires Walk(s.mem, r, Sub(p, i)) == Some(f) && e == Entry(s.mem, r, Sub(p, i)).(present := false)
    requires s1 == s.(mem := Put(s.mem, Walk(s.mem, r, p).value, i, e))
    ensures Chain(s1, g.free) && f !in g.free && 0 < f < |s1.mem| && Edited(s.mem, s1.mem, r, Sub(p, i), e)
    ensures Tree(s1.mem, r, [f] + g.free, 4) && Partition(s1.mem, r, g.(free := [f] + g.free))
    ensures NoLargePages(s1.mem, r) && Permissive(s1.mem, r)
  {
    var target, t := Sub(p, i), Walk(s.mem, r, p).value;
    LeafEdits(s.mem, r, g.free, p, i, e);
    RemoveKeepsTree(s.mem, s1.mem, r, g, target, e, f);
    PermissiveEdit(s.mem, s1.mem, r, target, e);
    assert Node(target, 4) && Node(p, 4);
    AtPut(s.mem, t, i, e);
    ChainFrame(s, s1.mem, g.free);
  }

  /** Pages other than the one that was at `Sub(p, i)` hold what they held. */
  lemma KeepsAllOthers(m: Mem, m2: Mem, r: Frame, free: seq<Frame>, p: Path, i: nat, f: Frame)
    requires Tree(m, r, free, 4) && Lower(Sub(p, i)) && Depth(p) == 3 && Walk(m, r, p).Some?
    requires Walk(m, r, Sub(p, i)) == Some(f)
    requires forall x: nat, j: nat {:trigger At(m2, x, j)} :: j < ENTRIES && x != f && x != Walk(m, r, p).value ==>
      At(m2, x, j) == At(m, x, j)
    ensures KeepsPages(m, m2, r, Sub(p, i))
  {
    assert Node(p, 4) && Node(Sub(p, i), 4) && Lower(p);
    forall q | Lower(q) && Depth(q) == 4 && q != Sub(p, i) && Walk(m, r, q).Some?
      ensures SamePage(m, m2, Walk(m, r, q).value)
    {
      assert Node(q, 4);
    }
  }

  /** The last round of `vm_unmap`'s loop, and the release of the page. */
  lemma RemoveStep(s: Phys, r: Frame, g: Ledger, p: Path, i: nat)
    requires Inv(s, r, g) && Lower(Sub(p, i)) && Depth(p) == 3 && Walk(s.mem, r, p).Some? &&
        Walk(s.mem, r, Sub(p, i)).Some?
    ensures
      var t, e := Walk(s.mem, r, p).value, Entry(s.mem, r, Sub(p, i));
      var s1 := s.(mem := Put(s.mem, t, i, e.(present := false)));
      UnmapResult(s, Free(s1, e.address), true, r, g, Sub(p, i))
  {
    var target := Sub(p, i);
    var t, e, f := Walk(s.mem, r, p).value, Entry(s.mem, r, target), Walk(s.mem, r, target).value;
    var e' := e.(present := false);
    var s1 := s.(mem := Put(s.mem, t, i, e'));
    RemovedLeaf(s, r, g, p, i, s1, e', f);
    assert e.address == f;
    hide Inv, Tree, Partition, NoLargePages, Permissive, Chain, KeepsPages, Free, Put, At, Entry, Walk, Edited,
      UnmapResult;
    RemoveKeepsPages(s, r, g, p, i, e', f);
    PushStep(s1, r, g, f);
    RemovedThenPushed(s, s1.mem, Free(s1, f), r, g, target, f);
  }

  lemma RemovedThenPushed(s: Phys, m1: Mem, s2: Phys, r: Frame, g: Ledger, target: Path, f: Frame)
    requires target.Sub? && Lower(target) && Depth(target) == 4 && Walk(s.mem, r, target) == Some(f)
    requires Edited(s.mem, m1, r, target, Entry(s.mem, r, target).(present := false))
    requires Inv(s2, r, g.(free := [f] + g.free)) && |s2.mem| == |m1| && KeepsPages(s.mem, s2.mem, r, target)
    requires forall q :: Valid(q) ==>
      Walk(s2.mem, r, q) == Walk(m1, r, q) && (q.Sub? ==> Entry(s2.mem, r, q) == Entry(m1, r, q))
    ensures UnmapResult(s, s2, true, r, g, target)
  {
    EditedWalk(s.mem, m1, r, target, Entry(s.mem, r, target).(present := false), target);
    hide Inv, KeepsPages, Entry, Walk;
  }

  lemma RemoveKeepsPages(s: Phys, r: Frame, g: Ledger, p: Path, i: nat, e: Word, f: Frame)
    requires Inv(s, r, g) && Lower(Sub(p, i)) && Depth(p) == 3 && Walk(s.mem, r, p).Some?
    requires Walk(s.mem, r, Sub(p, i)) == Some(f)
    ensures KeepsPages(s.mem, Free(s.(mem := Put(s.mem, Walk(s.mem, r, p).value, i, e)), f).mem, r, Sub(p, i))
  {
    hide Chain, Partition, NoLargePages, Permissive, Walk;
    var t := Walk(s.mem, r, p).value;
    var m1 := Put(s.mem, t, i, e);
    assert Node(p, 4) && Node(Sub(p, i), 4);
    AtPut(s.mem, t, i, e);
    AtPut(m1, f, 0, Link(s.top));
    KeepsAllOthers(s.mem, Free(s.(mem := m1), f).mem, r, g.free, p, i, f);
  }

  /** Pushing a frame that nothing reaches any more. */
  lemma PushStep(s: Phys, r: Frame, g: Ledger, f: Frame)
    requires Chain(s, g.free) && f !in g.free && 0 < f < |s.mem|
    requires Tree(s.mem, r, [f] + g.free, 4) && Partition(s.mem, r, g.(free := [f] + g.free))
    requires NoLargePages(s.mem, r) && Permissive(s.mem, r)
    ensures
      var s' := Free(s, f);
      && Inv(s', r, g.(free := [f] + g.free))
      && (forall q :: Valid(q) ==> Walk(s'.mem, r, q) == Walk(s.mem, r, q) && (q.Sub? ==>
          Entry(s'.mem, r, q) == Entry(s.mem, r, q)))
      && (forall x: nat, j: nat :: x != f && j < ENTRIES ==> At(s'.mem, x, j) == At(s.mem, x, j))
      && |s'.mem| == |s.mem|
  {
    FreePushes(s, g.free, f);
    var s' := Free(s, f);
    AtPut(s.mem, f, 0, Link(Head(g.free)));
    forall q | Valid(q)
      ensures Walk(s'.mem, r, q) == Walk(s.mem, r, q) && (q.Sub? ==> Entry(s'.mem, r, q) == Entry(s.mem, r, q))
    {
      forall a | Valid(a) && Depth(a) <= 3 ensures Walk(s.mem, r, a) != Some(f) {
        assert Node(a, 4);
      }
      NonTableWrite(s.mem, s'.mem, r, f, q);
    }
    SameWalksKeepTree(s.mem, s'.mem, r, g.(free := [f] + g.free));
  }

  lemma {:induction false} UnmapFromSpec(s: Phys, r: Frame, g: Ledger, address: nat, level: TableLevel)
    requires Inv(s, r, g) && LowerHalf(address)
    requires Walk(s.mem, r, Prefix(address, level)).Some?
    ensures
      var (s', ok) := UnmapFrom(s, Walk(s.mem, r, Prefix(address, level)).value, address, level);
      UnmapResult(s, s', ok, r, g, Leaf(address))
    decreases level
  {
    var p, next := Prefix(address, level), Prefix(address, level - 1);
    assert next == Sub(p, Index(address, level)) && Lower(next);
    PresentLeads(s.mem, r, next);
    if Walk(s.mem, r, next).None? {
      AbsentBelow(s.mem, r, address, level - 1);
    } else if level > 1 {
      UnmapFromSpec(s, r, g, address, level - 1);
    } else {
      RemoveStep(s, r, g, p, Index(address, 1));
      var t, e := Walk(s.mem, r, p).value, Entry(s.mem, r, next);
      assert Node(p, 4);
      AtPut(s.mem, t, Index(address, 1), e.(present := false));
    }
  }

  /** What `vm_protect` leaves behind. */
  ghost predicate ProtectResult(s: Phys, s': Phys, ok: bool, r: Frame, g: Ledger, target: Path,
                                user: bool, writable: bool, noExecute: bool)
    requires target.Sub?
  {
    && ok == Walk(s.mem, r, target).Some?
    && (!ok ==> s' == s)
    && (ok ==>
         && Inv(s', r, g)
         && |s'.mem| == |s.mem|
         && Entry(s'.mem, r, target) == Entry(s.mem, r, target).(user := user, writable := writable,
             noExecute := noExecute)
         && Edited(s.mem, s'.mem, r, target, Entry(s'.mem, r, target))
         && KeepsEntries(s.mem, s'.mem, r, target)
         && KeepsPages(s.mem, s'.mem, r, target)
         && SamePage(s.mem, s'.mem, Walk(s.mem, r, target).value))
  }

  lemma RewriteStep(s: Phys, r: Frame, g: Ledger, p: Path, i: nat, user: bool, writable: bool, noExecute: bool)
    requires Inv(s, r, g) && Lower(Sub(p, i)) && Depth(p) == 3 && Walk(s.mem, r, p).Some? &&
        Walk(s.mem, r, Sub(p, i)).Some?
    ensures
      var t, e := Walk(s.mem, r, p).value, Entry(s.mem, r, Sub(p, i));
      var s' := s.(mem := Put(s.mem, t, i, e.(user := user, writable := writable, noExecute := noExecute)));
      ProtectResult(s, s', true, r, g, Sub(p, i), user, writable, noExecute)
  {
    var target := Sub(p, i);
    var t, e := Walk(s.mem, r, p).value, Entry(s.mem, r, target);
    var e' := e.(user := user, writable := writable, noExecute := noExecute);
    var m' := Put(s.mem, t, i, e');
    LeafEdits(s.mem, r, g.free, p, i, e');
    RewriteKeepsTree(s.mem, m', r, g, target, e');
    PermissiveEdit(s.mem, m', r, target, e');
    assert Node(target, 4) && Node(p, 4);
    AtPut(s.mem, t, i, e');
    ChainFrame(s, m', g.free);
    forall q | Lower(q) && Depth(q) == 4 && Walk(s.mem, r, q).Some?
      ensures SamePage(s.mem, m', Walk(s.mem, r, q).value)
    {
      assert Node(q, 4);
    }
  }

  lemma {:induction false} ProtectFromSpec(s: Phys, r: Frame, g: Ledger, address: nat, level: TableLevel,
                                           user: bool, writable: bool, executable: bool)
    requires Inv(s, r, g) && LowerHalf(address)
    requires Walk(s.mem, r, Prefix(address, level)).Some?
    ensures
      var (s', ok) := ProtectFrom(s, Walk(s.mem, r, Prefix(address, level)).value, address, level, user, writable,
          executable);
      ProtectResult(s, s', ok, r, g, Leaf(address), user, writable, executable)
    decreases level
  {
    var p, next := Prefix(address, level), Prefix(address, level - 1);
    assert next == Sub(p, Index(address, level)) && Lower(next);
    PresentLeads(s.mem, r, next);
    if Walk(s.mem, r, next).None? {
      AbsentBelow(s.mem, r, address, level - 1);
    } else if level > 1 {
      ProtectFromSpec(s, r, g, address, level - 1, user, writable, executable);
    } else {
      RewriteStep(s, r, g, p, Index(address, 1), user, writable, executable);
    }
  }

  /** A store through a mapped page changes no entry. */
  lemma DataEdits(m: Mem, r: Frame, free: seq<Frame>, p: Path, j: nat, w: Word)
    requires Tree(m, r, free, 4) && Lower(p) && Depth(p) == 4 && Walk(m, r, p).Some? && j < ENTRIES
    ensures Edited(m, Put(m, Walk(m, r, p).value, j, w), r, p, Entry(m, r, p))
  {
    var f := Walk(m, r, p).value;
    AtPut(m, f, j, w);
    forall q | Valid(q) && q.Sub? ensures Entry(Put(m, f, j, w), r, q) == Entry(m, r, q) {
      NonTableWrite(m, Put(m, f, j, w), r, f, q);
    }
  }

  /** A store through a mapped page changes that one cell and no translation. */
  lemma DataStep(s: Phys, r: Frame, g: Ledger, p: Path, j: nat, w: Word)
    requires Inv(s, r, g) && Lower(p) && Depth(p) == 4 && Walk(s.mem, r, p).Some? && j < ENTRIES
    ensures
      var f := Walk(s.mem, r, p).value;
      var m' := Put(s.mem, f, j, w);
      && Inv(s.(mem := m'), r, g)
      && Edited(s.mem, m', r, p, Entry(s.mem, r, p))
      && KeepsPages(s.mem, m', r, p)
      && (forall i: nat | i < ENTRIES :: At(m', f, i) == if i == j then w else At(s.mem, f, i))
  {
    var f := Walk(s.mem, r, p).value;
    var m' := Put(s.mem, f, j, w);
    DataEdits(s.mem, r, g.free, p, j, w);
    RewriteKeepsTree(s.mem, m', r, g, p, Entry(s.mem, r, p));
    PermissiveEdit(s.mem, m', r, p, Entry(s.mem, r, p));
    AtPut(s.mem, f, j, w);
    assert Chain(s.(mem := m'), g.free) by { ChainFrame(s, m', g.free); }
  }
}
