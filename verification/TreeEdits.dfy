/** What each kind of write does to the tree: installing a cleared frame,
    rewriting a page's entry, removing a page, storing data in a page. */
module TreeEdits {
  import opened Words
  import opened Memory
  import opened PageTree

  // ---- memory level: which entries read differently ----

  /** Clearing frame f and storing e in the absent entry `target` of table t. */
  function Installed(m: Mem, f: Frame, t: Frame, i: nat, e: Word): Mem {
    Put(Zeroed(m, f), t, i, e)
  }

  lemma AtInstalled(m: Mem, f: Frame, t: Frame, i: nat, e: Word)
    requires i < ENTRIES && t < |m| && f != t
    ensures forall g: nat, j: nat {:trigger At(Installed(m, f, t, i, e), g, j)} :: j < ENTRIES ==>
      At(Installed(m, f, t, i, e), g, j) == if g == t && j == i then e else if g == f then ZERO else At(m, g, j)
  {
    AtZeroed(m, f);
    AtPut(Zeroed(m, f), t, i, e);
  }

  /** Nothing exists below the installed frame, before or after. */
  lemma {:induction false} BelowInstalled(m: Mem, m': Mem, r: Frame, target: Path, f: Frame, q: Path)
    requires Valid(q) && target.Sub? && Within(q, target) && q != target
    requires Walk(m, r, target).None?
    requires Walk(m', r, target) == Some(f) && IsClear(m', f)
    ensures Entry(m, r, q) == ZERO && Entry(m', r, q) == ZERO
  {
    if q.parent != target {
      BelowInstalled(m, m', r, target, f, q.parent);
    }
  }

  /** An installation writes no cell that a path outside the target reads. */
  lemma InstallReads(m: Mem, r: Frame, free: seq<Frame>, p: Path, i: nat, e: Word, a: Path)
    requires Tree(m, r, free, 4)
    requires Lower(Sub(p, i)) && Walk(m, r, p).Some?
    requires free != []
    requires Valid(a) && a.Sub? && a != Sub(p, i) && Walk(m, r, a.parent).Some?
    ensures At(Installed(m, free[0], Walk(m, r, p).value, i, e), Walk(m, r, a.parent).value, a.index) == Entry(m, r, a)
  {
    assert Node(p, 4) && Node(a.parent, 4);
    AtInstalled(m, free[0], Walk(m, r, p).value, i, e);
  }

  lemma InstallEdits(m: Mem, r: Frame, free: seq<Frame>, p: Path, i: nat, e: Word)
    requires Tree(m, r, free, 4)
    requires Lower(Sub(p, i)) && Walk(m, r, p).Some? && Walk(m, r, Sub(p, i)).None?
    requires free != [] && free[0] < |m| && Child(e, Depth(p) + 1) == Some(free[0])
    ensures Edited(m, Installed(m, free[0], Walk(m, r, p).value, i, e), r, Sub(p, i), e)
  {
    var target, f, t := Sub(p, i), free[0], Walk(m, r, p).value;
    var m' := Installed(m, f, t, i, e);
    forall a | Valid(a) && a.Sub? && !Within(a, target) && Walk(m, r, a.parent).Some?
      ensures At(m', Walk(m, r, a.parent).value, a.index) == Entry(m, r, a)
    {
      InstallReads(m, r, free, p, i, e, a);
    }
    assert Entry(m', r, target) == e && IsClear(m', f) by {
      assert Node(p, 4);
      AtInstalled(m, f, t, i, e);
      if Within(p, target) { WithinDepth(p, target); }
      Reread(m, m', r, target, p);
    }
    forall q | Valid(q) && q.Sub?
      ensures Entry(m', r, q) == if q == target then e else Entry(m, r, q)
    {
      if !Within(q, target) {
        Reread(m, m', r, target, q);
      } else if q != target {
        BelowInstalled(m, m', r, target, f, q);
      }
    }
  }

  /** What the clearing is for: a frame installed as a table as it is maps, at once, exactly what its old cells
      look like. */
  lemma UnclearedFrameShowsThrough(m: Mem, r: Frame, free: seq<Frame>, p: Path, i: nat, e: Word, j: nat)
    requires Tree(m, r, free, 4) && Lower(Sub(p, i)) && Depth(p) < 3 && Walk(m, r, p).Some? && j < ENTRIES
    requires free != [] && free[0] < |m| && Child(e, Depth(p) + 1) == Some(free[0])
    ensures
      var m' := Put(m, Walk(m, r, p).value, i, e);
      Walk(m', r, Sub(Sub(p, i), j)) == Child(At(m, free[0], j), Depth(p) + 2)
  {
    var target, f, t := Sub(p, i), free[0], Walk(m, r, p).value;
    var m' := Put(m, t, i, e);
    AtPut(m, t, i, e);
    assert t != f by { assert Node(p, 4); }
    TableStaysWhereItIs(m, r, free, p, i, e);
    assert Entry(m', r, target) == e;
    assert Entry(m', r, Sub(target, j)) == At(m', f, j);
  }

  /** Writing an entry of a table moves no table above it. */
  lemma TableStaysWhereItIs(m: Mem, r: Frame, free: seq<Frame>, p: Path, i: nat, e: Word)
    requires Tree(m, r, free, 4) && Lower(Sub(p, i)) && Walk(m, r, p).Some?
    ensures Walk(Put(m, Walk(m, r, p).value, i, e), r, p) == Walk(m, r, p) && Walk(m, r, p).value < |m|
  {
    var target, t := Sub(p, i), Walk(m, r, p).value;
    assert Node(p, 4);
    AtPut(m, t, i, e);
    forall a | Valid(a) && a.Sub? && !Within(a, target) && Walk(m, r, a.parent).Some?
      ensures At(Put(m, t, i, e), Walk(m, r, a.parent).value, a.index) == Entry(m, r, a)
    {
      assert Node(a.parent, 4);
    }
    if Within(p, target) {
      WithinDepth(p, target);
    }
    Reread(m, Put(m, t, i, e), r, target, p);
  }

  /** Rewriting the entry of a page: nothing is below it. */
  lemma LeafEdits(m: Mem, r: Frame, free: seq<Frame>, p: Path, i: nat, e: Word)
    requires Tree(m, r, free, 4)
    requires Lower(Sub(p, i)) && Depth(p) == 3 && Walk(m, r, p).Some?
    ensures Edited(m, Put(m, Walk(m, r, p).value, i, e), r, Sub(p, i), e)
  {
    var target, t := Sub(p, i), Walk(m, r, p).value;
    var m' := Put(m, t, i, e);
    assert Node(p, 4);
    AtPut(m, t, i, e);
    forall a | Valid(a) && a.Sub? && !Within(a, target) && Walk(m, r, a.parent).Some?
      ensures At(m', Walk(m, r, a.parent).value, a.index) == Entry(m, r, a)
    {
      assert Node(a.parent, 4);
    }
    if Within(p, target) { WithinDepth(p, target); }
    Reread(m, m', r, target, p);
    forall q | Valid(q) && q.Sub?
      ensures Entry(m', r, q) == if q == target then e else Entry(m, r, q)
    {
      if !Within(q, target) {
        Reread(m, m', r, target, q);
      } else {
        WithinDepth(q, target);
      }
    }
  }

  /** A frame that no table occupies can be written freely. */
  lemma {:induction false} NonTableWrite(m: Mem, m': Mem, r: Frame, f: Frame, q: Path)
    requires Valid(q)
    requires |m'| == |m|
    requires forall a {:trigger Walk(m, r, a)} :: Valid(a) && Depth(a) <= 3 ==> Walk(m, r, a) != Some(f)
    requires forall g: nat, j: nat :: g != f && j < ENTRIES ==> At(m', g, j) == At(m, g, j)
    ensures Walk(m', r, q) == Walk(m, r, q)
    ensures q.Sub? ==> Entry(m', r, q) == Entry(m, r, q)
  {
    if q.Sub? {
      NonTableWrite(m, m', r, f, q.parent);
    }
  }

  // ---- invariant level ----

  lemma PermissiveEdit(m: Mem, m': Mem, r: Frame, target: Path, e: Word)
    requires Edited(m, m', r, target, e) && Lower(target) && target.Sub?
    requires NoLargePages(m, r) && Permissive(m, r)
    requires 2 <= Depth(target) <= 3 ==> !e.pageSize
    requires Depth(target) < 4 ==> e.user && e.writable && !e.noExecute
    ensures NoLargePages(m', r) && Permissive(m', r)
  {
    forall p | Lower(p) && 2 <= Depth(p) <= 3 ensures !Entry(m', r, p).pageSize {
      assert !Entry(m, r, p).pageSize;
    }
    forall p | Lower(p) && 1 <= Depth(p) <= 3 && Walk(m', r, p).Some?
      ensures Entry(m', r, p).user && Entry(m', r, p).writable && !Entry(m', r, p).noExecute
    {
      if p != target {
        EditedWalk(m, m', r, target, e, p);
      }
    }
  }

  /** Which frames are owned after one lower-half path changed where it leads. */
  lemma OwnedAfter(m: Mem, m': Mem, r: Frame, target: Path, x: Frame)
    requires Lower(target) && target.Sub?
    requires forall q {:trigger Walk(m', r, q)} {:trigger Walk(m, r, q)} :: Valid(q) && q != target ==>
        Walk(m', r, q) == Walk(m, r, q)
    ensures Owned(m', r, x) <==>
      Walk(m', r, target) == Some(x) || exists p {:trigger Walk(m, r, p)} ::
          Lower(p) && p.Sub? && p != target && Walk(m, r, p) == Some(x)
  {
    if Owned(m', r, x) {
      var p :| Lower(p) && p.Sub? && Walk(m', r, p) == Some(x);
      assert p != target ==> Walk(m, r, p) == Some(x);
    } else {
      forall p | Lower(p) && p.Sub? && p != target ensures Walk(m, r, p) != Some(x) {
        assert Walk(m', r, p) != Some(x);
      }
      assert Walk(m', r, target) != Some(x);
    }
  }

  /** m' reads like m except that `target` leads to `w`. */
  ghost predicate Moved(m: Mem, m': Mem, r: Frame, target: Path, w: Option<Frame>) {
    && |m'| == |m|
    && forall q {:trigger Walk(m', r, q)} {:trigger Walk(m, r, q)} :: Valid(q) ==>
        Walk(m', r, q) == if q == target then w else Walk(m, r, q)
  }

  lemma EditMoves(m: Mem, m': Mem, r: Frame, target: Path, e: Word)
    requires Edited(m, m', r, target, e) && target.Sub?
    ensures Moved(m, m', r, target, Child(e, Depth(target)))
  {
    forall q | Valid(q) ensures Walk(m', r, q) == if q == target then Child(e, Depth(target)) else Walk(m, r, q) {
      EditedWalk(m, m', r, target, e, q);
    }
  }

  /** A free frame enters the tree. */
  lemma TreeWithFrame(m: Mem, m': Mem, r: Frame, free: seq<Frame>, target: Path)
    requires Tree(m, r, free, 4) && Valid(target) && free != [] && 0 < free[0] < |m| && free[0] !in free[1..]
    requires Moved(m, m', r, target, Some(free[0]))
    ensures Tree(m', r, free[1..], 4)
  {
    hide Walk;
    assert free[0] in free && forall x: Frame :: x in free[1..] ==> x in free;
  }

  /** A frame leaves the tree. */
  lemma TreeWithoutFrame(m: Mem, m': Mem, r: Frame, free: seq<Frame>, target: Path, f: Frame)
    requires Tree(m, r, free, 4) && Lower(target) && Node(target, 4) && Walk(m, r, target) == Some(f)
    requires Moved(m, m', r, target, None)
    ensures Tree(m', r, [f] + free, 4)
  {
    hide Walk;
  }

  /** Installing the first free frame keeps the tree and moves that frame from free to owned. */
  lemma InstallKeepsTree(m: Mem, m': Mem, r: Frame, g: Ledger, target: Path, e: Word)
    requires Edited(m, m', r, target, e) && Lower(target) && target.Sub?
    requires Tree(m, r, g.free, 4) && Partition(m, r, g)
    requires g.free != [] && 0 < g.free[0] < |m| && g.free[0] !in g.free[1..]
    requires Walk(m, r, target).None? && Child(e, Depth(target)) == Some(g.free[0])
    ensures Tree(m', r, g.free[1..], 4) && Partition(m', r, g.(free := g.free[1..]))
  {
    hide Walk, Tree, Edited, Child;
    EditMoves(m, m', r, target, e);
    TreeWithFrame(m, m', r, g.free, target);
    assert forall x: Frame :: x in g.free <==> x == g.free[0] || x in g.free[1..] by {
      assert g.free == [g.free[0]] + g.free[1..];
    }
    forall x: Frame
      ensures Owned(m', r, x) <==> Owned(m, r, x) || x == g.free[0]
      ensures x == g.free[0] ==> !Owned(m, r, x)
    {
      OwnedAfter(m, m', r, target, x);
      OwnedIsNotFree(m, r, g.free, x);
    }
  }

  lemma OwnedIsNotFree(m: Mem, r: Frame, free: seq<Frame>, x: Frame)
    requires Tree(m, r, free, 4)
    ensures Owned(m, r, x) ==> x !in free && 0 < x < |m|
  {
    if Owned(m, r, x) {
      var p :| Lower(p) && p.Sub? && Walk(m, r, p) == Some(x);
      assert Node(p, 4);
    }
  }

  /** Removing a page gives its frame back. */
  lemma RemoveKeepsTree(m: Mem, m': Mem, r: Frame, g: Ledger, target: Path, e: Word, f: Frame)
    requires Edited(m, m', r, target, e) && Lower(target) && target.Sub?
    requires Tree(m, r, g.free, 4) && Partition(m, r, g)
    requires Walk(m, r, target) == Some(f) && Child(e, Depth(target)).None?
    ensures Tree(m', r, [f] + g.free, 4) && Partition(m', r, g.(free := [f] + g.free))
  {
    hide Walk, Tree, Edited, Child;
    assert Node(target, 4);
    EditMoves(m, m', r, target, e);
    TreeWithoutFrame(m, m', r, g.free, target, f);
    assert Owned(m, r, f);
    forall x: Frame ensures Owned(m', r, x) <==> Owned(m, r, x) && x != f {
      OwnedAfter(m, m', r, target, x);
      OwnedOnce(m, r, g.free, target, x);
    }
  }

  /** A frame reached by a lower-half path is reached by no other. */
  lemma OwnedOnce(m: Mem, r: Frame, free: seq<Frame>, target: Path, x: Frame)
    requires Tree(m, r, free, 4) && Lower(target) && target.Sub?
    ensures Walk(m, r, target) == Some(x) ==>
      forall p {:trigger Walk(m, r, p)} :: Lower(p) && p.Sub? && Walk(m, r, p) == Some(x) ==> p == target
  {
    hide Walk;
  }

  /** Rewriting an entry without moving its frame changes no walk. */
  lemma RewriteKeepsTree(m: Mem, m': Mem, r: Frame, g: Ledger, target: Path, e: Word)
    requires Edited(m, m', r, target, e) && Lower(target) && target.Sub?
    requires Tree(m, r, g.free, 4) && Partition(m, r, g)
    requires Child(e, Depth(target)) == Walk(m, r, target)
    ensures Tree(m', r, g.free, 4) && Partition(m', r, g)
  {
    forall q | Valid(q) ensures Walk(m', r, q) == Walk(m, r, q) {
      EditedWalk(m, m', r, target, e, q);
    }
    SameWalksKeepTree(m, m', r, g);
  }

  lemma SameWalksKeepTree(m: Mem, m': Mem, r: Frame, g: Ledger)
    requires |m'| == |m|
    requires forall q {:trigger Walk(m', r, q)} {:trigger Walk(m, r, q)} :: Valid(q) ==> Walk(m', r, q) == Walk(m, r, q)
    requires Tree(m, r, g.free, 4) && Partition(m, r, g)
    ensures Tree(m', r, g.free, 4) && Partition(m', r, g)
  {
    forall x: Frame ensures Owned(m', r, x) <==> Owned(m, r, x) {
      if p :| Lower(p) && p.Sub? && Walk(m, r, p) == Some(x) {
        assert Walk(m', r, p) == Some(x);
      }
    }
  }

  // ---- whole steps ----

  /** The contents of every mapped lower-half page, except the one at `target`, are unchanged. */
  ghost predicate KeepsPages(m: Mem, m': Mem, r: Frame, target: Path) {
    forall q {:trigger Walk(m, r, q)} :: Lower(q) && Depth(q) == 4 && q != target && Walk(m, r, q).Some? ==>
      SamePage(m, m', Walk(m, r, q).value)
  }

  /** Every page entry except the one at `target`, and every upper-half entry, is unchanged. */
  ghost predicate KeepsEntries(m: Mem, m': Mem, r: Frame, target: Path) {
    forall q {:trigger Entry(m', r, q)} {:trigger Entry(m, r, q)} ::
        Valid(q) && q.Sub? && (Depth(q) == 4 || Upper(q)) && q != target ==> Entry(m', r, q) == Entry(m, r, q)
  }

  /** One page or table installed from the head of the freelist. */
  lemma InstallStep(s: Phys, r: Frame, g: Ledger, p: Path, i: nat, e: Word)
    requires Inv(s, r, g) && g.free != []
    requires Lower(Sub(p, i)) && Walk(s.mem, r, p).Some? && Walk(s.mem, r, Sub(p, i)).None?
    requires e.present && e.address == g.free[0]
    requires 1 <= Depth(p) <= 2 ==> !e.pageSize
    requires Depth(p) < 3 ==> e.user && e.writable && !e.noExecute
    ensures
      var m' := Installed(s.mem, g.free[0], Walk(s.mem, r, p).value, i, e);
      && Inv(Phys(m', Alloc(s).0.top), r, g.(free := g.free[1..]))
      && Edited(s.mem, m', r, Sub(p, i), e)
  {
    var t, f, target := Walk(s.mem, r, p).value, g.free[0], Sub(p, i);
    AllocPops(s, g.free);
    var m' := Installed(s.mem, f, t, i, e);
    InstallEdits(s.mem, r, g.free, p, i, e);
    InstallKeepsTree(s.mem, m', r, g, target, e);
    PermissiveEdit(s.mem, m', r, target, e);
    assert Chain(Phys(m', Alloc(s).0.top), g.free[1..]) by {
      assert Node(p, 4);
      AtInstalled(s.mem, f, t, i, e);
      ChainFrame(Alloc(s).0, m', g.free[1..]);
    }
  }

  /** The pages mapped before an installation keep their contents; the new frame is clear. */
  lemma InstallKeepsPages(m: Mem, r: Frame, free: seq<Frame>, p: Path, i: nat, e: Word)
    requires Tree(m, r, free, 4) && free != []
    requires Lower(Sub(p, i)) && Walk(m, r, p).Some? && Walk(m, r, Sub(p, i)).None?
    requires free[0] < |m|
    ensures
      var m' := Installed(m, free[0], Walk(m, r, p).value, i, e);
      && KeepsPages(m, m', r, Sub(p, i))
      && IsClear(m', free[0])
      && At(m', Walk(m, r, p).value, i) == e
  {
    assert Node(p, 4);
    AtInstalled(m, free[0], Walk(m, r, p).value, i, e);
    forall q | Lower(q) && Depth(q) == 4 && q != Sub(p, i) && Walk(m, r, q).Some?
      ensures SamePage(m, Installed(m, free[0], Walk(m, r, p).value, i, e), Walk(m, r, q).value)
    {
      assert Node(q, 4);
    }
  }
}
