/** `unmap_lower_half`: the three nested loops that give back every lower-half
    page table while the freelist is being written into those same tables. */
module UnmapLowerHalf {
  import opened Words
  import opened Memory
  import opened PageTree
  import opened TreeEdits

  // ---- the loops, each over the first n entries of a table, reading memory as it is then ----

  function FreeL1s(s: Phys, t2: Frame, n: nat): Phys {
    if n == 0 then s else VisitL2(FreeL1s(s, t2, n - 1), t2, n - 1)
  }

  /** Entry i of a level-2 table. */
  function VisitL2(s: Phys, t2: Frame, i: nat): Phys {
    var e := At(s.mem, t2, i);
    if e.present && !e.pageSize then Free(s, e.address) else s
  }

  function FreeL2s(s: Phys, t3: Frame, n: nat): Phys {
    if n == 0 then s else VisitL3(FreeL2s(s, t3, n - 1), t3, n - 1)
  }

  /** Entry i of a level-3 table. */
  function VisitL3(s: Phys, t3: Frame, i: nat): Phys {
    var e := At(s.mem, t3, i);
    if e.present && !e.pageSize then
      var s1 := FreeL1s(s, e.address, ENTRIES);
      Free(s1, At(s1.mem, t3, i).address)
    else s
  }

  function FreeL3s(s: Phys, r: Frame, n: nat): Phys {
    if n == 0 then s else VisitL4(FreeL3s(s, r, n - 1), r, n - 1)
  }

  /** Entry i of the level-4 table. */
  function VisitL4(s: Phys, r: Frame, i: nat): Phys {
    var e := At(s.mem, r, i);
    if e.present then
      var s1 := s.(mem := Put(s.mem, r, i, e.(present := false)));
      var s2 := FreeL2s(s1, At(s1.mem, r, i).address, ENTRIES);
      Free(s2, At(s2.mem, r, i).address)
    else s
  }

  function UnmapLower(s: Phys, r: Frame): Phys { FreeL3s(s, r, 256) }

  // ---- the freelist they should leave, read off the memory as it was at the start ----

  function Pushed1(m: Mem, t2: Frame, n: nat, free: seq<Frame>): seq<Frame> {
    if n == 0 then free
    else
      var e, rest := At(m, t2, n - 1), Pushed1(m, t2, n - 1, free);
      if e.present && !e.pageSize then [e.address] + rest else rest
  }

  function Pushed2(m: Mem, t3: Frame, n: nat, free: seq<Frame>): seq<Frame> {
    if n == 0 then free
    else
      var e, rest := At(m, t3, n - 1), Pushed2(m, t3, n - 1, free);
      if e.present && !e.pageSize then [e.address] + Pushed1(m, e.address, ENTRIES, rest) else rest
  }

  function Pushed3(m: Mem, r: Frame, n: nat, free: seq<Frame>): seq<Frame> {
    if n == 0 then free
    else
      var e, rest := At(m, r, n - 1), Pushed3(m, r, n - 1, free);
      if e.present then [e.address] + Pushed2(m, e.address, ENTRIES, rest) else rest
  }

  // ---- the paths those lists stand for ----

  /** q lies below one of the first n children of p, or is one. */
  predicate Under(q: Path, p: Path, n: nat) {
    q.Sub? && ((q.parent == p && q.index < n) || Under(q.parent, p, n))
  }

  lemma {:induction false} UnderIsDeeper(q: Path, p: Path, n: nat)
    requires Under(q, p, n)
    ensures Depth(q) > Depth(p)
  {
    if !(q.parent == p && q.index < n) {
      UnderIsDeeper(q.parent, p, n);
    }
  }

  /** The paths under the first n children and those within the next one are apart. */
  lemma {:induction false} UnderIsApart(q: Path, p: Path, n: nat)
    requires Under(q, p, n)
    ensures q != p && !Within(q, Sub(p, n))
  {
    UnderIsDeeper(q, p, n);
    if q == Sub(p, n) {
      UnderIsDeeper(p, p, n);
    } else if Within(q.parent, Sub(p, n)) {
      WithinDepth(q.parent, Sub(p, n));
      UnderIsApart(q.parent, p, n);
    }
  }

  lemma {:induction false} WithinChild(q: Path, p: Path, i: nat)
    requires Within(q, Sub(p, i))
    ensures Within(q, p)
  {
    if q != Sub(p, i) {
      WithinChild(q.parent, p, i);
    }
  }

  lemma {:induction false} UnderStep(q: Path, p: Path, n: nat)
    requires Valid(q)
    ensures Under(q, p, n + 1) <==> Under(q, p, n) || q == Sub(p, n) || Under(q, Sub(p, n), ENTRIES)
  {
    if q.Sub? {
      UnderStep(q.parent, p, n);
    }
  }

  lemma {:induction false} UnderRoot(q: Path)
    requires Valid(q)
    ensures Under(q, Root, 256) <==> Lower(q) && q.Sub?
  {
    if q.Sub? {
      UnderRoot(q.parent);
    }
  }

  /** Frame x is a table below one of the first n children of p, or is such a child. */
  ghost predicate Reach(m: Mem, r: Frame, p: Path, n: nat, x: Frame) {
    exists q {:trigger Walk(m, r, q)} :: Valid(q) && Depth(q) <= 3 && Under(q, p, n) && Walk(m, r, q) == Some(x)
  }

  lemma {:induction false} WalkAbove(m: Mem, r: Frame, q: Path, p: Path, n: nat)
    requires Under(q, p, n) && Walk(m, r, q).Some?
    ensures Walk(m, r, p).Some?
  {
    if !(q.parent == p && q.index < n) {
      WalkAbove(m, r, q.parent, p, n);
    }
  }

  lemma ReachStep(m: Mem, r: Frame, p: Path, n: nat, x: Frame)
    requires Valid(Sub(p, n)) && Depth(p) < 3
    ensures Reach(m, r, p, n + 1, x) <==>
      Reach(m, r, p, n, x) || Walk(m, r, Sub(p, n)) == Some(x) || (Walk(m, r, Sub(p, n)).Some? &&
          Reach(m, r, Sub(p, n), ENTRIES, x))
  {
    if q :| Valid(q) && Depth(q) <= 3 && Under(q, p, n + 1) && Walk(m, r, q) == Some(x) {
      UnderStep(q, p, n);
      if Under(q, Sub(p, n), ENTRIES) {
        WalkAbove(m, r, q, Sub(p, n), ENTRIES);
      }
    }
    if q :| Valid(q) && Depth(q) <= 3 && (Under(q, p, n) || Under(q, Sub(p, n), ENTRIES)) && Walk(m, r, q) == Some(x) {
      UnderStep(q, p, n);
    }
    if Walk(m, r, Sub(p, n)) == Some(x) {
      UnderStep(Sub(p, n), p, n);
    }
  }

  lemma ReachNothing(m: Mem, r: Frame, p: Path, n: nat, x: Frame)
    requires n == 0 || Depth(p) == 3
    ensures !Reach(m, r, p, n, x)
  {
    if q :| Valid(q) && Depth(q) <= 3 && Under(q, p, n) && Walk(m, r, q) == Some(x) {
      UnderIsDeeper(q, p, n);
      UnderNone(q, p, n);
    }
  }

  lemma {:induction false} UnderNone(q: Path, p: Path, n: nat)
    ensures n == 0 ==> !Under(q, p, n)
  {
    if q.Sub? {
      UnderNone(q.parent, p, n);
    }
  }

  lemma {:induction false} UnderIsLower(q: Path, p: Path, n: nat)
    requires Under(q, p, n) && Lower(p) && Valid(q) && (p.Root? ==> n <= 256)
    ensures Lower(q)
  {
    if q.parent == p && q.index < n {
    } else {
      UnderIsLower(q.parent, p, n);
    }
  }

  lemma {:induction false} Pushed1Members(m: Mem, r: Frame, p: Path, t: Frame, n: nat, free: seq<Frame>, x: Frame)
    requires Valid(p) && Depth(p) == 2 && Walk(m, r, p) == Some(t) && n <= ENTRIES
    ensures x in Pushed1(m, t, n, free) <==> x in free || Reach(m, r, p, n, x)
    decreases n
  {
    if n == 0 {
      ReachNothing(m, r, p, 0, x);
    } else {
      hide Reach;
      Pushed1Members(m, r, p, t, n - 1, free, x);
      ReachStep(m, r, p, n - 1, x);
      ReachNothing(m, r, Sub(p, n - 1), ENTRIES, x);
      assert Walk(m, r, Sub(p, n - 1)) == Child(At(m, t, n - 1), 3);
    }
  }

  lemma {:induction false} Pushed2Members(m: Mem, r: Frame, p: Path, t: Frame, n: nat, free: seq<Frame>, x: Frame)
    requires Valid(p) && Depth(p) == 1 && Walk(m, r, p) == Some(t) && n <= ENTRIES
    ensures x in Pushed2(m, t, n, free) <==> x in free || Reach(m, r, p, n, x)
    decreases n
  {
    if n == 0 {
      ReachNothing(m, r, p, 0, x);
    } else {
      hide Reach, Pushed1, Under;
      var c, rest := Sub(p, n - 1), Pushed2(m, t, n - 1, free);
      assert Walk(m, r, c) == Child(At(m, t, n - 1), 2);
      hide Walk, At;
      Pushed2Members(m, r, p, t, n - 1, free, x);
      ReachStep(m, r, p, n - 1, x);
      if Walk(m, r, c).Some? {
        Pushed1Members(m, r, c, Walk(m, r, c).value, ENTRIES, rest, x);
      }
    }
  }

  lemma {:induction false} Pushed3Members(m: Mem, r: Frame, n: nat, free: seq<Frame>, x: Frame)
    requires n <= 256
    ensures x in Pushed3(m, r, n, free) <==> x in free || Reach(m, r, Root, n, x)
    decreases n
  {
    if n == 0 {
      ReachNothing(m, r, Root, 0, x);
    } else {
      var c, rest := Sub(Root, n - 1), Pushed3(m, r, n - 1, free);
      hide Reach;
      Pushed3Members(m, r, n - 1, free, x);
      ReachStep(m, r, Root, n - 1, x);
      assert Walk(m, r, Root) == Some(r);
      assert Walk(m, r, c) == Child(At(m, r, n - 1), 1);
      if Walk(m, r, c).Some? {
        Pushed2Members(m, r, c, Walk(m, r, c).value, ENTRIES, rest, x);
      }
    }
  }

  // ---- the loops do just that ----

  /** The cell (f, i) once the first k root entries have been marked absent. */
  function Marked(m0: Mem, r: Frame, k: nat, f: nat, i: nat): Word {
    if f == r && i < k then At(m0, f, i).(present := false) else At(m0, f, i)
  }

  /** In the middle of the loops: `free` is on the freelist, and apart from the links in its
      first cells memory is the initial one with k root entries marked absent. */
  ghost predicate Mid(s: Phys, m0: Mem, r: Frame, k: nat, free: seq<Frame>) {
    && Chain(s, free)
    && |s.mem| == |m0|
    && (forall f: nat, i: nat {:trigger At(s.mem, f, i)} ::
          i < ENTRIES && !(i == 0 && f in free) ==> At(s.mem, f, i) == Marked(m0, r, k, f, i))
  }

  /** Neither the table at p nor any table below it has been freed yet. */
  ghost predicate Standing(m0: Mem, r: Frame, p: Path, free: seq<Frame>) {
    forall q {:trigger Walk(m0, r, q)} :: Lower(q) && Depth(q) <= 3 && Within(q, p) && Walk(m0, r, q).Some? ==>
        Walk(m0, r, q).value !in free
  }

  /** What is read halfway from a table that has not been freed. */
  lemma MidReads(s: Phys, m0: Mem, r: Frame, k: nat, free: seq<Frame>, t: Frame, i: nat)
    requires Mid(s, m0, r, k, free) && t !in free && i < ENTRIES
    ensures Chain(s, free) && |s.mem| == |m0|
    ensures At(s.mem, t, i).address == At(m0, t, i).address
    ensures t != r || i >= k ==> At(s.mem, t, i) == At(m0, t, i)
  {
  }

  lemma StandsItself(m0: Mem, r: Frame, free0: seq<Frame>, c: Path, f: Frame, free: seq<Frame>)
    requires Tree(m0, r, free0, 3) && Lower(c) && Depth(c) <= 3 && Walk(m0, r, c) == Some(f)
    requires Standing(m0, r, c, free)
    ensures f !in free && 0 < f < |m0|
  {
    hide Walk;
    assert Within(c, c) && Node(c, 3);
  }

  lemma PushMid(s: Phys, m0: Mem, r: Frame, k: nat, free: seq<Frame>, f: Frame)
    requires Mid(s, m0, r, k, free) && 0 < f < |m0| && f !in free
    ensures Mid(Free(s, f), m0, r, k, [f] + free)
  {
    FreePushes(s, free, f);
    AtPut(s.mem, f, 0, Link(Head(free)));
  }

  /** Freeing everything under earlier children leaves the table and its next child standing. */
  lemma NextStanding(m0: Mem, r: Frame, free0: seq<Frame>, p: Path, t: Frame, n: nat, free: seq<Frame>,
                     free1: seq<Frame>)
    requires Tree(m0, r, free0, 3) && Lower(p) && Depth(p) < 3 && Walk(m0, r, p) == Some(t) && Lower(Sub(p, n))
    requires Standing(m0, r, p, free)
    requires forall x: Frame :: x in free1 ==> x in free || Reach(m0, r, p, n, x)
    ensures t !in free1 && Standing(m0, r, Sub(p, n), free1)
  {
    forall q | Lower(q) && Depth(q) <= 3 && (q == p || Within(q, Sub(p, n))) && Walk(m0, r, q).Some?
      ensures Walk(m0, r, q).value !in free1
    {
      if Within(q, Sub(p, n)) {
        WithinChild(q, p, n);
      }
      var x := Walk(m0, r, q).value;
      if Reach(m0, r, p, n, x) {
        var q' :| Valid(q') && Depth(q') <= 3 && Under(q', p, n) && Walk(m0, r, q') == Some(x);
        UnderIsLower(q', p, n);
        UnderIsApart(q', p, n);
        assert false;
      }
    }
  }

  lemma Standing1(m0: Mem, r: Frame, free0: seq<Frame>, p: Path, t: Frame, n: nat, free: seq<Frame>)
    requires Tree(m0, r, free0, 3) && Lower(p) && Depth(p) == 2 && Walk(m0, r, p) == Some(t) && n < ENTRIES
    requires Standing(m0, r, p, free)
    ensures t !in Pushed1(m0, t, n, free) && Standing(m0, r, Sub(p, n), Pushed1(m0, t, n, free))
  {
    forall x: Frame ensures x in Pushed1(m0, t, n, free) ==> x in free || Reach(m0, r, p, n, x) {
      Pushed1Members(m0, r, p, t, n, free, x);
    }
    NextStanding(m0, r, free0, p, t, n, free, Pushed1(m0, t, n, free));
  }

  lemma Standing2(m0: Mem, r: Frame, free0: seq<Frame>, p: Path, t: Frame, n: nat, free: seq<Frame>)
    requires Tree(m0, r, free0, 3) && Lower(p) && Depth(p) == 1 && Walk(m0, r, p) == Some(t) && n < ENTRIES
    requires Standing(m0, r, p, free)
    ensures t !in Pushed2(m0, t, n, free) && Standing(m0, r, Sub(p, n), Pushed2(m0, t, n, free))
  {
    forall x: Frame ensures x in Pushed2(m0, t, n, free) ==> x in free || Reach(m0, r, p, n, x) {
      Pushed2Members(m0, r, p, t, n, free, x);
    }
    NextStanding(m0, r, free0, p, t, n, free, Pushed2(m0, t, n, free));
  }

  lemma Standing3(m0: Mem, r: Frame, free: seq<Frame>, n: nat)
    requires Tree(m0, r, free, 3) && n < 256
    ensures r !in Pushed3(m0, r, n, free) && Standing(m0, r, Sub(Root, n), Pushed3(m0, r, n, free))
  {
    assert Walk(m0, r, Root) == Some(r);
    forall x: Frame ensures x in Pushed3(m0, r, n, free) ==> x in free || Reach(m0, r, Root, n, x) {
      Pushed3Members(m0, r, n, free, x);
    }
    NextStanding(m0, r, free, Root, r, n, free, Pushed3(m0, r, n, free));
  }

  /** A table is not given back with the tables below one of its descendants. */
  lemma StillThere(m0: Mem, r: Frame, free0: seq<Frame>, p: Path, t: Frame, c: Path, u: Frame, free: seq<Frame>)
    requires Tree(m0, r, free0, 3) && Lower(p) && Lower(c) && Depth(p) <= Depth(c)
    requires Walk(m0, r, p) == Some(t) && t !in free && Walk(m0, r, c) == Some(u)
    ensures Depth(c) == 2 ==> t !in Pushed1(m0, u, ENTRIES, free)
    ensures Depth(c) == 1 ==> t !in Pushed2(m0, u, ENTRIES, free)
  {
    if Depth(c) == 2 {
      Pushed1Members(m0, r, c, u, ENTRIES, free, t);
    } else if Depth(c) == 1 {
      Pushed2Members(m0, r, c, u, ENTRIES, free, t);
    }
    forall q | Valid(q) && Depth(q) <= 3 && Under(q, c, ENTRIES) && Depth(c) >= 1 ensures Walk(m0, r, q) != Some(t) {
      UnderIsLower(q, c, ENTRIES);
      UnderIsDeeper(q, c, ENTRIES);
    }
  }

  lemma {:induction false} FreeL1sSpec(s: Phys, m0: Mem, r: Frame, free0: seq<Frame>, k: nat, free: seq<Frame>,
      p: Path, t: Frame, n: nat)
    requires Tree(m0, r, free0, 3) && Lower(p) && Depth(p) == 2 && Walk(m0, r, p) == Some(t) && n <= ENTRIES
    requires Mid(s, m0, r, k, free) && Standing(m0, r, p, free)
    ensures Mid(FreeL1s(s, t, n), m0, r, k, Pushed1(m0, t, n, free))
    decreases n
  {
    hide Mid, Tree, Standing, VisitL2, Walk, At;
    if n > 0 {
      FreeL1sSpec(s, m0, r, free0, k, free, p, t, n - 1);
      VisitL2Next(FreeL1s(s, t, n - 1), m0, r, free0, k, free, p, t, n);
    }
  }

  lemma VisitL2Next(s: Phys, m0: Mem, r: Frame, free0: seq<Frame>, k: nat, free: seq<Frame>, p: Path, t: Frame, n: nat)
    requires Tree(m0, r, free0, 3) && Lower(p) && Depth(p) == 2 && Walk(m0, r, p) == Some(t) && 0 < n <= ENTRIES
    requires Mid(s, m0, r, k, Pushed1(m0, t, n - 1, free)) && Standing(m0, r, p, free)
    ensures Mid(VisitL2(s, t, n - 1), m0, r, k, Pushed1(m0, t, n, free))
  {
    hide Mid, Tree, Standing, VisitL2, Walk, At;
    Standing1(m0, r, free0, p, t, n - 1, free);
    VisitL2Spec(s, m0, r, free0, k, Pushed1(m0, t, n - 1, free), p, t, n - 1);
  }

  lemma VisitL2Spec(s: Phys, m0: Mem, r: Frame, free0: seq<Frame>, k: nat, free: seq<Frame>, p: Path, t: Frame, i: nat)
    requires Tree(m0, r, free0, 3) && Lower(p) && Depth(p) == 2 && Walk(m0, r, p) == Some(t) && i < ENTRIES
    requires Mid(s, m0, r, k, free) && t !in free && Standing(m0, r, Sub(p, i), free)
    ensures var e := At(m0, t, i);
      Mid(VisitL2(s, t, i), m0, r, k, if e.present && !e.pageSize then [e.address] + free else free)
  {
    var e := At(s.mem, t, i);
    assert Walk(m0, r, Root) == Some(r);
    assert e == At(m0, t, i);
    if e.present && !e.pageSize {
      assert Walk(m0, r, Sub(p, i)) == Some(e.address);
      PushMid(s, m0, r, k, free, e.address);
    }
  }

  lemma {:induction false} FreeL2sSpec(s: Phys, m0: Mem, r: Frame, free0: seq<Frame>, k: nat, free: seq<Frame>,
      p: Path, t: Frame, n: nat)
    requires Tree(m0, r, free0, 3) && Lower(p) && Depth(p) == 1 && Walk(m0, r, p) == Some(t) && n <= ENTRIES
    requires Mid(s, m0, r, k, free) && Standing(m0, r, p, free)
    ensures Mid(FreeL2s(s, t, n), m0, r, k, Pushed2(m0, t, n, free))
    decreases n
  {
    hide Mid, Tree, Standing, VisitL3, Walk, At, Pushed1;
    if n > 0 {
      FreeL2sSpec(s, m0, r, free0, k, free, p, t, n - 1);
      VisitL3Next(FreeL2s(s, t, n - 1), m0, r, free0, k, free, p, t, n);
    }
  }

  lemma VisitL3Next(s: Phys, m0: Mem, r: Frame, free0: seq<Frame>, k: nat, free: seq<Frame>, p: Path, t: Frame, n: nat)
    requires Tree(m0, r, free0, 3) && Lower(p) && Depth(p) == 1 && Walk(m0, r, p) == Some(t) && 0 < n <= ENTRIES
    requires Mid(s, m0, r, k, Pushed2(m0, t, n - 1, free)) && Standing(m0, r, p, free)
    ensures Mid(VisitL3(s, t, n - 1), m0, r, k, Pushed2(m0, t, n, free))
  {
    hide Mid, Tree, Standing, VisitL3, Walk, At, Pushed1;
    Standing2(m0, r, free0, p, t, n - 1, free);
    VisitL3Spec(s, m0, r, free0, k, Pushed2(m0, t, n - 1, free), p, t, n - 1);
  }

  lemma VisitL3Spec(s: Phys, m0: Mem, r: Frame, free0: seq<Frame>, k: nat, free: seq<Frame>, p: Path, t: Frame, i: nat)
    requires Tree(m0, r, free0, 3) && Lower(p) && Depth(p) == 1 && Walk(m0, r, p) == Some(t) && i < ENTRIES
    requires Mid(s, m0, r, k, free) && t !in free && Standing(m0, r, Sub(p, i), free)
    ensures var e := At(m0, t, i);
      Mid(VisitL3(s, t, i), m0, r, k,
          if e.present && !e.pageSize then [e.address] + Pushed1(m0, e.address, ENTRIES, free) else free)
  {
    var e, c := At(s.mem, t, i), Sub(p, i);
    assert Walk(m0, r, Root) == Some(r);
    assert e == At(m0, t, i);
    if e.present && !e.pageSize {
      assert Walk(m0, r, c) == Some(e.address);
      FreeL1sSpec(s, m0, r, free0, k, free, c, e.address, ENTRIES);
      StandsItself(m0, r, free0, c, e.address, free);
      StillThere(m0, r, free0, p, t, c, e.address, free);
      StillThere(m0, r, free0, c, e.address, c, e.address, free);
      var s1, free1 := FreeL1s(s, e.address, ENTRIES), Pushed1(m0, e.address, ENTRIES, free);
      assert At(s1.mem, t, i) == e;
      PushMid(s1, m0, r, k, free1, e.address);
    }
  }

  lemma {:induction false} FreeL3sSpec(s: Phys, r: Frame, free: seq<Frame>, n: nat)
    requires Tree(s.mem, r, free, 3) && Chain(s, free) && n <= 256
    ensures Mid(FreeL3s(s, r, n), s.mem, r, n, Pushed3(s.mem, r, n, free))
    decreases n
  {
    if n > 0 {
      hide Mid, Tree, VisitL4, Walk, At, Pushed2;
      FreeL3sSpec(s, r, free, n - 1);
      Standing3(s.mem, r, free, n - 1);
      VisitL4Spec(FreeL3s(s, r, n - 1), s.mem, r, free, Pushed3(s.mem, r, n - 1, free), n - 1);
    }
  }

  lemma VisitL4Spec(s: Phys, m0: Mem, r: Frame, free0: seq<Frame>, free: seq<Frame>, i: nat)
    requires Tree(m0, r, free0, 3) && i < 256
    requires Mid(s, m0, r, i, free) && r !in free && Standing(m0, r, Sub(Root, i), free)
    ensures var e := At(m0, r, i);
      Mid(VisitL4(s, r, i), m0, r, i + 1,
          if e.present then [e.address] + Pushed2(m0, e.address, ENTRIES, free) else free)
  {
    var e, c := At(s.mem, r, i), Sub(Root, i);
    assert Walk(m0, r, Root) == Some(r);
    assert e == At(m0, r, i);
    RootChild(m0, r, i);
    if e.present {
      var e' := e.(present := false);
      var s1 := s.(mem := Put(s.mem, r, i, e'));
      MarkMid(s, m0, r, i, free);
      FreeL2sSpec(s1, m0, r, free0, i + 1, free, c, e.address, ENTRIES);
      L3StillThere(m0, r, free0, i, e.address, free);
      var s2, free2 := FreeL2s(s1, e.address, ENTRIES), Pushed2(m0, e.address, ENTRIES, free);
      assert At(s1.mem, r, i) == e' && At(s2.mem, r, i) == e' by { AtPut(s.mem, r, i, e'); }
      PushMid(s2, m0, r, i + 1, free2, e.address);
    } else {
      MarkNothing(s, m0, r, i, free);
    }
  }

  lemma RootChild(m0: Mem, r: Frame, i: nat)
    requires i < 256
    ensures Lower(Sub(Root, i)) && Depth(Sub(Root, i)) == 1
    ensures At(m0, r, i).present ==> Walk(m0, r, Sub(Root, i)) == Some(At(m0, r, i).address)
  {
    assert Walk(m0, r, Root) == Some(r) && Depth(Root) == 0;
  }

  lemma RootInMemory(m0: Mem, r: Frame, free0: seq<Frame>)
    requires Tree(m0, r, free0, 3)
    ensures 0 < r < |m0|
  {
    assert Walk(m0, r, Root) == Some(r) && Node(Root, 3);
  }

  /** When the level-1 tables below a level-2 table have been freed, it and the level-3 table t still stand. */
  lemma L2StillThere(m0: Mem, r: Frame, free0: seq<Frame>, p: Path, t: Frame, i: nat, free: seq<Frame>)
    requires Tree(m0, r, free0, 3) && Lower(p) && Depth(p) == 1 && Walk(m0, r, p) == Some(t) && i < ENTRIES
    requires t !in free && Standing(m0, r, Sub(p, i), free)
    ensures t != r && t < |m0| && Lower(Sub(p, i)) && Depth(Sub(p, i)) == 2
    ensures var e := At(m0, t, i);
      e.present && !e.pageSize ==>
        && Walk(m0, r, Sub(p, i)) == Some(e.address) && 0 < e.address < |m0|
        && t !in Pushed1(m0, e.address, ENTRIES, free) && e.address !in Pushed1(m0, e.address, ENTRIES, free)
  {
    var e, c := At(m0, t, i), Sub(p, i);
    assert Node(p, 3) && Lower(c) && Walk(m0, r, Root) == Some(r);
    if e.present && !e.pageSize {
      assert Walk(m0, r, c) == Some(e.address);
      StandsItself(m0, r, free0, c, e.address, free);
      StillThere(m0, r, free0, p, t, c, e.address, free);
      StillThere(m0, r, free0, c, e.address, c, e.address, free);
    }
  }

  /** When the tables below a level-3 table have been freed, it and the root still stand. */
  lemma L3StillThere(m0: Mem, r: Frame, free0: seq<Frame>, i: nat, f: Frame, free: seq<Frame>)
    requires Tree(m0, r, free0, 3) && i < 256 && Walk(m0, r, Sub(Root, i)) == Some(f)
    requires r !in free && Standing(m0, r, Sub(Root, i), free)
    ensures 0 < f < |m0| && r < |m0|
    ensures f !in Pushed2(m0, f, ENTRIES, free) && r !in Pushed2(m0, f, ENTRIES, free)
  {
    var c := Sub(Root, i);
    RootChild(m0, r, i);
    assert Walk(m0, r, Root) == Some(r) && Lower(Root) && Node(Root, 3);
    StandsItself(m0, r, free0, c, f, free);
    StillThere(m0, r, free0, Root, r, c, f, free);
    StillThere(m0, r, free0, c, f, c, f, free);
  }

  lemma MarkMid(s: Phys, m0: Mem, r: Frame, k: nat, free: seq<Frame>)
    requires Mid(s, m0, r, k, free) && r !in free && r < |m0| && k < ENTRIES
    ensures Mid(s.(mem := Put(s.mem, r, k, At(s.mem, r, k).(present := false))), m0, r, k + 1, free)
  {
    var e := At(s.mem, r, k).(present := false);
    AtPut(s.mem, r, k, e);
    ChainFrame(s, Put(s.mem, r, k, e), free);
  }

  lemma MarkNothing(s: Phys, m0: Mem, r: Frame, k: nat, free: seq<Frame>)
    requires Mid(s, m0, r, k, free) && r !in free && !At(m0, r, k).present
    ensures Mid(s, m0, r, k + 1, free)
  {
    assert At(m0, r, k).(present := false) == At(m0, r, k);
  }

  // ---- the whole call ----

  /** Frame f holds a lower-half table below the root. */
  ghost predicate IsTable(m: Mem, r: Frame, f: Frame) {
    exists q {:trigger Walk(m, r, q)} :: Lower(q) && 1 <= Depth(q) <= 3 && Walk(m, r, q) == Some(f)
  }

  /** Frame f holds a lower-half page. */
  ghost predicate IsPage(m: Mem, r: Frame, f: Frame) {
    exists q {:trigger Walk(m, r, q)} :: Lower(q) && Depth(q) == 4 && Walk(m, r, q) == Some(f)
  }

  lemma ReachIsTable(m: Mem, r: Frame, x: Frame)
    ensures Reach(m, r, Root, 256, x) <==> IsTable(m, r, x)
  {
    forall q | Valid(q) ensures Under(q, Root, 256) <==> Lower(q) && q.Sub? {
      UnderRoot(q);
    }
  }

  predicate EndsWith(a: seq<Frame>, b: seq<Frame>) { |a| >= |b| && a[|a| - |b|..] == b }

  lemma EndsWithCons(x: Frame, a: seq<Frame>, b: seq<Frame>, c: seq<Frame>)
    requires EndsWith(a, b) && EndsWith(b, c)
    ensures EndsWith([x] + a, c) && EndsWith(a, c)
  {
    assert a == a[..|a| - |b|] + b && b == b[..|b| - |c|] + c;
  }

  lemma {:induction false} Pushed1Suffix(m: Mem, t2: Frame, n: nat, free: seq<Frame>)
    ensures EndsWith(Pushed1(m, t2, n, free), free)
    decreases n
  {
    if n > 0 {
      Pushed1Suffix(m, t2, n - 1, free);
      var rest := Pushed1(m, t2, n - 1, free);
      EndsWithCons(At(m, t2, n - 1).address, rest, rest, free);
    }
  }

  lemma {:induction false} Pushed2Suffix(m: Mem, t3: Frame, n: nat, free: seq<Frame>)
    ensures EndsWith(Pushed2(m, t3, n, free), free)
    decreases n
  {
    if n > 0 {
      var e, rest := At(m, t3, n - 1), Pushed2(m, t3, n - 1, free);
      Pushed2Suffix(m, t3, n - 1, free);
      Pushed1Suffix(m, e.address, ENTRIES, rest);
      EndsWithCons(e.address, Pushed1(m, e.address, ENTRIES, rest), rest, free);
    }
  }

  lemma {:induction false} Pushed3Suffix(m: Mem, r: Frame, n: nat, free: seq<Frame>)
    ensures EndsWith(Pushed3(m, r, n, free), free)
    decreases n
  {
    if n > 0 {
      var e, rest := At(m, r, n - 1), Pushed3(m, r, n - 1, free);
      Pushed3Suffix(m, r, n - 1, free);
      Pushed2Suffix(m, e.address, ENTRIES, rest);
      EndsWithCons(e.address, Pushed2(m, e.address, ENTRIES, rest), rest, free);
    }
  }

  /** The freelist afterwards is the freelist before with the table frames pushed on it, each once. */
  lemma FreedAreTheTables(s: Phys, r: Frame, free: seq<Frame>)
    requires Chain(s, free) && Tree(s.mem, r, free, 3)
    ensures
      var free' := Pushed3(s.mem, r, 256, free);
      && EndsWith(free', free)
      && var freed := free'[..|free'| - |free|];
      && (forall x: Frame :: x in freed <==> IsTable(s.mem, r, x))
      && (forall i, j :: 0 <= i < j < |freed| ==> freed[i] != freed[j])
  {
    var free' := Pushed3(s.mem, r, 256, free);
    FreeL3sSpec(s, r, free, 256);
    Pushed3Suffix(s.mem, r, 256, free);
    var freed := free'[..|free'| - |free|];
    forall i, j | 0 <= i < j < |freed| ensures freed[i] != freed[j] {
      ChainHasNoDuplicates(UnmapLower(s, r), free', i, j);
    }
    forall x: Frame ensures x in freed <==> IsTable(s.mem, r, x) {
      FreedIsTable(s, r, free, free', x);
    }
  }

  lemma FreedIsTable(s: Phys, r: Frame, free: seq<Frame>, free': seq<Frame>, x: Frame)
    requires Tree(s.mem, r, free, 3)
    requires free' == Pushed3(s.mem, r, 256, free) && EndsWith(free', free) && Chain(UnmapLower(s, r), free')
    ensures x in free'[..|free'| - |free|] <==> IsTable(s.mem, r, x)
  {
    var n := |free'| - |free|;
    Pushed3Members(s.mem, r, 256, free, x);
    ReachIsTable(s.mem, r, x);
    TableIsNotFree(s.mem, r, free, x);
    hide Tree, IsTable, Reach, Pushed3, UnmapLower, Chain;
    assert free' == free'[..n] + free && free'[n..] == free;
    PartsAreApart(UnmapLower(s, r), free', n, x);
  }

  lemma TableIsNotFree(m: Mem, r: Frame, free: seq<Frame>, x: Frame)
    requires Tree(m, r, free, 3)
    ensures IsTable(m, r, x) ==> x !in free
  {
  }

  /** No frame of a list is both among its first n and among the others. */
  lemma PartsAreApart(s: Phys, free: seq<Frame>, n: nat, x: Frame)
    requires Chain(s, free) && n <= |free|
    ensures !(x in free[..n] && x in free[n..])
  {
    if x in free[..n] && x in free[n..] {
      var i, j :| 0 <= i < n && free[..n][i] == x && 0 <= j < |free| - n && free[n..][j] == x;
      ChainHasNoDuplicates(s, free, i, n + j);
    }
  }

  /** After the loops the lower half is empty and the upper half reads as before. */
  lemma {:induction false} WalkAfter(s': Phys, m0: Mem, r: Frame, free0: seq<Frame>, free': seq<Frame>, q: Path)
    requires Tree(m0, r, free0, 3) && Mid(s', m0, r, 256, free')
    requires forall x: Frame :: x in free' ==> x in free0 || IsTable(m0, r, x)
    requires Valid(q)
    ensures Lower(q) && q.Sub? ==> Walk(s'.mem, r, q).None?
    ensures Lower(q) && q.Sub? ==>
      Entry(s'.mem, r, q) == if Depth(q) == 1 then Entry(m0, r, q).(present := false) else ZERO
    ensures Upper(q) ==> Entry(s'.mem, r, q) == Entry(m0, r, q) && Walk(s'.mem, r, q) == Walk(m0, r, q)
  {
    if q.Sub? {
      var p := q.parent;
      if p.Sub? {
        WalkAfter(s', m0, r, free0, free', p);
      }
      assert Walk(m0, r, Root) == Some(r) && Walk(s'.mem, r, Root) == Some(r);
      if Upper(q) || p.Root? {
        var t := Walk(m0, r, p);
        if t.Some? {
          assert t.value !in free';
        }
      }
    }
  }

  /** What `unmap_lower_half` leaves behind. */
  ghost predicate LowerHalfEmptied(m: Mem, m': Mem, r: Frame) {
    && |m'| == |m|
    && (forall q :: Lower(q) && q.Sub? ==> Walk(m', r, q).None?)
    && (forall q {:trigger Entry(m', r, q)} :: Lower(q) && q.Sub? ==>
          Entry(m', r, q) == if Depth(q) == 1 then Entry(m, r, q).(present := false) else ZERO)
    && (forall q :: Upper(q) ==> Entry(m', r, q) == Entry(m, r, q))
  }

  lemma UnmapLowerSpec(s: Phys, r: Frame, free: seq<Frame>)
    requires Chain(s, free) && Tree(s.mem, r, free, 3)
    ensures
      var s', free' := UnmapLower(s, r), Pushed3(s.mem, r, 256, free);
      && LowerHalfEmptied(s.mem, s'.mem, r)
      && Chain(s', free') && Tree(s'.mem, r, free', 4) && NoLargePages(s'.mem, r) && Permissive(s'.mem, r)
  {
    var s', free' := UnmapLower(s, r), Pushed3(s.mem, r, 256, free);
    FreeL3sSpec(s, r, free, 256);
    MidEmptied(s', s.mem, r, free, free');
    assert Chain(s', free');
    hide Mid, Chain, UnmapLower, Pushed3;
    EmptiedTree(s.mem, s'.mem, r, free, free');
    EmptiedIsPlain(s.mem, s'.mem, r);
  }

  lemma MidEmptied(s': Phys, m0: Mem, r: Frame, free0: seq<Frame>, free': seq<Frame>)
    requires Tree(m0, r, free0, 3) && Mid(s', m0, r, 256, free') && free' == Pushed3(m0, r, 256, free0)
    ensures LowerHalfEmptied(m0, s'.mem, r)
    ensures forall q {:trigger Walk(s'.mem, r, q)} :: Upper(q) ==> Walk(s'.mem, r, q) == Walk(m0, r, q)
    ensures forall x: Frame :: x in free' ==> x in free0 || IsTable(m0, r, x)
  {
    hide Pushed3;
    forall x: Frame ensures x in free' ==> x in free0 || IsTable(m0, r, x) {
      Pushed3Members(m0, r, 256, free0, x);
      ReachIsTable(m0, r, x);
    }
    forall q | Valid(q)
      ensures Lower(q) && q.Sub? ==> Walk(s'.mem, r, q).None?
      ensures Lower(q) && q.Sub? ==>
        Entry(s'.mem, r, q) == if Depth(q) == 1 then Entry(m0, r, q).(present := false) else ZERO
      ensures Upper(q) ==> Entry(s'.mem, r, q) == Entry(m0, r, q) && Walk(s'.mem, r, q) == Walk(m0, r, q)
    {
      WalkAfter(s', m0, r, free0, free', q);
    }
    assert |s'.mem| == |m0|;
    hide Mid, Tree, Walk, Entry, IsTable;
  }

  lemma EmptiedTree(m: Mem, m': Mem, r: Frame, free: seq<Frame>, free': seq<Frame>)
    requires Tree(m, r, free, 3) && LowerHalfEmptied(m, m', r)
    requires forall q {:trigger Walk(m', r, q)} :: Upper(q) ==> Walk(m', r, q) == Walk(m, r, q)
    requires forall x: Frame :: x in free' ==> x in free || IsTable(m, r, x)
    ensures Tree(m', r, free', 4)
  {
    assert Walk(m', r, Root) == Walk(m, r, Root) == Some(r);
    hide Entry;
    forall q | Node(q, 4) && Walk(m', r, q).Some?
      ensures (q == Root || Upper(q)) && Node(q, 3) && Walk(m', r, q) == Walk(m, r, q)
    {
      assert Lower(q) && q.Sub? ==> Walk(m', r, q).None?;
    }
  }

  lemma EmptiedIsPlain(m: Mem, m': Mem, r: Frame)
    requires LowerHalfEmptied(m, m', r)
    ensures NoLargePages(m', r) && Permissive(m', r)
  {
    hide Entry, Walk;
  }

  /** The ledger after a call: tables went to the freelist, pages are leaked. */
  ghost function Unmapped(m: Mem, r: Frame, g: Ledger): Ledger {
    Ledger(Pushed3(m, r, 256, g.free), g.leaked + (set f | f in g.pool && IsPage(m, r, f)), g.pool)
  }

  /** From then on the pool is conserved: what leaves the tree is freed if it is a table, leaked if it is a page. */
  lemma UnmapLowerKeepsInv(s: Phys, r: Frame, g: Ledger)
    requires Inv(s, r, g)
    ensures Inv(UnmapLower(s, r), r, Unmapped(s.mem, r, g))
    ensures LowerHalfEmptied(s.mem, UnmapLower(s, r).mem, r)
  {
    UnmapLowerSpec(s, r, g.free);
    var s', g' := UnmapLower(s, r), Unmapped(s.mem, r, g);
    hide UnmapLower, Pushed3, Tree, Chain, IsTable, IsPage, Owned, LowerHalfEmptied;
    forall x: Frame
      ensures !Owned(s'.mem, r, x)
      ensures x in g'.free <==> x in g.free || IsTable(s.mem, r, x)
      ensures Owned(s.mem, r, x) <==> IsTable(s.mem, r, x) || IsPage(s.mem, r, x)
      ensures IsPage(s.mem, r, x) ==> x !in g.free && !IsTable(s.mem, r, x)
    {
      Pushed3Members(s.mem, r, 256, g.free, x);
      ReachIsTable(s.mem, r, x);
      TableOrPage(s.mem, r, g.free, x);
      NothingOwned(s.mem, s'.mem, r, x);
    }
  }

  /** What a lower-half path reaches is a table or a page, and not both. */
  lemma TableOrPage(m: Mem, r: Frame, free: seq<Frame>, x: Frame)
    requires Tree(m, r, free, 4)
    ensures Owned(m, r, x) <==> IsTable(m, r, x) || IsPage(m, r, x)
    ensures IsPage(m, r, x) ==> x !in free && !IsTable(m, r, x)
  {
    OwnedIsNotFree(m, r, free, x);
    hide Walk;
  }

  lemma NothingOwned(m: Mem, m': Mem, r: Frame, x: Frame)
    requires LowerHalfEmptied(m, m', r)
    ensures !Owned(m', r, x)
  {
    hide Walk, Entry;
  }

  /** The first call, at boot, when lower-half pages may still alias anything: it founds the pool. */
  lemma FirstUnmapFoundsInv(s: Phys, r: Frame, free: seq<Frame>)
    requires Chain(s, free) && Tree(s.mem, r, free, 3)
    ensures var free' := Pushed3(s.mem, r, 256, free);
      Inv(UnmapLower(s, r), r, Ledger(free', {}, set f | f in free'))
  {
    UnmapLowerSpec(s, r, free);
    forall x: Frame ensures !Owned(UnmapLower(s, r).mem, r, x) {
    }
  }
}
