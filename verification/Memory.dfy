/** Physical memory and the freelist threaded through it. */
module Memory {
  import opened Words

  datatype Option<+T> = None | Some(value: T)

  const ENTRIES: nat := 512

  type Page = p: seq<Word> | |p| == 512 witness ClearPage()

  function ClearPage(): (p: seq<Word>)
    ensures |p| == 512 && forall i: nat | i < 512 :: p[i] == ZERO
  {
    seq(512, _ => ZERO)
  }

  /** Physical memory, frame by frame. */
  type Mem = m: seq<Page> | |m| <= 0x100_0000_0000

  function At(m: Mem, f: nat, i: nat): Word {
    if f < |m| && i < 512 then m[f][i] else ZERO
  }

  function Put(m: Mem, f: nat, i: nat, w: Word): (r: Mem)
    ensures |r| == |m|
  {
    if f < |m| && i < 512 then m[f := m[f][i := w]] else m
  }

  lemma AtPut(m: Mem, f: nat, i: nat, w: Word)
    requires i < 512 && f < |m|
    ensures forall g: nat, j: nat {:trigger At(Put(m, f, i, w), g, j)} ::
      At(Put(m, f, i, w), g, j) == if g == f && j == i then w else At(m, g, j)
  {
  }

  /** The page at frame f cleared. */
  function Zeroed(m: Mem, f: nat): (r: Mem)
    ensures |r| == |m|
  {
    if f < |m| then m[f := ClearPage()] else m
  }

  lemma AtZeroed(m: Mem, f: nat)
    ensures forall g: nat, j: nat {:trigger At(Zeroed(m, f), g, j)} ::
      At(Zeroed(m, f), g, j) == if g == f then ZERO else At(m, g, j)
  {
  }

  /** Two memories hold the same page at frame f. */
  ghost predicate SamePage(m: Mem, m': Mem, f: nat) {
    forall i: nat | i < 512 :: At(m', f, i) == At(m, f, i)
  }

  ghost predicate IsClear(m: Mem, f: Frame) {
    forall i: nat | i < ENTRIES :: At(m, f, i) == ZERO
  }

  // ---- the machine state that the frame manager owns ----

  /** Physical memory and the global `top`, as a frame number; 0 is NULL. */
  datatype Phys = Phys(mem: Mem, top: Frame)

  /** The cell that a freelist node holds when its successor is frame f (0: none). */
  function Link(f: Frame): Word {
    Word(false, false, false, false, false, false, false, false, 0, f, 0, false)
  }

  /** As a number that cell is the successor's physical address. */
  lemma LinkIsAddress(f: Frame)
    ensures Bits(Link(f)) == 4096 * f && OfBits(4096 * f) == Link(f)
  {
    var h := High(Link(f));
    assert h == 16 * f;
    assert Bits(Link(f)) == 256 * h;
    OfBitsBits(Link(f));
  }

  /** `pmem_alloc`: pop the freelist; 0 when it is empty. */
  function Alloc(s: Phys): (Phys, Frame) {
    if s.top == 0 then (s, 0)
    else (s.(top := At(s.mem, s.top, 0).address), s.top)
  }

  /** `pmem_free` of a page-aligned address: push the frame; NULL is refused. */
  function Free(s: Phys, f: Frame): Phys {
    if f == 0 then s else Phys(Put(s.mem, f, 0, Link(s.top)), f)
  }

  function Head(free: seq<Frame>): Frame { if free == [] then 0 else free[0] }

  function Next(free: seq<Frame>, k: nat): Frame { if k + 1 < |free| then free[k + 1] else 0 }

  /** The freelist starting at `top` is exactly the frames `free`, in order. */
  ghost predicate Chain(s: Phys, free: seq<Frame>) {
    && s.top == Head(free)
    && (forall k: nat | k < |free| :: 0 < free[k] < |s.mem|)
    && (forall k: nat {:trigger Next(free, k)} | k < |free| :: At(s.mem, free[k], 0) == Link(Next(free, k)))
  }

  /** A chain that ends never revisits a frame, so it has no cycle. */
  lemma {:induction false} ChainHasNoDuplicates(s: Phys, free: seq<Frame>, a: nat, b: nat)
    requires Chain(s, free)
    requires a < b < |free|
    ensures free[a] != free[b]
    decreases |free| - b
  {
    if free[a] == free[b] {
      assert Link(Next(free, a)) == Link(Next(free, b));
      assert Next(free, a) == Next(free, b);
      if b + 1 < |free| {
        ChainHasNoDuplicates(s, free, a + 1, b + 1);
      }
    }
  }

  lemma {:induction false} ChainsAgree(s: Phys, free: seq<Frame>, free': seq<Frame>, k: nat)
    requires Chain(s, free) && Chain(s, free')
    requires k < |free|
    ensures k < |free'| && free'[k] == free[k]
  {
    if k == 0 {
      assert Head(free') == Head(free);
    } else {
      ChainsAgree(s, free, free', k - 1);
      assert At(s.mem, free[k - 1], 0) == At(s.mem, free'[k - 1], 0);
      assert Link(Next(free', k - 1)).address == Link(Next(free, k - 1)).address;
    }
  }

  /** The list is determined by the state: two readings of it agree. */
  lemma ChainIsUnique(s: Phys, free: seq<Frame>, free': seq<Frame>)
    requires Chain(s, free) && Chain(s, free')
    ensures free == free'
  {
    forall k: nat | k < |free| ensures k < |free'| && free'[k] == free[k] {
      ChainsAgree(s, free, free', k);
    }
    if |free| < |free'| {
      ChainsAgree(s, free', free, |free|);
    } else if |free'| < |free| {
      ChainsAgree(s, free, free', |free'|);
    }
  }

  lemma ChainTail(s: Phys, free: seq<Frame>)
    requires Chain(s, free) && free != []
    ensures Chain(Phys(s.mem, Next(free, 0)), free[1..])
    ensures free[0] !in free[1..]
  {
    var rest := free[1..];
    assert Head(rest) == Next(free, 0);
    forall k: nat | k < |rest|
      ensures 0 < rest[k] < |s.mem| && rest[k] != free[0]
      ensures At(s.mem, rest[k], 0) == Link(Next(rest, k))
    {
      assert rest[k] == free[k + 1] && Next(rest, k) == Next(free, k + 1);
      ChainHasNoDuplicates(s, free, 0, k + 1);
    }
  }

  /** Allocation pops the front of the list and touches no memory. */
  lemma AllocPops(s: Phys, free: seq<Frame>)
    requires Chain(s, free)
    ensures free == [] ==> Alloc(s) == (s, 0)
    ensures free != [] ==>
      Alloc(s).1 == free[0] && Alloc(s).0.mem == s.mem && Chain(Alloc(s).0, free[1..])
    ensures free != [] ==> free[0] !in free[1..]
  {
    if free != [] {
      ChainTail(s, free);
      assert At(s.mem, free[0], 0) == Link(Next(free, 0));
    }
  }

  /** Freeing a frame that is not on the list pushes it and writes its first cell only. */
  lemma FreePushes(s: Phys, free: seq<Frame>, f: Frame)
    requires Chain(s, free)
    requires 0 < f < |s.mem| && f !in free
    ensures Free(s, f) == Phys(Put(s.mem, f, 0, Link(Head(free))), f)
    ensures Chain(Free(s, f), [f] + free)
  {
    AtPut(s.mem, f, 0, Link(Head(free)));
    var s' := Free(s, f);
    var free' := [f] + free;
    forall k: nat | k < |free'|
      ensures At(s'.mem, free'[k], 0) == Link(Next(free', k))
    {
      if k > 0 {
        assert free'[k] == free[k - 1];
        assert Next(free', k) == Next(free, k - 1);
      } else {
        assert Next(free', 0) == Head(free);
      }
    }
  }

  /** If a frame on the list is freed again, the list leads back to it. */
  lemma {:induction false} SecondFreeFollows(s: Phys, free: seq<Frame>, f: Frame, free': seq<Frame>, j: nat)
    requires Chain(s, free) && 0 < f < |s.mem| && Chain(Free(s, f), free')
    requires j < |free| && f !in free[..j]
    ensures j + 1 < |free'| && free'[j + 1] == free[j]
  {
    AtPut(s.mem, f, 0, Link(s.top));
    if j == 0 {
      assert At(Free(s, f).mem, free'[0], 0) == Link(Next(free', 0));
    } else {
      assert free[..j][j - 1] == free[j - 1] && forall x: Frame :: x in free[..j - 1] ==> x in free[..j];
      SecondFreeFollows(s, free, f, free', j - 1);
      assert At(Free(s, f).mem, free'[j], 0) == Link(Next(free', j));
      assert At(s.mem, free[j - 1], 0) == Link(Next(free, j - 1));
    }
  }

  /** `pmem_free` keeps the freelist a list exactly when the frame was not already on it. */
  lemma FreeIsSafeIffNotFree(s: Phys, free: seq<Frame>, f: Frame)
    requires Chain(s, free) && 0 < f < |s.mem|
    ensures (exists free' :: Chain(Free(s, f), free')) <==> f !in free
  {
    if f !in free {
      FreePushes(s, free, f);
    }
    if f in free {
      forall free' ensures !Chain(Free(s, f), free') {
        if Chain(Free(s, f), free') {
          var k := FirstIndex(free, f);
          SecondFreeFollows(s, free, f, free', k);
          ChainHasNoDuplicates(Free(s, f), free', 0, k + 1);
        }
      }
    }
  }

  lemma FirstIndex(free: seq<Frame>, f: Frame) returns (k: nat)
    requires f in free
    ensures k < |free| && free[k] == f && f !in free[..k]
  {
    k := 0;
    while free[k] != f
      invariant k < |free| && f !in free[..k]
      decreases |free| - k
    {
      assert free == free[..k + 1] + free[k + 1..];
      assert free[..k + 1] == free[..k] + [free[k]];
      k := k + 1;
    }
  }

  /** A chain survives any change away from the first cells of its frames. */
  lemma ChainFrame(s: Phys, m': Mem, free: seq<Frame>)
    requires Chain(s, free)
    requires |m'| == |s.mem|
    requires forall f: Frame | f in free :: At(m', f, 0) == At(s.mem, f, 0)
    ensures Chain(s.(mem := m'), free)
  {
  }
}
