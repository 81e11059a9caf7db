/** Bytes of virtual memory, read and written through the page tables. */
module VirtualBytes {
  import opened Words
  import opened Memory
  import opened PageTree
  import opened Mapping
  import opened UnmapLowerHalf
  import opened AddressSpace
  import opened PageRanges

  // ---- the eight bytes of a cell, least significant first ----

  function ByteAt(n: nat, k: nat): Byte
    decreases k
  {
    if k == 0 then n % 256 else ByteAt(n / 256, k - 1)
  }

  function WithByteAt(n: nat, k: nat, b: Byte): nat
    decreases k
  {
    if k == 0 then n / 256 * 256 + b else WithByteAt(n / 256, k - 1, b) * 256 + n % 256
  }

  /** 256 to the power k. */
  function Capacity(k: nat): nat { if k == 0 then 1 else 256 * Capacity(k - 1) }

  lemma {:induction false} WithByteAtFits(n: nat, k: nat, b: Byte, size: nat)
    requires k < size && n < Capacity(size)
    ensures WithByteAt(n, k, b) < Capacity(size)
    decreases k
  {
    assert n / 256 < Capacity(size - 1);
    if k > 0 {
      WithByteAtFits(n / 256, k - 1, b, size - 1);
    }
  }

  lemma {:induction false} ByteAtWithByteAt(n: nat, k: nat, b: Byte, j: nat)
    ensures ByteAt(WithByteAt(n, k, b), j) == if j == k then b else ByteAt(n, j)
    decreases k
  {
    var m := WithByteAt(n, k, b);
    if k > 0 {
      assert m / 256 == WithByteAt(n / 256, k - 1, b) && m % 256 == n % 256;
      if j > 0 {
        ByteAtWithByteAt(n / 256, k - 1, b, j - 1);
      }
    } else {
      assert m / 256 == n / 256 && m % 256 == b;
    }
  }

  function ByteOf(w: Word, k: nat): Byte { ByteAt(Bits(w), k) }

  function SetByte(w: Word, k: nat, b: Byte): Word { OfBits(WithByteAt(Bits(w), k, b)) }

  /** A byte store changes that byte of the cell and no other. */
  lemma ByteOfSetByte(w: Word, k: nat, b: Byte, j: nat)
    requires k < 8
    ensures ByteOf(SetByte(w, k, b), j) == if j == k then b else ByteOf(w, j)
  {
    hide Bits, OfBits;
    assert Capacity(8) == TWO_64 by { assert Capacity(4) == 0x1_0000_0000; }
    WithByteAtFits(Bits(w), k, b, 8);
    BitsOfBits(WithByteAt(Bits(w), k, b));
    ByteAtWithByteAt(Bits(w), k, b, j);
  }

  lemma ByteOfZero(k: nat)
    ensures ByteOf(ZERO, k) == 0
  {
    assert Bits(ZERO) == 0;
    ByteAtZero(k);
  }

  lemma {:induction false} ByteAtZero(k: nat)
    ensures ByteAt(0, k) == 0
    decreases k
  {
    if k > 0 {
      ByteAtZero(k - 1);
    }
  }

  // ---- bytes of virtual memory ----

  /** The cell of its page that an address lies in. */
  function CellOf(x: nat): (j: nat)
    ensures j < ENTRIES
  {
    x / 8 % 512
  }

  lemma SameCellSameByte(x: nat, y: nat)
    requires PageOf(x) == PageOf(y) && x < TWO_47 && y < TWO_47 && CellOf(x) == CellOf(y) && x % 8 == y % 8
    ensures x == y
  {
    Place(x);
    Place(y);
  }

  lemma Place(x: nat)
    requires x < TWO_47
    ensures x == 4096 * PageOf(x) + 8 * CellOf(x) + x % 8
  {
    var q := x / 8;
    assert x == 8 * q + x % 8;
    assert q / 512 == x / 4096;
    assert q == 512 * (q / 512) + q % 512;
    assert x / 4096 < 0x8_0000_0000;
  }

  /** The byte at a virtual address; 0 where nothing is mapped. */
  ghost function Peek(v: View, x: nat): Byte {
    if Leaf(x) in v.pages then ByteOf(At(v.mem, v.pages[Leaf(x)].frame, CellOf(x)), x % 8) else 0
  }

  /** The eight bytes of a page from a multiple of eight on are the cell there, least significant first. */
  lemma CellIsLittleEndian(v: View, x: nat)
    requires Leaf(x) in v.pages && x % 8 == 0
    ensures Bits(At(v.mem, v.pages[Leaf(x)].frame, x % 4096 / 8)) ==
      Peek(v, x) + 0x100 * Peek(v, x + 1) + 0x1_0000 * Peek(v, x + 2) + 0x100_0000 * Peek(v, x + 3) +
      0x1_0000_0000 *
        (Peek(v, x + 4) + 0x100 * Peek(v, x + 5) + 0x1_0000 * Peek(v, x + 6) + 0x100_0000 * Peek(v, x + 7))
  {
    hide Leaf, Bits, At;
    var n := Bits(At(v.mem, v.pages[Leaf(x)].frame, CellOf(x)));
    CellInPage(x);
    forall k: nat | k < 8 ensures Peek(v, x + k) == ByteAt(n, k) {
      SameCell(x, k);
    }
    hide Peek, CellOf;
    EightBytes(n);
  }

  lemma CellInPage(x: nat)
    ensures CellOf(x) == x % 4096 / 8
  {
    var q, m := x / 4096, x % 4096;
    assert x == 4096 * q + m;
    assert x / 8 == 512 * q + m / 8;
  }

  lemma SameCell(x: nat, k: nat)
    requires x % 8 == 0 && k < 8
    ensures Leaf(x + k) == Leaf(x) && CellOf(x + k) == CellOf(x) && (x + k) % 8 == k
  {
    hide Leaf;
    var q := x / 8;
    assert x == 8 * q && (x + k) / 8 == q;
    assert x / 4096 == q / 512 && (x + k) / 4096 == q / 512;
    SamePathSamePage(x + k, x);
  }

  lemma EightBytes(n: nat)
    requires n < TWO_64
    ensures n ==
      ByteAt(n, 0) + 0x100 * ByteAt(n, 1) + 0x1_0000 * ByteAt(n, 2) + 0x100_0000 * ByteAt(n, 3) +
      0x1_0000_0000 * (ByteAt(n, 4) + 0x100 * ByteAt(n, 5) + 0x1_0000 * ByteAt(n, 6) + 0x100_0000 * ByteAt(n, 7))
  {
    hide ByteAt;
    var high := n / 256 / 256 / 256 / 256;
    FourBytes(n);
    FourBytes(high);
    NoNinthByte(n, high);
    HighByte(n, 0);
    HighByte(n, 1);
    HighByte(n, 2);
    HighByte(n, 3);
  }

  lemma NoNinthByte(n: nat, high: nat)
    requires n < TWO_64 && high == n / 256 / 256 / 256 / 256
    ensures high / 256 / 256 / 256 / 256 == 0
  {
    var n1 := n / 256; var n2 := n1 / 256; var n3 := n2 / 256;
    assert n1 < 0x100_0000_0000_0000;
    assert n2 < 0x1_0000_0000_0000;
    assert n3 < 0x100_0000_0000;
    assert high < 0x1_0000_0000;
    var h1 := high / 256; var h2 := h1 / 256; var h3 := h2 / 256;
    assert h1 < 0x100_0000;
    assert h2 < 0x1_0000;
    assert h3 < 0x100;
  }

  lemma FourBytes(n: nat)
    ensures n == ByteAt(n, 0) + 0x100 * ByteAt(n, 1) + 0x1_0000 * ByteAt(n, 2) + 0x100_0000 * ByteAt(n, 3) +
      0x1_0000_0000 * (n / 256 / 256 / 256 / 256)
  {
    var n1 := n / 256; var n2 := n1 / 256; var n3 := n2 / 256;
    assert ByteAt(n, 1) == ByteAt(n1, 0);
    assert ByteAt(n, 2) == ByteAt(n1, 1) == ByteAt(n2, 0);
    assert ByteAt(n, 3) == ByteAt(n1, 2) == ByteAt(n2, 1) == ByteAt(n3, 0);
  }

  lemma HighByte(n: nat, k: nat)
    ensures ByteAt(n, k + 4) == ByteAt(n / 256 / 256 / 256 / 256, k)
  {
    var n1 := n / 256; var n2 := n1 / 256; var n3 := n2 / 256;
    assert ByteAt(n, k + 4) == ByteAt(n1, k + 3) == ByteAt(n2, k + 2) == ByteAt(n3, k + 1);
  }

  lemma KeptReadsSame(v: View, v': View, x: nat)
    requires Leaf(x) in v.pages && Leaf(x) in v'.pages && v'.pages[Leaf(x)].frame == v.pages[Leaf(x)].frame
    requires SamePage(v.mem, v'.mem, v.pages[Leaf(x)].frame)
    ensures Peek(v', x) == Peek(v, x)
  {
    hide ByteOf, Leaf;
  }

  /** A store of one byte through the page tables. */
  function Poke(s: Phys, r: Frame, x: nat, b: Byte): Phys {
    var f := Walk(s.mem, r, Leaf(x));
    if f.None? then s
    else s.(mem := Put(s.mem, f.value, CellOf(x), SetByte(At(s.mem, f.value, CellOf(x)), x % 8, b)))
  }

  /** From v to v' the bytes from address a on became `data`. */
  ghost predicate Stored(v: View, v': View, a: nat, data: seq<Byte>) {
    && v'.pages == v.pages
    && (forall p :: p in v.pages && !Covers(a, |data|, p) ==> SamePage(v.mem, v'.mem, v.pages[p].frame))
    && (forall x: nat {:trigger Peek(v', x)} :: x < TWO_47 && Leaf(x) in v.pages ==>
          Peek(v', x) == if a <= x < a + |data| then data[x - a] else Peek(v, x))
  }

  /** Page p holds one of the n bytes from address a on. */
  ghost predicate Covers(a: nat, n: nat, p: Path) { exists x: nat :: a <= x < a + n && Leaf(x) == p }

  lemma PokeStores(s: Phys, r: Frame, g: Ledger, x: nat, b: Byte)
    requires Inv(s, r, g) && Leaf(x) in Pages(s.mem, r) && x < TWO_47
    ensures Inv(Poke(s, r, x, b), r, g) && Stored(ViewOf(s, r), ViewOf(Poke(s, r, x, b), r), x, [b])
  {
    var page, j := Leaf(x), CellOf(x);
    var f := Pages(s.mem, r)[page].frame;
    var w := SetByte(At(s.mem, f, j), x % 8, b);
    assert Walk(s.mem, r, page) == Some(f);
    StoreRefines(s, r, g, page, j, w);
    StoredByte(ViewOf(s, r), ViewOf(Poke(s, r, x, b), r), x, b);
  }

  lemma StoredByte(v: View, v': View, x: nat, b: Byte)
    requires v'.pages == v.pages && Leaf(x) in v.pages && x < TWO_47
    requires
      var f := v.pages[Leaf(x)].frame;
      forall i: nat | i < ENTRIES ::
          At(v'.mem, f, i) == if i == CellOf(x) then SetByte(At(v.mem, f, i), x % 8, b) else At(v.mem, f, i)
    requires forall p :: p in v.pages && p != Leaf(x) ==> SamePage(v.mem, v'.mem, v.pages[p].frame)
    ensures Stored(v, v', x, [b])
  {
    hide Leaf, ByteOf, SetByte, CellOf;
    assert Covers(x, 1, Leaf(x));
    forall y: nat | y < TWO_47 && Leaf(y) in v.pages
      ensures Peek(v', y) == if x <= y < x + 1 then [b][y - x] else Peek(v, y)
    {
      StoredPeek(v, v', x, b, y);
    }
  }

  lemma StoredPeek(v: View, v': View, x: nat, b: Byte, y: nat)
    requires v'.pages == v.pages && Leaf(x) in v.pages && x < TWO_47 && y < TWO_47 && Leaf(y) in v.pages
    requires
      var f := v.pages[Leaf(x)].frame;
      forall i: nat | i < ENTRIES ::
          At(v'.mem, f, i) == if i == CellOf(x) then SetByte(At(v.mem, f, i), x % 8, b) else At(v.mem, f, i)
    requires forall p :: p in v.pages && p != Leaf(x) ==> SamePage(v.mem, v'.mem, v.pages[p].frame)
    ensures Peek(v', y) == if y == x then b else Peek(v, y)
  {
    hide Leaf, ByteOf, SetByte, CellOf, At, PageOf;
    if Leaf(y) == Leaf(x) {
      SamePathSamePage(x, y);
      ByteOfSetByte(At(v.mem, v.pages[Leaf(x)].frame, CellOf(x)), x % 8, b, y % 8);
      if CellOf(y) == CellOf(x) && y % 8 == x % 8 {
        SameCellSameByte(x, y);
      }
    }
  }

  // ---- copying into virtual memory ----

  /** `memcpy` of the first n bytes of `data` to virtual address a. */
  function PokeAll(s: Phys, r: Frame, a: nat, data: seq<Byte>, n: nat): Phys
    requires n <= |data|
    decreases n
  {
    if n == 0 then s else Poke(PokeAll(s, r, a, data, n - 1), r, a + n - 1, data[n - 1])
  }

  lemma StoredMore(v: View, v1: View, v': View, a: nat, data: seq<Byte>, b: Byte)
    requires Stored(v, v1, a, data) && Stored(v1, v', a + |data|, [b])
    ensures Stored(v, v', a, data + [b])
  {
    hide Leaf, Peek;
    forall p | p in v.pages && !Covers(a, |data + [b]|, p) ensures SamePage(v.mem, v'.mem, v.pages[p].frame) {
      NotCovered(a, |data|, p);
      assert SamePage(v.mem, v1.mem, v.pages[p].frame) && SamePage(v1.mem, v'.mem, v.pages[p].frame);
    }
    forall x: nat | x < TWO_47 && Leaf(x) in v.pages
      ensures Peek(v', x) == if a <= x < a + |data| + 1 then (data + [b])[x - a] else Peek(v, x)
    {
      assert Peek(v1, x) == if a <= x < a + |data| then data[x - a] else Peek(v, x);
    }
  }

  lemma NotCovered(a: nat, n: nat, p: Path)
    requires !Covers(a, n + 1, p)
    ensures !Covers(a, n, p) && !Covers(a + n, 1, p)
  {
    hide Leaf;
  }

  /** Copying into mapped pages stores exactly the data, wherever the pages' frames are. */
  lemma {:induction false} CopyStores(s: Phys, r: Frame, g: Ledger, a: nat, data: seq<Byte>, n: nat)
    requires Inv(s, r, g) && n <= |data| && a + n <= TWO_47
    requires forall x: nat :: a <= x < a + n ==> Leaf(x) in Pages(s.mem, r)
    ensures Inv(PokeAll(s, r, a, data, n), r, g)
    ensures Stored(ViewOf(s, r), ViewOf(PokeAll(s, r, a, data, n), r), a, data[..n])
    decreases n
  {
    hide Inv, Pages, Leaf, Peek, Poke;
    if n > 0 {
      var s1 := PokeAll(s, r, a, data, n - 1);
      CopyStores(s, r, g, a, data, n - 1);
      PokeStores(s1, r, g, a + n - 1, data[n - 1]);
      StoredMore(ViewOf(s, r), ViewOf(s1, r), ViewOf(PokeAll(s, r, a, data, n), r), a, data[..n - 1], data[n - 1]);
      assert data[..n - 1] + [data[n - 1]] == data[..n];
    }
  }
}
