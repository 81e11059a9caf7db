/** One 64-bit cell of physical memory.

    A cell is kept as the bit fields of a page-table entry. The same cell is
    also read as a plain 64-bit number: a freelist link, or eight data bytes.
    `Bits` and `OfBits` are the two directions of that second reading. */
module Words {

  const TWO_64: nat := 0x1_0000_0000_0000_0000

  type Byte = n: nat | n < 256
  type Field4 = n: nat | n < 16
  type Field11 = n: nat | n < 0x800
  /** A 4 KiB frame number: what fits in the 40-bit address field. */
  type Frame = n: nat | n < 0x100_0000_0000

  datatype Word = Word(
    present: bool,
    writable: bool,
    user: bool,
    writeThrough: bool,
    cacheDisable: bool,
    accessed: bool,
    dirty: bool,
    pageSize: bool,
    unused0: Field4,
    address: Frame,
    unused1: Field11,
    noExecute: bool
  )

  const ZERO: Word := Word(false, false, false, false, false, false, false, false, 0, 0, 0, false)

  /** Put a bit below a number. */
  function Shift(b: bool, n: nat): (r: nat)
    ensures r / 2 == n && (r % 2 == 1) == b
  {
    2 * n + if b then 1 else 0
  }

  /** The cell as an unsigned 64-bit number. */
  function Bits(w: Word): (n: nat)
    ensures n < TWO_64
  {
    Shift(w.present, Shift(w.writable, Shift(w.user, Shift(w.writeThrough, Shift(w.cacheDisable,
    Shift(w.accessed, Shift(w.dirty, Shift(w.pageSize, High(w)))))))))
  }

  /** Put a four-bit field below a number. */
  function Shift4(low: Field4, n: nat): (r: nat)
    ensures r / 16 == n && r % 16 == low
  {
    16 * n + low
  }

  /** Put a forty-bit field below a number. */
  function Shift40(low: Frame, n: nat): (r: nat)
    ensures r / 0x100_0000_0000 == n && r % 0x100_0000_0000 == low
  {
    0x100_0000_0000 * n + low
  }

  /** Put an eleven-bit field below a number. */
  function Shift11(low: Field11, n: nat): (r: nat)
    ensures r / 0x800 == n && r % 0x800 == low
  {
    0x800 * n + low
  }

  /** The 56 bits of the cell above its flags. */
  function High(w: Word): (n: nat)
    ensures n < 0x100_0000_0000_0000
  {
    Shift4(w.unused0, Shift40(w.address, Shift11(w.unused1, if w.noExecute then 1 else 0)))
  }

  /** Where each field lies in the number: the bits of a page-table entry. */
  lemma FieldPositions(w: Word)
    ensures Bits(w) ==
      Flag(w.present) + 2 * Flag(w.writable) + 4 * Flag(w.user) + 8 * Flag(w.writeThrough) + 16 * Flag(w.cacheDisable) +
      32 * Flag(w.accessed) + 64 * Flag(w.dirty) + 128 * Flag(w.pageSize) + 0x100 * w.unused0 + 0x1000 * w.address +
      0x10_0000_0000_0000 * w.unused1 + 0x8000_0000_0000_0000 * Flag(w.noExecute)
  {
    assert High(w) == w.unused0 + 16 * w.address + 0x1000_0000_0000 * w.unused1 +
      0x80_0000_0000_0000 * Flag(w.noExecute);
  }

  function Flag(b: bool): nat { if b then 1 else 0 }

  /** The cell holding the low 64 bits of a number. */
  function OfBits(n: nat): Word {
    var n1 := n / 2; var n2 := n1 / 2; var n3 := n2 / 2; var n4 := n3 / 2;
    var n5 := n4 / 2; var n6 := n5 / 2; var n7 := n6 / 2; var high := n7 / 2;
    Word(n % 2 == 1, n1 % 2 == 1, n2 % 2 == 1, n3 % 2 == 1, n4 % 2 == 1, n5 % 2 == 1, n6 % 2 == 1, n7 % 2 == 1,
         high % 16, high / 16 % 0x100_0000_0000, high / 16 / 0x100_0000_0000 % 0x800,
         high / 16 / 0x100_0000_0000 / 0x800 % 2 == 1)
  }

  lemma Unshift(n: nat)
    ensures Shift(n % 2 == 1, n / 2) == n
  {
  }

  lemma HighBound(n: nat)
    requires n < TWO_64
    ensures n / 2 / 2 / 2 / 2 / 2 / 2 / 2 / 2 < 0x100_0000_0000_0000
  {
    assert n / 2 / 2 / 2 / 2 < 0x1000_0000_0000_0000;
  }

  /** Storing a 64-bit number and reading it back gives the number. */
  lemma BitsOfBits(n: nat)
    requires n < TWO_64
    ensures Bits(OfBits(n)) == n
  {
    var n1 := n / 2; var n2 := n1 / 2; var n3 := n2 / 2; var n4 := n3 / 2;
    var n5 := n4 / 2; var n6 := n5 / 2; var n7 := n6 / 2;
    HighBound(n);
    HighOfBits(OfBits(n), n7 / 2);
    Unshift(n); Unshift(n1); Unshift(n2); Unshift(n3); Unshift(n4); Unshift(n5); Unshift(n6); Unshift(n7);
  }

  lemma HighOfBits(w: Word, high: nat)
    requires high < 0x100_0000_0000_0000
    requires w.unused0 == high % 16 && w.address == high / 16 % 0x100_0000_0000
    requires w.unused1 == high / 16 / 0x100_0000_0000 % 0x800
    requires w.noExecute == (high / 16 / 0x100_0000_0000 / 0x800 % 2 == 1)
    ensures High(w) == high
  {
    var q := high / 16; var t := q / 0x100_0000_0000; var x := t / 0x800;
    assert q < 0x10_0000_0000_0000;
    assert t < 0x1000;
    assert x < 2;
    assert Shift11(w.unused1, x) == t;
    assert Shift40(w.address, t) == q;
    assert Shift4(w.unused0, q) == high;
  }

  lemma FieldsOfHigh(w: Word)
    ensures var high := High(w);
      && high % 16 == w.unused0 && high / 16 % 0x100_0000_0000 == w.address
      && high / 16 / 0x100_0000_0000 % 0x800 == w.unused1
      && (high / 16 / 0x100_0000_0000 / 0x800 % 2 == 1) == w.noExecute
  {
    var x := if w.noExecute then 1 else 0;
    var t := Shift11(w.unused1, x);
    var q := Shift40(w.address, t);
    hide Shift4, Shift40, Shift11;
    assert High(w) / 16 == q && q / 0x100_0000_0000 == t && t / 0x800 == x;
  }

  /** The bit fields of a cell are recovered from its 64-bit number. */
  lemma OfBitsBits(w: Word)
    ensures OfBits(Bits(w)) == w
  {
    FieldsOfHigh(w);
    hide High, Shift;
  }
}
