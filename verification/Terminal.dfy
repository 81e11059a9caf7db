/** The 80x25 text terminal, which shows the last 25 rows of an unbounded document. */
module Terminal {
  import opened Words
  import opened Strings

  const WIDTH: nat := 80
  const HEIGHT: nat := 25

  /** A VGA entry: a character and its colours (foreground in the low four bits). */
  datatype Cell = Cell(c: Byte, colours: Byte)

  // White on black.
  const COLOURS: Byte := 15

  const BLANK: Cell := Cell(32, COLOURS)

  type Row = r: seq<Cell> | |r| == 80 witness BlankRow()

  function BlankRow(): (r: seq<Cell>)
    ensures |r| == 80 && forall k :: 0 <= k < 80 ==> r[k] == BLANK
  {
    seq(80, _ => BLANK)
  }

  // ---- the screen ----

  /** The flat buffer and the cursor. */
  datatype Screen = Screen(cells: seq<Cell>, row: nat, col: nat)

  function Set(cells: seq<Cell>, i: nat, cell: Cell): (r: seq<Cell>)
    ensures |r| == |cells|
  {
    if i < |cells| then cells[i := cell] else cells
  }

  /** Rows move up by one and the last one is cleared. */
  function Scrolled(cells: seq<Cell>): seq<Cell>
    requires |cells| == 2000
  {
    cells[80..] + BlankRow()
  }

  function Clear(): Screen { Screen(seq(2000, _ => BLANK), 0, 0) }

  /** `term_putchar`. */
  function PutChar(s: Screen, c: Byte): Screen
    requires |s.cells| == 2000
  {
    if c == 13 then s.(col := 0)
    else if c == 8 then
      if s.col > 0 then
        var i := s.row * 80 + s.col - 1;
        s.(col := s.col - 1, cells := if i < 2000 then s.cells[i := s.cells[i].(c := 32)] else s.cells)
      else s
    else
      var row1 := if c == 10 then s.row + 1 else s.row;
      var col1 := if c == 10 then 0 else s.col;
      var row2 := if col1 == WIDTH then row1 + 1 else row1;
      var col2 := if col1 == WIDTH then 0 else col1;
      var row3 := if row2 == HEIGHT then row2 - 1 else row2;
      var cells3 := if row2 == HEIGHT then Scrolled(s.cells) else s.cells;
      if c == 10 then Screen(cells3, row3, col2)
      else Screen(Set(cells3, col2 + row3 * 80, Cell(c, COLOURS)), row3, col2 + 1)
  }

  // ---- the document ----

  /** All rows ever written, the cursor being in the last one. */
  datatype Document = Document(rows: seq<Row>, col: nat)

  const EMPTY: Document := Document([BlankRow()], 0)

  function PutLast(d: Document, col: nat, cell: Cell): seq<Row>
    requires d.rows != [] && col < 80
  {
    var last := |d.rows| - 1;
    d.rows[last := d.rows[last][col := cell]]
  }

  /** One more character: carriage return, backspace, newline, or one that takes a place, in a new row when the
      current one is full. */
  function Write(d: Document, c: Byte): (d': Document)
    requires DocOk(d)
    ensures DocOk(d')
  {
    match c
    case 13 => d.(col := 0)
    case 8 => if d.col == 0 then d else Document(PutLast(d, d.col - 1, BLANK), d.col - 1)
    case 10 => Document(d.rows + [BlankRow()], 0)
    case _ =>
      if d.col < WIDTH then Document(PutLast(d, d.col, Cell(c, COLOURS)), d.col + 1)
      else Document(d.rows + [BlankRow()[0 := Cell(c, COLOURS)]], 1)
  }

  /** Every cell is white on black. */
  predicate DocOk(d: Document) {
    && d.rows != [] && d.col <= WIDTH
    && forall r, k :: 0 <= r < |d.rows| && 0 <= k < 80 ==> d.rows[r][k].colours == COLOURS
  }

  /** How many rows have left the screen. */
  function Scrolls(d: Document): nat { if |d.rows| <= HEIGHT then 0 else |d.rows| - HEIGHT }

  /** A cell of the document; below the last row it is blank. */
  function CellAt(d: Document, r: nat, k: nat): Cell
    requires k < 80
  {
    if r < |d.rows| then d.rows[r][k] else BLANK
  }

  /** What the screen should have in row r, column k. */
  function Shown(d: Document, r: nat, k: nat): Cell
    requires k < 80
  {
    CellAt(d, Scrolls(d) + r, k)
  }

  function OnScreen(cells: seq<Cell>, r: nat, k: nat): Cell
    requires |cells| == 2000 && r < 25 && k < 80
  {
    cells[80 * r + k]
  }

  /** Row r of the screen shows row `Scrolls(d) + r` of the document, and the cursors agree. */
  ghost predicate Shows(s: Screen, d: Document) {
    && |s.cells| == 2000 && DocOk(d)
    && s.col == d.col <= WIDTH
    && Scrolls(d) + s.row == |d.rows| - 1 && s.row < HEIGHT
    && forall r: nat, k: nat {:trigger OnScreen(s.cells, r, k)} {:trigger Shown(d, r, k)} :: r < 25 && k < 80 ==>
        OnScreen(s.cells, r, k) == Shown(d, r, k)
  }

  lemma OnePlace(r: nat, k: nat, row: nat, col: nat)
    requires k < 80 && col < 80
    ensures 80 * r + k == 80 * row + col <==> r == row && k == col
  {
  }

  /** Writing one cell at the cursor. */
  lemma CellShows(s: Screen, d: Document, col: nat, cell: Cell, col': nat)
    requires Shows(s, d) && col < 80 && cell.colours == COLOURS && col' <= WIDTH
    ensures Shows(Screen(Set(s.cells, col + s.row * 80, cell), s.row, col'), Document(PutLast(d, col, cell), col'))
  {
    var s' := Screen(Set(s.cells, col + s.row * 80, cell), s.row, col');
    var d' := Document(PutLast(d, col, cell), col');
    forall r: nat, k: nat | r < 25 && k < 80 ensures OnScreen(s'.cells, r, k) == Shown(d', r, k) {
      OnePlace(r, k, s.row, col);
      assert OnScreen(s.cells, r, k) == Shown(d, r, k);
    }
  }

  /** Moving on to a new row, scrolling if the screen is full. */
  lemma RowShows(s: Screen, d: Document)
    requires Shows(s, d)
    ensures
      var cells := if s.row + 1 == HEIGHT then Scrolled(s.cells) else s.cells;
      var row := if s.row + 1 == HEIGHT then s.row else s.row + 1;
      Shows(Screen(cells, row, 0), Document(d.rows + [BlankRow()], 0))
  {
    var cells := if s.row + 1 == HEIGHT then Scrolled(s.cells) else s.cells;
    var d' := Document(d.rows + [BlankRow()], 0);
    forall r: nat, k: nat | r < 25 && k < 80 ensures OnScreen(cells, r, k) == Shown(d', r, k) {
      assert OnScreen(s.cells, r, k) == Shown(d, r, k);
      if s.row + 1 == HEIGHT && r < 24 {
        assert OnScreen(cells, r, k) == OnScreen(s.cells, r + 1, k) == Shown(d, r + 1, k);
      }
    }
  }

  lemma ReturnShows(s: Screen, d: Document)
    requires Shows(s, d)
    ensures Shows(s.(col := 0), d.(col := 0))
  {
    forall r: nat, k: nat | r < 25 && k < 80 ensures OnScreen(s.cells, r, k) == Shown(d.(col := 0), r, k) {
      assert OnScreen(s.cells, r, k) == Shown(d, r, k);
    }
  }

  /** One character keeps the screen a window on the document. */
  lemma PutCharShows(s: Screen, d: Document, c: Byte)
    requires Shows(s, d)
    ensures Shows(PutChar(s, c), Write(d, c))
  {
    hide OnScreen, Shown, Set, Scrolled, PutLast;
    var cells := if s.row + 1 == HEIGHT then Scrolled(s.cells) else s.cells;
    var row := if s.row + 1 == HEIGHT then s.row else s.row + 1;
    var fresh1 := Screen(cells, row, 0);
    match c
    case 13 =>
      ReturnShows(s, d);
    case 8 =>
      if s.col > 0 {
        BackspaceIsBlank(s, d);
        CellShows(s, d, s.col - 1, BLANK, s.col - 1);
      }
    case 10 =>
      RowShows(s, d);
    case _ =>
      if s.col < WIDTH {
        CellShows(s, d, s.col, Cell(c, COLOURS), s.col + 1);
      } else {
        RowShows(s, d);
        var d1 := Document(d.rows + [BlankRow()], 0);
        CellShows(fresh1, d1, 0, Cell(c, COLOURS), 1);
        NewRowCell(d.rows, Cell(c, COLOURS));
      }
  }

  lemma NewRowCell(rows: seq<Row>, cell: Cell)
    ensures PutLast(Document(rows + [BlankRow()], 0), 0, cell) == rows + [BlankRow()[0 := cell]]
  {
  }

  /** Backspace rewrites only the character of a cell, but its colours were the usual ones. */
  lemma BackspaceIsBlank(s: Screen, d: Document)
    requires Shows(s, d) && s.col > 0
    ensures var i := s.row * 80 + s.col - 1;
      i < 2000 && s.cells[i := s.cells[i].(c := 32)] == Set(s.cells, s.col - 1 + s.row * 80, BLANK)
  {
    assert OnScreen(s.cells, s.row, s.col - 1) == Shown(d, s.row, s.col - 1);
  }

  // ---- whole texts ----

  function PutAll(s: Screen, text: seq<Byte>): (s': Screen)
    requires |s.cells| == 2000
    ensures |s'.cells| == 2000
  {
    if text == [] then s
    else
      var s1 := PutAll(s, text[..|text| - 1]);
      var c := text[|text| - 1];
      PutCharKeepsSize(s1, c);
      PutChar(s1, c)
  }

  lemma PutCharKeepsSize(s: Screen, c: Byte)
    requires |s.cells| == 2000
    ensures |PutChar(s, c).cells| == 2000
  {
  }

  function WriteAll(d: Document, text: seq<Byte>): (d': Document)
    requires DocOk(d)
    ensures DocOk(d')
  {
    if text == [] then d else Write(WriteAll(d, text[..|text| - 1]), text[|text| - 1])
  }

  /** Whatever was on the screen, any further text keeps it a window on the document. */
  lemma {:induction false} PutAllShows(s: Screen, d: Document, text: seq<Byte>)
    requires Shows(s, d)
    ensures Shows(PutAll(s, text), WriteAll(d, text))
  {
    hide OnScreen, Shown, PutChar, Write;
    if text != [] {
      PutAllShows(s, d, text[..|text| - 1]);
      PutCharShows(PutAll(s, text[..|text| - 1]), WriteAll(d, text[..|text| - 1]), text[|text| - 1]);
    }
  }

  lemma OneMoreCharacter(s: Screen, text: seq<Byte>, c: Byte)
    requires |s.cells| == 2000
    ensures PutAll(s, text + [c]) == PutChar(PutAll(s, text), c)
  {
    hide PutChar;
    assert (text + [c])[..|text|] == text;
  }

  /** What is on the screen, and in the document, after a text since the screen was cleared. */
  function Printed(text: seq<Byte>): (s: Screen)
    ensures |s.cells| == 2000
  {
    PutAll(Clear(), text)
  }

  function Written(text: seq<Byte>): (d: Document)
    ensures DocOk(d)
  {
    WriteAll(EMPTY, text)
  }

  /** After any text since the screen was cleared, the screen shows the end of the document, and the cursor is on it
      (in the 81st column when a full row waits to wrap). */
  lemma ScreenShowsTheText(text: seq<Byte>)
    ensures Shows(Printed(text), Written(text))
  {
    forall r: nat, k: nat | r < 25 && k < 80 ensures OnScreen(Clear().cells, r, k) == Shown(EMPTY, r, k) {
    }
    PutAllShows(Clear(), EMPTY, text);
  }

  lemma OneCharacterLeavesRows(d: Document, c: Byte, r: nat)
    requires DocOk(d) && r < |d.rows| - 1
    ensures r < |Write(d, c).rows| - 1 && Write(d, c).rows[r] == d.rows[r]
  {
  }

  /** A row that the cursor has left never changes again, whatever is written later. */
  lemma {:induction false} LeftRowsAreFinal(text: seq<Byte>, more: seq<Byte>, r: nat)
    requires r < |Written(text).rows| - 1
    ensures r < |Written(text + more).rows| - 1 && Written(text + more).rows[r] == Written(text).rows[r]
  {
    hide Write;
    if more == [] {
      assert text + more == text;
    } else {
      var before, all := more[..|more| - 1], text + more;
      assert all[..|all| - 1] == text + before;
      LeftRowsAreFinal(text, before, r);
      OneCharacterLeavesRows(Written(text + before), more[|more| - 1], r);
    }
  }

  predicate Plain(c: Byte) { c != 8 && c != 10 && c != 13 }

  /** The n characters of a plain text fill the rows from left to right. */
  ghost predicate Filled(d: Document, text: seq<Byte>) {
    && DocOk(d) && 80 * (|d.rows| - 1) + d.col == |text| && (d.col == 0 <==> text == [])
    && forall i: nat {:trigger text[i]} :: i < |text| ==>
        i / 80 < |d.rows| && d.rows[i / 80][i % 80] == Cell(text[i], COLOURS)
  }

  lemma FilledOneMore(d: Document, text: seq<Byte>, c: Byte)
    requires Filled(d, text) && Plain(c)
    ensures Filled(Write(d, c), text + [c])
  {
    var d', n := Write(d, c), |text|;
    var row, col := if d.col < WIDTH then |d.rows| - 1 else |d.rows|, if d.col < WIDTH then d.col else 0;
    assert n == 80 * row + col && n / 80 == row && n % 80 == col;
    forall i: nat | i < n + 1 ensures i / 80 < |d'.rows| && d'.rows[i / 80][i % 80] == Cell((text + [c])[i], COLOURS) {
      if i < n {
        assert text[i] == (text + [c])[i];
        OnePlace(i / 80, i % 80, row, col);
      }
    }
  }

  /** Text without control characters fills the rows from left to right; a row that is just full is not left before
      the next character comes. */
  lemma {:induction false} PlainTextFillsRows(text: seq<Byte>)
    requires forall c :: c in text ==> Plain(c)
    ensures Filled(Written(text), text)
  {
    if text != [] {
      var before, c := text[..|text| - 1], text[|text| - 1];
      PlainTextFillsRows(before);
      FilledOneMore(Written(before), before, c);
      assert before + [c] == text;
    }
  }

  // ---- the terminal as it runs ----

  /** The buffer as cells, two bytes each. */
  function CellsOf(bytes: seq<Byte>): (cells: seq<Cell>)
    requires |bytes| == 4000
    ensures |cells| == 2000 && forall i: nat | i < 2000 :: cells[i] == Cell(bytes[2 * i], bytes[2 * i + 1])
  {
    seq(2000, i requires 0 <= i < 2000 => Cell(bytes[2 * i], bytes[2 * i + 1]))
  }

  /** A colour byte with its low, or its high, four bits replaced. */
  function WithForeground(colours: Byte, fg: Field4): Byte { colours / 16 * 16 + fg }

  function WithBackground(colours: Byte, bg: Field4): Byte { colours % 16 + 16 * bg }

  lemma WhiteOnBlack(colours: Byte)
    ensures WithBackground(WithForeground(colours, 15), 0) == COLOURS
  {
  }

  lemma SetBytes(bytes: seq<Byte>, i: nat, c: Byte, colours: Byte)
    requires |bytes| == 4000 && i < 2000
    ensures CellsOf(bytes[2 * i := c][2 * i + 1 := colours]) == CellsOf(bytes)[i := Cell(c, colours)]
  {
  }

  lemma EraseBytes(bytes: seq<Byte>, i: nat)
    requires |bytes| == 4000 && i < 2000
    ensures CellsOf(bytes[2 * i := 32]) == CellsOf(bytes)[i := CellsOf(bytes)[i].(c := 32)]
  {
  }

  lemma MovedCells(bytes: seq<Byte>)
    requires |bytes| == 4000
    ensures CellsOf(Moved(bytes, 0, 160, 3840)) == CellsOf(bytes)[80..] + CellsOf(bytes)[1920..]
  {
  }

  lemma LastRowCleared(cells: seq<Cell>, cells': seq<Cell>)
    requires |cells| == |cells'| == 2000
    requires forall k :: 0 <= k < 1920 ==> cells'[k] == cells[k + 80]
    requires forall k :: 1920 <= k < 2000 ==> cells'[k] == BLANK
    ensures cells' == Scrolled(cells)
  {
  }

  class Terminal {
    // The VGA buffer.
    const term: array<Byte>
    var termRow: nat
    var termCol: nat

    ghost predicate Valid()
      reads this
    {
      term.Length == 4000
    }

    /** The cursor is on the screen, or behind a full row. */
    ghost predicate Ready()
      reads this
    {
      Valid() && termRow < HEIGHT && termCol <= WIDTH
    }

    function State(): Screen
      requires Valid()
      reads this, term
    {
      Screen(CellsOf(term[..]), termRow, termCol)
    }

    constructor (vga: array<Byte>)
      requires vga.Length == 4000
      ensures Valid() && term == vga
    {
      term := vga;
      termRow, termCol := 0, 0;
    }

    /** Cell i becomes c, white on black. */
    method SetCell(i: nat, c: Byte)
      requires Valid() && i < 2000
      modifies term
      ensures CellsOf(term[..]) == CellsOf(old(term[..]))[i := Cell(c, COLOURS)]
    {
      hide CellsOf, WithForeground, WithBackground;
      WhiteOnBlack(term[2 * i + 1]);
      SetBytes(term[..], i, c, COLOURS);
      term[2 * i] := c;
      term[2 * i + 1] := WithForeground(term[2 * i + 1], 15);
      term[2 * i + 1] := WithBackground(term[2 * i + 1], 0);
      assert term[..] == old(term[..])[2 * i := c][2 * i + 1 := COLOURS];
    }

    /** The character of cell i becomes a blank; its colours stay. */
    method Erase(i: nat)
      requires Valid() && i < 2000
      modifies term
      ensures CellsOf(term[..]) == CellsOf(old(term[..]))[i := CellsOf(old(term[..]))[i].(c := 32)]
    {
      hide CellsOf;
      EraseBytes(term[..], i);
      term[2 * i] := 32;
      assert term[..] == old(term[..])[2 * i := 32];
    }

    /** `term_clear`. */
    method TermClear()
      requires Valid()
      modifies this, term
      ensures State() == Clear()
    {
      for i := 0 to 2000
        invariant forall k :: 0 <= k < i ==> CellsOf(term[..])[k] == BLANK
      {
        SetCell(i, 32);
      }
      termCol := 0;
      termRow := 0;
    }

    /** The scroll in `term_putchar`: a `memcpy` onto the start of the area it reads, then a cleared last row. */
    method Scroll()
      requires Valid() && termRow == HEIGHT
      modifies this`termRow, term
      ensures termRow == HEIGHT - 1 && CellsOf(term[..]) == Scrolled(CellsOf(old(term[..])))
    {
      hide CellsOf, Moved;
      MovedCells(term[..]);
      Memcpy(term, 0, 160, 3840);
      termRow := termRow - 1;
      ghost var cells := CellsOf(old(term[..]));
      for i := 0 to 80
        invariant termRow == HEIGHT - 1
        invariant forall k :: 0 <= k < 1920 ==> CellsOf(term[..])[k] == cells[k + 80]
        invariant forall k :: 1920 <= k < 1920 + i ==> CellsOf(term[..])[k] == BLANK
      {
        SetCell(i + termRow * 80, 32);
      }
      LastRowCleared(cells, CellsOf(term[..]));
    }

    /** `term_putchar`. */
    method TermPutchar(c: Byte)
      requires Ready()
      modifies this, term
      ensures Ready() && State() == PutChar(old(State()), c)
    {
      hide CellsOf, Scrolled;
      if c == 13 {
        termCol := 0;
        return;
      } else if c == 8 {
        if termCol > 0 {
          termCol := termCol - 1;
          Erase(termRow * 80 + termCol);
        }
        return;
      }
      if c == 10 {
        termCol := 0;
        termRow := termRow + 1;
      }
      if termCol == WIDTH {
        termCol := 0;
        termRow := termRow + 1;
      }
      if termRow == HEIGHT {
        Scroll();
      }
      if c != 10 {
        SetCell(termCol + termRow * 80, c);
        termCol := termCol + 1;
      }
    }

    /** Printing a text on a cleared screen, as `kprint_s` does: the screen shows the end of the document. */
    method PrintText(text: seq<Byte>)
      requires Valid()
      modifies this, term
      ensures State() == Printed(text) && Shows(State(), Written(text))
    {
      TermClear();
      for i := 0 to |text|
        invariant Ready() && State() == Printed(text[..i])
      {
        OneMoreCharacter(Clear(), text[..i], text[i]);
        assert text[..i + 1] == text[..i] + [text[i]];
        TermPutchar(text[i]);
      }
      assert text[..|text|] == text;
      ScreenShowsTheText(text);
    }
  }
}
