/** The file format of executables: its two headers, byte by byte in the order of the format, numbers least
    significant byte first. */
module ElfFile {
  import opened Words

  /** The n bytes of a number, least significant first. */
  function LittleEndian(v: nat, n: nat): (bytes: seq<Byte>)
    ensures |bytes| == n && (n > 0 ==> bytes[0] == v % 256)
  {
    if n == 0 then [] else [v % 256] + LittleEndian(v / 256, n - 1)
  }

  type Half = n: nat | n < 0x1_0000

  type Word32 = n: nat | n < 0x1_0000_0000

  type Word64 = n: nat | n < 0x1_0000_0000_0000_0000

  type Ident = s: seq<Byte> | |s| == 16 witness [0, 0, 0, 0, 0, 0, 0, 0, 0, 0, 0, 0, 0, 0, 0, 0]

  /** The header at the start of the file. */
  datatype FileHeader = FileHeader(
    ident: Ident,
    kind: Half,
    machine: Half,
    version: Word32,
    entry: Word64,
    tableOffset: Word64,
    sectionOffset: Word64,
    flags: Word32,
    headerSize: Half,
    programHeaderSize: Half,
    programHeaders: Half,
    sectionHeaderSize: Half,
    sectionHeaders: Half,
    nameSection: Half
  )

  /** An entry of the program header table. */
  datatype ProgramHeader = ProgramHeader(
    kind: Word32,
    flags: Word32,
    offset: Word64,
    vaddr: Word64,
    paddr: Word64,
    filesz: Word64,
    memsz: Word64,
    align: Word64
  )

  function HeaderBytes(h: FileHeader): (bytes: seq<Byte>)
    ensures |bytes| == 64
  {
    h.ident + (LittleEndian(h.kind, 2) + (LittleEndian(h.machine, 2) + (LittleEndian(h.version, 4) +
    (LittleEndian(h.entry, 8) + (LittleEndian(h.tableOffset, 8) + (LittleEndian(h.sectionOffset, 8) +
    (LittleEndian(h.flags, 4) + (LittleEndian(h.headerSize, 2) + (LittleEndian(h.programHeaderSize, 2) +
    (LittleEndian(h.programHeaders, 2) + (LittleEndian(h.sectionHeaderSize, 2) +
    (LittleEndian(h.sectionHeaders, 2) + LittleEndian(h.nameSection, 2)))))))))))))
  }

  function ProgramBytes(p: ProgramHeader): (bytes: seq<Byte>)
    ensures |bytes| == 56
  {
    LittleEndian(p.kind, 4) + (LittleEndian(p.flags, 4) + (LittleEndian(p.offset, 8) + (LittleEndian(p.vaddr, 8) +
    (LittleEndian(p.paddr, 8) + (LittleEndian(p.filesz, 8) + (LittleEndian(p.memsz, 8) +
    LittleEndian(p.align, 8)))))))
  }

  function TableBytes(table: seq<ProgramHeader>): (bytes: seq<Byte>)
    ensures |bytes| == 56 * |table|
  {
    if table == [] then [] else ProgramBytes(table[0]) + TableBytes(table[1..])
  }

  /** The file holds these bytes at this offset. */
  ghost predicate Holds(file: seq<Byte>, at: nat, bytes: seq<Byte>) {
    at + |bytes| <= |file| && file[at..at + |bytes|] == bytes
  }

  /** The file has this header, and this program header table where the header says. */
  ghost predicate Describes(file: seq<Byte>, h: FileHeader, table: seq<ProgramHeader>) {
    Holds(file, 0, HeaderBytes(h)) && h.programHeaders == |table| && Holds(file, h.tableOffset, TableBytes(table))
  }

  /** A file with these headers: anything may stand between the header and the table, and after the table. */
  function Encode(h: FileHeader, gap: seq<Byte>, table: seq<ProgramHeader>, rest: seq<Byte>): seq<Byte> {
    HeaderBytes(h) + gap + TableBytes(table) + rest
  }

  lemma EncodedIsDescribed(h: FileHeader, gap: seq<Byte>, table: seq<ProgramHeader>, rest: seq<Byte>)
    requires h.tableOffset == 64 + |gap| && h.programHeaders == |table|
    ensures Describes(Encode(h, gap, table, rest), h, table)
  {
  }

  lemma HoldsParts(file: seq<Byte>, at: nat, a: seq<Byte>, b: seq<Byte>)
    requires Holds(file, at, a + b)
    ensures Holds(file, at, a) && Holds(file, at + |a|, b)
  {
    var n := at + |a + b|;
    assert file[at..n][..|a|] == a && file[at..n][|a|..] == b;
    assert file[at..at + |a|] == file[at..n][..|a|];
    assert file[at + |a|..n] == file[at..n][|a|..];
  }

  lemma {:induction false} EntryHeld(file: seq<Byte>, at: nat, table: seq<ProgramHeader>, k: nat)
    requires k < |table| && Holds(file, at, TableBytes(table))
    ensures Holds(file, at + 56 * k, ProgramBytes(table[k]))
    decreases k
  {
    hide Holds, ProgramBytes;
    HoldsParts(file, at, ProgramBytes(table[0]), TableBytes(table[1..]));
    if k > 0 {
      EntryHeld(file, at + 56, table[1..], k - 1);
    }
  }

  /** Where each field of the two headers is. */
  lemma HeaderFields(file: seq<Byte>, h: FileHeader)
    requires Holds(file, 0, HeaderBytes(h))
    ensures Holds(file, 16, LittleEndian(h.kind, 2)) && Holds(file, 24, LittleEndian(h.entry, 8))
    ensures Holds(file, 32, LittleEndian(h.tableOffset, 8)) && Holds(file, 56, LittleEndian(h.programHeaders, 2))
  {
    hide Holds, LittleEndian;
    var b13 := LittleEndian(h.sectionHeaders, 2) + LittleEndian(h.nameSection, 2);
    var b12 := LittleEndian(h.sectionHeaderSize, 2) + b13;
    var b11 := LittleEndian(h.programHeaders, 2) + b12;
    var b10 := LittleEndian(h.programHeaderSize, 2) + b11;
    var b9 := LittleEndian(h.headerSize, 2) + b10;
    var b8 := LittleEndian(h.flags, 4) + b9;
    var b7 := LittleEndian(h.sectionOffset, 8) + b8;
    var b6 := LittleEndian(h.tableOffset, 8) + b7;
    var b5 := LittleEndian(h.entry, 8) + b6;
    var b4 := LittleEndian(h.version, 4) + b5;
    var b3 := LittleEndian(h.machine, 2) + b4;
    var b2 := LittleEndian(h.kind, 2) + b3;
    HoldsParts(file, 0, h.ident, b2);
    HoldsParts(file, 16, LittleEndian(h.kind, 2), b3);
    HoldsParts(file, 18, LittleEndian(h.machine, 2), b4);
    HoldsParts(file, 20, LittleEndian(h.version, 4), b5);
    HoldsParts(file, 24, LittleEndian(h.entry, 8), b6);
    HoldsParts(file, 32, LittleEndian(h.tableOffset, 8), b7);
    HoldsParts(file, 40, LittleEndian(h.sectionOffset, 8), b8);
    HoldsParts(file, 48, LittleEndian(h.flags, 4), b9);
    HoldsParts(file, 52, LittleEndian(h.headerSize, 2), b10);
    HoldsParts(file, 54, LittleEndian(h.programHeaderSize, 2), b11);
    HoldsParts(file, 56, LittleEndian(h.programHeaders, 2), b12);
  }

  lemma ProgramFields(file: seq<Byte>, at: nat, p: ProgramHeader)
    requires Holds(file, at, ProgramBytes(p))
    ensures Holds(file, at, LittleEndian(p.kind, 4)) && Holds(file, at + 4, LittleEndian(p.flags, 4))
    ensures Holds(file, at + 8, LittleEndian(p.offset, 8)) && Holds(file, at + 16, LittleEndian(p.vaddr, 8))
    ensures Holds(file, at + 32, LittleEndian(p.filesz, 8)) && Holds(file, at + 40, LittleEndian(p.memsz, 8))
  {
    hide Holds, LittleEndian;
    var b7 := LittleEndian(p.memsz, 8) + LittleEndian(p.align, 8);
    var b6 := LittleEndian(p.filesz, 8) + b7;
    var b5 := LittleEndian(p.paddr, 8) + b6;
    var b4 := LittleEndian(p.vaddr, 8) + b5;
    var b3 := LittleEndian(p.offset, 8) + b4;
    var b2 := LittleEndian(p.flags, 4) + b3;
    HoldsParts(file, at, LittleEndian(p.kind, 4), b2);
    HoldsParts(file, at + 4, LittleEndian(p.flags, 4), b3);
    HoldsParts(file, at + 8, LittleEndian(p.offset, 8), b4);
    HoldsParts(file, at + 16, LittleEndian(p.vaddr, 8), b5);
    HoldsParts(file, at + 24, LittleEndian(p.paddr, 8), b6);
    HoldsParts(file, at + 32, LittleEndian(p.filesz, 8), b7);
    HoldsParts(file, at + 40, LittleEndian(p.memsz, 8), LittleEndian(p.align, 8));
  }
}
