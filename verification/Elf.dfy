/** Parsing of ELF executables (shared/elf_parser/src/lib.rs). */
module Elf {
  import opened Machine
  import opened Bytes

  datatype Error =
    | ParseFailure | NotEnoughBytes | WrongMagic | WrongBitness | WrongEndian | WrongVersion(version: byte)
    | WrongType(kind: int) | WrongMachine(machine: int) | WrongAlignment | RawSizeTooLarge

  /** Little-endian value of a byte string. */
  function LittleEndian(b: seq<byte>): (r: nat)
    ensures r < Place(|b|)
  {
    if b == [] then 0 else b[0] + 256 * LittleEndian(b[1..])
  }

  /** `n` little-endian bytes at `offset`, if the file has them. */
  function Field(file: seq<byte>, offset: nat, n: nat): (r: Option<nat>)
    ensures r.Some? <==> offset + n <= |file|
    ensures r.Some? && n == 8 ==> r.value <= U64_MAX
  {
    EightPlaces();
    if offset + n <= |file| then Some(LittleEndian(file[offset..offset + n])) else None
  }

  /** The validated header of a file. */
  datatype Image = Image(file: seq<byte>, phOffset: nat, phEntrySize: nat, phNum: nat, entry: nat)

  /** `Result<Elf, Error>`, plus the slice panic on files shorter than the magic number. */
  datatype ParseResult = Parsed(image: Image) | Refused(error: Error) | Panicked

  const MAGIC: seq<byte> := [0x7F, 0x45, 0x4C, 0x46]

  function Parse(file: seq<byte>): ParseResult {
    if |file| < 4 then Panicked
    else if file[..4] != MAGIC then Refused(WrongMagic)
    else match (Field(file, 0x04, 1), Field(file, 0x05, 1), Field(file, 0x06, 1), Field(file, 0x10, 2), Field(file, 0x12, 2))
      case (None, _, _, _, _) => Refused(ParseFailure)
      case (Some(bits), endian, version, kind, machine) =>
        if bits != 2 then Refused(WrongBitness)
        else if endian.None? then Refused(ParseFailure)
        else if endian.value != 1 then Refused(WrongEndian)
        else if version.None? then Refused(ParseFailure)
        else if version.value != 1 then Refused(WrongVersion(file[6]))
        else if kind.None? then Refused(ParseFailure)
        else if kind.value != 2 then Refused(WrongType(kind.value))
        else if machine.None? then Refused(ParseFailure)
        else if machine.value != 0x3E then Refused(WrongMachine(machine.value))
        else ParseTable(file)
  }

  function ParseTable(file: seq<byte>): ParseResult {
    match (Field(file, 0x18, 8), Field(file, 0x20, 8), Field(file, 0x36, 2), Field(file, 0x38, 2))
    case (Some(entry), Some(offset), Some(size), Some(num)) =>
      var end := offset + num * size;
      if num * size > U64_MAX || end > U64_MAX then Refused(ParseFailure)
      else if |file| < end then Refused(NotEnoughBytes)
      else Parsed(Image(file, offset, size, num, entry))
    case _ => Refused(ParseFailure)
  }

  /* ---- Program headers ------------------------------------------------------------------- */

  datatype Flags = Flags(read: bool, write: bool, execute: bool)

  /** A loadable segment, as the loader wants it: an aligned address and the offset of the data. */
  datatype Segment = Segment(vaddr: u64, offset: int, vsize: nat, bytes: seq<byte>, flags: Flags)

  datatype Item = Loadable(segment: Segment) | Bad(error: Error) | Skipped | Stop

  function FlagsOf(f: nat): Flags { Flags(f / 4 % 2 == 1, f / 2 % 2 == 1, f % 2 == 1) }

  function HeaderOffset(image: Image, i: nat): nat { image.phOffset + i * image.phEntrySize }

  /** What the iterator makes of the program header at `h`. `Stop` ends the iteration: a field that
      lies outside the file makes the source return `None`. */
  function ReadHeader(file: seq<byte>, h: nat): Item {
    match (Field(file, h, 4), Field(file, h + 4, 4), Field(file, h + 8, 8), Field(file, h + 0x10, 8),
           Field(file, h + 0x20, 8), Field(file, h + 0x28, 8))
    case (None, _, _, _, _, _) => Stop
    case (Some(kind), flags, rawOffset, vaddr, rawSize, vsize) =>
      if kind != 1 then Skipped
      else if flags.None? || rawOffset.None? || vaddr.None? || rawSize.None? || vsize.None? then Stop
      else if rawSize.value > vsize.value then Bad(RawSizeTooLarge)
      else if rawOffset.value + rawSize.value > U64_MAX then Stop
      else if rawOffset.value + rawSize.value > |file| then Bad(NotEnoughBytes)
      else
        var align := Field(file, h + 0x30, 8);
        if align.None? then Stop
        else if align.value != 0x1000 then Bad(WrongAlignment)
        else
          var aligned := vaddr.value - vaddr.value % 0x1000;
          Loadable(Segment(aligned, vaddr.value - aligned, vsize.value,
                           file[rawOffset.value..rawOffset.value + rawSize.value], FlagsOf(flags.value)))
  }

  /** A 64-bit little-endian version 1 executable for x86-64, with its program headers inside the file. */
  ghost predicate IsExecutable(file: seq<byte>) {
    && |file| >= 0x3A && file[..4] == MAGIC && file[4] == 2 && file[5] == 1 && file[6] == 1
    && file[0x10] == 2 && file[0x11] == 0 && file[0x12] == 0x3E && file[0x13] == 0
    && LittleEndian(file[0x20..0x28]) + LittleEndian(file[0x38..0x3A]) * LittleEndian(file[0x36..0x38]) <= |file|
  }

  lemma OneByte(file: seq<byte>, at: nat)
    requires at < |file|
    ensures Field(file, at, 1) == Some(file[at])
  {
    var b := file[at..at + 1];
    assert LittleEndian(b[1..]) == 0;
  }

  lemma TwoBytes(file: seq<byte>, at: nat)
    requires at + 1 < |file|
    ensures var low: int, high: int := file[at], file[at + 1]; Field(file, at, 2) == Some(low + 256 * high)
  {
    var b := file[at..at + 2];
    var c := b[1..];
    assert c[0] == file[at + 1] && c[1..] == [];
    assert LittleEndian(c) == c[0] + 256 * LittleEndian(c[1..]);
    assert LittleEndian(b) == b[0] + 256 * LittleEndian(b[1..]);
  }

  /** Exactly such files are accepted, if their length is that of a slice. */
  lemma ParseAccepts(file: seq<byte>)
    requires |file| <= U64_MAX
    ensures Parse(file).Parsed? <==> IsExecutable(file)
  {
    if |file| >= 0x3A {
      OneByte(file, 4);
      OneByte(file, 5);
      OneByte(file, 6);
      TwoBytes(file, 0x10);
      TwoBytes(file, 0x12);
      hide LittleEndian;
      TableAccepts(file);
      hide ParseTable, Field;
    } else {
      hide LittleEndian;
      assert Field(file, 0x38, 2).None?;
      hide Field;
    }
  }

  /** The first bytes of every accepted file: magic number, 64 bits, little endian, version 1. */
  const IDENT: seq<byte> := MAGIC + [2, 1, 1]

  predicate Starts(file: seq<byte>, n: nat) { n <= |IDENT| && n <= |file| && file[..n] == IDENT[..n] }

  /** The little-endian half word at `at`. */
  function Half(file: seq<byte>, at: nat): int
    requires at + 1 < |file|
  {
    var low: int, high: int := file[at], file[at + 1];
    low + 256 * high
  }

  /** Which error is reported: the one for the first field that is wrong; a file that ends before is a parse failure,
      or a panic if it is shorter than the magic number. */
  lemma ParseErrors(file: seq<byte>, v: byte, x: int)
    ensures Parse(file).Panicked? <==> |file| < 4
    ensures Parse(file) == Refused(WrongMagic) <==> |file| >= 4 && !Starts(file, 4)
    ensures Parse(file) == Refused(WrongBitness) <==> |file| >= 5 && Starts(file, 4) && file[4] != 2
    ensures Parse(file) == Refused(WrongEndian) <==> |file| >= 6 && Starts(file, 5) && file[5] != 1
    ensures Parse(file) == Refused(WrongVersion(v)) <==> |file| >= 7 && Starts(file, 6) && file[6] == v != 1
    ensures Parse(file) == Refused(WrongType(x)) <==> |file| >= 0x12 && Starts(file, 7) && Half(file, 0x10) == x != 2
    ensures Parse(file) == Refused(WrongMachine(x)) <==>
      |file| >= 0x14 && Starts(file, 7) && Half(file, 0x10) == 2 && Half(file, 0x12) == x != 0x3E
    ensures Parse(file) == Refused(NotEnoughBytes) ==> |file| >= 0x3A && Starts(file, 7)
  {
    StartsBytes(file);
    if 4 < |file| { OneByte(file, 4); }
    if 5 < |file| { OneByte(file, 5); }
    if 6 < |file| { OneByte(file, 6); }
    if 0x11 < |file| { TwoBytes(file, 0x10); }
    if 0x13 < |file| { TwoBytes(file, 0x12); }
    hide LittleEndian, Starts;
    TableErrors(file);
    hide ParseTable;
  }

  lemma StartsBytes(file: seq<byte>)
    ensures Starts(file, 4) <==> |file| >= 4 && file[..4] == MAGIC
    ensures Starts(file, 5) <==> Starts(file, 4) && |file| >= 5 && file[4] == 2
    ensures Starts(file, 6) <==> Starts(file, 5) && |file| >= 6 && file[5] == 1
    ensures Starts(file, 7) <==> Starts(file, 6) && |file| >= 7 && file[6] == 1
  {
    assert IDENT[..4] == MAGIC;
    if |file| >= 5 { assert file[..5] == file[..4] + [file[4]] && IDENT[..5] == MAGIC + [2]; }
    if |file| >= 6 { assert file[..6] == file[..5] + [file[5]] && IDENT[..6] == IDENT[..5] + [1]; }
    if |file| >= 7 { assert file[..7] == file[..6] + [file[6]] && IDENT[..7] == IDENT[..6] + [1]; }
  }

  lemma TableErrors(file: seq<byte>)
    ensures var r := ParseTable(file); r.Parsed? || r == Refused(ParseFailure) || (r == Refused(NotEnoughBytes) && |file| >= 0x3A)
  {
    hide LittleEndian;
  }

  lemma TableAccepts(file: seq<byte>)
    requires 0x3A <= |file| <= U64_MAX
    ensures ParseTable(file).Parsed? <==>
      LittleEndian(file[0x20..0x28]) + LittleEndian(file[0x38..0x3A]) * LittleEndian(file[0x36..0x38]) <= |file|
  {
    hide LittleEndian;
    MulMonotone(0, LittleEndian(file[0x38..0x3A]), LittleEndian(file[0x36..0x38]));
  }

  /** The fields of the file header that locate the program headers, and the entry point. */
  function PhOff(file: seq<byte>): nat
    requires |file| >= 0x3A
  {
    LittleEndian(file[0x20..0x28])
  }

  function PhEntSize(file: seq<byte>): nat
    requires |file| >= 0x3A
  {
    LittleEndian(file[0x36..0x38])
  }

  function PhNum(file: seq<byte>): nat
    requires |file| >= 0x3A
  {
    LittleEndian(file[0x38..0x3A])
  }

  function EntryPoint(file: seq<byte>): nat
    requires |file| >= 0x3A
  {
    LittleEndian(file[0x18..0x20])
  }

  /** An accepted image has exactly those fields. */
  lemma ParsedFields(file: seq<byte>)
    requires Parse(file).Parsed?
    ensures |file| >= 0x3A
    ensures Parse(file).image == Image(file, PhOff(file), PhEntSize(file), PhNum(file), EntryPoint(file))
    ensures PhOff(file) + PhNum(file) * PhEntSize(file) <= |file|
  {
    hide LittleEndian;
  }

  /** Header `i` starts at e_phoff + i * e_phentsize. */
  function HeaderAt(file: seq<byte>, i: nat): nat
    requires |file| >= 0x3A
  {
    PhOff(file) + i * PhEntSize(file)
  }

  /** With a whole header in the file, the iterator ends only at a segment whose end in the file overflows. */
  lemma StopsAtOverflow(file: seq<byte>, h: nat)
    requires h + 0x38 <= |file|
    ensures ReadHeader(file, h).Stop? <==>
      && Field(file, h, 4) == Some(1) && Field(file, h + 0x20, 8).value <= Field(file, h + 0x28, 8).value
      && Field(file, h + 8, 8).value + Field(file, h + 0x20, 8).value > U64_MAX
  {
    hide Field, FlagsOf, LittleEndian;
  }

  /** A header that is wholly in the file is loadable exactly if it is of type PT_LOAD, has no more bytes in the file
      than in memory, has them inside the file, and asks for page alignment; other types are skipped, and each error is told apart. */
  lemma LoadableIff(file: seq<byte>, h: nat)
    requires h + 0x38 <= |file| <= U64_MAX
    ensures ReadHeader(file, h).Skipped? <==> Field(file, h, 4) != Some(1)
    ensures ReadHeader(file, h).Loadable? <==>
      && Field(file, h, 4) == Some(1) && Field(file, h + 0x20, 8).value <= Field(file, h + 0x28, 8).value
      && Field(file, h + 8, 8).value + Field(file, h + 0x20, 8).value <= |file| && Field(file, h + 0x30, 8) == Some(0x1000)
    ensures ReadHeader(file, h) == Bad(RawSizeTooLarge) <==>
      Field(file, h, 4) == Some(1) && Field(file, h + 0x20, 8).value > Field(file, h + 0x28, 8).value
    ensures ReadHeader(file, h) == Bad(NotEnoughBytes) <==>
      && Field(file, h, 4) == Some(1) && Field(file, h + 0x20, 8).value <= Field(file, h + 0x28, 8).value
      && |file| < Field(file, h + 8, 8).value + Field(file, h + 0x20, 8).value <= U64_MAX
    ensures ReadHeader(file, h) == Bad(WrongAlignment) <==>
      && Field(file, h, 4) == Some(1) && Field(file, h + 0x20, 8).value <= Field(file, h + 0x28, 8).value
      && Field(file, h + 8, 8).value + Field(file, h + 0x20, 8).value <= |file| && Field(file, h + 0x30, 8) != Some(0x1000)
  {
    hide Field, FlagsOf, LittleEndian;
  }

  /** The program header table of an accepted file lies inside it. With entries of at least the standard
      size the iterator therefore ends early only at a segment whose end in the file overflows. */
  lemma HeadersInFile(file: seq<byte>, i: nat)
    requires Parse(file).Parsed?
    ensures |file| >= 0x3A && HeaderOffset(Parse(file).image, i) == HeaderAt(file, i)
    ensures i < PhNum(file) ==> HeaderAt(file, i) + PhEntSize(file) <= |file|
    ensures i < PhNum(file) && PhEntSize(file) >= 0x38 ==>
      var h := HeaderAt(file, i);
      (ReadHeader(file, h).Stop? <==>
         && Field(file, h, 4) == Some(1) && Field(file, h + 0x20, 8).value <= Field(file, h + 0x28, 8).value
         && Field(file, h + 8, 8).value + Field(file, h + 0x20, 8).value > U64_MAX)
  {
    hide Field, Parse, ReadHeader, PhOff, PhEntSize, PhNum;
    ParsedFields(file);
    if i < PhNum(file) {
      MulMonotone(i + 1, PhNum(file), PhEntSize(file));
      assert (i + 1) * PhEntSize(file) == i * PhEntSize(file) + PhEntSize(file);
      if PhEntSize(file) >= 0x38 { StopsAtOverflow(file, HeaderAt(file, i)); }
    }
  }

  /** A PT_LOAD header as section 5 (Program Header) of the System V gABI defines its fields. */
  ghost predicate IsLoadHeader(file: seq<byte>, h: nat, vaddr: int, offset: int, filesz: int, memsz: int) {
    && Field(file, h, 4) == Some(1) && Field(file, h + 8, 8) == Some(offset) && Field(file, h + 0x10, 8) == Some(vaddr)
    && Field(file, h + 0x20, 8) == Some(filesz) && Field(file, h + 0x28, 8) == Some(memsz)
  }

  lemma SegmentAligned(file: seq<byte>, h: nat)
    requires ReadHeader(file, h).Loadable?
    ensures var s := ReadHeader(file, h).segment; s.vaddr % 0x1000 == 0 && 0 <= s.offset < 0x1000
  {
    hide Field, FlagsOf, LittleEndian;
    var v := Field(file, h + 0x10, 8).value;
    DivModUnique(v - v % 0x1000, v / 0x1000, 0, 0x1000);
  }

  /** Its rights are those of the p_flags word: bit 2 reading, bit 1 writing, bit 0 execution. */
  lemma SegmentFlags(file: seq<byte>, h: nat, f: int)
    requires ReadHeader(file, h).Loadable? && Field(file, h + 4, 4) == Some(f)
    ensures var g := ReadHeader(file, h).segment.flags;
      f >= 0 && (g.read <==> f / 4 % 2 == 1) && (g.write <==> f / 2 % 2 == 1) && (g.execute <==> f % 2 == 1)
  {
    hide Field, LittleEndian;
  }

  /** The segment describes exactly the bytes that the header asks for. */
  lemma SegmentMatchesHeader(file: seq<byte>, h: nat, vaddr: int, offset: int, filesz: int, memsz: int)
    requires IsLoadHeader(file, h, vaddr, offset, filesz, memsz) && ReadHeader(file, h).Loadable?
    ensures var s := ReadHeader(file, h).segment;
      && s.vaddr % 0x1000 == 0 && 0 <= s.offset < 0x1000 && s.vaddr + s.offset == vaddr
      && s.vsize == memsz && 0 <= filesz <= memsz && 0 <= offset && offset + filesz <= |file| && s.bytes == file[offset..offset + filesz]
  {
    hide Field, FlagsOf, LittleEndian;
    SegmentAligned(file, h);
  }
}
