/** Reads an ELF file's headers into a layout. */
module ElfParser {
  import opened Bytes
  import opened ElfFormat
  import opened ElfImageTypeClassifier
  import Alignment

  datatype ParseError =
    | Truncated | InvalidMagic | UnsupportedClass | UnsupportedEndianness | UnsupportedMachine | UnsupportedType
    | InvalidProgramHeaders | InvalidSectionHeaders | InvalidLoadSegment | InvalidEntryPoint

  const EXECUTABLE_TYPE: U16 := 2
  const DYNAMIC_TYPE: U16 := 3
  const MAXIMUM_PROGRAM_HEADERS := 128
  const IDENT_SIZE := 16
  const MAGIC: Bytes := [0x7f, 0x45, 0x4c, 0x46]

  datatype FileHeader = FileHeader(
    kind: U16, machine: U16, version: U32, entry: U64, programOffset: U64, sectionOffset: U64, flags: U32,
    headerSize: U16, programEntrySize: U16, programCount: U16, sectionEntrySize: U16, sectionCount: U16)

  function Half(b: Bytes, offset: nat): U16
    requires Fits(b, offset, 2)
  {
    Powers();
    ReadAt(b, offset, 2)
  }

  function Word(b: Bytes, offset: nat): U32
    requires Fits(b, offset, 4)
  {
    Powers();
    ReadAt(b, offset, 4)
  }

  function Address(b: Bytes, c: ElfClass, offset: nat): U64
    requires Fits(b, offset, c.AddressWidth())
  {
    AddressRange(c);
    ReadAt(b, offset, c.AddressWidth())
  }

  function HeaderOf(b: Bytes, c: ElfClass): FileHeader
    requires |b| >= c.HeaderSize()
  {
    FileHeader(Half(b, 16), Half(b, 18), Word(b, 20), Address(b, c, c.EntryOffset()), Address(b, c, c.ProgramTableOffset()),
               Address(b, c, c.SectionTableOffset()), Word(b, c.FlagsOffset()), Half(b, c.HeaderSizeOffset()),
               Half(b, c.ProgramEntrySizeOffset()), Half(b, c.ProgramCountOffset()), Half(b, c.SectionEntrySizeOffset()),
               Half(b, c.SectionCountOffset()))
  }

  function ProgramHeaderAt(b: Bytes, c: ElfClass, offset: nat): ProgramHeader
    requires Fits(b, offset, c.ProgramHeaderSize())
  {
    ProgramHeader(Word(b, offset), Word(b, offset + c.ProgramFlags()), Address(b, c, offset + c.ProgramFileOffset()),
                  Address(b, c, offset + c.ProgramVirtualAddress()), Address(b, c, offset + c.ProgramPhysicalAddress()),
                  Address(b, c, offset + c.ProgramFileSize()), Address(b, c, offset + c.ProgramMemorySize()),
                  Address(b, c, offset + c.ProgramAlignment()))
  }

  predicate PowerOfTwoOrZero(v: nat) {
    v == 0 || Alignment.IsPowerOfTwo(v)
  }

  predicate LoadValid(h: ProgramHeader) {
    h.fileSize <= h.memorySize && h.virtualAddress + h.memorySize <= U64_MAX && h.fileOffset + h.fileSize <= U64_MAX
    && PowerOfTwoOrZero(h.alignment)
    && (h.alignment > 1 ==> h.virtualAddress % h.alignment == h.fileOffset % h.alignment)
  }

  predicate HoldsEntry(h: ProgramHeader, entry: U64) {
    h.kind == PT_LOAD && h.Executable() && h.virtualAddress <= entry < h.virtualAddress + h.memorySize
  }

  predicate EntryExecutable(headers: seq<ProgramHeader>, entry: U64) {
    exists k :: 0 <= k < |headers| && HoldsEntry(headers[k], entry)
  }

  predicate HasLoad(headers: seq<ProgramHeader>) {
    exists k :: 0 <= k < |headers| && headers[k].kind == PT_LOAD
  }

  predicate LoadsValid(headers: seq<ProgramHeader>) {
    forall k :: 0 <= k < |headers| && headers[k].kind == PT_LOAD ==> LoadValid(headers[k])
  }

  function ProgramOffset(c: ElfClass, table: nat, index: nat): nat {
    table + index * c.ProgramHeaderSize()
  }

  /** The first `n` entries of the program header table. */
  function ProgramHeaders(b: Bytes, c: ElfClass, table: nat, n: nat): (headers: seq<ProgramHeader>)
    requires Fits(b, table, n * c.ProgramHeaderSize())
    ensures |headers| == n
  {
    if n == 0 then []
    else
      EntryInTable(b, c, table, n, n - 1);
      ProgramHeaders(b, c, table, n - 1) + [ProgramHeaderAt(b, c, ProgramOffset(c, table, n - 1))]
  }

  lemma EntryInTable(b: Bytes, c: ElfClass, table: nat, n: nat, k: nat)
    requires Fits(b, table, n * c.ProgramHeaderSize()) && k < n
    ensures Fits(b, ProgramOffset(c, table, k), c.ProgramHeaderSize())
    ensures ProgramOffset(c, table, k) + c.ProgramHeaderSize() <= table + n * c.ProgramHeaderSize()
    ensures Fits(b, table, k * c.ProgramHeaderSize())
  {
    assert (k + 1) * c.ProgramHeaderSize() <= n * c.ProgramHeaderSize();
    assert (k + 1) * c.ProgramHeaderSize() == k * c.ProgramHeaderSize() + c.ProgramHeaderSize();
  }

  function LayoutOf(c: ElfClass, f: FileHeader, headers: seq<ProgramHeader>, kind: ImageType): Layout {
    Layout(c, kind, f.entry, f.programOffset, f.programEntrySize, f.programCount, f.sectionOffset, f.sectionEntrySize,
           f.sectionCount, f.flags, headers)
  }

  /** The image type, when the entry point suits it. */
  function TypeOf(b: Bytes, layout: Layout, kind: U16, extent: Extent): Option<ImageType> {
    var executable := EntryExecutable(layout.programHeaders, layout.entryPoint);
    if kind == EXECUTABLE_TYPE then if layout.entryPoint == 0 || !executable then None else Some(Executable)
    else DynamicType(b, layout, executable, extent)
  }

  predicate TablesFit(b: Bytes, c: ElfClass, f: FileHeader) {
    f.version == 1 && f.headerSize == c.HeaderSize() && f.programEntrySize == c.ProgramHeaderSize()
    && 0 < f.programCount <= MAXIMUM_PROGRAM_HEADERS
    && f.programOffset + f.programEntrySize * f.programCount <= Min(U64_MAX, |b|)
  }

  predicate SectionTableFits(b: Bytes, c: ElfClass, f: FileHeader) {
    f.sectionCount == 0
    || (f.sectionEntrySize == c.SectionHeaderSize()
        && f.sectionOffset + f.sectionEntrySize * f.sectionCount <= Min(U64_MAX, |b|))
  }

  /** Everything after the identification bytes. */
  function ClassOutcome(b: Bytes, c: ElfClass, extent: Extent): Result<Layout, ParseError> {
    if |b| < c.HeaderSize() then Err(Truncated)
    else
      var f := HeaderOf(b, c);
      if f.machine != c.Machine() then Err(UnsupportedMachine)
      else if f.kind != EXECUTABLE_TYPE && f.kind != DYNAMIC_TYPE then Err(UnsupportedType)
      else if !TablesFit(b, c, f) then Err(InvalidProgramHeaders)
      else if extent == CompleteFile && !SectionTableFits(b, c, f) then Err(InvalidSectionHeaders)
      else
        var headers := ProgramHeaders(b, c, f.programOffset, f.programCount);
        if !LoadsValid(headers) || !HasLoad(headers) then Err(InvalidLoadSegment)
        else
          var layout := LayoutOf(c, f, headers, Executable);
          var kind := TypeOf(b, layout, f.kind, extent);
          if kind.None? then Err(InvalidEntryPoint) else Ok(layout.(imageType := kind.value))
  }

  function ClassOf(identifier: Byte): Option<ElfClass> {
    if identifier == 1 then Some(Bits32) else if identifier == 2 then Some(Bits64) else None
  }

  function Outcome(b: Bytes, extent: Extent): Result<Layout, ParseError> {
    if |b| < IDENT_SIZE then Err(Truncated)
    else if b[..4] != MAGIC then Err(InvalidMagic)
    else if ClassOf(b[4]).None? then Err(UnsupportedClass)
    else if b[5] != 1 then Err(UnsupportedEndianness)
    else ClassOutcome(b, ClassOf(b[4]).value, extent)
  }

  method ParseClass(b: Bytes, c: ElfClass, extent: Extent) returns (result: Result<Layout, ParseError>)
    ensures result == ClassOutcome(b, c, extent)
  {
    hide HeaderOf, ProgramHeaderAt, LoadValid, HoldsEntry, TypeOf, TablesFit, SectionTableFits;
    if |b| < c.HeaderSize() {
      return Err(Truncated);
    }
    var f := HeaderOf(b, c);
    if f.machine != c.Machine() {
      return Err(UnsupportedMachine);
    }
    if f.kind != EXECUTABLE_TYPE && f.kind != DYNAMIC_TYPE {
      return Err(UnsupportedType);
    }
    if !TablesFit(b, c, f) {
      return Err(InvalidProgramHeaders);
    }
    if extent == CompleteFile && !SectionTableFits(b, c, f) {
      return Err(InvalidSectionHeaders);
    }
    TableInBuffer(b, c, f);
    var headers: seq<ProgramHeader> := [];
    var hasLoad, entryIsExecutable := false, false;
    var index := 0;
    while index < f.programCount
      invariant 0 <= index <= f.programCount && Fits(b, f.programOffset, index * c.ProgramHeaderSize())
      invariant headers == ProgramHeaders(b, c, f.programOffset, index)
      invariant hasLoad == HasLoad(headers) && entryIsExecutable == EntryExecutable(headers, f.entry) && LoadsValid(headers)
    {
      EntryInTable(b, c, f.programOffset, f.programCount, index);
      TableGrows(b, c, f.programOffset, f.programCount, index + 1);
      var header := ProgramHeaderAt(b, c, ProgramOffset(c, f.programOffset, index));
      ghost var before := headers;
      if header.kind == PT_LOAD {
        hasLoad := true;
        if !LoadValid(header) {
          InvalidStays(b, c, f.programOffset, index, f.programCount, header);
          return Err(InvalidLoadSegment);
        }
        if HoldsEntry(header, f.entry) {
          entryIsExecutable := true;
        }
      }
      headers := headers + [header];
      Appended(before, header, f.entry);
      index := index + 1;
    }
    if !hasLoad {
      return Err(InvalidLoadSegment);
    }
    var layout := LayoutOf(c, f, headers, Executable);
    var kind := TypedAs(b, layout, f.kind, entryIsExecutable, extent);
    if kind == None {
      return Err(InvalidEntryPoint);
    }
    result := Ok(layout.(imageType := kind.value));
  }

  method TypedAs(b: Bytes, layout: Layout, kind: U16, entryIsExecutable: bool, extent: Extent) returns (r: Option<ImageType>)
    requires entryIsExecutable == EntryExecutable(layout.programHeaders, layout.entryPoint)
    ensures r == TypeOf(b, layout, kind, extent)
  {
    if kind == EXECUTABLE_TYPE {
      if layout.entryPoint == 0 || !entryIsExecutable {
        return None;
      }
      return Some(Executable);
    }
    r := ClassifyDynamicImage(b, layout, entryIsExecutable, extent);
  }

  lemma TableInBuffer(b: Bytes, c: ElfClass, f: FileHeader)
    requires TablesFit(b, c, f)
    ensures Fits(b, f.programOffset, f.programCount * c.ProgramHeaderSize())
    ensures 0 < f.programCount <= MAXIMUM_PROGRAM_HEADERS
  {
  }

  lemma TableGrows(b: Bytes, c: ElfClass, table: nat, n: nat, k: nat)
    requires Fits(b, table, n * c.ProgramHeaderSize()) && k <= n
    ensures Fits(b, table, k * c.ProgramHeaderSize())
  {
    if k < n {
      EntryInTable(b, c, table, n, k);
    }
  }

  lemma Appended(headers: seq<ProgramHeader>, h: ProgramHeader, entry: U64)
    ensures HasLoad(headers + [h]) <==> HasLoad(headers) || h.kind == PT_LOAD
    ensures EntryExecutable(headers + [h], entry) <==> EntryExecutable(headers, entry) || HoldsEntry(h, entry)
    ensures LoadsValid(headers + [h]) <==> LoadsValid(headers) && (h.kind == PT_LOAD ==> LoadValid(h))
    ensures HoldsEntry(h, entry) ==> h.kind == PT_LOAD
  {
    hide LoadValid;
    var all := headers + [h];
    assert all[|headers|] == h;
    assert forall k :: 0 <= k < |headers| ==> all[k] == headers[k];
  }

  lemma InvalidStays(b: Bytes, c: ElfClass, table: nat, index: nat, n: nat, h: ProgramHeader)
    requires index < n && Fits(b, table, n * c.ProgramHeaderSize())
    requires Fits(b, ProgramOffset(c, table, index), c.ProgramHeaderSize())
    requires h == ProgramHeaderAt(b, c, ProgramOffset(c, table, index)) && h.kind == PT_LOAD && !LoadValid(h)
    ensures !LoadsValid(ProgramHeaders(b, c, table, n))
  {
    hide LoadValid, ProgramHeaderAt;
    ProgramHeadersAt(b, c, table, n, index);
  }

  lemma {:induction false} ProgramHeadersAt(b: Bytes, c: ElfClass, table: nat, n: nat, k: nat)
    requires k < n && Fits(b, table, n * c.ProgramHeaderSize())
    ensures Fits(b, ProgramOffset(c, table, k), c.ProgramHeaderSize())
    ensures ProgramHeaders(b, c, table, n)[k] == ProgramHeaderAt(b, c, ProgramOffset(c, table, k))
  {
    hide ProgramHeaderAt;
    EntryInTable(b, c, table, n, n - 1);
    if k < n - 1 {
      ProgramHeadersAt(b, c, table, n - 1, k);
    }
  }

  method Parse(b: Bytes, extent: Extent) returns (result: Result<Layout, ParseError>)
    ensures result == Outcome(b, extent)
  {
    hide ClassOutcome;
    if |b| < IDENT_SIZE {
      return Err(Truncated);
    }
    if b[..4] != MAGIC {
      return Err(InvalidMagic);
    }
    var c := ClassOf(b[4]);
    if c == None {
      return Err(UnsupportedClass);
    }
    if b[5] != 1 {
      return Err(UnsupportedEndianness);
    }
    result := ParseClass(b, c.value, extent);
  }
}
