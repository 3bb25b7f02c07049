/** Reads a PE file's headers into a layout. */
module PeParser {
  import opened Bytes
  import opened Structs
  import opened Alignment
  import opened PeFormat

  datatype PeError =
    Truncated | InvalidSignature | UnsupportedArchitecture | UnsupportedImageKind | InvalidAlignment
    | InvalidSectionTable

  const MAXIMUM_IMAGE_SIZE := 0x4000_0000
  const MAXIMUM_SECTION_COUNT := 96

  predicate RangeFits(offset: nat, size: nat, limit: nat) {
    offset <= limit && size <= limit - offset
  }

  /** The section header stored at `offset`. */
  function SectionAt(bytes: Bytes, offset: nat): Section
    requires Fits(bytes, offset, SECTION_HEADER_SIZE)
  {
    SectionHeaderSize();
    var s := Slice(bytes, offset, SECTION_HEADER_SIZE);
    var f := Unpack(SECTION_WIDTHS, s);
    PackOfUnpack(SECTION_WIDTHS, s);
    Powers();
    Section(LittleEndian(f[0], 8), f[2], f[1], f[4], f[3], f[9])
  }

  function DirectoriesOf(fields: seq<nat>): Directories
    requires |fields| == 62 && forall k :: FIRST_DIRECTORY <= k < 62 ==> fields[k] <= U32_MAX
  {
    seq(DIRECTORY_COUNT, i requires 0 <= i < DIRECTORY_COUNT =>
      if i < fields[DIRECTORY_ENTRIES]
      then Directory(fields[FIRST_DIRECTORY + 2 * i], fields[FIRST_DIRECTORY + 2 * i + 1])
      else NO_DIRECTORY)
  }

  /** Sections `index..count` of the table; each must start after the one before. */
  function SectionsFrom(bytes: Bytes, table: nat, sizeOfImage: U32, index: nat, count: nat, previousEnd: nat)
    : Result<seq<Section>, PeError>
    requires index <= count && Fits(bytes, table, count * SECTION_HEADER_SIZE)
    decreases count - index
  {
    if index == count then Ok([])
    else
      var s := SectionAt(bytes, table + index * SECTION_HEADER_SIZE);
      if !RangeFits(s.virtualAddress, s.Extent(), sizeOfImage) || s.virtualAddress < previousEnd
        then Err(InvalidSectionTable)
      else if s.rawSize != 0 && !RangeFits(s.rawOffset, s.rawSize, |bytes|) then Err(Truncated)
      else
        var rest := SectionsFrom(bytes, table, sizeOfImage, index + 1, count, s.virtualAddress + s.Extent());
        if rest.Err? then rest else Ok([s] + rest.value)
  }

  function FileFields(bytes: Bytes, nt: nat): (f: seq<nat>)
    requires Fits(bytes, nt, 24)
    ensures |f| == 7 && FieldsFit(FILE_WIDTHS, f)
  {
    HeaderSizes(Pe32);
    PackOfUnpack(FILE_WIDTHS, Slice(bytes, nt + 4, 20));
    Unpack(FILE_WIDTHS, Slice(bytes, nt + 4, 20))
  }

  function OptionalFields(bytes: Bytes, nt: nat, format: Format): (f: seq<nat>)
    requires Fits(bytes, nt, NtSize(format))
    ensures |f| == 62 && FieldsFit(OptionalWidths(format), f)
  {
    HeaderSizes(format);
    PackOfUnpack(OptionalWidths(format), Slice(bytes, nt + 24, OptionalSize(format)));
    Unpack(OptionalWidths(format), Slice(bytes, nt + 24, OptionalSize(format)))
  }

  /** The 32-bit fields of the optional header that the program reads or writes. */
  const WORD_FIELDS: set<nat> := {
    SIZE_OF_CODE, SIZE_OF_INITIALIZED_DATA, SIZE_OF_UNINITIALIZED_DATA, ENTRY_POINT, BASE_OF_CODE, SECTION_ALIGNMENT,
    FILE_ALIGNMENT, SIZE_OF_IMAGE, SIZE_OF_HEADERS, CHECK_SUM, DIRECTORY_ENTRIES
  }

  lemma OptionalFieldRanges(format: Format, f: seq<nat>)
    requires |f| == 62 && FieldsFit(OptionalWidths(format), f)
    ensures f[MAGIC] < 0x1_0000 && f[DLL_CHARACTERISTICS] < 0x1_0000
    ensures forall k :: k in WORD_FIELDS ==> f[k] <= U32_MAX
    ensures f[IMAGE_BASE] < format.Modulus()
    ensures forall k :: FIRST_DIRECTORY <= k < 62 ==> f[k] <= U32_MAX
  {
    OptionalWidthList(format);
    Powers();
    PointerRange(format);
    forall k | FIRST_DIRECTORY <= k < 62 ensures f[k] <= U32_MAX {
      assert OptionalWidths(format)[k] == 4;
    }
  }

  lemma OptionalWidthList(format: Format)
    ensures var w := OptionalWidths(format);
            w[MAGIC] == 2 && w[DLL_CHARACTERISTICS] == 2 && w[IMAGE_BASE] == format.PointerSize()
            && (forall k :: k in WORD_FIELDS ==> w[k] == 4)
            && (w[BASE_OF_DATA] == if format.Pe32? then 4 else 0)
            && (forall k :: FIRST_DIRECTORY <= k < 62 ==> w[k] == 4)
  {
  }

  predicate AlignmentValid(f: seq<nat>)
    requires |f| == 62
  {
    IsPowerOfTwo(f[FILE_ALIGNMENT]) && IsPowerOfTwo(f[SECTION_ALIGNMENT])
    && f[FILE_ALIGNMENT] <= f[SECTION_ALIGNMENT] && f[SIZE_OF_IMAGE] != 0
    && f[SIZE_OF_IMAGE] <= MAXIMUM_IMAGE_SIZE && f[SIZE_OF_HEADERS] <= f[SIZE_OF_IMAGE]
    && f[IMAGE_BASE] != 0
  }

  /** The layout described by the file header `h`, the optional header `f` and the sections. */
  function LayoutOf(format: Format, nt: U32, h: seq<nat>, f: seq<nat>, sections: seq<Section>): Layout
    requires |h| == 7 && FieldsFit(FILE_WIDTHS, h) && |f| == 62 && FieldsFit(OptionalWidths(format), f)
  {
    OptionalFieldRanges(format, f);
    Powers();
    var directories := DirectoriesOf(f);
    var relocations := directories[BASE_RELOCATION_DIRECTORY];
    Layout(
      format, if Has(h[FILE_CHARACTERISTICS], FILE_DLL) then DynamicLibrary else Executable,
      SourceLoadPolicy(f[IMAGE_BASE], Has(f[DLL_CHARACTERISTICS], DYNAMIC_BASE),
                       Has(f[DLL_CHARACTERISTICS], HIGH_ENTROPY_VA),
                       !Has(h[FILE_CHARACTERISTICS], RELOCS_STRIPPED)
                       && relocations.address != 0 && relocations.size != 0),
      h[FILE_MACHINE], nt, f[IMAGE_BASE], f[ENTRY_POINT], f[SIZE_OF_IMAGE], f[SIZE_OF_HEADERS],
      f[SECTION_ALIGNMENT], f[FILE_ALIGNMENT], h[FILE_CHARACTERISTICS], f[DLL_CHARACTERISTICS],
      directories, sections)
  }

  function TypedOutcome(bytes: Bytes, nt: U32, format: Format): Result<Layout, PeError>
    requires Fits(bytes, nt, 24)
  {
    var h := FileFields(bytes, nt);
    if h[FILE_MACHINE] != format.Machine() then Err(UnsupportedArchitecture)
    else if h[FILE_OPTIONAL_SIZE] < OptionalSize(format) || !Fits(bytes, nt, NtSize(format)) then Err(Truncated)
    else
      var f := OptionalFields(bytes, nt, format);
      OptionalFieldRanges(format, f);
      var table := nt + 24 + h[FILE_OPTIONAL_SIZE];
      if f[MAGIC] != format.OptionalHeaderMagic() then Err(InvalidSignature)
      else if !AlignmentValid(f) then Err(InvalidAlignment)
      else if !RangeFits(table, h[FILE_SECTION_COUNT] * SECTION_HEADER_SIZE, |bytes|) then Err(Truncated)
      else
        var sections := SectionsFrom(bytes, table, f[SIZE_OF_IMAGE], 0, h[FILE_SECTION_COUNT], 0);
        if sections.Err? then Err(sections.error)
        else if f[ENTRY_POINT] >= f[SIZE_OF_IMAGE] then Err(InvalidSectionTable)
        else Ok(LayoutOf(format, nt, h, f, sections.value))
  }

  /** e_lfanew, if the DOS header is present and points past itself. */
  function NtOffset(bytes: Bytes): Result<U32, PeError> {
    if !Fits(bytes, 0, DOS_HEADER_SIZE) then Err(Truncated)
    else
      Powers();
      var offset := ReadAt(bytes, 60, 4);
      if ReadAt(bytes, 0, 2) != DOS_SIGNATURE || offset < DOS_HEADER_SIZE || offset >= 0x8000_0000
        then Err(InvalidSignature)
      else Ok(offset)
  }

  function Outcome(bytes: Bytes): Result<Layout, PeError> {
    var nt := NtOffset(bytes);
    if nt.Err? then Err(nt.error)
    else if !Fits(bytes, nt.value, 24) then Err(Truncated)
    else
      var h := FileFields(bytes, nt.value);
      if ReadAt(bytes, nt.value, 4) != NT_SIGNATURE then Err(InvalidSignature)
      else if !Has(h[FILE_CHARACTERISTICS], EXECUTABLE_IMAGE) then Err(UnsupportedImageKind)
      else if h[FILE_SECTION_COUNT] == 0 || h[FILE_SECTION_COUNT] > MAXIMUM_SECTION_COUNT then Err(InvalidSectionTable)
      else if !Fits(bytes, nt.value + 24, 2) then Err(Truncated)
      else
        var magic := ReadAt(bytes, nt.value + 24, 2);
        if magic == Pe32.OptionalHeaderMagic() then TypedOutcome(bytes, nt.value, Pe32)
        else if magic == Pe64.OptionalHeaderMagic() then TypedOutcome(bytes, nt.value, Pe64)
        else Err(InvalidSignature)
  }

  method ParseTyped(bytes: Bytes, nt: U32, format: Format) returns (result: Result<Layout, PeError>)
    requires Fits(bytes, nt, 24)
    ensures result == TypedOutcome(bytes, nt, format)
  {
    hide SectionAt, OptionalWidths, ReadAt, Slice;
    var h := FileFields(bytes, nt);
    if h[FILE_MACHINE] != format.Machine() {
      return Err(UnsupportedArchitecture);
    }
    if h[FILE_OPTIONAL_SIZE] < OptionalSize(format) || !Fits(bytes, nt, NtSize(format)) {
      return Err(Truncated);
    }
    var f := OptionalFields(bytes, nt, format);
    OptionalFieldRanges(format, f);
    if f[MAGIC] != format.OptionalHeaderMagic() {
      return Err(InvalidSignature);
    }
    if !AlignmentValid(f) {
      return Err(InvalidAlignment);
    }
    var table := nt + 24 + h[FILE_OPTIONAL_SIZE];
    var count := h[FILE_SECTION_COUNT];
    if !RangeFits(table, count * SECTION_HEADER_SIZE, |bytes|) {
      return Err(Truncated);
    }
    var sections: seq<Section> := [];
    var previousEnd: int := 0;
    var index := 0;
    ghost var all := SectionsFrom(bytes, table, f[SIZE_OF_IMAGE], 0, count, 0);
    JoinNothing(all);
    while index < count
      invariant 0 <= index <= count && previousEnd >= 0
      invariant all == Join(sections, SectionsFrom(bytes, table, f[SIZE_OF_IMAGE], index, count, previousEnd))
    {
      var s := SectionAt(bytes, table + index * SECTION_HEADER_SIZE);
      var virtualExtent := s.Extent();
      if !RangeFits(s.virtualAddress, virtualExtent, f[SIZE_OF_IMAGE]) || s.virtualAddress < previousEnd {
        return Err(InvalidSectionTable);
      }
      if s.rawSize != 0 && !RangeFits(s.rawOffset, s.rawSize, |bytes|) {
        return Err(Truncated);
      }
      previousEnd := s.virtualAddress as int + virtualExtent as int;
      JoinOne(sections, s, SectionsFrom(bytes, table, f[SIZE_OF_IMAGE], index + 1, count, previousEnd));
      sections := sections + [s];
      index := index + 1;
    }
    assert sections + [] == sections;
    if f[ENTRY_POINT] >= f[SIZE_OF_IMAGE] {
      return Err(InvalidSectionTable);
    }
    result := Ok(LayoutOf(format, nt, h, f, sections));
  }

  function Join(first: seq<Section>, rest: Result<seq<Section>, PeError>): Result<seq<Section>, PeError> {
    if rest.Err? then rest else Ok(first + rest.value)
  }

  lemma JoinNothing(rest: Result<seq<Section>, PeError>)
    ensures Join([], rest) == rest
  {
    if rest.Ok? {
      assert [] + rest.value == rest.value;
    }
  }

  lemma JoinOne(first: seq<Section>, s: Section, rest: Result<seq<Section>, PeError>)
    ensures Join(first, if rest.Err? then rest else Ok([s] + rest.value)) == Join(first + [s], rest)
  {
    if rest.Ok? {
      assert first + ([s] + rest.value) == first + [s] + rest.value;
    }
  }

  method Parse(bytes: Bytes) returns (result: Result<Layout, PeError>)
    ensures result == Outcome(bytes)
  {
    hide TypedOutcome, ReadAt, FileFields;
    var nt := NtOffset(bytes);
    if nt.Err? {
      return Err(nt.error);
    }
    var ntOffset := nt.value;
    if !Fits(bytes, ntOffset, 24) {
      return Err(Truncated);
    }
    if ReadAt(bytes, ntOffset, 4) != NT_SIGNATURE {
      return Err(InvalidSignature);
    }
    var h := FileFields(bytes, ntOffset);
    if !Has(h[FILE_CHARACTERISTICS], EXECUTABLE_IMAGE) {
      return Err(UnsupportedImageKind);
    }
    if h[FILE_SECTION_COUNT] == 0 || h[FILE_SECTION_COUNT] > MAXIMUM_SECTION_COUNT {
      return Err(InvalidSectionTable);
    }
    if !Fits(bytes, ntOffset + 24, 2) {
      return Err(Truncated);
    }
    var magic := ReadAt(bytes, ntOffset + 24, 2);
    if magic == Pe32.OptionalHeaderMagic() {
      result := ParseTyped(bytes, ntOffset, Pe32);
    } else if magic == Pe64.OptionalHeaderMagic() {
      result := ParseTyped(bytes, ntOffset, Pe64);
    } else {
      result := Err(InvalidSignature);
    }
  }

  // ---- what every parsed layout satisfies ----

  ghost predicate OrderedFrom(sections: seq<Section>, previousEnd: int) {
    (forall i :: 0 <= i < |sections| ==> previousEnd <= sections[i].virtualAddress)
    && (forall i, j :: 0 <= i < j < |sections| ==>
          sections[i].virtualAddress + sections[i].Extent() <= sections[j].virtualAddress)
  }

  lemma {:induction false} SectionsAreOrdered(bytes: Bytes, table: nat, sizeOfImage: U32, index: nat, count: nat,
                                              previousEnd: nat)
    requires index <= count && Fits(bytes, table, count * SECTION_HEADER_SIZE)
    requires SectionsFrom(bytes, table, sizeOfImage, index, count, previousEnd).Ok?
    ensures var s := SectionsFrom(bytes, table, sizeOfImage, index, count, previousEnd).value;
            |s| == count - index && OrderedFrom(s, previousEnd)
            && forall k :: 0 <= k < |s| ==>
                 s[k] == SectionAt(bytes, table + (index + k) * SECTION_HEADER_SIZE)
                 && s[k].virtualAddress + s[k].Extent() <= sizeOfImage
                 && (s[k].rawSize != 0 ==> s[k].rawOffset + s[k].rawSize <= |bytes|)
    decreases count - index
  {
    hide SectionAt;
    if index < count {
      var s := SectionAt(bytes, table + index * SECTION_HEADER_SIZE);
      SectionsAreOrdered(bytes, table, sizeOfImage, index + 1, count, s.virtualAddress + s.Extent());
    }
  }

  /** The guarantees a caller of `Parse` may rely on. */
  ghost predicate Parsed(layout: Layout) {
    IsPowerOfTwo(layout.fileAlignment) && IsPowerOfTwo(layout.sectionAlignment)
    && layout.fileAlignment <= layout.sectionAlignment
    && 0 < layout.sizeOfImage <= MAXIMUM_IMAGE_SIZE && layout.sizeOfHeaders <= layout.sizeOfImage
    && layout.preferredImageBase != 0 && layout.format.AddressFits(layout.preferredImageBase)
    && layout.entryPoint < layout.sizeOfImage
    && DOS_HEADER_SIZE <= layout.ntHeaderOffset < 0x8000_0000
    && Has(layout.characteristics, EXECUTABLE_IMAGE) && layout.machine == layout.format.Machine()
    && layout.imageKind == (if Has(layout.characteristics, FILE_DLL) then DynamicLibrary else Executable)
    && 0 < |layout.sections| <= MAXIMUM_SECTION_COUNT && OrderedFrom(layout.sections, 0)
    && forall k :: 0 <= k < |layout.sections| ==>
         layout.sections[k].virtualAddress + layout.sections[k].Extent() <= layout.sizeOfImage
  }

  lemma ParseGuarantees(bytes: Bytes)
    requires Outcome(bytes).Ok?
    ensures Parsed(Outcome(bytes).value)
  {
    hide SectionAt, OptionalWidths, ReadAt, Slice, SectionsFrom, Unpack, IsPowerOfTwo;
    var nt := NtOffset(bytes).value;
    var format := Outcome(bytes).value.format;
    var h, f := FileFields(bytes, nt), OptionalFields(bytes, nt, format);
    OptionalFieldRanges(format, f);
    SectionsAreOrdered(bytes, nt + 24 + h[FILE_OPTIONAL_SIZE], f[SIZE_OF_IMAGE], 0, h[FILE_SECTION_COUNT], 0);
  }
}
