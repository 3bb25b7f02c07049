/** A rebased file parses like its source, at the new base; so files can be
    parsed and rebased again and again. */
module RebasedFileLaws {
  import opened Bytes
  import opened Structs
  import opened PeFormat
  import opened PeFileRebaser
  import opened RebasingLaws
  import Parser = PeParser

  /** Where the parser reads section headers. */
  function TableStart(source: Bytes, p: Layout): int
    requires Fits(source, p.ntHeaderOffset, 24)
  {
    p.ntHeaderOffset + 24 + Parser.FileFields(source, p.ntHeaderOffset)[FILE_OPTIONAL_SIZE]
  }

  /** Byte `i` is one that the parser decides by. */
  predicate ReadByParser(source: Bytes, p: Layout, i: int)
    requires Fits(source, p.ntHeaderOffset, 24)
  {
    i < DOS_HEADER_SIZE || InHeader(p, i)
    || TableStart(source, p) <= i < TableStart(source, p) + |p.sections| * SECTION_HEADER_SIZE
  }

  /** No slot overlaps the headers. */
  ghost predicate SlotsAvoidHeaders(source: Bytes, p: Layout, slots: seq<Slot>)
    requires Fits(source, p.ntHeaderOffset, 24)
  {
    forall i :: InSlot(slots, p.format.PointerSize(), i) ==> !ReadByParser(source, p, i)
  }

  /** The layout of a file placed at `base`. */
  function PlacedLayout(p: Layout, base: U64): Layout {
    p.(preferredImageBase := base, dllCharacteristics := ClearPlacement(p.dllCharacteristics),
       sourceLoadPolicy := SourceLoadPolicy(base, false, false, p.sourceLoadPolicy.hasRelocations))
  }

  /** `after` differs from `before` at most outside the headers and in the optional header, which is placed at `base`. */
  ghost predicate PlacedCopy(before: Bytes, after: Bytes, p: Layout, base: U64) {
    |before| == |after| && Fits(before, p.ntHeaderOffset, NtSize(p.format))
    && (forall i :: 0 <= i < |before| && ReadByParser(before, p, i) && !InOptional(p, i) ==> after[i] == before[i])
    && var at, n := p.ntHeaderOffset + 24, OptionalSize(p.format);
       Slice(after, at, n) == Placed(p.format, Slice(before, at, n), base)
  }

  /** What the parser's success says about where it read. */
  ghost predicate ReadFrom(source: Bytes, p: Layout) {
    var nt := p.ntHeaderOffset;
    Fits(source, nt, NtSize(p.format)) && DOS_HEADER_SIZE <= nt && Fits(source, 0, DOS_HEADER_SIZE)
    && Parser.NtOffset(source) == Ok(nt)
    && var h, f := Parser.FileFields(source, nt), Parser.OptionalFields(source, nt, p.format);
       OptionalSize(p.format) <= h[FILE_OPTIONAL_SIZE] && |p.sections| == h[FILE_SECTION_COUNT]
       && Fits(source, TableStart(source, p), |p.sections| * SECTION_HEADER_SIZE)
       && Parser.SectionsFrom(source, TableStart(source, p), f[SIZE_OF_IMAGE], 0, |p.sections|, 0) == Ok(p.sections)
       && p == Parser.LayoutOf(p.format, nt, h, f, p.sections)
       && ReadAt(source, nt, 4) == NT_SIGNATURE && h[FILE_MACHINE] == p.format.Machine()
       && Has(h[FILE_CHARACTERISTICS], EXECUTABLE_IMAGE) && 0 < h[FILE_SECTION_COUNT] <= Parser.MAXIMUM_SECTION_COUNT
       && ReadAt(source, nt + 24, 2) == f[MAGIC] == p.format.OptionalHeaderMagic()
       && Parser.AlignmentValid(f) && f[ENTRY_POINT] < f[SIZE_OF_IMAGE]
  }

  lemma MagicFirst(f: Bytes, nt: nat, format: Format)
    requires Fits(f, nt, NtSize(format))
    ensures ReadAt(f, nt + 24, 2) == Parser.OptionalFields(f, nt, format)[MAGIC]
  {
    hide Unsigned;
    HeaderSizes(format);
    Parser.OptionalWidthList(format);
    var header := Slice(f, nt + 24, OptionalSize(format));
    assert Slice(f, nt + 24, 2) == header[..2];
  }

  lemma ParsedIsReadFrom(source: Bytes)
    requires Parser.Outcome(source).Ok?
    ensures ReadFrom(source, Parser.Outcome(source).value)
  {
    hide Parser.SectionAt, Parser.FileFields, Parser.OptionalFields, OptionalWidths, ReadAt, FieldsFit, Parser.AlignmentValid, Has,
      Parser.SectionsFrom, Parser.DirectoriesOf;
    var nt, format := Parser.NtOffset(source).value, Parser.Outcome(source).value.format;
    var h, f := Parser.FileFields(source, nt), Parser.OptionalFields(source, nt, format);
    Parser.SectionsAreOrdered(source, nt + 24 + h[FILE_OPTIONAL_SIZE], f[SIZE_OF_IMAGE], 0, h[FILE_SECTION_COUNT], 0);
    MagicFirst(source, nt, format);
  }

  lemma ReadFromParses(b: Bytes, p: Layout)
    requires ReadFrom(b, p)
    ensures Parser.Outcome(b) == Ok(p)
  {
    hide Parser.SectionAt, Parser.FileFields, Parser.OptionalFields, OptionalWidths, ReadAt, FieldsFit, Parser.AlignmentValid, Has,
      Parser.SectionsFrom, Parser.NtOffset, Parser.LayoutOf;
  }

  // ---- the placed copy is read alike ----

  lemma SameBelow(a: Bytes, b: Bytes, p: Layout, base: U64, at: nat, n: nat)
    requires PlacedCopy(a, b, p, base) && at + n <= |a|
    requires forall i :: at <= i < at + n ==> ReadByParser(a, p, i) && !InOptional(p, i)
    ensures SameRange(a, b, at, n)
  {
    hide ReadByParser, Slice, Placed;
  }

  lemma SameFileFields(a: Bytes, b: Bytes, p: Layout, base: U64)
    requires PlacedCopy(a, b, p, base)
    ensures Parser.FileFields(b, p.ntHeaderOffset) == Parser.FileFields(a, p.ntHeaderOffset)
    ensures ReadAt(b, p.ntHeaderOffset, 4) == ReadAt(a, p.ntHeaderOffset, 4)
  {
    hide Placed, Unpack, Unsigned;
    var nt: int := p.ntHeaderOffset;
    SameBelow(a, b, p, base, nt, 4);
    SameRangeRead(a, b, nt, 4);
    SameBelow(a, b, p, base, nt + 4, 20);
    SameRangeRead(a, b, nt + 4, 20);
  }

  lemma SameNtOffset(a: Bytes, b: Bytes, p: Layout, base: U64)
    requires PlacedCopy(a, b, p, base) && DOS_HEADER_SIZE <= p.ntHeaderOffset && Fits(a, 0, DOS_HEADER_SIZE)
    ensures Parser.NtOffset(b) == Parser.NtOffset(a)
  {
    hide Placed, Unpack, Unsigned, Pow256, Parser.FileFields;
    SameBelow(a, b, p, base, 0, 2);
    SameRangeRead(a, b, 0, 2);
    SameBelow(a, b, p, base, 60, 4);
    SameRangeRead(a, b, 60, 4);
  }

  lemma {:induction false} SameSections(a: Bytes, b: Bytes, table: nat, sizeOfImage: U32, index: nat, count: nat, previousEnd: nat)
    requires index <= count && Fits(a, table, count * SECTION_HEADER_SIZE) && |a| == |b|
    requires SameRange(a, b, table, count * SECTION_HEADER_SIZE)
    ensures Parser.SectionsFrom(b, table, sizeOfImage, index, count, previousEnd)
            == Parser.SectionsFrom(a, table, sizeOfImage, index, count, previousEnd)
    decreases count - index
  {
    hide Parser.SectionAt;
    if index < count {
      SameSectionAt(a, b, table, count, index);
      var s := Parser.SectionAt(a, table + index * SECTION_HEADER_SIZE);
      SameSections(a, b, table, sizeOfImage, index + 1, count, s.virtualAddress + s.Extent());
    }
  }

  lemma SameSectionAt(a: Bytes, b: Bytes, table: nat, count: nat, k: nat)
    requires Fits(a, table, count * SECTION_HEADER_SIZE) && k < count
    requires SameRange(a, b, table, count * SECTION_HEADER_SIZE)
    ensures Parser.SectionAt(b, table + k * SECTION_HEADER_SIZE) == Parser.SectionAt(a, table + k * SECTION_HEADER_SIZE)
  {
    hide Unpack, Pack, Unsigned, LittleEndian;
    SameRangeRead(a, b, table + k * SECTION_HEADER_SIZE, SECTION_HEADER_SIZE);
  }

  /** The optional header of the copy: the base, the flags and the checksum are new. */
  function PlacedOptional(f: seq<nat>, base: U64): seq<nat>
    requires |f| == 62
  {
    f[IMAGE_BASE := base][DLL_CHARACTERISTICS := ClearPlacement(f[DLL_CHARACTERISTICS])][CHECK_SUM := 0]
  }

  lemma PlacedOptionalRead(a: Bytes, b: Bytes, p: Layout, base: U64)
    requires PlacedCopy(a, b, p, base) && p.format.AddressFits(base)
    ensures Parser.OptionalFields(b, p.ntHeaderOffset, p.format)
            == PlacedOptional(Parser.OptionalFields(a, p.ntHeaderOffset, p.format), base)
  {
    hide Placed, Unpack, Slice, OptionalWidths, ClearPlacement, ReadByParser;
    HeaderSizes(p.format);
    PlacedFields(p.format, Slice(a, p.ntHeaderOffset + 24, OptionalSize(p.format)), base);
  }

  lemma PlacedOptionalKeeps(f: seq<nat>, base: U64)
    requires |f| == 62
    ensures var g := PlacedOptional(f, base);
            |g| == 62 && g[IMAGE_BASE] == base && g[DLL_CHARACTERISTICS] == ClearPlacement(f[DLL_CHARACTERISTICS])
            && forall k :: 0 <= k < 62 && k !in {IMAGE_BASE, DLL_CHARACTERISTICS, CHECK_SUM} ==> g[k] == f[k]
  {
    hide ClearPlacement;
  }

  lemma PlacedLayoutOf(format: Format, nt: U32, h: seq<nat>, f: seq<nat>, sections: seq<Section>, base: U64)
    requires |h| == 7 && FieldsFit(FILE_WIDTHS, h) && |f| == 62 && FieldsFit(OptionalWidths(format), f)
    requires FieldsFit(OptionalWidths(format), PlacedOptional(f, base))
    ensures Parser.LayoutOf(format, nt, h, PlacedOptional(f, base), sections)
            == PlacedLayout(Parser.LayoutOf(format, nt, h, f, sections), base)
  {
    hide FieldsFit, OptionalWidths, ClearPlacement, Has, PlacedOptional;
    var g := PlacedOptional(f, base);
    PlacedOptionalKeeps(f, base);
    Parser.OptionalFieldRanges(format, f);
    Parser.OptionalFieldRanges(format, g);
    PlacementCleared(f[DLL_CHARACTERISTICS]);
    assert Parser.DirectoriesOf(g) == Parser.DirectoriesOf(f);
  }

  lemma PlacedIsReadFrom(a: Bytes, b: Bytes, p: Layout, base: U64)
    requires ReadFrom(a, p) && PlacedCopy(a, b, p, base) && p.format.AddressFits(base) && base != 0
    ensures ReadFrom(b, PlacedLayout(p, base))
  {
    hide PlacedCopy, Parser.FileFields, Parser.OptionalFields, Parser.SectionsFrom, ReadAt, Parser.LayoutOf, Has, Parser.NtOffset,
      OptionalWidths, FieldsFit, ClearPlacement, PlacedOptional, PlacedLayout;
    var nt, count := p.ntHeaderOffset, |p.sections|;
    var h, f := Parser.FileFields(a, nt), Parser.OptionalFields(a, nt, p.format);
    SameFileFields(a, b, p, base);
    SameNtOffset(a, b, p, base);
    PlacedOptionalRead(a, b, p, base);
    PlacedOptionalKeeps(f, base);
    PlacedLayoutOf(p.format, nt, h, f, p.sections, base);
    TableIsSame(a, b, p, base);
    MagicFirst(b, nt, p.format);
    SameSections(a, b, TableStart(a, p), f[SIZE_OF_IMAGE], 0, count, 0);
    PlacedLayoutKeeps(p, base);
    Parser.OptionalFieldRanges(p.format, f);
  }

  lemma PlacedLayoutKeeps(p: Layout, base: U64)
    ensures var q := PlacedLayout(p, base);
            q.format == p.format && q.ntHeaderOffset == p.ntHeaderOffset && q.sections == p.sections
            && q.preferredImageBase == base && SameAddresses(p, q)
  {
    hide ClearPlacement;
  }

  lemma TableIsSame(a: Bytes, b: Bytes, p: Layout, base: U64)
    requires PlacedCopy(a, b, p, base)
    requires OptionalSize(p.format) <= Parser.FileFields(a, p.ntHeaderOffset)[FILE_OPTIONAL_SIZE]
    requires Fits(a, TableStart(a, p), |p.sections| * SECTION_HEADER_SIZE)
    ensures |a| == |b| && SameRange(a, b, TableStart(a, p), |p.sections| * SECTION_HEADER_SIZE)
  {
    hide Parser.FileFields, Slice, Placed;
    SameBelow(a, b, p, base, TableStart(a, p), |p.sections| * SECTION_HEADER_SIZE);
  }

  // ---- rebased files ----

  /** A rebased file parses to the same layout, placed at the new base. */
  lemma RebasedFileParses(source: Bytes, p: Layout, base: U64)
    requires Parser.Outcome(source) == Ok(p) && Outcome(source, p, base).Ok?
    requires Fits(source, p.ntHeaderOffset, 24) && SlotsAvoidHeaders(source, p, Blocks(source, p, 0).value)
    ensures Parser.Outcome(Outcome(source, p, base).value.bytes) == Ok(PlacedLayout(p, base))
  {
    hide Parser.Outcome, Blocks, Relocated, Evidence, ReadFrom, PlacedCopy, SlotsAvoidHeaders, PlacedLayout, SlotsFit;
    var slots := Blocks(source, p, 0).value;
    BlocksFit(source, p, 0);
    ParsedIsReadFrom(source);
    RelocatedIsPlaced(source, p, slots, base);
    var r := Outcome(source, p, base).value.bytes;
    PlacedIsReadFrom(source, r, p, base);
    ReadFromParses(r, PlacedLayout(p, base));
  }

  lemma RelocatedIsPlaced(source: Bytes, p: Layout, slots: seq<Slot>, base: U64)
    requires SlotsFit(slots, |source|, p.format.PointerSize()) && Fits(source, p.ntHeaderOffset, NtSize(p.format))
    requires SlotsAvoidHeaders(source, p, slots)
    ensures PlacedCopy(source, Relocated(source, p, slots, base), p, base)
  {
    hide Relocated, Placed, Slice, InSlot, ReadByParser, SlotsFit;
    var r := Relocated(source, p, slots, base);
    forall i | InSlot(slots, p.format.PointerSize(), i) ensures !InHeader(p, i) {
      HeaderIsRead(source, p, i);
    }
    RelocatedHeader(source, p, slots, base);
    forall i | 0 <= i < |source| && ReadByParser(source, p, i) && !InOptional(p, i) ensures r[i] == source[i] {
      RelocatedElsewhere(source, p, slots, base, i);
    }
  }

  lemma HeaderIsRead(source: Bytes, p: Layout, i: int)
    requires Fits(source, p.ntHeaderOffset, 24)
    ensures InHeader(p, i) ==> ReadByParser(source, p, i)
  {
  }

  /** Parse, rebase, parse again, rebase again: the result is byte for byte the
      file rebased once to the second base. */
  lemma ReparsedRebasingComposes(source: Bytes, p: Layout, b: U64, c: U64)
    requires Parser.Outcome(source) == Ok(p) && Outcome(source, p, b).Ok?
    requires Fits(source, p.ntHeaderOffset, 24) && SlotsAvoidHeaders(source, p, Blocks(source, p, 0).value)
    requires Separate(source, p, Blocks(source, p, 0).value)
    requires c != 0 && c % 0x1_0000 == 0 && p.format.AddressFits(c)
    ensures var between := Outcome(source, p, b).value.bytes;
            Parser.Outcome(between).Ok?
            && var q := Parser.Outcome(between).value;
               q == PlacedLayout(p, b) && Outcome(source, p, c).Ok? && Outcome(between, q, c).Ok?
               && Outcome(between, q, c).value.bytes == Outcome(source, p, c).value.bytes
  {
    hide Parser.Outcome, Outcome, Blocks, SlotsAvoidHeaders, Separate, PlacedLayout, SameAddresses;
    RebasedFileParses(source, p, b);
    PlacedLayoutKeeps(p, b);
    RebasingComposes(source, p, PlacedLayout(p, b), b, c);
  }
}
