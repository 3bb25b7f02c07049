/** The parser reads back exactly the headers that the writer wrote. */
module HeaderLaws {
  import opened Bytes
  import opened Structs
  import opened PeFormat
  import Parser = PeParser
  import Writer = PeHeaderWriter

  lemma {:induction false} SectionTableAt(sections: seq<Section>, k: nat)
    requires k < |sections|
    ensures Size(SECTION_WIDTHS) == SECTION_HEADER_SIZE
    ensures Slice(Writer.SectionTable(sections), k * SECTION_HEADER_SIZE, SECTION_HEADER_SIZE)
            == Pack(SECTION_WIDTHS, SectionFields(sections[k]))
  {
    hide Pack, SectionFields;
    SectionHeaderSize();
    var rest := sections[..|sections| - 1];
    var table, last := Writer.SectionTable(rest), Pack(SECTION_WIDTHS, SectionFields(sections[|sections| - 1]));
    if k < |rest| {
      SectionTableAt(rest, k);
      assert Slice(table + last, k * SECTION_HEADER_SIZE, SECTION_HEADER_SIZE)
          == Slice(table, k * SECTION_HEADER_SIZE, SECTION_HEADER_SIZE);
    } else {
      assert Slice(table + last, k * SECTION_HEADER_SIZE, SECTION_HEADER_SIZE) == last;
    }
  }

  /** A section header survives being packed. */
  lemma SectionRoundTrip(bytes: Bytes, offset: nat, s: Section)
    requires Fits(bytes, offset, SECTION_HEADER_SIZE)
    requires Slice(bytes, offset, SECTION_HEADER_SIZE) == Pack(SECTION_WIDTHS, SectionFields(s))
    ensures Parser.SectionAt(bytes, offset) == s
  {
    hide Pack, Unpack, Slice, Pow256, Unsigned;
    SectionHeaderSize();
    SectionFieldsFit(s);
    UnpackOfPack(SECTION_WIDTHS, SectionFields(s));
    LittleEndianOfUnsigned(s.name);
  }

  lemma SectionFieldsFit(s: Section)
    ensures FieldsFit(SECTION_WIDTHS, SectionFields(s))
  {
    hide Unsigned;
    Powers();
    LittleEndianOfUnsigned(s.name);
  }

  /** The bytes the writer may change. */
  predicate InTables(layout: Layout, count: nat, i: int) {
    layout.ntHeaderOffset <= i < layout.ntHeaderOffset + NtSize(layout.format) + count * SECTION_HEADER_SIZE
  }

  lemma WritesOnlyTables(bytes: Bytes, layout: Layout, sections: seq<Section>, request: Writer.HeaderRequest, i: nat)
    requires Writer.Outcome(bytes, layout, sections, request).Some?
    requires i < |bytes| && !InTables(layout, |sections|, i)
    ensures Writer.Outcome(bytes, layout, sections, request).value[i] == bytes[i]
  {
    hide Writer.NtBytes, Writer.SectionTable, Writer.NewFileFields, Writer.NewOptionalFields, Writer.TotalsOf,
      Parser.OptionalFields, Parser.FileFields;
  }

  lemma SectionsReadBack(bytes: Bytes, layout: Layout, sections: seq<Section>, request: Writer.HeaderRequest, k: nat)
    requires Writer.Outcome(bytes, layout, sections, request).Some? && k < |sections|
    ensures var r, table := Writer.Outcome(bytes, layout, sections, request).value,
                            layout.ntHeaderOffset + NtSize(layout.format);
            Fits(r, table + k * SECTION_HEADER_SIZE, SECTION_HEADER_SIZE)
            && Parser.SectionAt(r, table + k * SECTION_HEADER_SIZE) == sections[k]
  {
    hide Writer.NtBytes, Writer.SectionTable, Writer.NewFileFields, Writer.NewOptionalFields, Writer.TotalsOf,
      Parser.OptionalFields, Parser.FileFields, Parser.SectionAt, Pack, SectionFields;
    var r, table := Writer.Outcome(bytes, layout, sections, request).value,
                    layout.ntHeaderOffset + NtSize(layout.format);
    SectionTableAt(sections, k);
    var at := k * SECTION_HEADER_SIZE;
    assert Slice(r, table + at, SECTION_HEADER_SIZE)
        == Slice(Writer.SectionTable(sections), at, SECTION_HEADER_SIZE);
    SectionRoundTrip(r, table + at, sections[k]);
  }

  lemma NewFileFieldsFit(format: Format, characteristics: U16, h: seq<nat>, count: nat, relocated: bool)
    requires |h| == 7 && FieldsFit(FILE_WIDTHS, h) && count < 0x1_0000
    ensures FieldsFit(FILE_WIDTHS, Writer.NewFileFields(format, characteristics, h, count, relocated))
  {
    Powers();
  }

  lemma NewScalarsFit(format: Format, f: seq<nat>, t: Writer.Totals, request: Writer.HeaderRequest)
    requires |f| == 62 && FieldsFit(OptionalWidths(format), f) && f[DLL_CHARACTERISTICS] < 0x1_0000
    requires format.AddressFits(request.imageBase) && (format.Pe64? ==> t.baseOfData == 0)
    ensures FieldsFit(OptionalWidths(format), Writer.NewScalars(format, f, t, request))
  {
    hide OptionalWidths;
    Powers();
    PointerRange(format);
    Parser.OptionalWidthList(format);
    assert Pow256(0) == 1;
    DllCharacteristicsFit(format, f[DLL_CHARACTERISTICS], request);
  }

  lemma DllCharacteristicsFit(format: Format, flags: U16, request: Writer.HeaderRequest)
    ensures Writer.NewDllCharacteristics(format, flags, request) < 0x1_0000
  {
  }

  lemma NewOptionalFieldsFit(format: Format, f: seq<nat>, t: Writer.Totals, request: Writer.HeaderRequest)
    requires |f| == 62 && FieldsFit(OptionalWidths(format), f) && f[DLL_CHARACTERISTICS] < 0x1_0000
    requires forall k :: FIRST_DIRECTORY <= k < 62 ==> f[k] <= U32_MAX
    requires format.AddressFits(request.imageBase) && (format.Pe64? ==> t.baseOfData == 0)
    ensures FieldsFit(OptionalWidths(format), Writer.NewOptionalFields(format, f, t, request))
  {
    hide OptionalWidths, Writer.NewScalars, Writer.NewDirectory;
    NewScalarsFit(format, f, t, request);
    Parser.OptionalWidthList(format);
    Powers();
  }

  lemma NtBytesParts(format: Format, h: seq<nat>, f: seq<nat>)
    requires |h| == 7 && |f| == 62
    ensures Size(FILE_WIDTHS) == 20 && Size(OptionalWidths(format)) == OptionalSize(format)
    ensures var s := Writer.NtBytes(format, h, f);
            Slice(s, 0, 4) == LittleEndian(NT_SIGNATURE, 4) && Slice(s, 4, 20) == Pack(FILE_WIDTHS, h)
            && Slice(s, 24, OptionalSize(format)) == Pack(OptionalWidths(format), f)
  {
    hide Pack, LittleEndian, OptionalWidths;
    HeaderSizes(format);
  }

  lemma SliceOfSlice(b: Bytes, offset: nat, size: nat, at: nat, n: nat)
    requires Fits(b, offset, size) && at + n <= size
    ensures Slice(b, offset + at, n) == Slice(Slice(b, offset, size), at, n)
  {
    var outer, inner := Slice(b, offset, size), Slice(b, offset + at, n);
    forall i | 0 <= i < n ensures inner[i] == Slice(outer, at, n)[i] {
      assert inner[i] == b[offset + (at + i)] == outer[at + i];
    }
  }

  /** The file header fields and optional header fields the writer stores. */
  ghost function StoredFile(bytes: Bytes, layout: Layout, sections: seq<Section>, request: Writer.HeaderRequest): (h: seq<nat>)
    requires Fits(bytes, layout.ntHeaderOffset, NtSize(layout.format))
    ensures |h| == 7
  {
    Writer.NewFileFields(layout.format, layout.characteristics, Parser.FileFields(bytes, layout.ntHeaderOffset),
                         |sections|, request.relocations.Some?)
  }

  ghost function StoredOptional(bytes: Bytes, layout: Layout, sections: seq<Section>, request: Writer.HeaderRequest): (f: seq<nat>)
    requires Fits(bytes, layout.ntHeaderOffset, NtSize(layout.format))
    requires Writer.TotalsOf(layout.format, sections).Some?
    ensures |f| == 62
  {
    var f := Parser.OptionalFields(bytes, layout.ntHeaderOffset, layout.format);
    Parser.OptionalFieldRanges(layout.format, f);
    Writer.NewOptionalFields(layout.format, f, Writer.TotalsOf(layout.format, sections).value, request)
  }

  lemma StoredFieldsFit(bytes: Bytes, layout: Layout, sections: seq<Section>, request: Writer.HeaderRequest)
    requires Fits(bytes, layout.ntHeaderOffset, NtSize(layout.format))
    requires Writer.TotalsOf(layout.format, sections).Some?
    requires layout.format.AddressFits(request.imageBase) && |sections| < 0x1_0000
    ensures FieldsFit(FILE_WIDTHS, StoredFile(bytes, layout, sections, request))
    ensures FieldsFit(OptionalWidths(layout.format), StoredOptional(bytes, layout, sections, request))
  {
    hide Writer.NewFileFields, Writer.NewOptionalFields, FieldsFit, OptionalWidths, Parser.FileFields, Parser.OptionalFields;
    var f := Parser.OptionalFields(bytes, layout.ntHeaderOffset, layout.format);
    Parser.OptionalFieldRanges(layout.format, f);
    NewFileFieldsFit(layout.format, layout.characteristics, Parser.FileFields(bytes, layout.ntHeaderOffset),
                     |sections|, request.relocations.Some?);
    NewOptionalFieldsFit(layout.format, f, Writer.TotalsOf(layout.format, sections).value, request);
  }

  lemma NtBytesStored(bytes: Bytes, layout: Layout, sections: seq<Section>, request: Writer.HeaderRequest)
    requires Writer.Outcome(bytes, layout, sections, request).Some?
    ensures Writer.TotalsOf(layout.format, sections).Some?
    ensures Slice(Writer.Outcome(bytes, layout, sections, request).value, layout.ntHeaderOffset, NtSize(layout.format))
            == Writer.NtBytes(layout.format, StoredFile(bytes, layout, sections, request),
                              StoredOptional(bytes, layout, sections, request))
  {
    hide Writer.NtBytes, Writer.SectionTable, Writer.NewFileFields, Writer.NewOptionalFields, Writer.TotalsOf,
      Parser.FileFields, Parser.OptionalFields, Patch, Slice;
    var nt, n := layout.ntHeaderOffset, NtSize(layout.format);
    var s := Writer.NtBytes(layout.format, StoredFile(bytes, layout, sections, request),
                            StoredOptional(bytes, layout, sections, request));
    PatchRead(bytes, nt, s);
    PatchElsewhere(Patch(bytes, nt, s), nt + n, Writer.SectionTable(sections), nt, n);
  }

  lemma WriterNeeds(bytes: Bytes, layout: Layout, sections: seq<Section>, request: Writer.HeaderRequest)
    requires Writer.Outcome(bytes, layout, sections, request).Some?
    ensures layout.format.AddressFits(request.imageBase) && Fits(bytes, layout.ntHeaderOffset, NtSize(layout.format))
    ensures |Writer.Outcome(bytes, layout, sections, request).value| == |bytes|
  {
    hide Writer.NtBytes, Writer.SectionTable, Writer.NewFileFields, Writer.NewOptionalFields, Writer.TotalsOf,
      Parser.FileFields, Parser.OptionalFields, Patch;
  }

  /** Field lists packed into an NT header are unpacked from it. */
  lemma NtBytesUnpack(r: Bytes, nt: nat, format: Format, h: seq<nat>, f: seq<nat>)
    requires |h| == 7 && |f| == 62 && Fits(r, nt, NtSize(format))
    requires FieldsFit(FILE_WIDTHS, h) && FieldsFit(OptionalWidths(format), f)
    requires Slice(r, nt, NtSize(format)) == Writer.NtBytes(format, h, f)
    ensures ReadAt(r, nt, 4) == NT_SIGNATURE
    ensures Parser.FileFields(r, nt) == h && Parser.OptionalFields(r, nt, format) == f
  {
    hide Writer.NtBytes, OptionalWidths, Pack, Unpack, LittleEndian, Unsigned, Pow256, FieldsFit, Slice;
    NtBytesParts(format, h, f);
    UnpackOfPack(FILE_WIDTHS, h);
    UnpackOfPack(OptionalWidths(format), f);
    SliceOfSlice(r, nt, NtSize(format), 0, 4);
    SliceOfSlice(r, nt, NtSize(format), 4, 20);
    SliceOfSlice(r, nt, NtSize(format), 24, OptionalSize(format));
    SignatureFits();
    UnsignedOfLittleEndian(NT_SIGNATURE, 4);
  }

  /** The parser reads back the two field lists the writer stored. */
  lemma HeadersReadBack(bytes: Bytes, layout: Layout, sections: seq<Section>, request: Writer.HeaderRequest)
    requires Writer.Outcome(bytes, layout, sections, request).Some? && |sections| < 0x1_0000
    ensures Writer.TotalsOf(layout.format, sections).Some?
    ensures var r, nt := Writer.Outcome(bytes, layout, sections, request).value, layout.ntHeaderOffset;
            ReadAt(r, nt, 4) == NT_SIGNATURE
            && Parser.FileFields(r, nt) == StoredFile(bytes, layout, sections, request)
            && Parser.OptionalFields(r, nt, layout.format) == StoredOptional(bytes, layout, sections, request)
  {
    hide Writer.NtBytes, StoredFile, StoredOptional, Writer.TotalsOf, Writer.Outcome, OptionalWidths, FieldsFit, Slice;
    WriterNeeds(bytes, layout, sections, request);
    NtBytesStored(bytes, layout, sections, request);
    StoredFieldsFit(bytes, layout, sections, request);
    NtBytesUnpack(Writer.Outcome(bytes, layout, sections, request).value, layout.ntHeaderOffset, layout.format,
                  StoredFile(bytes, layout, sections, request), StoredOptional(bytes, layout, sections, request));
  }

  lemma SignatureFits()
    ensures NT_SIGNATURE < Pow256(4)
  {
    Powers();
  }
}
