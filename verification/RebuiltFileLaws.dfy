/** The rebuilt file parses, and the parsed layout is the one that was emitted. */
module RebuiltFileLaws {
  import opened Bytes
  import opened Structs
  import opened Alignment
  import opened PeFormat
  import opened PeImageFixer
  import opened AssemblyLaws
  import opened FixerLaws
  import Sections = SectionLayoutRebuilder
  import Headers = PeHeaderWriter
  import HeaderLaws
  import Parser = PeParser

  // ---- from a written assembly to a parsed file ----

  /** A finished assembly whose headers were rewritten into the file `f`. */
  ghost predicate Written(layout: Layout, image: Bytes, a: Assembly, r: Headers.HeaderRequest, f: Bytes) {
    Good(layout, a, r.headerSize) && 0 < |a.headers| <= 96
    && Headers.Outcome(a.bytes, layout, a.headers, r) == Some(f)
    && layout.ntHeaderOffset + NtSize(layout.format) + |a.headers| * SECTION_HEADER_SIZE <= r.headerSize <= r.imageSize
    && r.imageSize == a.end <= LIMIT && r.oep < a.end && r.imageBase != 0
    && layout.sizeOfHeaders <= |image|
    && forall i :: 0 <= i < r.headerSize && i < layout.sizeOfHeaders ==> a.bytes[i] == image[i]
  }

  /** The file header and the optional header of the written file. */
  ghost function FileHeader(layout: Layout, image: Bytes, a: Assembly, r: Headers.HeaderRequest): (h: seq<nat>)
    requires Fits(image, layout.ntHeaderOffset, NtSize(layout.format))
    ensures |h| == 7
  {
    HeaderLaws.StoredFile(image, layout, a.headers, r)
  }

  ghost function OptionalHeader(layout: Layout, image: Bytes, a: Assembly, r: Headers.HeaderRequest): (f: seq<nat>)
    requires Fits(image, layout.ntHeaderOffset, NtSize(layout.format))
    requires Headers.TotalsOf(layout.format, a.headers).Some?
    ensures |f| == 62
  {
    HeaderLaws.StoredOptional(image, layout, a.headers, r)
  }

  lemma NtHeaderSame(a: Bytes, b: Bytes, nt: nat, format: Format)
    requires SameRange(a, b, nt, NtSize(format))
    ensures Parser.FileFields(a, nt) == Parser.FileFields(b, nt)
    ensures Parser.OptionalFields(a, nt, format) == Parser.OptionalFields(b, nt, format)
  {
    hide Unpack, OptionalWidths;
    SameRangeRead(a, b, nt + 4, 20);
    SameRangeRead(a, b, nt + 24, OptionalSize(format));
  }

  lemma WrittenBytes(layout: Layout, image: Bytes, a: Assembly, r: Headers.HeaderRequest, f: Bytes)
    requires Written(layout, image, a, r, f) && HeaderAgrees(layout, image)
    ensures |f| == |a.bytes| && r.headerSize <= |f|
    ensures SameRange(f, image, 0, DOS_HEADER_SIZE)
    ensures SameRange(a.bytes, image, layout.ntHeaderOffset, NtSize(layout.format))
  {
    hide Good, Headers.Outcome, Parser.OptionalFields;
    GoodSize(layout, a, r.headerSize);
    HeaderLaws.WriterNeeds(a.bytes, layout, a.headers, r);
    forall i | 0 <= i < DOS_HEADER_SIZE ensures f[i] == image[i] {
      HeaderLaws.WritesOnlyTables(a.bytes, layout, a.headers, r, i);
    }
  }

  lemma GoodSize(layout: Layout, a: Assembly, headerSize: nat)
    requires Good(layout, a, headerSize)
    ensures headerSize <= |a.bytes| && Stacked(a.headers)
    ensures forall k :: 0 <= k < |a.headers| ==> Settled(layout, a.headers[k], headerSize, |a.bytes|, a.end)
  {
  }

  lemma NtOffsetFound(layout: Layout, image: Bytes, f: Bytes)
    requires HeaderAgrees(layout, image) && SameRange(f, image, 0, DOS_HEADER_SIZE)
    requires layout.ntHeaderOffset < 0x8000_0000
    ensures Parser.NtOffset(f) == Ok(layout.ntHeaderOffset)
  {
    hide ReadAt, Parser.OptionalFields;
    SameRangeRead(f, image, 0, 2);
    SameRangeRead(f, image, 60, 4);
  }

  lemma MagicIsFirstField(f: Bytes, nt: nat, format: Format)
    requires Fits(f, nt, NtSize(format))
    ensures ReadAt(f, nt + 24, 2) == Parser.OptionalFields(f, nt, format)[MAGIC]
  {
    hide Unsigned;
    HeaderSizes(format);
    Parser.OptionalWidthList(format);
    var header := Slice(f, nt + 24, OptionalSize(format));
    assert Slice(f, nt + 24, 2) == header[..2];
  }

  /** The loader flags keep the "executable image" bit. */
  lemma StaysExecutable(format: Format, characteristics: U16, h: seq<nat>, count: nat, relocated: bool)
    requires |h| == 7 && Has(characteristics, EXECUTABLE_IMAGE)
    ensures Has(Headers.NewFileFields(format, characteristics, h, count, relocated)[FILE_CHARACTERISTICS], EXECUTABLE_IMAGE)
  {
  }

  lemma KeptScalars(layout: Layout, image: Bytes, a: Assembly, r: Headers.HeaderRequest)
    requires Fits(image, layout.ntHeaderOffset, NtSize(layout.format))
    requires Headers.TotalsOf(layout.format, a.headers).Some?
    ensures var f, g := Parser.OptionalFields(image, layout.ntHeaderOffset, layout.format), OptionalHeader(layout, image, a, r);
            g[SECTION_ALIGNMENT] == f[SECTION_ALIGNMENT] && g[FILE_ALIGNMENT] == f[FILE_ALIGNMENT]
            && g[MAGIC] == layout.format.OptionalHeaderMagic() && g[IMAGE_BASE] == r.imageBase
            && g[ENTRY_POINT] == r.oep && g[SIZE_OF_HEADERS] == r.headerSize && g[SIZE_OF_IMAGE] == r.imageSize
            && g[DIRECTORY_ENTRIES] == DIRECTORY_COUNT
  {
    hide Parser.OptionalFields, Headers.TotalsOf, Headers.NewDirectory, Headers.NewDllCharacteristics;
  }

  /** The parser accepts the written file and returns its headers. */
  lemma WrittenFileParses(layout: Layout, image: Bytes, a: Assembly, r: Headers.HeaderRequest, f: Bytes)
    requires Written(layout, image, a, r, f) && HeaderAgrees(layout, image) && Parser.Parsed(layout)
    ensures Headers.TotalsOf(layout.format, a.headers).Some?
    ensures var h, g := FileHeader(layout, image, a, r), OptionalHeader(layout, image, a, r);
            FieldsFit(FILE_WIDTHS, h) && FieldsFit(OptionalWidths(layout.format), g)
            && Parser.Outcome(f) == Ok(Parser.LayoutOf(layout.format, layout.ntHeaderOffset, h, g, a.headers))
  {
    hide Good, Headers.Outcome, Headers.TotalsOf, Headers.NewOptionalFields, Headers.NewFileFields, Parser.LayoutOf,
      Parser.OptionalFields, Parser.FileFields, Parser.SectionsFrom, OptionalWidths, FieldsFit, ReadAt, IsPowerOfTwo,
      Parser.OrderedFrom, HeaderLaws.StoredOptional, HeaderLaws.StoredFile;
    var nt, format := layout.ntHeaderOffset, layout.format;
    WrittenBytes(layout, image, a, r, f);
    NtOffsetFound(layout, image, f);
    HeaderLaws.HeadersReadBack(a.bytes, layout, a.headers, r);
    HeaderLaws.WriterNeeds(a.bytes, layout, a.headers, r);
    StoredSame(layout, image, a, r);
    MagicIsFirstField(f, nt, format);
    KeptScalars(layout, image, a, r);
    WrittenSections(layout, image, a, r, f);
    TypedParse(layout, a, r, f, FileHeader(layout, image, a, r), OptionalHeader(layout, image, a, r));
  }

  lemma StoredSame(layout: Layout, image: Bytes, a: Assembly, r: Headers.HeaderRequest)
    requires SameRange(a.bytes, image, layout.ntHeaderOffset, NtSize(layout.format))
    requires Headers.TotalsOf(layout.format, a.headers).Some?
    requires layout.format.AddressFits(r.imageBase) && |a.headers| < 0x1_0000
    requires Has(layout.characteristics, EXECUTABLE_IMAGE)
    ensures HeaderLaws.StoredFile(a.bytes, layout, a.headers, r) == FileHeader(layout, image, a, r)
    ensures HeaderLaws.StoredOptional(a.bytes, layout, a.headers, r) == OptionalHeader(layout, image, a, r)
    ensures FieldsFit(FILE_WIDTHS, FileHeader(layout, image, a, r))
    ensures FieldsFit(OptionalWidths(layout.format), OptionalHeader(layout, image, a, r))
    ensures var h := FileHeader(layout, image, a, r);
            h[FILE_MACHINE] == layout.format.Machine() && h[FILE_SECTION_COUNT] == |a.headers|
            && h[FILE_OPTIONAL_SIZE] == OptionalSize(layout.format) && Has(h[FILE_CHARACTERISTICS], EXECUTABLE_IMAGE)
  {
    hide Headers.TotalsOf, Headers.NewOptionalFields, Parser.OptionalFields, Parser.FileFields, FieldsFit, OptionalWidths;
    NtHeaderSame(a.bytes, image, layout.ntHeaderOffset, layout.format);
    HeaderLaws.StoredFieldsFit(a.bytes, layout, a.headers, r);
    StaysExecutable(layout.format, layout.characteristics, Parser.FileFields(image, layout.ntHeaderOffset), |a.headers|,
                    r.relocations.Some?);
  }

  lemma WrittenSections(layout: Layout, image: Bytes, a: Assembly, r: Headers.HeaderRequest, f: Bytes)
    requires Written(layout, image, a, r, f)
    ensures var table := layout.ntHeaderOffset + NtSize(layout.format);
            Fits(f, table, |a.headers| * SECTION_HEADER_SIZE)
            && Parser.SectionsFrom(f, table, a.end, 0, |a.headers|, 0) == Ok(a.headers)
  {
    hide Good, Headers.Outcome, Parser.SectionAt, Stacked, IsPowerOfTwo;
    var table := layout.ntHeaderOffset + NtSize(layout.format);
    GoodSize(layout, a, r.headerSize);
    HeaderLaws.WriterNeeds(a.bytes, layout, a.headers, r);
    forall k | 0 <= k < |a.headers|
      ensures Parser.SectionAt(f, table + k * SECTION_HEADER_SIZE) == a.headers[k]
    {
      HeaderLaws.SectionsReadBack(a.bytes, layout, a.headers, r, k);
    }
    SectionsParsed(f, table, a.end, a.headers, 0, 0);
    assert a.headers[0..] == a.headers;
  }

  /** The parser's decisions on a file with known headers. */
  lemma TypedParse(layout: Layout, a: Assembly, r: Headers.HeaderRequest, f: Bytes, h: seq<nat>, g: seq<nat>)
    requires |h| == 7 && |g| == 62 && FieldsFit(FILE_WIDTHS, h) && FieldsFit(OptionalWidths(layout.format), g)
    requires Parser.NtOffset(f) == Ok(layout.ntHeaderOffset)
    requires Fits(f, layout.ntHeaderOffset, NtSize(layout.format))
    requires ReadAt(f, layout.ntHeaderOffset, 4) == NT_SIGNATURE
    requires Parser.FileFields(f, layout.ntHeaderOffset) == h
    requires Parser.OptionalFields(f, layout.ntHeaderOffset, layout.format) == g
    requires ReadAt(f, layout.ntHeaderOffset + 24, 2) == g[MAGIC] == layout.format.OptionalHeaderMagic()
    requires h[FILE_MACHINE] == layout.format.Machine() && h[FILE_SECTION_COUNT] == |a.headers|
    requires h[FILE_OPTIONAL_SIZE] == OptionalSize(layout.format) && Has(h[FILE_CHARACTERISTICS], EXECUTABLE_IMAGE)
    requires 0 < |a.headers| <= 96
    requires IsPowerOfTwo(g[FILE_ALIGNMENT]) && IsPowerOfTwo(g[SECTION_ALIGNMENT])
    requires g[FILE_ALIGNMENT] <= g[SECTION_ALIGNMENT]
    requires 0 < g[SIZE_OF_IMAGE] == a.end <= LIMIT && g[SIZE_OF_HEADERS] <= a.end && g[IMAGE_BASE] != 0
    requires g[ENTRY_POINT] < a.end
    requires Fits(f, layout.ntHeaderOffset + NtSize(layout.format), |a.headers| * SECTION_HEADER_SIZE)
    requires Parser.SectionsFrom(f, layout.ntHeaderOffset + NtSize(layout.format), a.end, 0, |a.headers|, 0) == Ok(a.headers)
    ensures Parser.Outcome(f) == Ok(Parser.LayoutOf(layout.format, layout.ntHeaderOffset, h, g, a.headers))
  {
    hide Parser.LayoutOf, Parser.OptionalFields, Parser.FileFields, Parser.SectionsFrom, OptionalWidths, FieldsFit, ReadAt,
      IsPowerOfTwo, Parser.NtOffset, Has;
  }

  // ---- the fixer's output ----

  /** The first headers are those of the rebuilt sections, all within the image. */
  ghost predicate FirstAre(a: Assembly, headers: seq<Section>, sections: seq<Sections.RebuiltSection>) {
    |headers| == |sections| <= |a.headers|
    && forall k :: 0 <= k < |sections| ==>
         a.headers[k] == headers[k] && headers[k].virtualAddress == sections[k].virtualAddress
         && headers[k].virtualSize == sections[k].virtualSize
         && sections[k].virtualAddress + sections[k].virtualSize <= a.end
  }

  lemma EntryInside(layout: Layout, image: Bytes, request: FixRequest, plan: Sections.SectionPlan)
    requires layout.fileAlignment > 0 && layout.sectionAlignment > 0 && InImage(layout, plan.sections)
    requires layout.sizeOfImage <= |image| && Finished(layout, image, request, plan).Ok?
    requires Presentable(layout, image, request, plan)
    ensures var s := StagesOf(layout, image, request, plan);
            request.oep < s.placed.assembly.end && s.headerSize < s.placed.assembly.end
    ensures var s := StagesOf(layout, image, request, plan);
            FirstAre(s.placed.assembly, s.base.headers, plan.sections)
  {
    hide PlaceAll, WithImports, Headers.Outcome, WithRelocations, HeaderRequestOf, StartAssembly, Good, IsPowerOfTwo, AlignUp,
      Extends, Assembled, TablesOf, AddSection, PatchedBase, HeaderSize, Contains, Parser.Parsed, HeaderAgrees;
    var s := StagesOf(layout, image, request, plan);
    BaseFacts(layout, image, request, plan);
    ImportedFacts(layout, image, request, plan);
    PlacedFacts(layout, image, request, plan);
    var a := s.placed.assembly;
    forall k | 0 <= k < |plan.sections|
      ensures k < |a.headers| && a.headers[k] == s.base.headers[k]
              && a.headers[k].virtualAddress == plan.sections[k].virtualAddress
              && a.headers[k].virtualSize == plan.sections[k].virtualSize
              && plan.sections[k].virtualAddress + plan.sections[k].virtualSize <= a.end
    {
      assert a.headers[k] == a.headers[..|s.imported.assembly.headers|][k] == s.imported.assembly.headers[k];
      assert s.imported.assembly.headers[k] == s.imported.assembly.headers[..|s.base.headers|][k];
      HeaderSettled(layout, a, s.headerSize, k);
      assert Copied(layout, image, s.base.bytes, s.base.headers[k], plan.sections[k]);
    }
    assert plan.sections[0].virtualSize > 0;
  }

  lemma FinishedIsWritten(layout: Layout, image: Bytes, request: FixRequest, plan: Sections.SectionPlan)
    requires layout.fileAlignment > 0 && layout.sectionAlignment > 0 && InImage(layout, plan.sections)
    requires layout.sizeOfImage <= |image| && Finished(layout, image, request, plan).Ok?
    requires Presentable(layout, image, request, plan) && ImageBase(request.placement) != 0
    ensures var s := StagesOf(layout, image, request, plan);
            Written(layout, image, s.placed.assembly, s.request, FileOf(layout, image, request, plan))
            && s.request.headerSize == s.headerSize && s.request.oep == request.oep
            && s.request.imageBase == ImageBase(request.placement)
            && s.request.imports == s.imported.directories && s.request.relocations == s.placed.directory
  {
    hide PlaceAll, WithImports, Headers.Outcome, WithRelocations, StartAssembly, Good, IsPowerOfTwo, AlignUp, Extends,
      Assembled, TablesOf, Copied, AddSection, PatchedBase, HeaderSize, PlanOrdered, Parser.Parsed;
    var s := StagesOf(layout, image, request, plan);
    PlacedFacts(layout, image, request, plan);
    FileIsWritten(layout, image, request, plan);
    FileBody(layout, image, request, plan, 0);
    EntryInside(layout, image, request, plan);
    forall i | 0 <= i < s.headerSize && i < layout.sizeOfHeaders
      ensures i < |s.placed.assembly.bytes| && s.placed.assembly.bytes[i] == image[i]
    {
      HeaderArea(layout, image, request, plan, i);
    }
  }

  /** The layout a loader reads from the rebuilt file. */
  ghost predicate Emitted(layout: Layout, request: FixRequest, s: Stages, p: Layout) {
    p.format == layout.format && p.imageKind == layout.imageKind && p.machine == layout.machine
    && p.ntHeaderOffset == layout.ntHeaderOffset
    && p.preferredImageBase == ImageBase(request.placement) && p.entryPoint == request.oep
    && p.sizeOfImage == s.placed.assembly.end && p.sizeOfHeaders == s.headerSize
    && p.sectionAlignment == layout.sectionAlignment && p.fileAlignment == layout.fileAlignment
    && p.sections == s.placed.assembly.headers
    && (Has(p.characteristics, RELOCS_STRIPPED) <==> s.placed.directory.None?)
    && (s.placed.directory.None? ==> !Has(p.dllCharacteristics, DYNAMIC_BASE) && !Has(p.dllCharacteristics, HIGH_ENTROPY_VA))
    && p.directories[BASE_RELOCATION_DIRECTORY] == (if s.placed.directory.Some? then s.placed.directory.value else NO_DIRECTORY)
    && p.directories[IMPORT_DIRECTORY]
       == (if s.imported.directories.Some? then s.imported.directories.value.descriptors else NO_DIRECTORY)
    && p.directories[IAT_DIRECTORY]
       == (if s.imported.directories.Some? then s.imported.directories.value.iat else NO_DIRECTORY)
    && p.directories[DELAY_IMPORT_DIRECTORY] == NO_DIRECTORY && p.directories[BOUND_IMPORT_DIRECTORY] == NO_DIRECTORY
  }

  lemma NewDirectoryRead(layout: Layout, image: Bytes, a: Assembly, r: Headers.HeaderRequest, i: nat)
    requires Fits(image, layout.ntHeaderOffset, NtSize(layout.format)) && i < DIRECTORY_COUNT
    requires Headers.TotalsOf(layout.format, a.headers).Some?
    requires FieldsFit(OptionalWidths(layout.format), OptionalHeader(layout, image, a, r))
    ensures var f, g := Parser.OptionalFields(image, layout.ntHeaderOffset, layout.format), OptionalHeader(layout, image, a, r);
            (forall k :: FIRST_DIRECTORY <= k < 62 ==> f[k] <= U32_MAX && g[k] <= U32_MAX)
            && Parser.DirectoriesOf(g)[i]
               == Headers.NewDirectory(i, Directory(f[FIRST_DIRECTORY + 2 * i], f[FIRST_DIRECTORY + 2 * i + 1]), r)
  {
    hide Parser.OptionalFields, Headers.TotalsOf, Headers.NewDirectory, Headers.NewDllCharacteristics, FieldsFit, OptionalWidths;
    hide Headers.NewOptionalFields;
    var f, g := Parser.OptionalFields(image, layout.ntHeaderOffset, layout.format), OptionalHeader(layout, image, a, r);
    Parser.OptionalFieldRanges(layout.format, g);
    Parser.OptionalFieldRanges(layout.format, f);
    KeptScalars(layout, image, a, r);
    DirectoryWords(layout.format, f, Headers.TotalsOf(layout.format, a.headers).value, r, i);
  }

  lemma DirectoryWords(format: Format, f: seq<nat>, t: Headers.Totals, r: Headers.HeaderRequest, i: nat)
    requires |f| == 62 && f[DLL_CHARACTERISTICS] < 0x1_0000 && i < DIRECTORY_COUNT
    requires forall k :: FIRST_DIRECTORY <= k < 62 ==> f[k] <= U32_MAX
    ensures var g, k := Headers.NewOptionalFields(format, f, t, r), FIRST_DIRECTORY + 2 * i;
            var d := Headers.NewDirectory(i, Directory(f[k], f[k + 1]), r);
            g[k] == d.address && g[k + 1] == d.size
  {
    hide Headers.NewDirectory, Headers.NewScalars;
    HalvedIndex(i);
  }

  lemma HalvedIndex(i: nat)
    ensures 2 * i / 2 == i && (2 * i + 1) / 2 == i
    ensures (FIRST_DIRECTORY + 2 * i) % 2 == 0 && (FIRST_DIRECTORY + 2 * i + 1) % 2 == 1
  {
  }

  lemma NewFlags(layout: Layout, h: seq<nat>, count: nat, relocated: bool)
    requires |h| == 7
    ensures var c := Headers.NewFileFields(layout.format, layout.characteristics, h, count, relocated)[FILE_CHARACTERISTICS];
            (Has(c, RELOCS_STRIPPED) <==> !relocated) && (Has(c, FILE_DLL) <==> Has(layout.characteristics, FILE_DLL))
  {
  }

  lemma NewDllFlags(layout: Layout, image: Bytes, a: Assembly, r: Headers.HeaderRequest)
    requires Fits(image, layout.ntHeaderOffset, NtSize(layout.format))
    requires Headers.TotalsOf(layout.format, a.headers).Some? && r.relocations.None?
    ensures var d := OptionalHeader(layout, image, a, r)[DLL_CHARACTERISTICS];
            !Has(d, DYNAMIC_BASE) && !Has(d, HIGH_ENTROPY_VA)
  {
    hide Parser.OptionalFields, Headers.TotalsOf, Headers.NewDirectory, ClearPlacement, Has;
    PlacementCleared(Parser.OptionalFields(image, layout.ntHeaderOffset, layout.format)[DLL_CHARACTERISTICS]);
  }

  /** Rebuild then parse: the parser accepts the rebuilt file and returns the
      emitted sections and header values. */
  lemma RebuiltFileParses(layout: Layout, image: Bytes, request: FixRequest, plan: Sections.SectionPlan)
    requires layout.fileAlignment > 0 && layout.sectionAlignment > 0 && InImage(layout, plan.sections)
    requires layout.sizeOfImage <= |image| && Finished(layout, image, request, plan).Ok?
    requires Presentable(layout, image, request, plan) && ImageBase(request.placement) != 0
    ensures var parsed := Parser.Outcome(FileOf(layout, image, request, plan));
            parsed.Ok? && Emitted(layout, request, StagesOf(layout, image, request, plan), parsed.value)
  {
    hide Finished, Parser.OptionalFields, Headers.TotalsOf, FieldsFit, OptionalWidths, Parser.Outcome, Good, Has,
      Written, StagesOf, FileOf, HeaderLaws.StoredOptional, HeaderLaws.StoredFile, Parser.DirectoriesOf, IsPowerOfTwo,
      Headers.Outcome, Parser.OrderedFrom;
    var s, f := StagesOf(layout, image, request, plan), FileOf(layout, image, request, plan);
    var a, r := s.placed.assembly, s.request;
    FinishedIsWritten(layout, image, request, plan);
    WrittenFileParses(layout, image, a, r, f);
    KeptScalars(layout, image, a, r);
    NewDirectoryRead(layout, image, a, r, BASE_RELOCATION_DIRECTORY);
    NewDirectoryRead(layout, image, a, r, IMPORT_DIRECTORY);
    NewDirectoryRead(layout, image, a, r, IAT_DIRECTORY);
    NewDirectoryRead(layout, image, a, r, DELAY_IMPORT_DIRECTORY);
    NewDirectoryRead(layout, image, a, r, BOUND_IMPORT_DIRECTORY);
    FileFlags(layout, image, a, r);
    WrittenImageSize(layout, image, a, r, f);
    if r.relocations.None? {
      NewDllFlags(layout, image, a, r);
    }
  }

  lemma WrittenImageSize(layout: Layout, image: Bytes, a: Assembly, r: Headers.HeaderRequest, f: Bytes)
    requires Written(layout, image, a, r, f)
    ensures r.imageSize == a.end
  {
  }

  lemma FileFlags(layout: Layout, image: Bytes, a: Assembly, r: Headers.HeaderRequest)
    requires Fits(image, layout.ntHeaderOffset, NtSize(layout.format))
    ensures var h := FileHeader(layout, image, a, r);
            (Has(h[FILE_CHARACTERISTICS], RELOCS_STRIPPED) <==> r.relocations.None?)
            && (Has(h[FILE_CHARACTERISTICS], FILE_DLL) <==> Has(layout.characteristics, FILE_DLL))
            && h[FILE_MACHINE] == layout.format.Machine()
  {
    hide Parser.FileFields, Has;
    NewFlags(layout, Parser.FileFields(image, layout.ntHeaderOffset), |a.headers|, r.relocations.Some?);
  }
}
