/** What the fixer writes is what the parser reads: the rebuilt file parses to
    the emitted sections, and those sections hold the normalised image. */
module FixerLaws {
  import opened Bytes
  import opened Structs
  import opened Alignment
  import opened PeFormat
  import opened ImportTypes
  import opened PeImageFixer
  import opened AssemblyLaws
  import Sections = SectionLayoutRebuilder
  import SectionLaws = SectionLayoutLaws
  import Builder = ImportTableBuilder
  import Tables = ImportTableLaws
  import Headers = PeHeaderWriter
  import HeaderLaws
  import Parser = PeParser

  lemma AlignedAlready(v: U32, alignment: U32)
    requires alignment > 0 && v % alignment == 0 && v <= U32_MAX - (alignment - 1)
    ensures AlignUp(v, alignment) == Some(v)
  {
    AlignUpIsLeast(v, alignment);
  }

  /** The import tables built for an assembly. */
  ghost function TablesOf(layout: Layout, a: Assembly, plan: ImportPlan): Result<Builder.Progress, Builder.FixError> {
    Builder.AddModules(ImportContext(layout, a, a.end), plan, a.bytes, |plan.modules|)
  }

  /** One more section with `content` follows the old headers at the old end. */
  ghost predicate Extends(before: Assembly, after: Assembly, content: Bytes) {
    |after.headers| == |before.headers| + 1 && after.headers[..|before.headers|] == before.headers
    && |before.bytes| <= |after.bytes|
    && var h := after.headers[|before.headers|];
       h.virtualAddress == before.end && h.virtualSize == |content| && Contains(after.bytes, h, content)
  }

  /** The pieces of a successful import step, with no 32-bit sum wrapping. */
  lemma ImportShape(layout: Layout, a: Assembly, imports: Option<ImportPlan>) returns (name: SectionName, end: U32)
    requires layout.fileAlignment > 0 && 0 < layout.sectionAlignment <= LIMIT
    requires a.end % layout.sectionAlignment == 0 && a.end <= LIMIT
    requires WithImports(layout, a, imports).Ok? && HasImports(imports)
    requires TablesOf(layout, a, imports.value).Ok? ==>
      |TablesOf(layout, a, imports.value).value.tables.importBytes| <= LIMIT
    ensures TablesOf(layout, a, imports.value).Ok?
    ensures var r, t := WithImports(layout, a, imports).value, TablesOf(layout, a, imports.value).value;
            var size := |t.tables.importBytes|;
            var added := AddSection(layout, a.(bytes := t.tables.image), name, a.end, size, t.tables.importBytes, IMPORT_FLAGS);
            added.Some? && r.assembly == added.value.(end := end)
            && AlignUp(Wrap32(a.end + size), layout.sectionAlignment) == Some(end)
            && r.directories == Some(Headers.ImportDirectories(
                 Directory(a.end, Wrap32((|imports.value.modules| + 1) * DESCRIPTOR_SIZE)),
                 Directory(t.iatStart, Wrap32(t.iatEnd - t.iatStart))))
  {
    hide AddSection, AlignUp, FreeName, Builder.AddModules;
    AlignedAlready(a.end, layout.sectionAlignment);
    var t := TablesOf(layout, a, imports.value).value;
    name := FreeName(layout, 0).value;
    end := AlignUp(Wrap32(a.end + |t.tables.importBytes|), layout.sectionAlignment).value;
  }

  lemma ImportStep(layout: Layout, a: Assembly, headerSize: nat, imports: Option<ImportPlan>)
    requires Good(layout, a, headerSize) && layout.fileAlignment > 0 && layout.sectionAlignment <= LIMIT
    requires WithImports(layout, a, imports).Ok? && HasImports(imports)
    requires TablesOf(layout, a, imports.value).Ok? ==>
      0 < |TablesOf(layout, a, imports.value).value.tables.importBytes| <= LIMIT
    requires WithImports(layout, a, imports).value.assembly.end <= LIMIT
    ensures TablesOf(layout, a, imports.value).Ok?
    ensures var r, t := WithImports(layout, a, imports).value, TablesOf(layout, a, imports.value).value;
            Good(layout, r.assembly, headerSize) && Extends(a, r.assembly, t.tables.importBytes)
            && |t.tables.image| == |a.bytes| && r.assembly.bytes[..|a.bytes|] == t.tables.image
            && r.directories == Some(Headers.ImportDirectories(
                 Directory(a.end, Wrap32((|imports.value.modules| + 1) * DESCRIPTOR_SIZE)),
                 Directory(t.iatStart, Wrap32(t.iatEnd - t.iatStart))))
  {
    hide WithImports, AddSection, AlignUp, IsPowerOfTwo, Good, Contains, Builder.AddModules;
    GoodEnd(layout, a, headerSize);
    var name, end := ImportShape(layout, a, imports);
    var t := TablesOf(layout, a, imports.value).value;
    ImageKeepsLength(ImportContext(layout, a, a.end), imports.value, a.bytes, |imports.value.modules|);
    GoodWithBytes(layout, a, headerSize, t.tables.image);
    AddSectionKeeps(layout, a.(bytes := t.tables.image), headerSize, name, a.end, t.tables.importBytes, IMPORT_FLAGS, end);
  }

  lemma GoodEnd(layout: Layout, a: Assembly, headerSize: nat)
    requires Good(layout, a, headerSize)
    ensures layout.sectionAlignment > 0 && a.end % layout.sectionAlignment == 0 && a.end <= LIMIT
  {
  }

  lemma GoodWithBytes(layout: Layout, a: Assembly, headerSize: nat, bytes: Bytes)
    requires Good(layout, a, headerSize) && |bytes| == |a.bytes|
    ensures Good(layout, a.(bytes := bytes), headerSize)
  {
    hide IsPowerOfTwo, Stacked, Settled;
  }

  lemma {:induction false} ImageKeepsLength(ctx: Builder.Context, plan: ImportPlan, image: Bytes, n: nat)
    requires n <= |plan.modules| && Builder.AddModules(ctx, plan, image, n).Ok?
    ensures |Builder.AddModules(ctx, plan, image, n).value.tables.image| == |image|
  {
    hide Builder.AddModule;
    if n > 0 {
      ImageKeepsLength(ctx, plan, image, n - 1);
      Tables.AddModuleRanges(ctx, Builder.AddModules(ctx, plan, image, n - 1).value, n - 1, plan.modules[n - 1]);
    }
  }

  lemma RelocationStep(layout: Layout, a: Assembly, headerSize: nat, placement: Placement)
    requires Good(layout, a, headerSize) && layout.fileAlignment > 0 && layout.sectionAlignment <= LIMIT
    requires placement.RelocatedPlacement? && 0 < |placement.plan.directoryBytes| <= LIMIT
    requires WithRelocations(layout, a, placement).Some?
    requires WithRelocations(layout, a, placement).value.assembly.end <= LIMIT
    ensures var r, bytes := WithRelocations(layout, a, placement).value, placement.plan.directoryBytes;
            Good(layout, r.assembly, headerSize) && Extends(a, r.assembly, bytes)
            && r.assembly.bytes[..|a.bytes|] == a.bytes
            && r.directory == Some(Directory(a.end, |bytes|))
  {
    hide WithRelocations, AddSection, AlignUp, IsPowerOfTwo, Good, Contains;
    GoodEnd(layout, a, headerSize);
    var end := RelocationShape(layout, a, placement);
    AddSectionKeeps(layout, a, headerSize, RelocName(), a.end, placement.plan.directoryBytes, RELOCATION_FLAGS, end);
  }

  lemma RelocationShape(layout: Layout, a: Assembly, placement: Placement) returns (end: U32)
    requires layout.fileAlignment > 0 && 0 < layout.sectionAlignment <= LIMIT
    requires a.end % layout.sectionAlignment == 0 && a.end <= LIMIT
    requires placement.RelocatedPlacement? && |placement.plan.directoryBytes| <= LIMIT
    requires WithRelocations(layout, a, placement).Some?
    ensures var r, bytes := WithRelocations(layout, a, placement).value, placement.plan.directoryBytes;
            var added := AddSection(layout, a, RelocName(), a.end, |bytes|, bytes, RELOCATION_FLAGS);
            added.Some? && r.assembly == added.value.(end := end)
            && AlignUp(Wrap32(a.end + |bytes|), layout.sectionAlignment) == Some(end)
            && r.directory == Some(Directory(a.end, |bytes|))
  {
    hide AddSection, AlignUp, Wrap32;
    AlignedAlready(a.end, layout.sectionAlignment);
    WrapSmall(|placement.plan.directoryBytes|);
    end := AlignUp(Wrap32(a.end + |placement.plan.directoryBytes|), layout.sectionAlignment).value;
  }

  // ---- ends of the image stay bounded ----

  lemma EndWithin(layout: Layout, v: nat, limit: nat)
    requires layout.sectionAlignment > 0 && v <= limit <= U32_MAX && limit % layout.sectionAlignment == 0
    requires AlignUp(v, layout.sectionAlignment).Some?
    ensures AlignUp(v, layout.sectionAlignment).value <= limit
    ensures AlignUp(v, layout.sectionAlignment).value % layout.sectionAlignment == 0
  {
    AlignUpIsLeast(v, layout.sectionAlignment);
  }

  lemma {:induction false} SectionsEndWithin(layout: Layout, image: Bytes, start: Assembly,
                                             sections: seq<Sections.RebuiltSection>, n: nat)
    requires layout.fileAlignment > 0 && n <= |sections| && layout.sizeOfImage <= |image|
    requires PlanOrdered(layout, sections) && InImage(layout, sections)
    requires layout.sizeOfImage <= LIMIT && LIMIT % layout.sectionAlignment == 0
    requires start.end == 0 && PlaceAll(layout, image, start, sections, n).Some?
    ensures PlaceAll(layout, image, start, sections, n).value.end <= LIMIT
  {
    hide AddSection, AlignUp;
    if n > 0 {
      var s := sections[n - 1];
      SectionsEndWithin(layout, image, start, sections, n - 1);
      EndWithin(layout, s.virtualAddress + s.virtualSize, LIMIT);
    }
  }

  /** The end after the imports is no later than the end of the image. */
  lemma RelocationsEndLater(layout: Layout, a: Assembly, placement: Placement)
    requires layout.fileAlignment > 0 && 0 < layout.sectionAlignment <= LIMIT
    requires a.end % layout.sectionAlignment == 0 && a.end <= 2 * LIMIT
    requires placement.RelocatedPlacement? ==> |placement.plan.directoryBytes| <= LIMIT
    requires WithRelocations(layout, a, placement).Some?
    ensures a.end <= WithRelocations(layout, a, placement).value.assembly.end
  {
    hide AddSection, AlignUp, Wrap32;
    if placement.RelocatedPlacement? {
      var size := |placement.plan.directoryBytes|;
      WrapSmall(size);
      WrapSmall(a.end + size);
      AlignedAlready(a.end, layout.sectionAlignment);
      AlignUpIsLeast(a.end + size, layout.sectionAlignment);
    }
  }

  lemma ImportsEnd(layout: Layout, a: Assembly, imports: Option<ImportPlan>)
    requires layout.fileAlignment > 0 && 0 < layout.sectionAlignment <= LIMIT
    requires (2 * LIMIT) % layout.sectionAlignment == 0
    requires a.end % layout.sectionAlignment == 0 && a.end <= LIMIT
    requires WithImports(layout, a, imports).Ok?
    requires HasImports(imports) && TablesOf(layout, a, imports.value).Ok? ==>
      |TablesOf(layout, a, imports.value).value.tables.importBytes| <= LIMIT
    ensures var end := WithImports(layout, a, imports).value.assembly.end;
            end <= 2 * LIMIT && end % layout.sectionAlignment == 0
  {
    hide AddSection, AlignUp, FreeName, Builder.AddModules;
    if HasImports(imports) {
      AlignedAlready(a.end, layout.sectionAlignment);
      var t := TablesOf(layout, a, imports.value).value;
      EndWithin(layout, a.end + |t.tables.importBytes|, 2 * LIMIT);
    }
  }

  // ---- the output as a whole ----

  /** The captured header is the one the layout was parsed from, in the fields
      that the header writer keeps. */
  ghost predicate HeaderAgrees(layout: Layout, image: Bytes) {
    var nt := layout.ntHeaderOffset;
    DOS_HEADER_SIZE <= nt && nt + NtSize(layout.format) <= layout.sizeOfHeaders <= |image|
    && ReadAt(image, 0, 2) == DOS_SIGNATURE && ReadAt(image, 60, 4) == nt
    && var f := Parser.OptionalFields(image, nt, layout.format);
       f[SECTION_ALIGNMENT] == layout.sectionAlignment && f[FILE_ALIGNMENT] == layout.fileAlignment
  }

  /** The stages of a successful rebuild after the section plan. */
  datatype Stages = Stages(headerSize: U32, base: Assembly, imported: Imported, placed: WithDirectory, request: Headers.HeaderRequest)

  ghost function StagesOf(layout: Layout, image: Bytes, request: FixRequest, plan: Sections.SectionPlan): (s: Stages)
    requires layout.fileAlignment > 0 && layout.sectionAlignment > 0 && InImage(layout, plan.sections)
    requires layout.sizeOfImage <= |image| && Finished(layout, image, request, plan).Ok?
  {
    var count := SectionCount(|plan.sections|, request);
    var headerSize := HeaderSize(layout, count).value;
    var base := Assembled(layout, image, plan.sections, count).value;
    var imported := WithImports(layout, base, request.imports).value;
    var placed := WithRelocations(layout, imported.assembly, request.placement).value;
    Stages(headerSize, base, imported, placed,
           HeaderRequestOf(layout, request, headerSize, placed.assembly.end, imported.directories, placed.directory,
                           plan.tlsDirectory))
  }

  /** A rebuild whose output a loader can address: headers end before the first
      section, and tables and image stay within one gibibyte. */
  ghost predicate Presentable(layout: Layout, image: Bytes, request: FixRequest, plan: Sections.SectionPlan)
    requires layout.fileAlignment > 0 && layout.sectionAlignment > 0 && InImage(layout, plan.sections)
    requires layout.sizeOfImage <= |image| && Finished(layout, image, request, plan).Ok?
  {
    var s := StagesOf(layout, image, request, plan);
    Parser.Parsed(layout) && HeaderAgrees(layout, image)
    && plan.sections != [] && PlanOrdered(layout, plan.sections)
    && s.headerSize <= plan.sections[0].virtualAddress
    && s.placed.assembly.end <= LIMIT
    && (HasImports(request.imports) && TablesOf(layout, s.base, request.imports.value).Ok? ==>
          0 < |TablesOf(layout, s.base, request.imports.value).value.tables.importBytes| <= LIMIT)
    && (request.placement.RelocatedPlacement? ==> 0 < |request.placement.plan.directoryBytes| <= LIMIT)
    && (request.oep == 0 || exists k :: 0 <= k < |plan.sections| && SectionLaws.SectionHolds(plan.sections[k], request.oep))
  }

  lemma BaseFacts(layout: Layout, image: Bytes, request: FixRequest, plan: Sections.SectionPlan)
    requires layout.fileAlignment > 0 && layout.sectionAlignment > 0 && InImage(layout, plan.sections)
    requires layout.sizeOfImage <= |image| && Finished(layout, image, request, plan).Ok?
    requires Presentable(layout, image, request, plan)
    ensures var s := StagesOf(layout, image, request, plan);
            0 < layout.sectionAlignment <= LIMIT
            && s.base.end <= LIMIT && s.imported.assembly.end <= LIMIT
            && Good(layout, s.base, s.headerSize) && |s.base.headers| == |plan.sections|
            && s.headerSize <= |s.base.bytes|
            && s.base.bytes[..s.headerSize] == StartAssembly(layout, image, s.headerSize).bytes
            && (forall k :: 0 <= k < |plan.sections| ==>
                  Copied(layout, image, s.base.bytes, s.base.headers[k], plan.sections[k])
                  && plan.sections[k].virtualAddress + plan.sections[k].virtualSize <= s.base.end)
  {
    hide PlaceAll, WithImports, WithRelocations, Headers.Outcome, Good, IsPowerOfTwo, AlignUp, Copied, TablesOf, HeaderRequestOf,
      StartAssembly;
    var s := StagesOf(layout, image, request, plan);
    FirstSectionBounds(layout, plan.sections[0].virtualAddress, s.headerSize, SectionCount(|plan.sections|, request));
    LimitIsMultiple(layout);
    StartFacts(layout, image, s.headerSize);
    StartIsGood(layout, image, s.headerSize);
    SectionsEndWithin(layout, image, StartAssembly(layout, image, s.headerSize), plan.sections, |plan.sections|);
    PlacedSections(layout, image, StartAssembly(layout, image, s.headerSize), s.headerSize, plan.sections, |plan.sections|);
    forall k | 0 <= k < |plan.sections|
      ensures plan.sections[k].virtualAddress + plan.sections[k].virtualSize <= s.base.end
    {
      assert k < |plan.sections| - 1 ==>
        plan.sections[k].virtualAddress + plan.sections[k].virtualSize <= plan.sections[|plan.sections| - 1].virtualAddress;
    }
    GoodEnd(layout, s.base, s.headerSize);
    ImportsEnd(layout, s.base, request.imports);
    RelocationsEndLater(layout, s.imported.assembly, request.placement);
  }

  lemma LimitIsMultiple(layout: Layout)
    requires IsPowerOfTwo(layout.sectionAlignment) && 0 < layout.sectionAlignment <= LIMIT
    ensures LIMIT % layout.sectionAlignment == 0 && (2 * LIMIT) % layout.sectionAlignment == 0
  {
    LimitIsPower();
    PowerDivides(layout.sectionAlignment, LIMIT);
    PowerDivides(layout.sectionAlignment, 2 * LIMIT);
  }

  lemma {:induction false} PowerProduct(a: nat, b: nat)
    requires IsPowerOfTwo(a) && IsPowerOfTwo(b)
    ensures IsPowerOfTwo(a * b)
  {
    if a > 1 {
      PowerProduct(a / 2, b);
      assert a * b == 2 * (a / 2 * b);
    }
  }

  lemma LimitIsPower()
    ensures IsPowerOfTwo(LIMIT) && IsPowerOfTwo(2 * LIMIT)
  {
    assert IsPowerOfTwo(4) && IsPowerOfTwo(16);
    PowerProduct(4, 16);
    PowerProduct(16, 16);
    PowerProduct(64, 256);
    PowerProduct(256, 256);
    PowerProduct(0x4000, 0x1_0000);
    PowerProduct(2, LIMIT);
  }

  lemma StartFacts(layout: Layout, image: Bytes, headerSize: U32)
    requires layout.sizeOfHeaders <= |image|
    ensures var a := StartAssembly(layout, image, headerSize);
            a.headers == [] && a.end == 0 && |a.bytes| == headerSize
  {
  }

  /** A positive aligned address bounds the alignment. */
  lemma FirstSectionBounds(layout: Layout, va: U32, headerSize: U32, count: nat)
    requires Aligns(layout) && layout.fileAlignment > 0 && layout.sectionAlignment > 0
    requires va % layout.sectionAlignment == 0 && headerSize <= va
    requires HeaderSize(layout, count) == Some(headerSize)
    requires layout.ntHeaderOffset < 0x8000_0000 && count <= 96
    ensures layout.sectionAlignment <= va && layout.ntHeaderOffset + NtSize(layout.format) + count * SECTION_HEADER_SIZE <= headerSize
  {
    hide IsPowerOfTwo, AlignUp;
    var table := layout.ntHeaderOffset + NtSize(layout.format) + count * SECTION_HEADER_SIZE;
    AlignUpIsLeast(table, layout.fileAlignment);
    MultiplesApart(0, va, layout.sectionAlignment);
  }

  // ---- the finished assembly ----

  /** The image bytes under the rebuilt sections, after IAT patching. */
  ghost function PatchedBase(layout: Layout, base: Assembly, imports: Option<ImportPlan>): Bytes {
    if HasImports(imports) && TablesOf(layout, base, imports.value).Ok?
    then TablesOf(layout, base, imports.value).value.tables.image
    else base.bytes
  }

  lemma ImportedFacts(layout: Layout, image: Bytes, request: FixRequest, plan: Sections.SectionPlan)
    requires layout.fileAlignment > 0 && layout.sectionAlignment > 0 && InImage(layout, plan.sections)
    requires layout.sizeOfImage <= |image| && Finished(layout, image, request, plan).Ok?
    requires Presentable(layout, image, request, plan)
    ensures var s := StagesOf(layout, image, request, plan);
            var a, patched := s.imported.assembly, PatchedBase(layout, s.base, request.imports);
            Good(layout, a, s.headerSize)
            && |a.headers| == |s.base.headers| + (if HasImports(request.imports) then 1 else 0)
            && a.headers[..|s.base.headers|] == s.base.headers
            && |patched| == |s.base.bytes| <= |a.bytes| && a.bytes[..|s.base.bytes|] == patched
            && s.base.end <= LIMIT && layout.sectionAlignment <= LIMIT && a.end <= LIMIT
            && (HasImports(request.imports) ==>
                  TablesOf(layout, s.base, request.imports.value).Ok?
                  && var t := TablesOf(layout, s.base, request.imports.value).value;
                     Extends(s.base, a, t.tables.importBytes)
                     && s.imported.directories == Some(Headers.ImportDirectories(
                          Directory(s.base.end, Wrap32((|request.imports.value.modules| + 1) * DESCRIPTOR_SIZE)),
                          Directory(t.iatStart, Wrap32(t.iatEnd - t.iatStart)))))
            && (!HasImports(request.imports) ==> a == s.base && s.imported.directories == None)
  {
    hide PlaceAll, WithRelocations, WithImports, Headers.Outcome, Good, IsPowerOfTwo, AlignUp, Copied, TablesOf,
      HeaderRequestOf, StartAssembly, Extends, Assembled, HeaderSize, AddSection, Parser.Parsed, HeaderAgrees, PlanOrdered;
    var s := StagesOf(layout, image, request, plan);
    BaseFacts(layout, image, request, plan);
    if HasImports(request.imports) {
      ImportStep(layout, s.base, s.headerSize, request.imports);
      ExtendsMeans(s.base, s.imported.assembly, TablesOf(layout, s.base, request.imports.value).value.tables.importBytes);
    } else {
      NoImportStep(layout, s.base, request.imports);
      assert s.base.headers[..|s.base.headers|] == s.base.headers;
      assert s.base.bytes[..|s.base.bytes|] == s.base.bytes;
    }
  }

  lemma NoImportStep(layout: Layout, a: Assembly, imports: Option<ImportPlan>)
    requires layout.fileAlignment > 0 && layout.sectionAlignment > 0 && !HasImports(imports)
    ensures WithImports(layout, a, imports) == Ok(Imported(a, None))
  {
  }

  lemma ExtendsMeans(before: Assembly, after: Assembly, content: Bytes)
    requires Extends(before, after, content)
    ensures |after.headers| == |before.headers| + 1 && after.headers[..|before.headers|] == before.headers
    ensures |before.bytes| <= |after.bytes|
  {
  }

  lemma PlacedFacts(layout: Layout, image: Bytes, request: FixRequest, plan: Sections.SectionPlan)
    requires layout.fileAlignment > 0 && layout.sectionAlignment > 0 && InImage(layout, plan.sections)
    requires layout.sizeOfImage <= |image| && Finished(layout, image, request, plan).Ok?
    requires Presentable(layout, image, request, plan)
    ensures var s := StagesOf(layout, image, request, plan);
            var before, a := s.imported.assembly, s.placed.assembly;
            Good(layout, a, s.headerSize)
            && |a.headers| == |before.headers| + (if request.placement.RelocatedPlacement? then 1 else 0)
            && a.headers[..|before.headers|] == before.headers
            && |before.bytes| <= |a.bytes| && a.bytes[..|before.bytes|] == before.bytes
            && (request.placement.RelocatedPlacement? ==>
                  Extends(before, a, request.placement.plan.directoryBytes)
                  && s.placed.directory == Some(Directory(before.end, |request.placement.plan.directoryBytes|)))
            && (request.placement.FixedPlacement? ==> a == before && s.placed.directory == None)
  {
    hide PlaceAll, WithImports, Headers.Outcome, Good, IsPowerOfTwo, AlignUp, Copied, TablesOf, HeaderRequestOf,
      StartAssembly, Extends, Assembled, HeaderSize, AddSection;
    var s := StagesOf(layout, image, request, plan);
    ImportedFacts(layout, image, request, plan);
    if request.placement.RelocatedPlacement? {
      RelocationStep(layout, s.imported.assembly, s.headerSize, request.placement);
      ExtendsMeans(s.imported.assembly, s.placed.assembly, request.placement.plan.directoryBytes);
    } else {
      var a := s.imported.assembly;
      assert a.headers[..|a.headers|] == a.headers && a.bytes[..|a.bytes|] == a.bytes;
    }
  }

  // ---- the file ----

  ghost function FileOf(layout: Layout, image: Bytes, request: FixRequest, plan: Sections.SectionPlan): (f: Bytes)
    requires layout.fileAlignment > 0 && layout.sectionAlignment > 0 && InImage(layout, plan.sections)
    requires layout.sizeOfImage <= |image| && Finished(layout, image, request, plan).Ok?
  {
    Finished(layout, image, request, plan).value.bytes
  }

  lemma FileIsWritten(layout: Layout, image: Bytes, request: FixRequest, plan: Sections.SectionPlan)
    requires layout.fileAlignment > 0 && layout.sectionAlignment > 0 && InImage(layout, plan.sections)
    requires layout.sizeOfImage <= |image| && Finished(layout, image, request, plan).Ok?
    ensures var s := StagesOf(layout, image, request, plan);
            var w := Headers.Outcome(s.placed.assembly.bytes, layout, s.placed.assembly.headers, s.request);
            w == Some(FileOf(layout, image, request, plan))
    ensures SectionCount(|plan.sections|, request) <= 96
  {
    hide PlaceAll, WithImports, Headers.Outcome, WithRelocations, HeaderRequestOf, StartAssembly, HeaderSize;
  }

  /** Beyond the headers the file is the finished assembly. */
  lemma FileBody(layout: Layout, image: Bytes, request: FixRequest, plan: Sections.SectionPlan, i: nat)
    requires layout.fileAlignment > 0 && layout.sectionAlignment > 0 && InImage(layout, plan.sections)
    requires layout.sizeOfImage <= |image| && Finished(layout, image, request, plan).Ok?
    requires Presentable(layout, image, request, plan)
    ensures var s, f := StagesOf(layout, image, request, plan), FileOf(layout, image, request, plan);
            |f| == |s.placed.assembly.bytes|
            && |s.placed.assembly.headers| == SectionCount(|plan.sections|, request) <= 96
            && layout.ntHeaderOffset + NtSize(layout.format) + |s.placed.assembly.headers| * SECTION_HEADER_SIZE <= s.headerSize
            && (i < |f| && (i < layout.ntHeaderOffset || s.headerSize <= i) ==> f[i] == s.placed.assembly.bytes[i])
  {
    hide PlaceAll, WithImports, Headers.Outcome, WithRelocations, HeaderRequestOf, StartAssembly, Good, IsPowerOfTwo, AlignUp,
      Extends, Assembled, TablesOf, Copied, AddSection;
    var s := StagesOf(layout, image, request, plan);
    BaseFacts(layout, image, request, plan);
    ImportedFacts(layout, image, request, plan);
    PlacedFacts(layout, image, request, plan);
    FileIsWritten(layout, image, request, plan);
    FirstSectionBounds(layout, plan.sections[0].virtualAddress, s.headerSize, SectionCount(|plan.sections|, request));
    HeaderLaws.WriterNeeds(s.placed.assembly.bytes, layout, s.placed.assembly.headers, s.request);
    if i < |s.placed.assembly.bytes| && (i < layout.ntHeaderOffset || s.headerSize <= i) {
      HeaderLaws.WritesOnlyTables(s.placed.assembly.bytes, layout, s.placed.assembly.headers, s.request, i);
    }
  }

  // ---- the header area ----

  lemma CoveredBeyondHeaders(layout: Layout, a: Assembly, headerSize: nat, ctx: Builder.Context, plan: ImportPlan, p: int)
    requires Good(layout, a, headerSize) && ctx.headers == a.headers
    requires Tables.PlanCovers(ctx, plan, |plan.modules|, p)
    ensures headerSize <= p
  {
    hide Good, IsPowerOfTwo;
    GoodIsWellPlaced(layout, a, headerSize);
    var i :| 0 <= i < |plan.modules| && Tables.ModuleCovers(ctx, plan.modules[i], |plan.modules[i].symbols|, p);
    var k :| 0 <= k < |plan.modules[i].symbols| && Tables.SlotCovers(ctx, Builder.SlotRva(ctx, plan.modules[i], k), p);
    var j := Tables.SlotSection(a.headers, Builder.SlotRva(ctx, plan.modules[i], k), ctx.format.PointerSize());
    HeaderSettled(layout, a, headerSize, j);
  }

  lemma HeaderSettled(layout: Layout, a: Assembly, headerSize: nat, k: nat)
    requires Good(layout, a, headerSize) && k < |a.headers|
    ensures Settled(layout, a.headers[k], headerSize, |a.bytes|, a.end)
  {
  }

  lemma PatchedOutsideIat(layout: Layout, a: Assembly, imports: Option<ImportPlan>, p: nat)
    requires p < |a.bytes|
    requires HasImports(imports) ==> !Tables.PlanCovers(ImportContext(layout, a, a.end), imports.value, |imports.value.modules|, p)
    ensures |PatchedBase(layout, a, imports)| == |a.bytes| && PatchedBase(layout, a, imports)[p] == a.bytes[p]
  {
    hide Builder.AddModules, Tables.PlanCovers;
    if HasImports(imports) && TablesOf(layout, a, imports.value).Ok? {
      Tables.PlanFrame(ImportContext(layout, a, a.end), imports.value, a.bytes, |imports.value.modules|, p);
    }
  }

  lemma StartByte(layout: Layout, image: Bytes, headerSize: U32, i: nat)
    requires layout.sizeOfHeaders <= |image| && i < headerSize && i < layout.sizeOfHeaders
    ensures StartAssembly(layout, image, headerSize).bytes[i] == image[i]
  {
  }

  lemma PrefixByte(a: Bytes, b: Bytes, n: nat, i: nat)
    requires i < n <= |a| && a[..n] == b
    ensures a[i] == b[i]
  {
  }

  /** The header area of the finished assembly is the captured header. */
  lemma HeaderArea(layout: Layout, image: Bytes, request: FixRequest, plan: Sections.SectionPlan, i: nat)
    requires layout.fileAlignment > 0 && layout.sectionAlignment > 0 && InImage(layout, plan.sections)
    requires layout.sizeOfImage <= |image| && Finished(layout, image, request, plan).Ok?
    requires Presentable(layout, image, request, plan)
    requires i < StagesOf(layout, image, request, plan).headerSize && i < layout.sizeOfHeaders
    ensures var a := StagesOf(layout, image, request, plan).placed.assembly;
            i < |a.bytes| && a.bytes[i] == image[i]
  {
    hide PlaceAll, WithImports, Headers.Outcome, WithRelocations, HeaderRequestOf, StartAssembly, Good, IsPowerOfTwo, AlignUp,
      Extends, Assembled, TablesOf, Copied, AddSection, PatchedBase, HeaderSize, PlanOrdered;
    var s := StagesOf(layout, image, request, plan);
    BaseFacts(layout, image, request, plan);
    ImportedFacts(layout, image, request, plan);
    PlacedFacts(layout, image, request, plan);
    StartByte(layout, image, s.headerSize, i);
    StartFacts(layout, image, s.headerSize);
    PrefixByte(s.base.bytes, StartAssembly(layout, image, s.headerSize).bytes, s.headerSize, i);
    if HasImports(request.imports) && Tables.PlanCovers(ImportContext(layout, s.base, s.base.end), request.imports.value,
                                                        |request.imports.value.modules|, i) {
      CoveredBeyondHeaders(layout, s.base, s.headerSize, ImportContext(layout, s.base, s.base.end), request.imports.value, i);
      assert false;
    }
    PatchedOutsideIat(layout, s.base, request.imports, i);
    PrefixByte(s.imported.assembly.bytes, PatchedBase(layout, s.base, request.imports), |s.base.bytes|, i);
    PrefixByte(s.placed.assembly.bytes, s.imported.assembly.bytes, |s.imported.assembly.bytes|, i);
  }

  // ---- parsing the file ----

  lemma {:induction false} SectionsParsed(bytes: Bytes, table: nat, sizeOfImage: U32, headers: seq<Section>, index: nat,
                                          previousEnd: nat)
    requires index <= |headers| && Fits(bytes, table, |headers| * SECTION_HEADER_SIZE)
    requires forall k :: 0 <= k < |headers| ==> Parser.SectionAt(bytes, table + k * SECTION_HEADER_SIZE) == headers[k]
    requires forall k :: 0 <= k < |headers| ==>
      headers[k].virtualSize <= headers[k].rawSize
      && headers[k].virtualAddress + headers[k].rawSize <= sizeOfImage && headers[k].rawOffset + headers[k].rawSize <= |bytes|
    requires Stacked(headers) && (index < |headers| ==> previousEnd <= headers[index].virtualAddress)
    ensures Parser.SectionsFrom(bytes, table, sizeOfImage, index, |headers|, previousEnd) == Ok(headers[index..])
    decreases |headers| - index
  {
    hide Parser.SectionAt;
    if index < |headers| {
      var s := headers[index];
      assert Parser.SectionAt(bytes, table + index * SECTION_HEADER_SIZE) == s;
      SectionsParsed(bytes, table, sizeOfImage, headers, index + 1, s.virtualAddress + s.Extent());
      assert [s] + headers[index + 1..] == headers[index..];
    }
  }
}
