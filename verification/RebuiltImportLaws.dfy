/** The import table of a rebuilt file: accepted by the validator exactly when
    its lists are short and its IAT lies in one section, read back as the plan,
    and bound slot by slot to its lookup entries. */
module RebuiltImportLaws {
  import opened Bytes
  import opened Alignment
  import opened PeFormat
  import opened ImportTypes
  import opened PeImageFixer
  import opened AssemblyLaws
  import opened FixerLaws
  import opened RebuiltFileLaws
  import opened RebuiltContentLaws
  import opened RebuildLaws
  import Sections = SectionLayoutRebuilder
  import Builder = ImportTableBuilder
  import Tables = ImportTableLaws
  import Parser = PeParser
  import Validator = ImportTableValidator
  import Reader = ImportReader
  import RoundTrip = ImportRoundTrip
  import PlanLaws = ImportPlanLaws

  // ---- facts about a built table ----

  lemma {:induction false} TablesGrow(ctx: Builder.Context, plan: ImportPlan, image: Bytes, n: nat)
    requires n <= |plan.modules| && Builder.AddModules(ctx, plan, image, n).Ok?
    ensures 8 * n <= |Builder.AddModules(ctx, plan, image, n).value.tables.importBytes|
  {
    hide Builder.AddModule;
    if n > 0 {
      TablesGrow(ctx, plan, image, n - 1);
      ModuleAddsEight(ctx, Builder.AddModules(ctx, plan, image, n - 1).value, n - 1, plan.modules[n - 1]);
    }
  }

  lemma ModuleAddsEight(ctx: Builder.Context, p: Builder.Progress, i: nat, m: ImportModule)
    requires Builder.AddModule(ctx, p, i, m).Ok?
    ensures |p.tables.importBytes| + 8 <= |Builder.AddModule(ctx, p, i, m).value.tables.importBytes|
  {
    hide Builder.WithLookup, Builder.AddSymbols, Builder.Meets, Builder.DescriptorBytes, Builder.PadTo, Patch, Builder.EntryOffset;
    var b, size := p.tables.importBytes, ctx.format.PointerSize();
    var named := Builder.WithLookup(ctx, b, m) + (m.moduleName + [0]);
    var intOff := |Builder.PadTo(b, size)|;
    Tables.LookupRoom(ctx, b, m);
    LookupIsLong(ctx, intOff, |m.symbols|);
    Tables.AddSymbolsGrow(ctx, Builder.Tables(named, p.tables.image), Wrap32(intOff), m, |m.symbols|);
  }

  lemma LookupIsLong(ctx: Builder.Context, base: nat, n: nat)
    requires n >= 1
    ensures Builder.EntryOffset(ctx, base, n) >= base + 4
  {
  }

  /** Every symbol of an accepted plan has exactly one of name and ordinal. */
  ghost predicate SymbolsShaped(m: ImportModule) {
    forall n :: 0 <= n < |m.symbols| ==> m.symbols[n].ordinal.Some? != m.symbols[n].name.Some?
  }

  lemma {:induction false} SymbolShapes(ctx: Builder.Context, t: Builder.Tables, intOffset: nat, m: ImportModule, n: nat)
    requires n <= |m.symbols| && Builder.AddSymbols(ctx, t, intOffset, m, n).Ok?
    ensures forall i :: 0 <= i < n ==> m.symbols[i].ordinal.Some? != m.symbols[i].name.Some?
  {
    hide Builder.SymbolThunk, Builder.SymbolBytes, Builder.PatchIat, Builder.EntryOffset, Builder.SlotRva;
    if n > 0 {
      SymbolShapes(ctx, t, intOffset, m, n - 1);
      var last := m.symbols[n - 1];
      assert last.ordinal.Some? != last.name.Some?;
    }
  }

  lemma ModuleShapes(ctx: Builder.Context, p: Builder.Progress, i: nat, m: ImportModule)
    requires Builder.AddModule(ctx, p, i, m).Ok?
    ensures SymbolsShaped(m)
  {
    hide Builder.WithLookup, Builder.AddSymbols, Builder.Meets, Builder.DescriptorBytes, Builder.PadTo, Patch,
      Builder.ModuleShapeValid;
    var intOffset := |Builder.PadTo(p.tables.importBytes, ctx.format.PointerSize())|;
    var named := Builder.WithLookup(ctx, p.tables.importBytes, m) + (m.moduleName + [0]);
    SymbolShapes(ctx, Builder.Tables(named, p.tables.image), Wrap32(intOffset), m, |m.symbols|);
  }

  /** The recorded span starts with the lowest IAT range and ends with the highest. */
  ghost predicate Spans(ctx: Builder.Context, plan: ImportPlan, n: nat, from: int, to: int)
    requires n <= |plan.modules|
  {
    (forall i :: 0 <= i < n ==>
       Builder.ModuleShapeValid(ctx, plan.modules[i]) && SymbolsShaped(plan.modules[i])
       && from <= Builder.RangeOf(ctx, plan.modules[i]).begin && Builder.RangeOf(ctx, plan.modules[i]).end <= to)
    && (n > 0 ==>
          (exists i :: 0 <= i < n && Builder.ModuleShapeValid(ctx, plan.modules[i])
                       && from == Builder.RangeOf(ctx, plan.modules[i]).begin)
          && exists i :: 0 <= i < n && Builder.ModuleShapeValid(ctx, plan.modules[i])
                         && to == Builder.RangeOf(ctx, plan.modules[i]).end)
  }

  lemma {:induction false} IatSpan(ctx: Builder.Context, plan: ImportPlan, image: Bytes, n: nat)
    requires n <= |plan.modules| && Builder.AddModules(ctx, plan, image, n).Ok?
    ensures var p := Builder.AddModules(ctx, plan, image, n).value;
            Spans(ctx, plan, n, p.iatStart, p.iatEnd) && (n == 0 ==> p.iatStart == U32_MAX && p.iatEnd == 0)
  {
    hide Builder.AddModule, Builder.RangeOf, Builder.ModuleShapeValid, SymbolsShaped;
    if n > 0 {
      var before := Builder.AddModules(ctx, plan, image, n - 1).value;
      var m := plan.modules[n - 1];
      IatSpan(ctx, plan, image, n - 1);
      Tables.AddModuleRanges(ctx, before, n - 1, m);
      ModuleShapes(ctx, before, n - 1, m);
      SpanStep(ctx, plan, n, before.iatStart, before.iatEnd);
    }
  }

  lemma SpanStep(ctx: Builder.Context, plan: ImportPlan, n: nat, from: int, to: int)
    requires 0 < n <= |plan.modules| && Spans(ctx, plan, n - 1, from, to)
    requires Builder.ModuleShapeValid(ctx, plan.modules[n - 1]) && SymbolsShaped(plan.modules[n - 1])
    requires n == 1 ==> from == U32_MAX && to == 0
    ensures var r := Builder.RangeOf(ctx, plan.modules[n - 1]);
            Spans(ctx, plan, n, Min(from, r.begin), Max(to, r.end))
  {
    hide Builder.ModuleShapeValid, SymbolsShaped;
    var m, r := plan.modules[n - 1], Builder.RangeOf(ctx, plan.modules[n - 1]);
    if n > 1 {
      var i :| 0 <= i < n - 1 && Builder.ModuleShapeValid(ctx, plan.modules[i])
               && from == Builder.RangeOf(ctx, plan.modules[i]).begin;
      var j :| 0 <= j < n - 1 && Builder.ModuleShapeValid(ctx, plan.modules[j])
               && to == Builder.RangeOf(ctx, plan.modules[j]).end;
    }
  }

  // ---- the table in the rebuilt file ----

  /** The file's sections are stacked after its headers. */
  lemma FileIsSound(layout: Layout, image: Bytes, request: FixRequest, plan: Sections.SectionPlan, p: Layout)
    requires layout.fileAlignment > 0 && layout.sectionAlignment > 0 && InImage(layout, plan.sections)
    requires layout.sizeOfImage <= |image| && Finished(layout, image, request, plan).Ok?
    requires Presentable(layout, image, request, plan)
    requires Emitted(layout, request, StagesOf(layout, image, request, plan), p)
    ensures RoundTrip.Sound(p)
    ensures var s := StagesOf(layout, image, request, plan);
            |s.base.headers| <= |p.sections| && forall k :: 0 <= k < |s.base.headers| ==> p.sections[k] == s.base.headers[k]
  {
    hide Finished, StagesOf, FileOf, Good, IsPowerOfTwo, TablesOf, PatchedBase, Copied, Has, Stacked, HeaderAgrees, Parser.Parsed;
    var s := StagesOf(layout, image, request, plan);
    PlacedFacts(layout, image, request, plan);
    EntryInside(layout, image, request, plan);
    GoodSize(layout, s.placed.assembly, s.headerSize);
    StackedAfter(layout, s.placed.assembly, s.headerSize);
  }

  lemma StackedAfter(layout: Layout, a: Assembly, headerSize: nat)
    requires Good(layout, a, headerSize) && a.headers != [] && headerSize <= a.headers[0].virtualAddress
    ensures forall k :: 0 <= k < |a.headers| ==>
      a.headers[k].virtualSize <= a.headers[k].rawSize && headerSize <= a.headers[k].virtualAddress
  {
    hide IsPowerOfTwo;
    forall k | 0 <= k < |a.headers| ensures headerSize <= a.headers[k].virtualAddress {
      assert k > 0 ==> a.headers[0].virtualAddress + a.headers[0].rawSize <= a.headers[k].virtualAddress;
    }
  }

  lemma ContainsPrefix(f: Bytes, b: Bytes, s: Section, content: Bytes)
    requires Contains(b, s, content) && |b| <= |f|
    requires forall i :: s.rawOffset <= i < |b| ==> f[i] == b[i]
    ensures Fits(f, s.rawOffset, |content|) && Slice(f, s.rawOffset, |content|) == content
  {
    forall i | 0 <= i < |content| ensures Slice(f, s.rawOffset, |content|)[i] == content[i] {
      assert f[s.rawOffset + i] == Slice(b, s.rawOffset, s.rawSize)[i];
    }
  }

  lemma TableIsInFile(layout: Layout, image: Bytes, request: FixRequest, plan: Sections.SectionPlan, p: Layout)
    requires layout.fileAlignment > 0 && layout.sectionAlignment > 0 && InImage(layout, plan.sections)
    requires layout.sizeOfImage <= |image| && Finished(layout, image, request, plan).Ok?
    requires Presentable(layout, image, request, plan)
    requires Emitted(layout, request, StagesOf(layout, image, request, plan), p)
    requires HasImports(request.imports)
    ensures var s, f := StagesOf(layout, image, request, plan), FileOf(layout, image, request, plan);
            TablesOf(layout, s.base, request.imports.value).Ok?
            && var table := TablesOf(layout, s.base, request.imports.value).value.tables.importBytes;
               RoundTrip.TableAt(f, p, |s.base.headers|, s.base.end, table) && |table| <= LIMIT
  {
    hide Finished, StagesOf, FileOf, Good, IsPowerOfTwo, TablesOf, PatchedBase, Copied, Has, Stacked, HeaderAgrees, Parser.Parsed,
      RoundTrip.Sound, Contains, Slice, PlanOrdered;
    var s, f := StagesOf(layout, image, request, plan), FileOf(layout, image, request, plan);
    ImportedFacts(layout, image, request, plan);
    PlacedFacts(layout, image, request, plan);
    FileIsSound(layout, image, request, plan, p);
    var table := TablesOf(layout, s.base, request.imports.value).value.tables.importBytes;
    var k := |s.base.headers|;
    var h := s.imported.assembly.headers[k];
    assert s.placed.assembly.headers[k] == s.placed.assembly.headers[..|s.imported.assembly.headers|][k];
    HeaderSettled(layout, s.imported.assembly, s.headerSize, k);
    BaseEndPositive(layout, image, request, plan);
    forall i | h.rawOffset <= i < |s.imported.assembly.bytes| ensures i < |f| && f[i] == s.imported.assembly.bytes[i] {
      FileBody(layout, image, request, plan, i);
      PrefixByte(s.placed.assembly.bytes, s.imported.assembly.bytes, |s.imported.assembly.bytes|, i);
    }
    FileBody(layout, image, request, plan, 0);
    ContainsPrefix(f, s.imported.assembly.bytes, h, table);
    ContainsMeans(s.imported.assembly.bytes, h, table);
  }

  lemma ContainsMeans(b: Bytes, s: Section, content: Bytes)
    requires Contains(b, s, content)
    ensures |content| <= s.rawSize
  {
  }

  lemma BaseEndPositive(layout: Layout, image: Bytes, request: FixRequest, plan: Sections.SectionPlan)
    requires layout.fileAlignment > 0 && layout.sectionAlignment > 0 && InImage(layout, plan.sections)
    requires layout.sizeOfImage <= |image| && Finished(layout, image, request, plan).Ok?
    requires Presentable(layout, image, request, plan)
    ensures 0 < StagesOf(layout, image, request, plan).base.end && 0 < StagesOf(layout, image, request, plan).headerSize
  {
    hide Finished, StagesOf, FileOf, Good, IsPowerOfTwo, TablesOf, PatchedBase, Copied, Has, Stacked, HeaderAgrees, Parser.Parsed;
    BaseFacts(layout, image, request, plan);
    FileBody(layout, image, request, plan, 0);
    assert plan.sections[0].virtualSize > 0;
  }

  lemma SlotsAreFound(layout: Layout, a: Assembly, headerSize: nat, p: Layout, ctx: Builder.Context)
    requires Good(layout, a, headerSize) && ctx.headers == a.headers && RoundTrip.Sound(p) && 0 < p.sizeOfHeaders
    requires |a.headers| <= |p.sections| && forall k :: 0 <= k < |a.headers| ==> p.sections[k] == a.headers[k]
    ensures RoundTrip.SlotsFound(p, ctx)
    ensures forall rva: U32 :: Builder.IatOffset(ctx.headers, rva, ctx.format.PointerSize()).Some? ==> rva > 0
  {
    hide Good, Builder.IatOffset, Validator.InSection, Stacked, Tables.WellPlaced;
    GoodIsWellPlaced(layout, a, headerSize);
    var size := ctx.format.PointerSize();
    forall rva: U32 | Builder.IatOffset(ctx.headers, rva, size).Some?
      ensures Validator.InSection(p, rva, size) && rva > 0
    {
      var k := Tables.SlotSection(ctx.headers, rva, size);
      assert p.sections[k] == a.headers[k];
      RoundTrip.SoundFound(p, rva, size, k);
    }
  }

  /** The file holds the finished table of the plan, and its IAT directory spans the plan's IAT ranges. */
  ghost predicate HoldsPlan(f: Bytes, p: Layout, k: nat, ctx: Builder.Context, done: Result<Builder.Progress, Builder.FixError>,
                            plan: ImportPlan)
  {
    done.Ok? && RoundTrip.PlanInFile(f, p, k, ctx, done.value, plan)
    && done.value.iatStart < done.value.iatEnd
    && p.directories[IAT_DIRECTORY] == Directory(done.value.iatStart, done.value.iatEnd - done.value.iatStart)
    && Spans(ctx, plan, |plan.modules|, done.value.iatStart, done.value.iatEnd)
  }

  /** The rebuilt file holds the whole plan. */
  lemma PlanIsInFile(layout: Layout, image: Bytes, request: FixRequest, plan: Sections.SectionPlan, p: Layout)
    requires layout.fileAlignment > 0 && layout.sectionAlignment > 0 && InImage(layout, plan.sections)
    requires layout.sizeOfImage <= |image| && Finished(layout, image, request, plan).Ok?
    requires Presentable(layout, image, request, plan)
    requires Emitted(layout, request, StagesOf(layout, image, request, plan), p)
    requires HasImports(request.imports)
    ensures var s, f := StagesOf(layout, image, request, plan), FileOf(layout, image, request, plan);
            HoldsPlan(f, p, |s.base.headers|, ImportContext(layout, s.base, s.base.end),
                      TablesOf(layout, s.base, request.imports.value), request.imports.value)
  {
    hide Finished, StagesOf, FileOf, Good, IsPowerOfTwo, PatchedBase, Copied, Has, Stacked, HeaderAgrees, Parser.Parsed,
      RoundTrip.Sound, Contains, Slice, Builder.AddModules, Tables.PlanStored, RoundTrip.TableAt, RoundTrip.SlotsFound, Spans,
      Presentable, Builder.IatOffset;
    var s, f, imports := StagesOf(layout, image, request, plan), FileOf(layout, image, request, plan), request.imports.value;
    ImportedFacts(layout, image, request, plan);
    TableIsInFile(layout, image, request, plan, p);
    FileIsSound(layout, image, request, plan, p);
    BaseEndPositive(layout, image, request, plan);
    var ctx, n := ImportContext(layout, s.base, s.base.end), |imports.modules|;
    var done := TablesOf(layout, s.base, imports).value;
    TableBounds(f, p, |s.base.headers|, s.base.end, done.tables.importBytes);
    TablesGrow(ctx, imports, s.base.bytes, n);
    GoodBase(layout, image, request, plan);
    GoodIsWellPlaced(layout, s.base, s.headerSize);
    Tables.PlanIsStored(ctx, imports, s.base.bytes, n);
    SlotsAreFound(layout, s.base, s.headerSize, p, ctx);
    IatSpan(ctx, imports, s.base.bytes, n);
    SpanFacts(ctx, imports, done.iatStart, done.iatEnd);
  }

  lemma GoodBase(layout: Layout, image: Bytes, request: FixRequest, plan: Sections.SectionPlan)
    requires layout.fileAlignment > 0 && layout.sectionAlignment > 0 && InImage(layout, plan.sections)
    requires layout.sizeOfImage <= |image| && Finished(layout, image, request, plan).Ok?
    requires Presentable(layout, image, request, plan)
    ensures var s := StagesOf(layout, image, request, plan); Good(layout, s.base, s.headerSize)
  {
    hide Finished, StagesOf, Presentable, Good;
    BaseFacts(layout, image, request, plan);
  }

  lemma TableBounds(f: Bytes, p: Layout, k: nat, rva: U32, table: Bytes)
    requires RoundTrip.TableAt(f, p, k, rva, table)
    ensures rva + |table| <= RoundTrip.LOW
  {
  }

  lemma SpanFacts(ctx: Builder.Context, plan: ImportPlan, from: U32, to: U32)
    requires Spans(ctx, plan, |plan.modules|, from, to) && plan.modules != []
    ensures from < to
    ensures forall i :: 0 <= i < |plan.modules| ==> SymbolsShaped(plan.modules[i])
    ensures forall i, n :: 0 <= i < |plan.modules| && 0 <= n < |plan.modules[i].symbols| ==>
      plan.modules[i].symbols[n].ordinal.Some? != plan.modules[i].symbols[n].name.Some?
  {
    hide Builder.ModuleShapeValid, Builder.RangeOf;
    Tables.RangeIsNotEmpty(ctx, plan.modules[0]);
    forall i, n | 0 <= i < |plan.modules| && 0 <= n < |plan.modules[i].symbols|
      ensures plan.modules[i].symbols[n].ordinal.Some? != plan.modules[i].symbols[n].name.Some?
    {
      assert SymbolsShaped(plan.modules[i]);
    }
  }

  // ---- the rebuilt file as a whole ----

  /** The span from the lowest to the highest IAT slot lies in one section. */
  ghost predicate IatInOneSection(p: Layout) {
    Validator.InSection(p, p.directories[IAT_DIRECTORY].address, p.directories[IAT_DIRECTORY].size)
  }

  /** The fixed image passes the import validator exactly when every lookup list
      is short enough and the IAT span lies in one section. */
  lemma RebuiltImportsAccepted(layout: Layout, dump: CapturedImage, request: FixRequest, discovery: Discovery)
    requires Outcome(layout, dump, request, discovery).Ok? && Loadable(layout, dump, request, discovery)
    ensures var file := Outcome(layout, dump, request, discovery).value.bytes;
            Parser.Outcome(file).Ok?
            && var p := Parser.Outcome(file).value;
               Validator.Valid(file, p)
               <==> (!HasImports(request.imports)
                     || (IatInOneSection(p)
                         && forall i :: 0 <= i < |request.imports.value.modules| ==> RoundTrip.Short(request.imports.value.modules[i])))
  {
    hide Outcome, Finished, StagesOf, Presentable, Loadable, Prepared, Tiles, Parser.Outcome, Sections.Outcome, RoundTrip.PlanInFile,
      Validator.DescriptorsValid, Parser.Parsed, Has, Tables.PlanStored, TablesOf, Validator.InSection, RoundTrip.Short;
    OutcomeSteps(layout, dump, request, discovery);
    LoadableIsPresentable(layout, dump, request, discovery);
    RebuildThenParse(layout, dump, request, discovery);
    var image, plan := NormalImage(layout, dump, request), PlanOf(layout, dump, request, discovery);
    var file := FileOf(layout, image, request, plan);
    var p, s := Parser.Outcome(file).value, StagesOf(layout, image, request, plan);
    if HasImports(request.imports) {
      PlanIsInFile(layout, image, request, plan, p);
      RoundTrip.TableAccepted(file, p, |s.base.headers|, ImportContext(layout, s.base, s.base.end),
                              TablesOf(layout, s.base, request.imports.value).value, request.imports.value);
    } else {
      NoImportDirectories(layout, image, request, plan);
    }
  }

  lemma NoImportDirectories(layout: Layout, image: Bytes, request: FixRequest, plan: Sections.SectionPlan)
    requires layout.fileAlignment > 0 && layout.sectionAlignment > 0 && InImage(layout, plan.sections)
    requires layout.sizeOfImage <= |image| && Finished(layout, image, request, plan).Ok?
    requires Presentable(layout, image, request, plan) && !HasImports(request.imports)
    ensures StagesOf(layout, image, request, plan).imported.directories == None
  {
    hide Finished, StagesOf, Presentable, Good;
    ImportedFacts(layout, image, request, plan);
  }

  /** Walking the rebuilt table reads back every module name, first thunk,
      hint, name and ordinal in plan order. */
  lemma RebuiltImportsReadBack(layout: Layout, dump: CapturedImage, request: FixRequest, discovery: Discovery)
    requires Outcome(layout, dump, request, discovery).Ok? && Loadable(layout, dump, request, discovery)
    requires HasImports(request.imports) && Reader.PlanNulFree(request.imports.value)
    ensures var file := Outcome(layout, dump, request, discovery).value.bytes;
            Parser.Outcome(file).Ok?
            && Reader.ReadPlan(file, Parser.Outcome(file).value)
               == Some(ImportPlan(Reader.KeptModules(request.imports.value.modules)))
  {
    hide Outcome, Finished, StagesOf, Presentable, Loadable, Prepared, Tiles, Parser.Outcome, Sections.Outcome, RoundTrip.PlanInFile,
      Parser.Parsed, Has, Tables.PlanStored, TablesOf, Reader.ReadPlan, Reader.PlanNulFree;
    OutcomeSteps(layout, dump, request, discovery);
    LoadableIsPresentable(layout, dump, request, discovery);
    RebuildThenParse(layout, dump, request, discovery);
    var image, plan := NormalImage(layout, dump, request), PlanOf(layout, dump, request, discovery);
    var file := FileOf(layout, image, request, plan);
    var p, s := Parser.Outcome(file).value, StagesOf(layout, image, request, plan);
    PlanIsInFile(layout, image, request, plan, p);
    RoundTrip.PlanReadBack(file, p, |s.base.headers|, ImportContext(layout, s.base, s.base.end),
                           TablesOf(layout, s.base, request.imports.value).value, request.imports.value);
  }

  /** One rebuilt section that holds every IAT range holds their span. */
  lemma OneSectionSuffices(layout: Layout, dump: CapturedImage, request: FixRequest, discovery: Discovery, k: nat)
    requires Outcome(layout, dump, request, discovery).Ok? && Loadable(layout, dump, request, discovery)
    requires HasImports(request.imports) && k < |PlanOf(layout, dump, request, discovery).sections|
    requires HoldsEveryIat(layout.format, request.imports.value, PlanOf(layout, dump, request, discovery).sections[k])
    ensures var file := Outcome(layout, dump, request, discovery).value.bytes;
            Parser.Outcome(file).Ok? && IatInOneSection(Parser.Outcome(file).value)
  {
    hide Outcome, Finished, StagesOf, Presentable, Loadable, Prepared, Tiles, Parser.Outcome, Sections.Outcome, RoundTrip.PlanInFile,
      Parser.Parsed, Has, TablesOf, Validator.InSection, Builder.ModuleShapeValid, PlanOf, RoundTrip.Sound;
    OutcomeSteps(layout, dump, request, discovery);
    LoadableIsPresentable(layout, dump, request, discovery);
    RebuildThenParse(layout, dump, request, discovery);
    var image, plan := NormalImage(layout, dump, request), PlanOf(layout, dump, request, discovery);
    var file := FileOf(layout, image, request, plan);
    var p, s := Parser.Outcome(file).value, StagesOf(layout, image, request, plan);
    PlanIsInFile(layout, image, request, plan, p);
    FileIsSound(layout, image, request, plan, p);
    SpanInside(ImportContext(layout, s.base, s.base.end), request.imports.value, plan.sections[k],
               p.directories[IAT_DIRECTORY].address, p.directories[IAT_DIRECTORY].address + p.directories[IAT_DIRECTORY].size);
    BaseSection(layout, image, request, plan, k);
    HeaderOf(layout, image, request, plan, k);
    RoundTrip.SoundFound(p, p.directories[IAT_DIRECTORY].address, p.directories[IAT_DIRECTORY].size, k);
  }

  /** The section holds the IAT range of every module. */
  ghost predicate HoldsEveryIat(format: Format, plan: ImportPlan, s: Sections.RebuiltSection) {
    forall i :: 0 <= i < |plan.modules| ==> IatInside(format, plan.modules[i], s)
  }

  /** The validator finds the IAT in one section exactly when one section of the
      plan's layout holds every IAT range. */
  lemma IatInOneSectionIff(layout: Layout, dump: CapturedImage, request: FixRequest, discovery: Discovery)
    requires Outcome(layout, dump, request, discovery).Ok? && Loadable(layout, dump, request, discovery)
    requires HasImports(request.imports)
    ensures var file, sections := Outcome(layout, dump, request, discovery).value.bytes, PlanOf(layout, dump, request,
                                                                                                discovery).sections;
            Parser.Outcome(file).Ok?
            && (IatInOneSection(Parser.Outcome(file).value)
                <==> exists k :: 0 <= k < |sections| && HoldsEveryIat(layout.format, request.imports.value, sections[k]))
  {
    hide Outcome, Finished, StagesOf, Presentable, Loadable, Prepared, Tiles, Parser.Outcome, Sections.Outcome, RoundTrip.PlanInFile,
      Parser.Parsed, Has, Builder.AddModules, Validator.InSection, Builder.ModuleShapeValid, PlanOf, RoundTrip.Sound, Good, Spans,
      IatInside;
    OutcomeSteps(layout, dump, request, discovery);
    LoadableIsPresentable(layout, dump, request, discovery);
    RebuildThenParse(layout, dump, request, discovery);
    var image, plan := NormalImage(layout, dump, request), PlanOf(layout, dump, request, discovery);
    var file := FileOf(layout, image, request, plan);
    var p, s := Parser.Outcome(file).value, StagesOf(layout, image, request, plan);
    if IatInOneSection(p) {
      var ctx, n := ImportContext(layout, s.base, s.base.end), |request.imports.value.modules|;
      PlanIsInFile(layout, image, request, plan, p);
      FileIsSound(layout, image, request, plan, p);
      GoodBase(layout, image, request, plan);
      GoodIsWellPlaced(layout, s.base, s.headerSize);
      PlanLaws.PlanMapped(ctx, request.imports.value, s.base.bytes, n);
      var k := SpanSection(p, ctx, request.imports.value, p.directories[IAT_DIRECTORY].address,
                           p.directories[IAT_DIRECTORY].address + p.directories[IAT_DIRECTORY].size);
      BaseCovers(layout, image, request, plan);
      HeaderOf(layout, image, request, plan, k);
      SpanHolds(ctx, request.imports.value, plan.sections[k], p.directories[IAT_DIRECTORY].address,
                p.directories[IAT_DIRECTORY].address + p.directories[IAT_DIRECTORY].size);
    }
    if k :| 0 <= k < |plan.sections| && HoldsEveryIat(layout.format, request.imports.value, plan.sections[k]) {
      OneSectionSuffices(layout, dump, request, discovery, k);
    }
  }

  lemma BaseCovers(layout: Layout, image: Bytes, request: FixRequest, plan: Sections.SectionPlan)
    requires layout.fileAlignment > 0 && layout.sectionAlignment > 0 && InImage(layout, plan.sections)
    requires layout.sizeOfImage <= |image| && Finished(layout, image, request, plan).Ok?
    requires Presentable(layout, image, request, plan)
    ensures |StagesOf(layout, image, request, plan).base.headers| == |plan.sections|
  {
    hide Finished, StagesOf, Presentable, Good;
    BaseFacts(layout, image, request, plan);
  }

  lemma SpanHolds(ctx: Builder.Context, plan: ImportPlan, s: Sections.RebuiltSection, from: int, to: int)
    requires Spans(ctx, plan, |plan.modules|, from, to)
    requires s.virtualAddress <= from && to <= s.virtualAddress + s.virtualSize
    ensures HoldsEveryIat(ctx.format, plan, s)
  {
    hide Builder.ModuleShapeValid;
  }

  lemma {:induction false} FoundSection(sections: seq<Section>, rva: U32, size: nat) returns (k: nat)
    requires Validator.SectionRaw(sections, rva, size).Some?
    ensures k < |sections| && sections[k].virtualAddress <= rva && rva + size <= sections[k].virtualAddress + sections[k].Extent()
  {
    var s := sections[0];
    if rva >= s.virtualAddress && size <= s.Extent() && rva - s.virtualAddress <= s.Extent() - size {
      k := 0;
    } else {
      k := FoundSection(sections[1..], rva, size);
      k := k + 1;
    }
  }

  /** A section of the file that holds the whole span holds its first and last slots, and so is the one they were patched in. */
  lemma SpanSection(p: Layout, ctx: Builder.Context, plan: ImportPlan, from: U32, to: int) returns (k: nat)
    requires RoundTrip.Sound(p) && Tables.WellPlaced(ctx.headers) && plan.modules != [] && from < to
    requires |ctx.headers| <= |p.sections| && forall j :: 0 <= j < |ctx.headers| ==> p.sections[j] == ctx.headers[j]
    requires Spans(ctx, plan, |plan.modules|, from, to) && Validator.InSection(p, from, to - from)
    requires forall i, n :: 0 <= i < |plan.modules| && 0 <= n < |plan.modules[i].symbols| ==> PlanLaws.SlotMapped(ctx, plan.modules[i], n)
    ensures k < |ctx.headers| && ctx.headers[k].virtualAddress <= from
            && to <= ctx.headers[k].virtualAddress + ctx.headers[k].virtualSize
  {
    hide Tables.WellPlaced, SymbolsShaped, Validator.SectionRaw, Builder.IatOffset;
    var size := ctx.format.PointerSize();
    var q := FoundSection(p.sections, from, to - from);
    var i :| 0 <= i < |plan.modules| && Builder.ModuleShapeValid(ctx, plan.modules[i])
      && from == Builder.RangeOf(ctx, plan.modules[i]).begin;
    var j :| 0 <= j < |plan.modules| && Builder.ModuleShapeValid(ctx, plan.modules[j])
      && to == Builder.RangeOf(ctx, plan.modules[j]).end;
    var last := |plan.modules[j].symbols| - 1;
    Tables.RvasInRange(ctx, plan.modules[i], 0);
    Tables.RvasInRange(ctx, plan.modules[j], last);
    LastSlot(ctx, plan.modules[j]);
    assert PlanLaws.SlotMapped(ctx, plan.modules[i], 0) && PlanLaws.SlotMapped(ctx, plan.modules[j], last);
    k := Tables.SlotSection(ctx.headers, Builder.SlotRva(ctx, plan.modules[i], 0), size);
    var k' := Tables.SlotSection(ctx.headers, Builder.SlotRva(ctx, plan.modules[j], last), size);
    SameSection(p, q, k, from);
    SameSection(p, q, k', to - size);
  }

  lemma LastSlot(ctx: Builder.Context, m: ImportModule)
    requires Builder.ModuleShapeValid(ctx, m)
    ensures Builder.SlotRva(ctx, m, |m.symbols| - 1) == Builder.RangeOf(ctx, m).end - ctx.format.PointerSize()
  {
    Tables.RvasInRange(ctx, m, |m.symbols| - 1);
  }

  /** An address lies in one section of the file only. */
  lemma SameSection(p: Layout, i: nat, j: nat, rva: int)
    requires RoundTrip.Sound(p) && i < |p.sections| && j < |p.sections|
    requires p.sections[i].virtualAddress <= rva < p.sections[i].virtualAddress + p.sections[i].Extent()
    requires p.sections[j].virtualAddress <= rva < p.sections[j].virtualAddress + p.sections[j].Extent()
    ensures i == j
  {
  }

  ghost predicate IatInside(format: Format, m: ImportModule, s: Sections.RebuiltSection) {
    s.virtualAddress <= m.firstThunk && m.firstThunk + |m.symbols| * format.PointerSize() <= s.virtualAddress + s.virtualSize
  }

  lemma SpanInside(ctx: Builder.Context, plan: ImportPlan, s: Sections.RebuiltSection, from: int, to: int)
    requires plan.modules != [] && Spans(ctx, plan, |plan.modules|, from, to)
    requires forall i :: 0 <= i < |plan.modules| ==> IatInside(ctx.format, plan.modules[i], s)
    ensures s.virtualAddress <= from && to <= s.virtualAddress + s.virtualSize
  {
    hide Builder.ModuleShapeValid;
  }

  lemma HeaderOf(layout: Layout, image: Bytes, request: FixRequest, plan: Sections.SectionPlan, k: nat)
    requires layout.fileAlignment > 0 && layout.sectionAlignment > 0 && InImage(layout, plan.sections)
    requires layout.sizeOfImage <= |image| && Finished(layout, image, request, plan).Ok?
    requires Presentable(layout, image, request, plan) && k < |plan.sections|
    ensures var h := StagesOf(layout, image, request, plan).base.headers;
            k < |h| && h[k].virtualAddress == plan.sections[k].virtualAddress
            && plan.sections[k].virtualSize == h[k].virtualSize <= h[k].rawSize
  {
    hide Finished, StagesOf, Presentable, Good, Contains;
    BaseSection(layout, image, request, plan, k);
  }

  // ---- the bound address table ----

  /** The file keeps a patched slot where the builder wrote it. */
  lemma SlotInFile(layout: Layout, image: Bytes, request: FixRequest, plan: Sections.SectionPlan, p: Layout, rva: U32, value: U64)
    requires layout.fileAlignment > 0 && layout.sectionAlignment > 0 && InImage(layout, plan.sections)
    requires layout.sizeOfImage <= |image| && Finished(layout, image, request, plan).Ok?
    requires Presentable(layout, image, request, plan)
    requires Emitted(layout, request, StagesOf(layout, image, request, plan), p)
    requires HasImports(request.imports)
    requires var s := StagesOf(layout, image, request, plan);
             TablesOf(layout, s.base, request.imports.value).Ok?
             && Tables.IatHolds(ImportContext(layout, s.base, s.base.end),
                                TablesOf(layout, s.base, request.imports.value).value.tables.image, rva, value)
    ensures Validator.ReadThunk(FileOf(layout, image, request, plan), p, rva) == Some(value)
  {
    hide Finished, StagesOf, FileOf, Good, IsPowerOfTwo, TablesOf, PatchedBase, Copied, Has, Stacked, HeaderAgrees, Parser.Parsed,
      Presentable, Builder.IatOffset, ReadAt, Validator.ToRaw, Tables.WellPlaced, RoundTrip.Sound;
    var s, f, size := StagesOf(layout, image, request, plan), FileOf(layout, image, request, plan), layout.format.PointerSize();
    GoodBase(layout, image, request, plan);
    GoodIsWellPlaced(layout, s.base, s.headerSize);
    FileIsSound(layout, image, request, plan, p);
    var k := Tables.SlotSection(s.base.headers, rva, size);
    HeaderSettled(layout, s.base, s.headerSize, k);
    assert p.sections[k] == s.base.headers[k];
    RoundTrip.SoundFound(p, rva, size, k);
    var o := s.base.headers[k].rawOffset + (rva - s.base.headers[k].virtualAddress);
    PatchedIs(layout, s.base, request.imports);
    var t := TablesOf(layout, s.base, request.imports.value).value.tables.image;
    forall i | o <= i < o + size ensures i < |f| && i < |t| && f[i] == t[i] {
      FileByte(layout, image, request, plan, i);
    }
    FileByte(layout, image, request, plan, o + size - 1);
    SameRangeRead(f, t, o, size);
  }

  lemma PatchedIs(layout: Layout, a: Assembly, imports: Option<ImportPlan>)
    requires HasImports(imports) && TablesOf(layout, a, imports.value).Ok?
    ensures PatchedBase(layout, a, imports) == TablesOf(layout, a, imports.value).value.tables.image
  {
    hide TablesOf;
  }

  /** Every IAT slot of the rebuilt file holds its lookup entry. */
  lemma RebuiltSlotsBound(layout: Layout, dump: CapturedImage, request: FixRequest, discovery: Discovery, i: nat, n: nat)
    returns (d: Validator.Descriptor)
    requires Outcome(layout, dump, request, discovery).Ok? && Loadable(layout, dump, request, discovery)
    requires HasImports(request.imports) && i < |request.imports.value.modules|
    requires n < |request.imports.value.modules[i].symbols|
    ensures var file, size := Outcome(layout, dump, request, discovery).value.bytes, layout.format.PointerSize();
            Parser.Outcome(file).Ok?
            && var p := Parser.Outcome(file).value;
               Validator.ReadDescriptor(file, p, Wrap32(p.directories[IMPORT_DIRECTORY].address + i * DESCRIPTOR_SIZE)) == Some(d)
               && d.firstThunk == request.imports.value.modules[i].firstThunk
               && var slot := Validator.ReadThunk(file, p, Wrap32(d.firstThunk + n * size));
                  slot.Some? && slot == Validator.ReadThunk(file, p, Wrap32(d.originalFirstThunk + n * size))
  {
    hide Outcome, Finished, StagesOf, Presentable, Loadable, Prepared, Tiles, Parser.Outcome, Sections.Outcome, Parser.Parsed, Has,
      Builder.AddModules, RoundTrip.TableAt, Spans, RoundTrip.SlotsFound, Validator.ReadDescriptor, Validator.ReadThunk, Builder.IatOffset,
      Tables.NameAt, Tables.LookupAt, Builder.EntryOffset, Builder.SlotRva, Builder.ModuleShapeValid, ReadAt, Tables.IatHolds, Slice;
    OutcomeSteps(layout, dump, request, discovery);
    LoadableIsPresentable(layout, dump, request, discovery);
    RebuildThenParse(layout, dump, request, discovery);
    var image, plan := NormalImage(layout, dump, request), PlanOf(layout, dump, request, discovery);
    var file := FileOf(layout, image, request, plan);
    var p, s := Parser.Outcome(file).value, StagesOf(layout, image, request, plan);
    PlanIsInFile(layout, image, request, plan, p);
    var intOff := EntryOf(file, p, |s.base.headers|, ImportContext(layout, s.base, s.base.end),
                          TablesOf(layout, s.base, request.imports.value).value, request.imports.value, i, n);
    var ctx := ImportContext(layout, s.base, s.base.end);
    var t := TablesOf(layout, s.base, request.imports.value).value.tables;
    var m := request.imports.value.modules[i];
    d := Validator.Descriptor(ctx.importRva + intOff,
                              DescriptorName(file, p, ctx.importRva + i * DESCRIPTOR_SIZE), m.firstThunk);
    var v := ReadAt(t.importBytes, Builder.EntryOffset(ctx, intOff, n), layout.format.PointerSize());
    SlotInFile(layout, image, request, plan, p, Builder.SlotRva(ctx, m, n), v);
    Tables.SlotRvaIs(ctx, m, n);
  }

  ghost function DescriptorName(file: Bytes, p: Layout, rva: int): U32 {
    if 0 <= rva <= U32_MAX && Validator.ReadDescriptor(file, p, rva).Some? then Validator.ReadDescriptor(file, p, rva).value.name
    else 0
  }

  /** What the file says about lookup entry `n` of module `i`. */
  lemma EntryOf(f: Bytes, p: Layout, k: nat, ctx: Builder.Context, done: Builder.Progress, plan: ImportPlan, i: nat, n: nat)
    returns (intOff: nat)
    requires RoundTrip.PlanInFile(f, p, k, ctx, done, plan) && i < |plan.modules| && n < |plan.modules[i].symbols|
    ensures ctx.importRva + intOff <= U32_MAX && ctx.importRva + i * DESCRIPTOR_SIZE <= U32_MAX
    ensures p.directories[IMPORT_DIRECTORY].address == ctx.importRva
    ensures var d := Validator.ReadDescriptor(f, p, ctx.importRva + i * DESCRIPTOR_SIZE);
            d.Some? && d.value.originalFirstThunk == ctx.importRva + intOff && d.value.firstThunk == plan.modules[i].firstThunk
    ensures var at, size := Builder.EntryOffset(ctx, intOff, n), ctx.format.PointerSize();
            Fits(done.tables.importBytes, at, size)
            && ReadAt(done.tables.importBytes, at, size) <= U64_MAX
            && Tables.IatHolds(ctx, done.tables.image, Builder.SlotRva(ctx, plan.modules[i], n),
                               ReadAt(done.tables.importBytes, at, size))
            && Validator.ReadThunk(f, p, Wrap32(ctx.importRva + intOff + n * size))
               == Some(ReadAt(done.tables.importBytes, at, size))
  {
    hide RoundTrip.TableAt, Tables.NameAt, Validator.ReadDescriptor, Validator.ReadThunk, Builder.IatOffset,
      Builder.DescriptorBytes, Slice, ReadAt, Builder.EntryOffset, Builder.SlotRva, Tables.IatHolds;
    var m, t, lo := plan.modules[i], done.tables, Tables.TableSize(plan);
    assert Tables.IsStored(ctx, t, lo, i, m);
    var off, nameOff :| Tables.ModuleStored(ctx, t, lo, i, m, off, nameOff);
    intOff := off;
    RoundTrip.DescriptorRead(f, p, k, ctx.importRva, t.importBytes, i * DESCRIPTOR_SIZE, ctx.importRva + intOff,
                             ctx.importRva + nameOff, m.firstThunk);
    assert Tables.EntryStored(ctx, t, lo, intOff, m, n);
    var at := Builder.EntryOffset(ctx, intOff, n);
    RoundTrip.LookupFits(ctx, t.importBytes, lo, at, m.symbols[n]);
    RoundTrip.ThunkRead(f, p, k, ctx.importRva, t.importBytes, at);
    Tables.EntryOffsetIs(ctx, intOff, n);
  }
}
