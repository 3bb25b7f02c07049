/** Rebuild then parse, for the fixer as a whole. */
module RebuildLaws {
  import opened Bytes
  import opened Alignment
  import opened PeFormat
  import opened ImportTypes
  import opened PeImageFixer
  import opened AssemblyLaws
  import opened FixerLaws
  import opened RebuiltFileLaws
  import opened RebuiltContentLaws
  import Sections = SectionLayoutRebuilder
  import SectionLaws = SectionLayoutLaws
  import Builder = ImportTableBuilder
  import Parser = PeParser
  import Rebaser = PeFileRebaser

  /** The captured image with its slots pointed at the output base. */
  ghost function NormalImage(layout: Layout, dump: CapturedImage, request: FixRequest): (image: Bytes)
    requires Prepared(layout, dump, request).Ok?
    ensures |image| == |dump.bytes| && layout.sizeOfImage <= |image|
  {
    Prepared(layout, dump, request).value
  }

  ghost function PlanOf(layout: Layout, dump: CapturedImage, request: FixRequest, discovery: Discovery): Sections.SectionPlan
    requires Outcome(layout, dump, request, discovery).Ok?
  {
    Sections.Outcome(layout, SectionInput(dump, NormalImage(layout, dump, request), request, discovery)).value
  }

  lemma OutcomeSteps(layout: Layout, dump: CapturedImage, request: FixRequest, discovery: Discovery)
    requires Outcome(layout, dump, request, discovery).Ok?
    ensures layout.fileAlignment > 0 && layout.sectionAlignment > 0 && Prepared(layout, dump, request).Ok?
    ensures Sections.Outcome(layout, SectionInput(dump, NormalImage(layout, dump, request), request, discovery)).Ok?
    ensures var image, plan := NormalImage(layout, dump, request), PlanOf(layout, dump, request, discovery);
            InImage(layout, plan.sections)
            && Finished(layout, image, request, plan) == Outcome(layout, dump, request, discovery)
    ensures ImageBase(request.placement) != 0
    ensures request.placement.RelocatedPlacement? ==> request.placement.plan.directoryBytes != []
  {
    hide Sections.Outcome, Finished, Normalised;
    PlannedInImage(layout, SectionInput(dump, NormalImage(layout, dump, request), request, discovery));
  }

  /** The stages of the rebuild of a captured image. */
  ghost function Rebuilt(layout: Layout, dump: CapturedImage, request: FixRequest, discovery: Discovery): (s: Stages)
    requires Outcome(layout, dump, request, discovery).Ok?
  {
    OutcomeSteps(layout, dump, request, discovery);
    StagesOf(layout, NormalImage(layout, dump, request), request, PlanOf(layout, dump, request, discovery))
  }

  /** A rebuild whose output can be loaded: the layout was parsed and agrees
      with the captured header, the headers end before the first section, the
      entry point is zero or in a rebuilt section, and the tables and the image
      stay within one gibibyte. */
  ghost predicate Loadable(layout: Layout, dump: CapturedImage, request: FixRequest, discovery: Discovery)
    requires Outcome(layout, dump, request, discovery).Ok?
  {
    OutcomeSteps(layout, dump, request, discovery);
    var s, plan := Rebuilt(layout, dump, request, discovery), PlanOf(layout, dump, request, discovery);
    Parser.Parsed(layout) && HeaderAgrees(layout, NormalImage(layout, dump, request))
    && (plan.sections != [] ==> s.headerSize <= plan.sections[0].virtualAddress)
    && (request.oep == 0 || exists k :: 0 <= k < |plan.sections| && SectionLaws.SectionHolds(plan.sections[k], request.oep))
    && s.placed.assembly.end <= LIMIT
    && (HasImports(request.imports) && TablesOf(layout, s.base, request.imports.value).Ok? ==>
          |TablesOf(layout, s.base, request.imports.value).value.tables.importBytes| <= LIMIT)
    && (request.placement.RelocatedPlacement? ==> |request.placement.plan.directoryBytes| <= LIMIT)
  }

  lemma TablesNotEmpty(layout: Layout, a: Assembly, plan: ImportPlan)
    requires plan.modules != [] && TablesOf(layout, a, plan).Ok?
    ensures 0 < |TablesOf(layout, a, plan).value.tables.importBytes|
  {
    hide Builder.AddModule;
    var ctx, n := ImportContext(layout, a, a.end), |plan.modules|;
    var p := Builder.AddModules(ctx, plan, a.bytes, n - 1);
    assert p.Ok? && Builder.AddModules(ctx, plan, a.bytes, n) == Builder.AddModule(ctx, p.value, n - 1, plan.modules[n - 1]);
    ModuleNotEmpty(ctx, p.value, n - 1, plan.modules[n - 1]);
  }

  lemma ModuleNotEmpty(ctx: Builder.Context, p: Builder.Progress, i: nat, m: ImportModule)
    requires Builder.AddModule(ctx, p, i, m).Ok?
    ensures 0 < |Builder.AddModule(ctx, p, i, m).value.tables.importBytes|
  {
    hide Builder.WithLookup, Builder.AddSymbols, Builder.Meets, Builder.PadTo, Builder.ModuleShapeValid;
  }

  lemma LoadableIsPresentable(layout: Layout, dump: CapturedImage, request: FixRequest, discovery: Discovery)
    requires Outcome(layout, dump, request, discovery).Ok? && Loadable(layout, dump, request, discovery)
    ensures layout.fileAlignment > 0 && layout.sectionAlignment > 0
    ensures var image, plan := NormalImage(layout, dump, request), PlanOf(layout, dump, request, discovery);
            InImage(layout, plan.sections) && Finished(layout, image, request, plan).Ok?
            && Presentable(layout, image, request, plan) && ImageBase(request.placement) != 0
            && FileOf(layout, image, request, plan) == Outcome(layout, dump, request, discovery).value.bytes
    ensures var plan := PlanOf(layout, dump, request, discovery);
            forall a :: (exists k :: 0 <= k < |plan.sections| && SectionLaws.SectionHolds(plan.sections[k], a))
                        <==> SectionLaws.InSomeSource(layout, layout.sections, a)
  {
    hide Outcome, Sections.Outcome, Finished, Normalised, StagesOf, HeaderAgrees, TablesOf, IsPowerOfTwo, Prepared,
      SectionLaws.InSomeSource;
    OutcomeSteps(layout, dump, request, discovery);
    var image, plan := NormalImage(layout, dump, request), PlanOf(layout, dump, request, discovery);
    SectionLaws.SectionsPartitionTheImage(layout, SectionInput(dump, image, request, discovery));
    var s := Rebuilt(layout, dump, request, discovery);
    if HasImports(request.imports) && TablesOf(layout, s.base, request.imports.value).Ok? {
      TablesNotEmpty(layout, s.base, request.imports.value);
    }
    if request.oep != 0 {
      var k :| 0 <= k < |plan.sections| && SectionLaws.SectionHolds(plan.sections[k], request.oep);
    }
  }

  /** Rebuild then parse: the parser accepts the file and returns the emitted
      sections, whose raw ranges tile the file after the headers and whose
      virtual ranges are ordered and disjoint. */
  lemma RebuildThenParse(layout: Layout, dump: CapturedImage, request: FixRequest, discovery: Discovery)
    requires Outcome(layout, dump, request, discovery).Ok? && Loadable(layout, dump, request, discovery)
    ensures var file, s := Outcome(layout, dump, request, discovery).value.bytes, Rebuilt(layout, dump, request, discovery);
            Parser.Outcome(file).Ok?
            && var p := Parser.Outcome(file).value;
               Emitted(layout, request, s, p) && Parser.Parsed(p)
               && Tiles(p.sections, p.sizeOfHeaders, |file|)
  {
    hide Outcome, Finished, StagesOf, Presentable, Loadable, Prepared, Tiles, Parser.Outcome, Sections.Outcome, Parser.OrderedFrom;
    OutcomeSteps(layout, dump, request, discovery);
    LoadableIsPresentable(layout, dump, request, discovery);
    var image, plan := NormalImage(layout, dump, request), PlanOf(layout, dump, request, discovery);
    RebuiltFileParses(layout, image, request, plan);
    SectionsTileTheFile(layout, image, request, plan);
    Parser.ParseGuarantees(FileOf(layout, image, request, plan));
  }

  lemma ByteRead(source: Bytes, layout: Layout, rva: U32, b: Byte)
    requires Rebaser.RvaToRaw(layout, rva, 1).Some? && Fits(source, Rebaser.RvaToRaw(layout, rva, 1).value, 1)
    requires source[Rebaser.RvaToRaw(layout, rva, 1).value] == b
    ensures Rebaser.ReadRva(source, layout, rva, 1) == Some(b)
  {
    hide Rebaser.RvaToRaw;
    var s := Slice(source, Rebaser.RvaToRaw(layout, rva, 1).value, 1);
    assert s[1..] == [];
    assert Unsigned(s) == s[0] + 256 * Unsigned(s[1..]);
  }

  /** Every address of a source section maps to the normalised image byte, except
      the IAT slots that the import plan patches. */
  lemma RebuiltHoldsTheImage(layout: Layout, dump: CapturedImage, request: FixRequest, discovery: Discovery, rva: U32)
    requires Outcome(layout, dump, request, discovery).Ok? && Loadable(layout, dump, request, discovery)
    requires SectionLaws.InSomeSource(layout, layout.sections, rva) && !InIat(layout.format, request.imports, rva)
    ensures var file, image := Outcome(layout, dump, request, discovery).value.bytes, NormalImage(layout, dump, request);
            Parser.Outcome(file).Ok? && rva < |image|
            && Rebaser.ReadRva(file, Parser.Outcome(file).value, rva, 1) == Some(image[rva])
  {
    hide Outcome, Finished, StagesOf, Presentable, Loadable, Prepared, Tiles, Parser.Outcome, Sections.Outcome, Rebaser.RvaToRaw,
      Emitted, SectionLaws.InSomeSource, InIat, Rebaser.ReadRva, Parser.Parsed;
    OutcomeSteps(layout, dump, request, discovery);
    LoadableIsPresentable(layout, dump, request, discovery);
    RebuildThenParse(layout, dump, request, discovery);
    var image, plan := NormalImage(layout, dump, request), PlanOf(layout, dump, request, discovery);
    var file := FileOf(layout, image, request, plan);
    var k :| 0 <= k < |plan.sections| && SectionLaws.SectionHolds(plan.sections[k], rva);
    SectionLaws.SourceInImage(layout, rva);
    SectionAddress(layout, image, request, plan, Parser.Outcome(file).value, k, rva, 1);
    SectionByte(layout, image, request, plan, k, rva);
    ByteRead(file, Parser.Outcome(file).value, rva, image[rva]);
  }
}
