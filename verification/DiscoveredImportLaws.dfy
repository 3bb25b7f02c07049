/** What becomes of a discovered import plan: the fixer accepts it where its
    slots are mapped, and the validator accepts the result where one section
    holds every IAT range. */
module DiscoveredImportLaws {
  import opened Bytes
  import opened PeFormat
  import opened ImportTypes
  import opened PeImageFixer
  import opened AssemblyLaws
  import opened RebuildLaws
  import opened ImportPlanLaws
  import Finder = ImportDiscovery
  import FinderLaws = ImportDiscoveryLaws
  import Builder = ImportTableBuilder
  import Tables = ImportTableLaws
  import Rebuilt = RebuiltImportLaws
  import Parser = PeParser
  import Validator = ImportTableValidator

  /** A discovery over a dump of exactly the image size, with hints that carry one of name and ordinal. */
  ghost predicate Discovered(input: Finder.Input, plan: ImportPlan) {
    Finder.Outcome(input).plan == Ok(plan) && |input.dump| == input.layout.sizeOfImage
    && FinderLaws.HintsShaped(input.upxHints) && FinderLaws.HintsShaped(input.analysed.providers)
  }

  /** Every section of the assembly lies in the file. */
  lemma GoodIsFiled(layout: Layout, a: Assembly, headerSize: nat, ctx: Builder.Context)
    requires Good(layout, a, headerSize) && ctx.headers == a.headers
    ensures SectionsFiled(ctx, |a.bytes|)
  {
    hide Good, Builder.IatOffset, Tables.WellPlaced;
    GoodIsWellPlaced(layout, a, headerSize);
    var size := ctx.format.PointerSize();
    forall rva: U32 | Builder.IatOffset(ctx.headers, rva, size).Some?
      ensures Builder.IatOffset(ctx.headers, rva, size).value + size <= |a.bytes|
    {
      var k := Tables.SlotSection(ctx.headers, rva, size);
      SettledSection(layout, a, headerSize, k);
    }
  }

  lemma SettledSection(layout: Layout, a: Assembly, headerSize: nat, k: nat)
    requires Good(layout, a, headerSize) && k < |a.headers|
    ensures a.headers[k].virtualSize <= a.headers[k].rawSize && a.headers[k].rawOffset + a.headers[k].rawSize <= |a.bytes|
  {
    assert Settled(layout, a.headers[k], headerSize, |a.bytes|, a.end);
  }

  lemma {:induction false} ModulesCounted(modules: seq<ImportModule>, width: nat)
    requires forall i :: 0 <= i < |modules| ==> modules[i].symbols != []
    ensures |modules| <= |FinderLaws.Flatten(modules, width)|
  {
    if modules != [] {
      ModulesCounted(modules[..|modules| - 1], width);
    }
  }

  /** The module loop accepts a discovered plan exactly when each of its slots lies in one section. */
  lemma DiscoveredPlanAcceptedIff(input: Finder.Input, plan: ImportPlan, ctx: Builder.Context, image: Bytes)
    requires Discovered(input, plan) && SectionsFiled(ctx, |image|)
    requires ctx.format == input.layout.format && ctx.sizeOfImage == input.layout.sizeOfImage
    ensures Builder.AddModules(ctx, plan, image, |plan.modules|).Ok?
            <==> forall i, k :: 0 <= i < |plan.modules| && 0 <= k < |plan.modules[i].symbols| ==> SlotMapped(ctx, plan.modules[i], k)
  {
    hide Finder.Outcome, Builder.AddModules, SectionsFiled, SlotMapped, Builder.Meets, Builder.RangeOf, FinderLaws.EntriesOrdered,
      FinderLaws.ResolvedFromDump;
    var modules, n := plan.modules, |plan.modules|;
    FinderLaws.FixerAcceptsThePlan(input, ctx);
    FinderLaws.PlanIsWellFormed(input);
    ModulesCounted(modules, ctx.format.PointerSize());
    PlanAcceptedIff(ctx, plan, image, n);
    NoOverlap(ctx, plan);
    forall i | 0 <= i < n
      ensures ModuleAcceptable(ctx, modules[i]) <==> forall k :: 0 <= k < |modules[i].symbols| ==> SlotMapped(ctx, modules[i], k)
    {
      AcceptableIffMapped(ctx, modules[i]);
    }
  }

  lemma AcceptableIffMapped(ctx: Builder.Context, m: ImportModule)
    requires Builder.ModuleShapeValid(ctx, m)
    requires forall k :: 0 <= k < |m.symbols| ==> FinderLaws.ProviderLaws.Shaped(m.symbols[k])
    ensures ModuleAcceptable(ctx, m) <==> forall k :: 0 <= k < |m.symbols| ==> SlotMapped(ctx, m, k)
  {
    hide SlotMapped;
    forall k | 0 <= k < |m.symbols| ensures SymbolAcceptable(ctx, m, k) <==> SlotMapped(ctx, m, k) {
      assert FinderLaws.ProviderLaws.Shaped(m.symbols[k]);
    }
  }

  lemma NoOverlap(ctx: Builder.Context, plan: ImportPlan)
    requires forall i :: 0 <= i < |plan.modules| ==> Builder.ModuleShapeValid(ctx, plan.modules[i])
    requires forall i, j :: 0 <= i < j < |plan.modules| ==>
      !Builder.Meets(Builder.RangeOf(ctx, plan.modules[i]), Builder.RangeOf(ctx, plan.modules[j]))
    ensures forall i, j :: 0 <= i < j < |plan.modules| ==> !Overlap(ctx, plan.modules[j], plan.modules[i])
  {
    hide Builder.ModuleShapeValid, Builder.RangeOf;
  }

  /** In the fixer's assembly of rebuilt sections the module loop refuses a
      discovered plan only for a slot that no single section holds. */
  lemma DiscoveredPlanIsTabled(input: Finder.Input, plan: ImportPlan, layout: Layout, a: Assembly, headerSize: nat, importRva: U32)
    requires Discovered(input, plan) && input.layout == layout && Good(layout, a, headerSize)
    ensures var ctx := ImportContext(layout, a, importRva);
            Builder.AddModules(ctx, plan, a.bytes, |plan.modules|).Ok?
            <==> forall i, k :: 0 <= i < |plan.modules| && 0 <= k < |plan.modules[i].symbols| ==> SlotMapped(ctx, plan.modules[i], k)
  {
    hide Discovered, Good, SectionsFiled, Builder.AddModules, SlotMapped;
    var ctx := ImportContext(layout, a, importRva);
    GoodIsFiled(layout, a, headerSize, ctx);
    DiscoveredPlanAcceptedIff(input, plan, ctx, a.bytes);
  }

  /** A rebuilt file with discovered imports passes the import validator exactly
      when there are none or one section of the layout holds every IAT range. */
  lemma DiscoveredImportsAccepted(input: Finder.Input, layout: Layout, dump: CapturedImage, request: FixRequest, discovery: Discovery)
    requires request.imports.Some? && Discovered(input, request.imports.value) && input.layout == layout
    requires Outcome(layout, dump, request, discovery).Ok? && Loadable(layout, dump, request, discovery)
    ensures var file, modules := Outcome(layout, dump, request, discovery).value.bytes, request.imports.value.modules;
            var sections := PlanOf(layout, dump, request, discovery).sections;
            Parser.Outcome(file).Ok?
            && (Validator.Valid(file, Parser.Outcome(file).value)
                <==> modules == []
                     || exists k :: 0 <= k < |sections| && Rebuilt.HoldsEveryIat(layout.format, request.imports.value, sections[k]))
  {
    hide Outcome, Loadable, Parser.Outcome, Validator.Valid, PlanOf, Finder.Outcome, Rebuilt.IatInOneSection, Rebuilt.HoldsEveryIat,
      Builder.ModuleShapeValid, FinderLaws.HintsShaped;
    var ctx := Builder.Context(layout.format, layout.sizeOfImage, 0, []);
    FinderLaws.FixerAcceptsThePlan(input, ctx);
    Rebuilt.RebuiltImportsAccepted(layout, dump, request, discovery);
    if HasImports(request.imports) {
      Rebuilt.IatInOneSectionIff(layout, dump, request, discovery);
    }
  }
}
