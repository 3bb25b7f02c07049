/** When a captured image can be rebuilt, and why not otherwise: the first
    demand that fails names the error. */
module FixerAcceptanceLaws {
  import opened Bytes
  import opened Alignment
  import opened PeFormat
  import opened ImportTypes
  import opened PeImageFixer
  import opened AssemblyLaws
  import opened FixerLaws
  import Builder = ImportTableBuilder
  import Tables = ImportTableLaws
  import Plans = ImportPlanLaws
  import Discovered = DiscoveredImportLaws
  import Relocations = RelocationReconstructor
  import Sections = SectionLayoutRebuilder
  import SectionLaws = SectionLayoutLaws
  import Division = SectionAcceptanceLaws
  import Emitted = RebuiltSectionLaws
  import Headers = PeHeaderWriter
  import Parser = PeParser

  // ---- how much room a rebuild takes ----

  ghost function PointerWidth(layout: Layout): nat {
    if layout.format.Pe32? then 4 else 8
  }

  /** At most the bytes that the symbols, and the modules, add to the import table. */
  ghost function SymbolsWeight(symbols: seq<ImportSymbol>, n: nat): nat
    requires n <= |symbols|
  {
    if n == 0 then 0 else SymbolsWeight(symbols, n - 1) + if symbols[n - 1].name.Some? then |symbols[n - 1].name.value| + 4 else 0
  }

  ghost function ModuleWeight(m: ImportModule): nat {
    8 * |m.symbols| + |m.moduleName| + 16 + SymbolsWeight(m.symbols, |m.symbols|)
  }

  ghost function ModulesWeight(plan: ImportPlan, n: nat): nat
    requires n <= |plan.modules|
  {
    if n == 0 then 0 else ModulesWeight(plan, n - 1) + ModuleWeight(plan.modules[n - 1])
  }

  ghost function Weight(request: FixRequest): nat {
    (if HasImports(request.imports)
     then 20 * (|request.imports.value.modules| + 1) + ModulesWeight(request.imports.value, |request.imports.value.modules|) else 0)
    + if request.placement.RelocatedPlacement? then |request.placement.plan.directoryBytes| else 0
  }

  /** A parsed layout whose rebuilt image stays within one gibibyte. */
  ghost predicate Roomy(layout: Layout, request: FixRequest) {
    Parser.Parsed(layout) && layout.ntHeaderOffset + 4200 + layout.fileAlignment <= LIMIT
    && layout.sizeOfImage + 3 * layout.sectionAlignment + Weight(request) <= LIMIT
  }

  // ---- the demands ----

  ghost predicate SlotHeld(sections: seq<Sections.RebuiltSection>, rva: int, width: nat) {
    exists k :: 0 <= k < |sections| && sections[k].virtualAddress <= rva
      && rva + width <= sections[k].virtualAddress + sections[k].virtualSize
  }

  /** One of name and ordinal, and a slot that one rebuilt section holds. */
  ghost predicate SymbolStands(layout: Layout, sections: seq<Sections.RebuiltSection>, m: ImportModule, k: nat)
    requires k < |m.symbols|
  {
    m.symbols[k].name.Some? != m.symbols[k].ordinal.Some?
    && SlotHeld(sections, m.firstThunk + k * PointerWidth(layout), PointerWidth(layout))
  }

  ghost predicate ModuleStands(layout: Layout, sections: seq<Sections.RebuiltSection>, m: ImportModule) {
    m.moduleName != [] && m.symbols != [] && m.firstThunk + |m.symbols| * PointerWidth(layout) <= layout.sizeOfImage
    && forall k :: 0 <= k < |m.symbols| ==> SymbolStands(layout, sections, m, k)
  }

  ghost predicate RangesMeet(layout: Layout, a: ImportModule, b: ImportModule) {
    a.firstThunk < b.firstThunk + |b.symbols| * PointerWidth(layout)
      && b.firstThunk < a.firstThunk + |a.symbols| * PointerWidth(layout)
  }

  ghost predicate ImportsStand(layout: Layout, sections: seq<Sections.RebuiltSection>, plan: ImportPlan) {
    (forall i :: 0 <= i < |plan.modules| ==> ModuleStands(layout, sections, plan.modules[i]))
    && forall i, j :: 0 <= i < j < |plan.modules| ==> !RangesMeet(layout, plan.modules[i], plan.modules[j])
  }

  ghost predicate PlacementStands(dump: CapturedImage, placement: Placement) {
    match placement
    case FixedPlacement(base) => base != 0 && dump.loadedAddress == base
    case RelocatedPlacement(plan) => plan.preferredImageBase != 0 && plan.slots != [] && plan.directoryBytes != []
  }

  ghost predicate SlotStands(layout: Layout, base: U64, slot: Relocations.RelocationSlot) {
    slot.location + PointerWidth(layout) <= layout.sizeOfImage && slot.imageTarget < layout.sizeOfImage
    && base + slot.imageTarget < if layout.format.Pe32? then 0x1_0000_0000 else 0x1_0000_0000_0000_0000
  }

  ghost predicate SlotsStand(layout: Layout, placement: Placement) {
    placement.RelocatedPlacement? ==>
      forall k :: 0 <= k < |placement.plan.slots| ==> SlotStands(layout, placement.plan.preferredImageBase, placement.plan.slots[k])
  }

  /** The 1000 names that an import section can have are all in use. */
  ghost predicate NoNameLeft(layout: Layout) {
    forall j :: 0 <= j < 1000 ==> Emitted.Taken(layout, Emitted.TableName(j))
  }

  ghost function CountOf(planned: nat, request: FixRequest): nat {
    planned + (if request.imports.Some? && request.imports.value.modules != [] then 1 else 0)
    + if request.placement.RelocatedPlacement? then 1 else 0
  }

  ghost function BaseOf(placement: Placement): U64 {
    match placement
    case FixedPlacement(base) => base
    case RelocatedPlacement(plan) => plan.preferredImageBase
  }

  // ---- import plans ----

  lemma {:induction false} SymbolsWeigh(ctx: Builder.Context, t: Builder.Tables, intOffset: nat, m: ImportModule, n: nat)
    requires n <= |m.symbols| && Builder.AddSymbols(ctx, t, intOffset, m, n).Ok?
    ensures |Builder.AddSymbols(ctx, t, intOffset, m, n).value.importBytes| <= |t.importBytes| + SymbolsWeight(m.symbols, n)
  {
    hide Builder.AddSymbol;
    if n > 0 {
      SymbolsWeigh(ctx, t, intOffset, m, n - 1);
      SymbolWeighs(ctx, Builder.AddSymbols(ctx, t, intOffset, m, n - 1).value, Builder.EntryOffset(ctx, intOffset, n - 1),
                   Builder.SlotRva(ctx, m, n - 1), m.symbols[n - 1]);
    }
  }

  lemma SymbolWeighs(ctx: Builder.Context, t: Builder.Tables, at: nat, rva: U32, symbol: ImportSymbol)
    requires Builder.AddSymbol(ctx, t, at, rva, symbol).Ok?
    ensures |Builder.AddSymbol(ctx, t, at, rva, symbol).value.importBytes|
            <= |t.importBytes| + if symbol.name.Some? then |symbol.name.value| + 4 else 0
  {
    hide Builder.SymbolThunk, Builder.PatchIat, LittleEndian;
  }

  lemma {:induction false} TablesWeigh(ctx: Builder.Context, plan: ImportPlan, image: Bytes, n: nat)
    requires n <= |plan.modules| && Builder.AddModules(ctx, plan, image, n).Ok?
    ensures |Builder.AddModules(ctx, plan, image, n).value.tables.importBytes| <= 20 * (|plan.modules| + 1) + ModulesWeight(plan, n)
  {
    hide Builder.AddModule, ModuleWeight;
    if n > 0 {
      TablesWeigh(ctx, plan, image, n - 1);
      ModuleWeighs(ctx, Builder.AddModules(ctx, plan, image, n - 1).value, n - 1, plan.modules[n - 1]);
    }
  }

  lemma ModuleWeighs(ctx: Builder.Context, p: Builder.Progress, i: nat, m: ImportModule)
    requires Builder.AddModule(ctx, p, i, m).Ok?
    ensures |Builder.AddModule(ctx, p, i, m).value.tables.importBytes| <= |p.tables.importBytes| + ModuleWeight(m)
  {
    hide Builder.AddSymbols, Builder.Meets, Builder.DescriptorBytes, Builder.PadTo, Patch, Builder.WithLookup;
    var b, size := p.tables.importBytes, ctx.format.PointerSize();
    var named := Builder.WithLookup(ctx, b, m) + (m.moduleName + [0]);
    LookupWeighs(ctx, b, m);
    SymbolsWeigh(ctx, Builder.Tables(named, p.tables.image), Wrap32(|Builder.PadTo(b, size)|), m, |m.symbols|);
  }

  lemma LookupWeighs(ctx: Builder.Context, b: Bytes, m: ImportModule)
    ensures |Builder.WithLookup(ctx, b, m)| <= |b| + 8 * |m.symbols| + 15
  {
    if ctx.format.Pe32? {
      assert (|m.symbols| + 1) * 4 == 4 * |m.symbols| + 4;
    } else {
      assert (|m.symbols| + 1) * 8 == 8 * |m.symbols| + 8;
    }
  }

  lemma {:induction false} SymbolErrors(ctx: Builder.Context, t: Builder.Tables, intOffset: nat, m: ImportModule, n: nat)
    requires n <= |m.symbols| && Plans.SectionsFiled(ctx, |t.image|)
    requires Builder.EntryOffset(ctx, intOffset, |m.symbols|) <= |t.importBytes|
    ensures Builder.AddSymbols(ctx, t, intOffset, m, n).Err? ==>
              Builder.AddSymbols(ctx, t, intOffset, m, n).error == Builder.ImportPlanInvalid
  {
    hide Builder.AddSymbol, Plans.SectionsFiled, Builder.EntryOffset, Builder.SlotRva;
    if n > 0 {
      SymbolErrors(ctx, t, intOffset, m, n - 1);
      Plans.SymbolsAccepted(ctx, t, intOffset, m, n - 1);
      var before := Builder.AddSymbols(ctx, t, intOffset, m, n - 1);
      if before.Ok? {
        Tables.EntriesApart(ctx, intOffset, n - 1, |m.symbols|);
        SymbolError(ctx, before.value, Builder.EntryOffset(ctx, intOffset, n - 1), m, n - 1);
      }
    }
  }

  lemma SymbolError(ctx: Builder.Context, t: Builder.Tables, at: nat, m: ImportModule, k: nat)
    requires k < |m.symbols| && Plans.SectionsFiled(ctx, |t.image|) && at + ctx.format.PointerSize() <= |t.importBytes|
    ensures var r := Builder.AddSymbol(ctx, t, at, Builder.SlotRva(ctx, m, k), m.symbols[k]);
            r.Err? ==> r.error == Builder.ImportPlanInvalid
  {
    hide Builder.SymbolThunk, Builder.IatOffset, Builder.SlotRva, LittleEndian;
  }

  lemma {:induction false} PlanErrors(ctx: Builder.Context, plan: ImportPlan, image: Bytes, n: nat)
    requires n <= |plan.modules| && Plans.SectionsFiled(ctx, |image|) && Tables.TableSize(plan) <= U32_MAX
    ensures Builder.AddModules(ctx, plan, image, n).Err? ==>
              Builder.AddModules(ctx, plan, image, n).error == Builder.ImportPlanInvalid
  {
    hide Builder.AddModule, Plans.SectionsFiled;
    if n > 0 {
      PlanErrors(ctx, plan, image, n - 1);
      var before := Builder.AddModules(ctx, plan, image, n - 1);
      if before.Ok? {
        Plans.RangesAre(ctx, plan, image, n - 1);
        Plans.TableStays(ctx, plan, image, n - 1);
        ModuleError(ctx, before.value, n - 1, plan.modules[n - 1]);
      }
    }
  }

  lemma ModuleError(ctx: Builder.Context, p: Builder.Progress, i: nat, m: ImportModule)
    requires Plans.SectionsFiled(ctx, |p.tables.image|) && i * DESCRIPTOR_SIZE + DESCRIPTOR_SIZE <= |p.tables.importBytes|
    ensures Builder.AddModule(ctx, p, i, m).Err? ==> Builder.AddModule(ctx, p, i, m).error == Builder.ImportPlanInvalid
  {
    hide Builder.WithLookup, Builder.AddSymbols, Builder.Meets, Builder.DescriptorBytes, Builder.PadTo, Patch,
         Builder.ModuleShapeValid,
      Builder.EntryOffset, Plans.SectionsFiled;
    var b, size := p.tables.importBytes, ctx.format.PointerSize();
    var intOffset, lookup := |Builder.PadTo(b, size)|, Builder.WithLookup(ctx, b, m);
    var named := lookup + (m.moduleName + [0]);
    Tables.LookupRoom(ctx, b, m);
    Plans.WrappedRoom(ctx, intOffset, |m.symbols|);
    SymbolErrors(ctx, Builder.Tables(named, p.tables.image), Wrap32(intOffset), m, |m.symbols|);
    Plans.SymbolsAccepted(ctx, Builder.Tables(named, p.tables.image), Wrap32(intOffset), m, |m.symbols|);
  }

  /** Headers with the addresses and sizes of the planned sections. */
  ghost predicate SameSpans(h: seq<Section>, sections: seq<Sections.RebuiltSection>) {
    |h| == |sections|
    && forall k :: 0 <= k < |h| ==> h[k].virtualAddress == sections[k].virtualAddress && h[k].virtualSize == sections[k].virtualSize
                                    && h[k].virtualAddress + h[k].virtualSize <= U32_MAX
  }

  lemma {:induction false} HeldIs(h: seq<Section>, sections: seq<Sections.RebuiltSection>, rva: U32, width: nat)
    requires SameSpans(h, sections)
    ensures Builder.IatOffset(h, rva, width).Some? <==> SlotHeld(sections, rva, width)
  {
    if h != [] {
      WrapSmall(h[0].virtualAddress + h[0].virtualSize);
      var rest := sections[1..];
      HeldIs(h[1..], rest, rva, width);
      assert forall k :: 0 < k < |sections| ==> sections[k] == rest[k - 1];
      if k :| 0 <= k < |rest| && rest[k].virtualAddress <= rva && rva + width <= rest[k].virtualAddress + rest[k].virtualSize {
        assert sections[k + 1] == rest[k];
      }
      if k :| 0 <= k < |sections| && sections[k].virtualAddress <= rva
              && rva + width <= sections[k].virtualAddress + sections[k].virtualSize {
        assert k > 0 ==> rest[k - 1] == sections[k];
      }
    }
  }

  lemma ShapeIs(ctx: Builder.Context, layout: Layout, m: ImportModule)
    requires ctx.format == layout.format && ctx.sizeOfImage == layout.sizeOfImage <= LIMIT
    ensures Builder.ModuleShapeValid(ctx, m)
            <==> m.moduleName != [] && m.symbols != [] && m.firstThunk + |m.symbols| * PointerWidth(layout) <= layout.sizeOfImage
  {
    if layout.format.Pe32? {
      assert |m.symbols| * 4 >= |m.symbols|;
    } else {
      assert |m.symbols| * 8 >= |m.symbols|;
    }
  }

  lemma SlotAt(ctx: Builder.Context, layout: Layout, m: ImportModule, k: nat)
    requires ctx.format == layout.format && k < |m.symbols| && m.firstThunk + |m.symbols| * PointerWidth(layout) <= LIMIT
    ensures Builder.SlotRva(ctx, m, k) == m.firstThunk + k * PointerWidth(layout)
  {
    if layout.format.Pe32? {
      WrapSmall(m.firstThunk + k * 4);
    } else {
      WrapSmall(m.firstThunk + k * 8);
    }
  }

  lemma ModuleIs(ctx: Builder.Context, layout: Layout, sections: seq<Sections.RebuiltSection>, m: ImportModule)
    requires ctx.format == layout.format && ctx.sizeOfImage == layout.sizeOfImage <= LIMIT && SameSpans(ctx.headers, sections)
    ensures Plans.ModuleAcceptable(ctx, m) <==> ModuleStands(layout, sections, m)
  {
    hide SlotHeld, Builder.IatOffset, Builder.ModuleShapeValid, Builder.SlotRva, SameSpans;
    ShapeIs(ctx, layout, m);
    if Builder.ModuleShapeValid(ctx, m) {
      forall k | 0 <= k < |m.symbols| ensures Plans.SymbolAcceptable(ctx, m, k) <==> SymbolStands(layout, sections, m, k) {
        SlotAt(ctx, layout, m, k);
        HeldIs(ctx.headers, sections, Builder.SlotRva(ctx, m, k), PointerWidth(layout));
      }
    }
  }

  lemma ImportsAre(ctx: Builder.Context, layout: Layout, sections: seq<Sections.RebuiltSection>, plan: ImportPlan)
    requires ctx.format == layout.format && ctx.sizeOfImage == layout.sizeOfImage <= LIMIT && SameSpans(ctx.headers, sections)
    ensures Plans.Acceptable(ctx, plan, |plan.modules|) <==> ImportsStand(layout, sections, plan)
  {
    hide SameSpans, Plans.ModuleAcceptable, ModuleStands, Builder.ModuleShapeValid;
    forall i | 0 <= i < |plan.modules|
      ensures Plans.ModuleAcceptable(ctx, plan.modules[i]) <==> ModuleStands(layout, sections, plan.modules[i])
      ensures Plans.ModuleAcceptable(ctx, plan.modules[i]) ==> Builder.ModuleShapeValid(ctx, plan.modules[i])
    {
      ModuleIs(ctx, layout, sections, plan.modules[i]);
      Plans.AcceptableShape(ctx, plan.modules[i]);
    }
  }

  // ---- the assembly ----

  lemma AlignFits(v: nat, alignment: nat)
    requires 0 < alignment <= LIMIT && v <= 2 * LIMIT
    ensures v <= U32_MAX && AlignUp(v, alignment).Some?
    ensures v <= AlignUp(v, alignment).value < v + alignment && AlignUp(v, alignment).value % alignment == 0
  {
    AlignUpIsLeast(v, alignment);
  }

  lemma AddSucceeds(layout: Layout, a: Assembly, name: SectionName, va: U32, content: Bytes, flags: U32)
    requires 0 < layout.fileAlignment <= LIMIT && |content| <= LIMIT
    ensures AddSection(layout, a, name, va, |content|, content, flags).Some?
    ensures AddSection(layout, a, name, va, |content|, content, flags).value.end == a.end
  {
    hide AlignUp, Patch, Resize;
    WrapSmall(|content|);
    AlignFits(|content|, layout.fileAlignment);
  }

  lemma {:induction false} PlaceSucceeds(layout: Layout, image: Bytes, start: Assembly, sections: seq<Sections.RebuiltSection>, n: nat)
    requires 0 < layout.fileAlignment <= LIMIT && 0 < layout.sectionAlignment <= LIMIT && n <= |sections|
    requires PlanOrdered(layout, sections) && InImage(layout, sections) && layout.sizeOfImage <= |image| && layout.sizeOfImage <= LIMIT
    requires start.end == 0 && start.headers == []
    ensures PlaceAll(layout, image, start, sections, n).Some?
    ensures PlaceAll(layout, image, start, sections, n).value.end < layout.sizeOfImage + layout.sectionAlignment
    ensures SameSpans(PlaceAll(layout, image, start, sections, n).value.headers, sections[..n])
  {
    hide AddSection, AlignUp;
    if n > 0 {
      PlaceSucceeds(layout, image, start, sections, n - 1);
      var a, s := PlaceAll(layout, image, start, sections, n - 1).value, sections[n - 1];
      var content := SectionContent(layout, image, s);
      assert |content| == s.virtualSize;
      AddSucceeds(layout, a, s.name, s.virtualAddress, content, s.characteristics);
      WrapSmall(s.virtualAddress + s.virtualSize);
      AlignFits(s.virtualAddress + s.virtualSize, layout.sectionAlignment);
      AddedSpan(layout, a, s.name, s.virtualAddress, content, s.characteristics);
      assert sections[..n] == sections[..n - 1] + [s];
    }
  }

  lemma AddedSpan(layout: Layout, a: Assembly, name: SectionName, va: U32, content: Bytes, flags: U32)
    requires 0 < layout.fileAlignment && |content| <= LIMIT && AddSection(layout, a, name, va, |content|, content, flags).Some?
    ensures var b := AddSection(layout, a, name, va, |content|, content, flags).value;
            |b.headers| == |a.headers| + 1 && b.headers[..|a.headers|] == a.headers
            && b.headers[|a.headers|].virtualAddress == va && b.headers[|a.headers|].virtualSize == |content|
  {
    hide AlignUp, Patch, Resize;
  }

  lemma HeaderSizeFits(layout: Layout, request: FixRequest, count: nat)
    requires Roomy(layout, request) && count <= 96
    ensures layout.fileAlignment > 0 && HeaderSize(layout, count).Some? && HeaderSize(layout, count).value <= LIMIT
    ensures layout.ntHeaderOffset + NtSize(layout.format) + count * SECTION_HEADER_SIZE <= HeaderSize(layout, count).value
  {
    hide AlignUp, IsPowerOfTwo, Weight, Parser.OrderedFrom;
    Division.PowerPositive(layout.fileAlignment);
    var table := layout.ntHeaderOffset + NtSize(layout.format);
    WrapSmall(table);
    WrapSmall(table + count * SECTION_HEADER_SIZE);
    AlignFits(table + count * SECTION_HEADER_SIZE, layout.fileAlignment);
  }

  /** The assembly of headers and planned sections. */
  lemma BaseStands(layout: Layout, image: Bytes, request: FixRequest, sections: seq<Sections.RebuiltSection>, count: nat)
    requires Roomy(layout, request) && count <= 96 && layout.sizeOfImage <= |image|
    requires 0 < layout.sectionAlignment && PlanOrdered(layout, sections) && InImage(layout, sections)
    ensures 0 < layout.fileAlignment <= LIMIT && layout.sectionAlignment <= LIMIT && layout.sizeOfHeaders <= |image|
    ensures HeaderSize(layout, count).Some? && Assembled(layout, image, sections, count).Some?
    ensures var a := Assembled(layout, image, sections, count).value;
            Good(layout, a, HeaderSize(layout, count).value) && SameSpans(a.headers, sections)
            && a.end < layout.sizeOfImage + layout.sectionAlignment
  {
    hide PlaceAll, Good, IsPowerOfTwo, AlignUp, StartAssembly, Weight, Parser.OrderedFrom, HeaderSize;
    HeaderSizeFits(layout, request, count);
    var h := HeaderSize(layout, count).value;
    var start := StartAssembly(layout, image, h);
    StartFacts(layout, image, h);
    StartIsGood(layout, image, h);
    PlaceSucceeds(layout, image, start, sections, |sections|);
    assert sections[..|sections|] == sections;
    PlacedSections(layout, image, start, h, sections, |sections|);
  }

  // ---- imports ----

  ghost predicate ImportRoom(layout: Layout, a: Assembly, imports: Option<ImportPlan>) {
    HasImports(imports) ==>
      a.end + 20 * (|imports.value.modules| + 1) + ModulesWeight(imports.value,
                                                                 |imports.value.modules|) + layout.sectionAlignment <= LIMIT
  }

  ghost function TablesWeight(imports: Option<ImportPlan>): nat {
    if HasImports(imports) then 20 * (|imports.value.modules| + 1) + ModulesWeight(imports.value, |imports.value.modules|) else 0
  }

  lemma TablesFacts(layout: Layout, a: Assembly, headerSize: nat, sections: seq<Sections.RebuiltSection>, imports: Option<ImportPlan>)
    requires Good(layout, a, headerSize) && SameSpans(a.headers, sections) && layout.sizeOfImage <= LIMIT
    requires HasImports(imports) && ImportRoom(layout, a, imports)
    ensures var t := TablesOf(layout, a, imports.value);
            (t.Ok? <==> ImportsStand(layout, sections, imports.value)) && (t.Err? ==> t.error == Builder.ImportPlanInvalid)
            && (t.Ok? ==> 0 < |t.value.tables.importBytes| <= TablesWeight(imports) && |t.value.tables.image| == |a.bytes|)
  {
    hide Good, Builder.AddModules, Plans.SectionsFiled, Plans.Acceptable, SameSpans, ModulesWeight;
    var ctx, plan := ImportContext(layout, a, a.end), imports.value;
    Discovered.GoodIsFiled(layout, a, headerSize, ctx);
    ImportsAre(ctx, layout, sections, plan);
    Plans.PlanAcceptedIff(ctx, plan, a.bytes, |plan.modules|);
    PlanErrors(ctx, plan, a.bytes, |plan.modules|);
    var t := TablesOf(layout, a, plan);
    if t.Ok? {
      TablesWeigh(ctx, plan, a.bytes, |plan.modules|);
      Plans.TableStays(ctx, plan, a.bytes, |plan.modules|);
      ImageKeepsLength(ctx, plan, a.bytes, |plan.modules|);
    }
  }

  /** The section with the tables is added after the last one. */
  lemma ImportsSucceed(layout: Layout, a: Assembly, headerSize: nat, imports: Option<ImportPlan>)
    requires Good(layout, a, headerSize) && HasImports(imports) && ImportRoom(layout, a, imports)
    requires 0 < layout.fileAlignment <= LIMIT && 0 < layout.sectionAlignment <= LIMIT
    requires TablesOf(layout, a, imports.value).Ok? && FreeName(layout, 0).Some?
    requires var t := TablesOf(layout, a, imports.value).value.tables;
             0 < |t.importBytes| <= TablesWeight(imports) && |t.image| == |a.bytes|
    ensures var r := WithImports(layout, a, imports);
            r.Ok? && Good(layout, r.value.assembly, headerSize) && |r.value.assembly.headers| == |a.headers| + 1
            && |a.bytes| <= |r.value.assembly.bytes|
            && r.value.assembly.end < a.end + TablesWeight(imports) + layout.sectionAlignment
  {
    hide WithImports, Good, AddSection, AlignUp, TablesOf, FreeName, ModulesWeight, Extends;
    GoodEnd(layout, a, headerSize);
    AlignedAlready(a.end, layout.sectionAlignment);
    UnfoldImports(layout, a, imports);
    var t := TablesOf(layout, a, imports.value).value.tables;
    WrapSmall(|t.importBytes|);
    AddSucceeds(layout, a.(bytes := t.image), FreeName(layout, 0).value, a.end, t.importBytes, IMPORT_FLAGS);
    WrapSmall(a.end + |t.importBytes|);
    AlignFits(a.end + |t.importBytes|, layout.sectionAlignment);
    ImportStep(layout, a, headerSize, imports);
    ExtendsMeans(a, WithImports(layout, a, imports).value.assembly, t.importBytes);
  }

  lemma ImportsFail(layout: Layout, a: Assembly, headerSize: nat, imports: Option<ImportPlan>)
    requires Good(layout, a, headerSize) && HasImports(imports) && a.end + layout.sectionAlignment <= LIMIT && layout.fileAlignment > 0
    ensures var t := TablesOf(layout, a, imports.value);
            (t.Err? ==> WithImports(layout, a, imports) == Err(t.error))
            && (t.Ok? && FreeName(layout, 0).None? ==> WithImports(layout, a, imports) == Err(Builder.SectionLayoutInvalid))
  {
    hide WithImports, Good, AddSection, AlignUp, TablesOf, FreeName;
    GoodEnd(layout, a, headerSize);
    AlignedAlready(a.end, layout.sectionAlignment);
    UnfoldImports(layout, a, imports);
  }

  /** The import step: refused for a plan that does not stand, then for a missing name. */
  lemma ImportsStep(layout: Layout, a: Assembly, headerSize: nat, sections: seq<Sections.RebuiltSection>, imports: Option<ImportPlan>)
    requires Good(layout, a, headerSize) && SameSpans(a.headers, sections) && layout.sizeOfImage <= LIMIT
    requires 0 < layout.fileAlignment <= LIMIT && 0 < layout.sectionAlignment <= LIMIT && ImportRoom(layout, a, imports)
    ensures var r := WithImports(layout, a, imports);
            if HasImports(imports) && !ImportsStand(layout, sections, imports.value) then r == Err(Builder.ImportPlanInvalid)
            else if HasImports(imports) && NoNameLeft(layout) then r == Err(Builder.SectionLayoutInvalid)
            else
              r.Ok? && Good(layout, r.value.assembly, headerSize)
              && |r.value.assembly.headers| == |a.headers| + (if HasImports(imports) then 1 else 0)
              && |a.bytes| <= |r.value.assembly.bytes|
              && r.value.assembly.end < a.end + TablesWeight(imports) + layout.sectionAlignment
  {
    hide WithImports, Good, TablesOf, ImportsStand, FreeName, Emitted.TableName, ModulesWeight, SameSpans;
    if HasImports(imports) {
      TablesFacts(layout, a, headerSize, sections, imports);
      Emitted.FreeNameIs(layout, 0);
      NameFound(layout);
      if TablesOf(layout, a, imports.value).Ok? && FreeName(layout, 0).Some? {
        ImportsSucceed(layout, a, headerSize, imports);
      } else {
        ImportsFail(layout, a, headerSize, imports);
      }
    } else {
      NoImportStep(layout, a, imports);
      GoodEnd(layout, a, headerSize);
    }
  }

  lemma NameFound(layout: Layout)
    ensures FreeName(layout, 0).Some? ==> !NoNameLeft(layout)
  {
    hide Emitted.TableName, Emitted.Taken;
    Emitted.FreeNameIs(layout, 0);
  }

  lemma UnfoldImports(layout: Layout, a: Assembly, imports: Option<ImportPlan>)
    requires layout.fileAlignment > 0 && layout.sectionAlignment > 0 && HasImports(imports)
    requires AlignUp(a.end, layout.sectionAlignment) == Some(a.end)
    ensures var t, r := TablesOf(layout, a, imports.value), WithImports(layout, a, imports);
            if t.Err? then r == Err(t.error)
            else if FreeName(layout, 0).None? then r == Err(Builder.SectionLayoutInvalid)
            else
              var bytes := t.value.tables.importBytes;
              var size := Wrap32(|bytes|);
              var added := AddSection(layout, a.(bytes := t.value.tables.image), FreeName(layout, 0).value, a.end, size,
                                      bytes, IMPORT_FLAGS);
              var end := AlignUp(Wrap32(a.end + size), layout.sectionAlignment);
              if added.None? || end.None? then r == Err(Builder.UnexpectedFailure) else r.Ok? && r.value.assembly.end == end.value
  {
    hide AddSection, AlignUp, FreeName, Builder.AddModules;
  }

  // ---- relocations and headers ----

  lemma RelocationsStep(layout: Layout, a: Assembly, headerSize: nat, placement: Placement)
    requires Good(layout, a, headerSize) && 0 < layout.fileAlignment <= LIMIT && 0 < layout.sectionAlignment <= LIMIT
    requires placement.RelocatedPlacement? ==>
      0 < |placement.plan.directoryBytes| && a.end + |placement.plan.directoryBytes| + layout.sectionAlignment <= LIMIT
    ensures WithRelocations(layout, a, placement).Some?
    ensures var r := WithRelocations(layout, a, placement).value;
            Good(layout, r.assembly, headerSize) && |a.bytes| <= |r.assembly.bytes|
            && |r.assembly.headers| == |a.headers| + (if placement.RelocatedPlacement? then 1 else 0)
  {
    hide Good, AddSection, AlignUp;
    GoodEnd(layout, a, headerSize);
    if placement.RelocatedPlacement? {
      var bytes := placement.plan.directoryBytes;
      AlignedAlready(a.end, layout.sectionAlignment);
      WrapSmall(|bytes|);
      AddSucceeds(layout, a, RelocName(), a.end, bytes, RELOCATION_FLAGS);
      WrapSmall(a.end + |bytes|);
      AlignFits(a.end + |bytes|, layout.sectionAlignment);
      RelocationStep(layout, a, headerSize, placement);
      ExtendsMeans(a, WithRelocations(layout, a, placement).value.assembly, bytes);
    } else {
      Emitted.NoRelocationStep(layout, a, placement);
    }
  }

  lemma {:induction false} TotalsSucceed(format: Format, h: seq<Section>, n: nat, size: nat)
    requires Stacked(h) && n <= |h| && size <= U32_MAX && forall k :: 0 <= k < |h| ==> h[k].rawOffset + h[k].rawSize <= size
    ensures Headers.TotalsOf(format, h[..n]).Some?
    ensures var t, sum := Headers.TotalsOf(format, h[..n]).value, if n == 0 then 0 else h[n - 1].rawOffset + h[n - 1].rawSize;
            t.code <= sum && t.initialized <= sum && t.uninitialized <= sum
  {
    hide Has, Headers.LowestBase;
    if n > 0 {
      assert h[..n][..n - 1] == h[..n - 1];
      TotalsSucceed(format, h, n - 1, size);
    }
  }

  lemma HeadersStep(layout: Layout, a: Assembly, headerSize: nat, r: Headers.HeaderRequest)
    requires Good(layout, a, headerSize)
    requires layout.ntHeaderOffset + NtSize(layout.format) + |a.headers| * SECTION_HEADER_SIZE <= headerSize
    ensures Headers.Outcome(a.bytes, layout, a.headers, r).Some? <==> layout.format.AddressFits(r.imageBase)
  {
    hide IsPowerOfTwo, Headers.NewOptionalFields, Headers.NewFileFields, Headers.NtBytes, Headers.SectionTable, Parser.OptionalFields,
      Parser.FileFields, Stacked;
    var h := a.headers;
    assert h[..|h|] == h;
    forall k | 0 <= k < |h| ensures h[k].rawOffset + h[k].rawSize <= |a.bytes| {
      assert Settled(layout, h[k], headerSize, |a.bytes|, a.end);
    }
    TotalsSucceed(layout.format, h, |h|, |a.bytes|);
  }

  // ---- after the section plan ----

  ghost predicate FinishedIs(layout: Layout, request: FixRequest, sections: seq<Sections.RebuiltSection>,
                             r: Result<FixedImage, Builder.FixError>) {
    if CountOf(|sections|, request) > 96 then r == Err(Builder.SectionLayoutInvalid)
    else if HasImports(request.imports) && !ImportsStand(layout, sections,
                                                         request.imports.value) then r == Err(Builder.ImportPlanInvalid)
    else if HasImports(request.imports) && NoNameLeft(layout) then r == Err(Builder.SectionLayoutInvalid)
    else if layout.format.Pe32? && BaseOf(request.placement) >= 0x1_0000_0000 then r == Err(Builder.HeaderWriteFailed)
    else
      r.Ok? && r.value.quality == (if request.imports.Some? then Complete else Partial)
      && r.value.warnings == if request.imports.Some? then [] else ["ImportsNotRebuilt"]
  }

  lemma FinishExact(layout: Layout, image: Bytes, request: FixRequest, plan: Sections.SectionPlan)
    requires Roomy(layout, request) && layout.sizeOfImage <= |image| && layout.fileAlignment > 0 && layout.sectionAlignment > 0
    requires PlanOrdered(layout, plan.sections) && InImage(layout, plan.sections)
    requires request.placement.RelocatedPlacement? ==> request.placement.plan.directoryBytes != []
    ensures FinishedIs(layout, request, plan.sections, Finished(layout, image, request, plan))
  {
    hide Good, Assembled, WithImports, WithRelocations, Headers.Outcome, HeaderSize, ImportsStand, NoNameLeft,
         IsPowerOfTwo, ModulesWeight,
      Parser.OrderedFrom, SameSpans, PlanOrdered;
    var count := SectionCount(|plan.sections|, request);
    if count <= 96 {
      BaseStands(layout, image, request, plan.sections, count);
      HeaderSizeFits(layout, request, count);
      var headerSize, base := HeaderSize(layout, count).value, Assembled(layout, image, plan.sections, count).value;
      SpansCount(base.headers, plan.sections);
      ImportsStep(layout, base, headerSize, plan.sections, request.imports);
      var imported := WithImports(layout, base, request.imports);
      if imported.Ok? {
        RelocationsStep(layout, imported.value.assembly, headerSize, request.placement);
        var placed := WithRelocations(layout, imported.value.assembly, request.placement).value;
        HeadersStep(layout, placed.assembly, headerSize,
                    HeaderRequestOf(layout, request, headerSize, placed.assembly.end, imported.value.directories, placed.directory,
                                    plan.tlsDirectory));
      }
    }
  }

  lemma SpansCount(h: seq<Section>, sections: seq<Sections.RebuiltSection>)
    requires SameSpans(h, sections)
    ensures |h| == |sections|
  {
  }

  // ---- the slots ----

  lemma {:induction false} SlotsAre(layout: Layout, image: Bytes, base: U64, slots: seq<Relocations.RelocationSlot>, n: nat)
    requires n <= |slots| && layout.sizeOfImage <= |image|
    ensures Normalised(layout, image, base, slots, n).Some? <==> forall k :: 0 <= k < n ==> SlotStands(layout, base, slots[k])
  {
    hide LittleEndian, Patch;
    if n > 0 {
      SlotsAre(layout, image, base, slots, n - 1);
      assert SlotValid(layout, base, slots[n - 1]) <==> SlotStands(layout, base, slots[n - 1]);
    }
  }

  // ---- the whole ----

  /** The verdict on a rebuild, in the order of the checks. */
  ghost predicate RebuiltIs(layout: Layout, dump: CapturedImage, request: FixRequest, discovery: Discovery,
                            r: Result<FixedImage, Builder.FixError>) {
    if request.oep >= layout.sizeOfImage || |dump.bytes| < layout.sizeOfImage || layout.sections == []
      then r == Err(Builder.EntryPointOutOfRange)
    else if !PlacementStands(dump, request.placement) then r == Err(Builder.ImagePlacementInvalid)
    else if !SlotsStand(layout, request.placement) then r == Err(Builder.RelocationSlotInvalid)
    else if layout.imageKind.DynamicLibrary? && !discovery.exportsReadable then r == Err(Builder.ExportDirectoryInvalid)
    else
      exists image ::
        Prepared(layout, dump, request) == Ok(image)
        && var input := Sections.Input(image, request.oep, request.imports, discovery.evidence, dump.regions);
           if !Division.Divisible(layout, input) || (layout.sectionAlignment > 0 && |Division.StartSet(layout, input)| > 95)
             then r == Err(Builder.SectionLayoutInvalid)
           else Sections.Outcome(layout, input).Ok? && FinishedIs(layout, request, Sections.Outcome(layout, input).value.sections, r)
  }

  lemma PreparedIs(layout: Layout, dump: CapturedImage, request: FixRequest)
    ensures Prepared(layout, dump, request).Ok?
            <==> request.oep < layout.sizeOfImage <= |dump.bytes| && layout.sections != []
                 && PlacementStands(dump, request.placement) && SlotsStand(layout, request.placement)
    ensures !(request.oep < layout.sizeOfImage <= |dump.bytes| && layout.sections != []) ==>
              Prepared(layout, dump, request) == Err(Builder.EntryPointOutOfRange)
    ensures request.oep < layout.sizeOfImage <= |dump.bytes| && layout.sections != [] && !PlacementStands(dump, request.placement) ==>
              Prepared(layout, dump, request) == Err(Builder.ImagePlacementInvalid)
    ensures Prepared(layout, dump, request).Err? && request.oep < layout.sizeOfImage <= |dump.bytes| && layout.sections != []
            && PlacementStands(dump, request.placement) ==>
              Prepared(layout, dump, request) == Err(Builder.RelocationSlotInvalid)
  {
    hide Normalised, SlotStands;
    if RequestValid(layout, dump, request) {
      var slots := SlotsOf(request.placement);
      SlotsAre(layout, dump.bytes, ImageBase(request.placement), slots, |slots|);
    }
  }

  /** Every rebuild of a roomy image has the verdict that its first failing demand gives. */
  lemma RebuildIsExact(layout: Layout, dump: CapturedImage, request: FixRequest, discovery: Discovery)
    requires Roomy(layout, request)
    ensures RebuiltIs(layout, dump, request, discovery, Outcome(layout, dump, request, discovery))
  {
    hide Prepared, Sections.Outcome, Finished, FinishedIs, Division.Divisible, Division.StartSet, PlacementStands, SlotsStand, Weight,
      IsPowerOfTwo;
    PreparedIs(layout, dump, request);
    var image := Prepared(layout, dump, request);
    if image.Ok? && !(layout.imageKind.DynamicLibrary? && !discovery.exportsReadable) {
      var input := SectionInput(dump, image.value, request, discovery);
      Ordered(layout, request);
      Division.DivisionIsExact(layout, input);
      Division.DivisiblePositive(layout, input);
      var plan := Sections.Outcome(layout, input);
      if plan.Ok? {
        PlannedInImage(layout, input);
        SectionLaws.SectionsPartitionTheImage(layout, input);
        DirectoryThere(layout, dump, request);
        FinishExact(layout, image.value, request, plan.value);
      }
    }
  }

  lemma Ordered(layout: Layout, request: FixRequest)
    requires Roomy(layout, request)
    ensures SectionLaws.OrderedSections(layout.sections)
  {
    hide IsPowerOfTwo, Weight;
  }

  lemma DirectoryThere(layout: Layout, dump: CapturedImage, request: FixRequest)
    requires Prepared(layout, dump, request).Ok?
    ensures request.placement.RelocatedPlacement? ==> request.placement.plan.directoryBytes != []
  {
    hide Normalised;
  }
}
