/** Which import plans the fixer accepts, exactly. */
module ImportPlanLaws {
  import opened Bytes
  import opened PeFormat
  import opened ImportTypes
  import opened ImportTableBuilder
  import Laws = ImportTableLaws

  /** The symbol has exactly one of name and ordinal, and its IAT slot lies in one section. */
  ghost predicate SymbolAcceptable(ctx: Context, m: ImportModule, k: nat)
    requires k < |m.symbols|
  {
    m.symbols[k].ordinal.Some? != m.symbols[k].name.Some? && SlotMapped(ctx, m, k)
  }

  ghost predicate SlotMapped(ctx: Context, m: ImportModule, k: nat) {
    IatOffset(ctx.headers, SlotRva(ctx, m, k), ctx.format.PointerSize()).Some?
  }

  ghost predicate ModuleAcceptable(ctx: Context, m: ImportModule) {
    ModuleShapeValid(ctx, m) && forall k :: 0 <= k < |m.symbols| ==> SymbolAcceptable(ctx, m, k)
  }

  ghost predicate Overlap(ctx: Context, a: ImportModule, b: ImportModule) {
    ModuleShapeValid(ctx, a) && ModuleShapeValid(ctx, b) && Meets(RangeOf(ctx, a), RangeOf(ctx, b))
  }

  /** The first `n` modules are well shaped, and no two IAT ranges overlap. */
  ghost predicate Acceptable(ctx: Context, plan: ImportPlan, n: nat)
    requires n <= |plan.modules|
  {
    (forall i :: 0 <= i < n ==> ModuleAcceptable(ctx, plan.modules[i]))
    && forall i, j :: 0 <= i < j < n ==> !Overlap(ctx, plan.modules[j], plan.modules[i])
  }

  /** Every slot that lies in a section lies in the file. */
  ghost predicate SectionsFiled(ctx: Context, size: nat) {
    forall rva: U32 :: IatOffset(ctx.headers, rva, ctx.format.PointerSize()).Some? ==>
      IatOffset(ctx.headers, rva, ctx.format.PointerSize()).value + ctx.format.PointerSize() <= size
  }

  lemma SymbolAccepted(ctx: Context, t: Tables, at: nat, m: ImportModule, k: nat)
    requires k < |m.symbols| && SectionsFiled(ctx, |t.image|) && at + ctx.format.PointerSize() <= |t.importBytes|
    ensures AddSymbol(ctx, t, at, SlotRva(ctx, m, k), m.symbols[k]).Ok? <==> SymbolAcceptable(ctx, m, k)
    ensures AddSymbol(ctx, t, at, SlotRva(ctx, m, k), m.symbols[k]).Ok? ==>
      var r := AddSymbol(ctx, t, at, SlotRva(ctx, m, k), m.symbols[k]).value;
      |r.image| == |t.image| && |t.importBytes| <= |r.importBytes|
  {
    hide SymbolThunk, IatOffset, SlotRva;
  }

  lemma {:induction false} SymbolsAccepted(ctx: Context, t: Tables, intOffset: nat, m: ImportModule, n: nat)
    requires n <= |m.symbols| && SectionsFiled(ctx, |t.image|)
    requires EntryOffset(ctx, intOffset, |m.symbols|) <= |t.importBytes|
    ensures AddSymbols(ctx, t, intOffset, m, n).Ok? <==> forall k :: 0 <= k < n ==> SymbolAcceptable(ctx, m, k)
    ensures AddSymbols(ctx, t, intOffset, m, n).Ok? ==>
      var r := AddSymbols(ctx, t, intOffset, m, n).value; |r.image| == |t.image| && |t.importBytes| <= |r.importBytes|
  {
    hide AddSymbol, SymbolAcceptable, SectionsFiled, EntryOffset, SlotRva;
    if n > 0 {
      SymbolsAccepted(ctx, t, intOffset, m, n - 1);
      var before := AddSymbols(ctx, t, intOffset, m, n - 1);
      if before.Ok? {
        Laws.EntriesApart(ctx, intOffset, n - 1, |m.symbols|);
        SymbolAccepted(ctx, before.value, EntryOffset(ctx, intOffset, n - 1), m, n - 1);
      }
    }
  }

  lemma ModuleAccepted(ctx: Context, p: Progress, i: nat, m: ImportModule)
    requires SectionsFiled(ctx, |p.tables.image|) && i * DESCRIPTOR_SIZE + DESCRIPTOR_SIZE <= |p.tables.importBytes|
    ensures AddModule(ctx, p, i, m).Ok?
            <==> ModuleAcceptable(ctx, m) && forall k :: 0 <= k < |p.ranges| ==> !Meets(RangeOf(ctx, m), p.ranges[k])
  {
    hide WithLookup, AddSymbols, Meets, DescriptorBytes, PadTo, Patch, ModuleShapeValid, EntryOffset, SymbolAcceptable, SectionsFiled;
    var b, size := p.tables.importBytes, ctx.format.PointerSize();
    var intOffset, lookup := |PadTo(b, size)|, WithLookup(ctx, b, m);
    var named := lookup + (m.moduleName + [0]);
    Laws.LookupRoom(ctx, b, m);
    WrappedRoom(ctx, intOffset, |m.symbols|);
    SymbolsAccepted(ctx, Tables(named, p.tables.image), Wrap32(intOffset), m, |m.symbols|);
  }

  lemma WrappedRoom(ctx: Context, intOffset: nat, n: nat)
    ensures EntryOffset(ctx, Wrap32(intOffset), n) <= EntryOffset(ctx, intOffset, n)
  {
  }

  lemma {:induction false} RangesAre(ctx: Context, plan: ImportPlan, image: Bytes, n: nat)
    requires n <= |plan.modules| && AddModules(ctx, plan, image, n).Ok?
    ensures var p := AddModules(ctx, plan, image, n).value;
            |p.tables.image| == |image| && |p.ranges| == n
            && forall i :: 0 <= i < n ==> ModuleShapeValid(ctx, plan.modules[i]) && p.ranges[i] == RangeOf(ctx, plan.modules[i])
  {
    hide AddModule, ModuleShapeValid, RangeOf;
    if n > 0 {
      RangesAre(ctx, plan, image, n - 1);
      Laws.AddModuleRanges(ctx, AddModules(ctx, plan, image, n - 1).value, n - 1, plan.modules[n - 1]);
    }
  }

  lemma {:induction false} TableStays(ctx: Context, plan: ImportPlan, image: Bytes, n: nat)
    requires n <= |plan.modules| && AddModules(ctx, plan, image, n).Ok? && Laws.TableSize(plan) <= U32_MAX
    ensures Laws.TableSize(plan) <= |AddModules(ctx, plan, image, n).value.tables.importBytes|
  {
    hide AddModule;
    if n > 0 {
      TableStays(ctx, plan, image, n - 1);
      Laws.ModuleGrows(ctx, AddModules(ctx, plan, image, n - 1).value, n - 1, plan.modules[n - 1]);
    }
  }

  /** The module loop accepts a plan exactly when its modules are well shaped,
      every symbol has one of name and ordinal, every slot lies in one section,
      and no two IAT ranges overlap. */
  lemma {:induction false} PlanAcceptedIff(ctx: Context, plan: ImportPlan, image: Bytes, n: nat)
    requires n <= |plan.modules| && SectionsFiled(ctx, |image|) && Laws.TableSize(plan) <= U32_MAX
    ensures AddModules(ctx, plan, image, n).Ok? <==> Acceptable(ctx, plan, n)
  {
    hide AddModule, ModuleAcceptable, ModuleShapeValid, Meets, RangeOf, SectionsFiled;
    if n > 0 {
      PlanAcceptedIff(ctx, plan, image, n - 1);
      var before := AddModules(ctx, plan, image, n - 1);
      if before.Ok? {
        RangesAre(ctx, plan, image, n - 1);
        TableStays(ctx, plan, image, n - 1);
        ModuleAccepted(ctx, before.value, n - 1, plan.modules[n - 1]);
        AcceptableShape(ctx, plan.modules[n - 1]);
      }
    }
  }

  lemma AcceptableShape(ctx: Context, m: ImportModule)
    ensures ModuleAcceptable(ctx, m) ==> ModuleShapeValid(ctx, m)
  {
  }

  // ---- what acceptance tells ----

  lemma SymbolMapped(ctx: Context, t: Tables, at: nat, m: ImportModule, k: nat)
    requires k < |m.symbols| && AddSymbol(ctx, t, at, SlotRva(ctx, m, k), m.symbols[k]).Ok?
    ensures SlotMapped(ctx, m, k)
  {
    hide SymbolThunk, SymbolBytes, SlotRva, IatOffset;
  }

  lemma {:induction false} SymbolsMapped(ctx: Context, t: Tables, intOffset: nat, m: ImportModule, n: nat)
    requires n <= |m.symbols| && AddSymbols(ctx, t, intOffset, m, n).Ok?
    ensures forall k :: 0 <= k < n ==> SlotMapped(ctx, m, k)
  {
    hide AddSymbol, EntryOffset, SlotRva, SlotMapped;
    if n > 0 {
      SymbolsMapped(ctx, t, intOffset, m, n - 1);
      SymbolMapped(ctx, AddSymbols(ctx, t, intOffset, m, n - 1).value, EntryOffset(ctx, intOffset, n - 1), m, n - 1);
    }
  }

  /** Every slot of an accepted plan lies in one section. */
  lemma {:induction false} PlanMapped(ctx: Context, plan: ImportPlan, image: Bytes, n: nat)
    requires n <= |plan.modules| && AddModules(ctx, plan, image, n).Ok?
    ensures forall i, k :: 0 <= i < n && 0 <= k < |plan.modules[i].symbols| ==> SlotMapped(ctx, plan.modules[i], k)
  {
    hide WithLookup, AddSymbols, Meets, DescriptorBytes, PadTo, Patch, ModuleShapeValid, SlotMapped;
    if n > 0 {
      PlanMapped(ctx, plan, image, n - 1);
      var p, m := AddModules(ctx, plan, image, n - 1).value, plan.modules[n - 1];
      var named := WithLookup(ctx, p.tables.importBytes, m) + (m.moduleName + [0]);
      SymbolsMapped(ctx, Tables(named, p.tables.image), Wrap32(|PadTo(p.tables.importBytes, ctx.format.PointerSize())|),
                    m, |m.symbols|);
    }
  }
}
