/** Builds the import table of a rebuilt image: descriptors, lookup tables and
    names, while patching the image's import address table in place. */
module ImportTableBuilder {
  import opened Bytes
  import opened Structs
  import opened PeFormat
  import opened ImportTypes

  datatype FixError =
    | EntryPointOutOfRange | ImagePlacementInvalid | RelocationSlotInvalid | ExportDirectoryInvalid
    | SectionLayoutInvalid | ImportPlanInvalid | HeaderWriteFailed | UnexpectedFailure

  /** Where the table will live and which sections may hold IAT slots. */
  datatype Context = Context(format: Format, sizeOfImage: U32, importRva: U32, headers: seq<Section>)

  /** The table so far and the file image whose IAT is being patched. */
  datatype Tables = Tables(importBytes: Bytes, image: Bytes)

  datatype IatRange = IatRange(begin: U32, end: U32)

  datatype Progress = Progress(tables: Tables, ranges: seq<IatRange>, iatStart: U32, iatEnd: U32)

  /** The file position of the slot at `rva`: in the first section that holds all of it. */
  function IatOffset(headers: seq<Section>, rva: U32, size: nat): Option<U32> {
    if headers == [] then None
    else
      var s := headers[0];
      if s.virtualAddress <= rva && rva + size <= Wrap32(s.virtualAddress + s.virtualSize)
        then Some(Wrap32(s.rawOffset + rva - s.virtualAddress))
      else IatOffset(headers[1..], rva, size)
  }

  /** A vector write outside the buffer throws. */
  function PatchIat(ctx: Context, image: Bytes, rva: U32, value: U64): (r: Result<Bytes, FixError>)
    ensures r.Ok? ==> |r.value| == |image|
  {
    var size := ctx.format.PointerSize();
    var offset := IatOffset(ctx.headers, rva, size);
    if offset.None? then Err(ImportPlanInvalid)
    else if !Fits(image, offset.value, size) then Err(UnexpectedFailure)
    else Ok(Patch(image, offset.value, LittleEndian(value, size)))
  }

  function PadTo(b: Bytes, alignment: nat): (r: Bytes)
    requires alignment > 0
    ensures |b| <= |r| && r[..|b|] == b
  {
    b + Zeros((alignment - |b| % alignment) % alignment)
  }

  /** The table after the symbol's hint and name, if it has one. */
  function SymbolBytes(b: Bytes, symbol: ImportSymbol): (r: Bytes)
    ensures |b| <= |r| && r[..|b|] == b
  {
    if symbol.name.None? then b
    else
      var padded := PadTo(b, 2);
      padded + (LittleEndian(symbol.hint, 2) + symbol.name.value + [0])
  }

  /** The lookup value for a symbol when the table holds `b` before it. */
  function SymbolThunk(ctx: Context, b: Bytes, symbol: ImportSymbol): U64
    requires symbol.name.Some? || symbol.ordinal.Some?
  {
    if symbol.ordinal.Some? then ctx.format.OrdinalFlag() + symbol.ordinal.value
    else Wrap32(ctx.importRva + |PadTo(b, 2)|)
  }

  /** Writes one symbol: its name, its lookup entry `at`, and its IAT slot at `rva`. */
  function AddSymbol(ctx: Context, t: Tables, at: nat, rva: U32, symbol: ImportSymbol): Result<Tables, FixError> {
    if symbol.ordinal.Some? == symbol.name.Some? then Err(ImportPlanInvalid)
    else
      var thunk := SymbolThunk(ctx, t.importBytes, symbol);
      var bytes := SymbolBytes(t.importBytes, symbol);
      var size := ctx.format.PointerSize();
      if !Fits(bytes, at, size) then Err(UnexpectedFailure)
      else
        var image := PatchIat(ctx, t.image, rva, thunk);
        if image.Err? then Err(image.error)
        else Ok(Tables(Patch(bytes, at, LittleEndian(thunk, size)), image.value))
  }

  /** The address of the module's IAT slot `k`. */
  function SlotRva(ctx: Context, m: ImportModule, k: nat): U32 {
    Wrap32(m.firstThunk + k * ctx.format.PointerSize())
  }

  /** Where lookup entry `k` of the list at `intOffset` lies in the table. */
  function EntryOffset(ctx: Context, intOffset: nat, k: nat): nat {
    intOffset + k * ctx.format.PointerSize()
  }

  /** The first `n` symbols of a module whose lookup table is at `intOffset`. */
  function AddSymbols(ctx: Context, t: Tables, intOffset: nat, m: ImportModule, n: nat): Result<Tables, FixError>
    requires n <= |m.symbols|
  {
    if n == 0 then Ok(t)
    else
      var before := AddSymbols(ctx, t, intOffset, m, n - 1);
      if before.Err? then before
      else
        AddSymbol(ctx, before.value, EntryOffset(ctx, intOffset, n - 1), SlotRva(ctx, m, n - 1), m.symbols[n - 1])
  }

  predicate ModuleShapeValid(ctx: Context, m: ImportModule) {
    var size := ctx.format.PointerSize();
    m.moduleName != [] && m.symbols != [] && |m.symbols| <= U32_MAX / size - 1
    && m.firstThunk < ctx.sizeOfImage && |m.symbols| * size <= ctx.sizeOfImage - m.firstThunk
  }

  function RangeOf(ctx: Context, m: ImportModule): IatRange
    requires ModuleShapeValid(ctx, m)
  {
    IatRange(m.firstThunk, m.firstThunk + |m.symbols| * ctx.format.PointerSize())
  }

  predicate Meets(a: IatRange, b: IatRange) {
    a.begin < b.end && b.begin < a.end
  }

  function DescriptorBytes(intRva: U32, nameRva: U32, firstThunk: U32): (s: Bytes)
    ensures |s| == DESCRIPTOR_SIZE
  {
    DescriptorSize();
    Pack(DESCRIPTOR_WIDTHS, [intRva, 0, 0, nameRva, firstThunk])
  }

  /** The table with room for a module's lookup entries and terminator. */
  function WithLookup(ctx: Context, b: Bytes, m: ImportModule): Bytes {
    PadTo(b, ctx.format.PointerSize()) + Zeros((|m.symbols| + 1) * ctx.format.PointerSize())
  }

  function AddModule(ctx: Context, p: Progress, index: nat, m: ImportModule): Result<Progress, FixError> {
    if !ModuleShapeValid(ctx, m) then Err(ImportPlanInvalid)
    else
      var range := RangeOf(ctx, m);
      if exists k :: 0 <= k < |p.ranges| && Meets(range, p.ranges[k]) then Err(ImportPlanInvalid)
      else
        var intOffset := |PadTo(p.tables.importBytes, ctx.format.PointerSize())|;
        var lookup := WithLookup(ctx, p.tables.importBytes, m);
        var named := lookup + (m.moduleName + [0]);
        var done := AddSymbols(ctx, Tables(named, p.tables.image), Wrap32(intOffset), m, |m.symbols|);
        if done.Err? then Err(done.error)
        else if !Fits(done.value.importBytes, index * DESCRIPTOR_SIZE, DESCRIPTOR_SIZE) then Err(UnexpectedFailure)
        else
          var descriptor := DescriptorBytes(Wrap32(ctx.importRva + intOffset), Wrap32(ctx.importRva + |lookup|), m.firstThunk);
          Ok(Progress(Tables(Patch(done.value.importBytes, index * DESCRIPTOR_SIZE, descriptor), done.value.image),
                      p.ranges + [range], Min(p.iatStart, range.begin), Max(p.iatEnd, range.end)))
  }

  function Start(count: nat, image: Bytes): Progress {
    Progress(Tables(Zeros(Wrap32((count + 1) * DESCRIPTOR_SIZE)), image), [], U32_MAX, 0)
  }

  /** The table after the first `n` modules of the plan. */
  function AddModules(ctx: Context, plan: ImportPlan, image: Bytes, n: nat): Result<Progress, FixError>
    requires n <= |plan.modules|
  {
    if n == 0 then Ok(Start(|plan.modules|, image))
    else
      var before := AddModules(ctx, plan, image, n - 1);
      if before.Err? then before else AddModule(ctx, before.value, n - 1, plan.modules[n - 1])
  }

  lemma NoModules(ctx: Context, plan: ImportPlan, image: Bytes)
    ensures AddModules(ctx, plan, image, 0) == Ok(Start(|plan.modules|, image))
  {
  }

  lemma {:induction false} ModulesFail(ctx: Context, plan: ImportPlan, image: Bytes, n: nat, n': nat)
    requires n <= n' <= |plan.modules| && AddModules(ctx, plan, image, n).Err?
    ensures AddModules(ctx, plan, image, n') == AddModules(ctx, plan, image, n)
    decreases n' - n
  {
    hide AddModule;
    if n < n' {
      ModulesFail(ctx, plan, image, n + 1, n');
    }
  }

  lemma {:induction false} SymbolsFail(ctx: Context, t: Tables, intOffset: nat, m: ImportModule, n: nat, n': nat)
    requires n <= n' <= |m.symbols| && AddSymbols(ctx, t, intOffset, m, n).Err?
    ensures AddSymbols(ctx, t, intOffset, m, n') == AddSymbols(ctx, t, intOffset, m, n)
    decreases n' - n
  {
    hide AddSymbol;
    if n < n' {
      SymbolsFail(ctx, t, intOffset, m, n + 1, n');
    }
  }

  /** The body of the symbol loop. */
  method WriteSymbol(ctx: Context, t: Tables, at: nat, rva: U32, symbol: ImportSymbol) returns (r: Result<Tables, FixError>)
    ensures r == AddSymbol(ctx, t, at, rva, symbol)
  {
    hide PadTo, PatchIat, Patch, LittleEndian;
    if symbol.ordinal.Some? == symbol.name.Some? {
      return Err(ImportPlanInvalid);
    }
    var importBytes := t.importBytes;
    var pointerSize := ctx.format.PointerSize();
    var thunk: U64;
    if symbol.ordinal.Some? {
      thunk := ctx.format.OrdinalFlag() + symbol.ordinal.value;
    } else {
      var padded := PadTo(importBytes, 2);
      thunk := Wrap32(ctx.importRva + |padded|);
      importBytes := padded + (LittleEndian(symbol.hint, 2) + symbol.name.value + [0]);
    }
    if !Fits(importBytes, at, pointerSize) {
      return Err(UnexpectedFailure);
    }
    importBytes := Patch(importBytes, at, LittleEndian(thunk, pointerSize));
    var patched := PatchIat(ctx, t.image, rva, thunk);
    if patched.Err? {
      return Err(patched.error);
    }
    r := Ok(Tables(importBytes, patched.value));
  }

  /** The symbol loop of one module. */
  method WriteSymbols(ctx: Context, t: Tables, intOffset: nat, m: ImportModule) returns (r: Result<Tables, FixError>)
    ensures r == AddSymbols(ctx, t, intOffset, m, |m.symbols|)
  {
    hide AddSymbol;
    var tables := t;
    var pointerSize := ctx.format.PointerSize();
    var index := 0;
    while index < |m.symbols|
      invariant 0 <= index <= |m.symbols|
      invariant AddSymbols(ctx, t, intOffset, m, index) == Ok(tables)
    {
      var written := WriteSymbol(ctx, tables, intOffset + index * pointerSize,
                                 Wrap32(m.firstThunk + index * pointerSize), m.symbols[index]);
      if written.Err? {
        SymbolsFail(ctx, t, intOffset, m, index + 1, |m.symbols|);
        return written;
      }
      tables := written.value;
      index := index + 1;
    }
    r := Ok(tables);
  }

  /** The overlap check against the modules written so far. */
  method MeetsAny(range: IatRange, ranges: seq<IatRange>) returns (meets: bool)
    ensures meets <==> exists k :: 0 <= k < |ranges| && Meets(range, ranges[k])
  {
    var k := 0;
    while k < |ranges|
      invariant 0 <= k <= |ranges|
      invariant forall i :: 0 <= i < k ==> !Meets(range, ranges[i])
    {
      if Meets(range, ranges[k]) {
        return true;
      }
      k := k + 1;
    }
    return false;
  }

  /** The module loop. */
  method BuildImports(ctx: Context, plan: ImportPlan, image: Bytes) returns (r: Result<Progress, FixError>)
    ensures r == AddModules(ctx, plan, image, |plan.modules|)
  {
    hide PadTo, Patch, AddSymbols, DescriptorBytes, WithLookup, ModuleShapeValid, Meets, Start;
    var p := Start(|plan.modules|, image);
    NoModules(ctx, plan, image);
    var pointerSize := ctx.format.PointerSize();
    var moduleIndex := 0;
    while moduleIndex < |plan.modules|
      invariant 0 <= moduleIndex <= |plan.modules|
      invariant AddModules(ctx, plan, image, moduleIndex) == Ok(p)
    {
      var m := plan.modules[moduleIndex];
      if !ModuleShapeValid(ctx, m) {
        ModulesFail(ctx, plan, image, moduleIndex + 1, |plan.modules|);
        return Err(ImportPlanInvalid);
      }
      var range := RangeOf(ctx, m);
      var collides := MeetsAny(range, p.ranges);
      if collides {
        ModulesFail(ctx, plan, image, moduleIndex + 1, |plan.modules|);
        return Err(ImportPlanInvalid);
      }
      var importBytes := PadTo(p.tables.importBytes, pointerSize);
      var intOffset := |importBytes|;
      importBytes := WithLookup(ctx, p.tables.importBytes, m);
      var moduleNameOffset := |importBytes|;
      importBytes := importBytes + (m.moduleName + [0]);
      var done := WriteSymbols(ctx, Tables(importBytes, p.tables.image), Wrap32(intOffset), m);
      if done.Err? {
        ModulesFail(ctx, plan, image, moduleIndex + 1, |plan.modules|);
        return Err(done.error);
      }
      importBytes := done.value.importBytes;
      if !Fits(importBytes, moduleIndex * DESCRIPTOR_SIZE, DESCRIPTOR_SIZE) {
        ModulesFail(ctx, plan, image, moduleIndex + 1, |plan.modules|);
        return Err(UnexpectedFailure);
      }
      var descriptor := DescriptorBytes(Wrap32(ctx.importRva + intOffset), Wrap32(ctx.importRva + moduleNameOffset), m.firstThunk);
      importBytes := Patch(importBytes, moduleIndex * DESCRIPTOR_SIZE, descriptor);
      p := Progress(Tables(importBytes, done.value.image), p.ranges + [range], Min(p.iatStart, range.begin),
                    Max(p.iatEnd, range.end));
      moduleIndex := moduleIndex + 1;
    }
    r := Ok(p);
  }
}
