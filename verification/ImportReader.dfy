/** An independent reader of a file's import table: it walks the descriptors and
    lookup entries the way a loader does and returns the plan it finds. */
module ImportReader {
  import opened Bytes
  import opened PeFormat
  import opened ImportTypes
  import opened ImportTableValidator

  /** The bytes before the first NUL. */
  function CString(b: Bytes): Option<Bytes> {
    if b == [] then None
    else if b[0] == 0 then Some([])
    else
      var rest := CString(b[1..]);
      if rest.None? then None else Some([b[0]] + rest.value)
  }

  function ReadString(image: Bytes, layout: Layout, rva: U32): Option<Bytes> {
    var raw := ToRaw(layout, rva, 1);
    if raw.None? || raw.value > |image| then None else CString(image[raw.value..])
  }

  function ReadHint(image: Bytes, layout: Layout, rva: U32): Option<U16> {
    var raw := ToRaw(layout, rva, 2);
    Powers();
    if raw.None? || !Fits(image, raw.value, 2) then None else Some(ReadAt(image, raw.value, 2))
  }

  /** The symbol that a lookup entry stands for. */
  function ReadSymbol(image: Bytes, layout: Layout, thunk: U64): Option<ImportSymbol> {
    if Has(thunk, layout.format.OrdinalFlag()) then Some(ImportSymbol(None, Some(thunk % 0x1_0000), 0))
    else
      var hint, name := ReadHint(image, layout, Wrap32(thunk)), ReadString(image, layout, Wrap32(Wrap32(thunk) + 2));
      if hint.None? || name.None? then None else Some(ImportSymbol(Some(name.value), None, hint.value))
  }

  function ReadSymbols(image: Bytes, layout: Layout, lookup: U32, index: nat): Option<seq<ImportSymbol>>
    decreases U32_MAX as int - index
  {
    if !IndexFits(layout.format, lookup, index) || index >= U32_MAX then None
    else
      var thunk := ReadThunk(image, layout, Wrap32(lookup + index * layout.format.PointerSize()));
      if thunk.None? then None
      else if thunk.value == 0 then Some([])
      else
        var symbol, rest := ReadSymbol(image, layout, thunk.value), ReadSymbols(image, layout, lookup, index + 1);
        if symbol.None? || rest.None? then None else Some([symbol.value] + rest.value)
  }

  function ReadModule(image: Bytes, layout: Layout, d: Descriptor): Option<ImportModule> {
    var name, symbols := ReadString(image, layout, d.name), ReadSymbols(image, layout, LookupOf(d), 0);
    if name.None? || symbols.None? then None else Some(ImportModule(name.value, d.firstThunk, symbols.value))
  }

  function ReadModules(image: Bytes, layout: Layout, directory: Directory, offset: nat): Option<seq<ImportModule>>
    decreases directory.size - offset
  {
    if offset + DESCRIPTOR_SIZE > directory.size then None
    else
      var d := ReadDescriptor(image, layout, Wrap32(directory.address + offset));
      if d.None? then None
      else if d.value == Descriptor(0, 0, 0) then Some([])
      else
        var m, rest := ReadModule(image, layout, d.value), ReadModules(image, layout, directory, offset + DESCRIPTOR_SIZE);
        if m.None? || rest.None? then None else Some([m.value] + rest.value)
  }

  function ReadPlan(image: Bytes, layout: Layout): Option<ImportPlan> {
    var modules := ReadModules(image, layout, layout.directories[IMPORT_DIRECTORY], 0);
    if modules.None? then None else Some(ImportPlan(modules.value))
  }

  // ---- what of a plan a file can keep ----

  ghost predicate NulFree(name: Bytes) {
    forall j :: 0 <= j < |name| ==> name[j] != 0
  }

  ghost predicate SymbolNulFree(symbol: ImportSymbol) {
    symbol.name.Some? ==> NulFree(symbol.name.value)
  }

  ghost predicate PlanNulFree(plan: ImportPlan) {
    forall i :: 0 <= i < |plan.modules| ==>
      NulFree(plan.modules[i].moduleName)
      && forall k :: 0 <= k < |plan.modules[i].symbols| ==> SymbolNulFree(plan.modules[i].symbols[k])
  }

  /** An ordinal import has no room for a hint. */
  function Kept(symbol: ImportSymbol): ImportSymbol {
    if symbol.ordinal.Some? then symbol.(hint := 0) else symbol
  }

  function KeptSymbols(symbols: seq<ImportSymbol>): (r: seq<ImportSymbol>)
    ensures |r| == |symbols| && forall k :: 0 <= k < |r| ==> r[k] == Kept(symbols[k])
  {
    seq(|symbols|, k requires 0 <= k < |symbols| => Kept(symbols[k]))
  }

  function KeptModule(m: ImportModule): ImportModule {
    m.(symbols := KeptSymbols(m.symbols))
  }

  function KeptModules(modules: seq<ImportModule>): (r: seq<ImportModule>)
    ensures |r| == |modules| && forall i :: 0 <= i < |r| ==> r[i] == KeptModule(modules[i])
  {
    seq(|modules|, i requires 0 <= i < |modules| => KeptModule(modules[i]))
  }

  lemma {:induction false} CStringFound(b: Bytes, name: Bytes)
    requires |name| < |b| && b[..|name|] == name && b[|name|] == 0 && NulFree(name)
    ensures CString(b) == Some(name)
  {
    if name != [] {
      assert b[0] == name[0];
      assert b[1..][..|name| - 1] == name[1..];
      CStringFound(b[1..], name[1..]);
      assert [b[0]] + name[1..] == name;
    }
  }
}
