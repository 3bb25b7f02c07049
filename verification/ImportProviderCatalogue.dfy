/** The exports observed in a running process, keyed by address: which import
    contracts a runtime address can stand for. */
module ImportProviderCatalogue {
  import opened Bytes
  import opened ImportTypes

  /** Where a forwarded export points; parsing the forwarder text is not modelled. */
  datatype ForwarderTarget = ForwarderTarget(moduleName: Bytes, symbol: ImportSymbol)

  datatype RuntimeExport = RuntimeExport(
    moduleName: Bytes, address: U64, name: Option<Bytes>, ordinal: Option<U16>, forwarder: Option<ForwarderTarget>)

  datatype RuntimeModule = RuntimeModule(moduleName: Bytes, imageSize: U32, exports: seq<RuntimeExport>)

  datatype Provider = Provider(moduleName: Bytes, symbol: ImportSymbol)

  datatype Hint = Hint(slotRva: U32, moduleName: Bytes, symbol: ImportSymbol)

  datatype Candidate = Candidate(provider: Provider, ordinal: Option<U16>)

  datatype Forwarding = Forwarding(
    moduleName: Bytes, symbol: ImportSymbol, ordinal: Option<U16>, targetModule: Bytes, targetSymbol: ImportSymbol)

  datatype Catalogue = Catalogue(byAddress: map<U64, seq<Candidate>>, forwarders: seq<Forwarding>)

  const MAXIMUM_DEPTH: nat := 8
  const EMPTY := Catalogue(map[], [])

  // ---- names ----

  function Lower(b: Byte): Byte {
    if 0x41 <= b <= 0x5a then b + 0x20 else b
  }

  /** Lower case, with ".dll" where there is no extension. */
  function NormalizeModule(name: Bytes): (r: Bytes)
    ensures |name| <= |r|
  {
    var lower := seq(|name|, i requires 0 <= i < |name| => Lower(name[i]));
    if 0x2e in lower then lower else lower + [0x2e, 0x64, 0x6c, 0x6c]
  }

  predicate SameSymbol(a: ImportSymbol, b: ImportSymbol) {
    if a.name.Some? && b.name.Some? then a.name == b.name
    else a.name.None? && b.name.None? && a.ordinal.Some? && a.ordinal == b.ordinal
  }

  /** "api-" or "ext-". */
  predicate IsApiSet(name: Bytes) {
    |name| >= 4 && (name[..4] == [0x61, 0x70, 0x69, 0x2d] || name[..4] == [0x65, 0x78, 0x74, 0x2d])
  }

  // ---- building ----

  /** The symbol of an export: its name, or else its ordinal. */
  function SymbolOf(e: RuntimeExport): ImportSymbol {
    ImportSymbol(e.name, if e.name.None? then e.ordinal else None, 0)
  }

  function ContractOf(e: RuntimeExport): Provider {
    Provider(NormalizeModule(e.moduleName), SymbolOf(e))
  }

  predicate Named(e: RuntimeExport) {
    e.moduleName != [] && (e.name.Some? || e.ordinal.Some?)
  }

  predicate Usable(e: RuntimeExport) {
    e.address != 0 && Named(e)
  }

  predicate SameContract(a: Provider, b: Provider) {
    a.moduleName == b.moduleName && SameSymbol(a.symbol, b.symbol)
  }

  predicate Known(candidates: seq<Candidate>, p: Provider) {
    exists k :: 0 <= k < |candidates| && SameContract(candidates[k].provider, p)
  }

  function At(c: Catalogue, address: U64): seq<Candidate> {
    if address in c.byAddress then c.byAddress[address] else []
  }

  function WithForwarder(c: Catalogue, e: RuntimeExport): Catalogue {
    if e.forwarder.Some? && Named(e) then
      c.(forwarders := c.forwarders + [Forwarding(NormalizeModule(e.moduleName), SymbolOf(e), e.ordinal,
                                                  NormalizeModule(e.forwarder.value.moduleName), e.forwarder.value.symbol)])
    else c
  }

  function AddExport(before: Catalogue, e: RuntimeExport): Catalogue {
    var c := WithForwarder(before, e);
    if !Usable(e) then c
    else
      var candidates, p := At(c, e.address), ContractOf(e);
      c.(byAddress := c.byAddress[e.address := if Known(candidates, p) then candidates else candidates + [Candidate(p, e.ordinal)]])
  }

  function AddExports(c: Catalogue, exports: seq<RuntimeExport>): Catalogue {
    if exports == [] then c else AddExport(AddExports(c, exports[..|exports| - 1]), exports[|exports| - 1])
  }

  function CatalogueOf(modules: seq<RuntimeModule>): Catalogue {
    if modules == [] then EMPTY
    else
      var before, m := CatalogueOf(modules[..|modules| - 1]), modules[|modules| - 1];
      if m.moduleName == [] || m.imageSize == 0 then before else AddExports(before, m.exports)
  }

  // ---- resolving ----

  /** The observed ordinal equals the ordinal the symbol is imported by. */
  predicate SameOrdinal(ordinal: Option<U16>, symbol: ImportSymbol) {
    symbol.name.None? && symbol.ordinal.Some? && ordinal == symbol.ordinal
  }

  predicate Offers(candidate: Candidate, moduleName: Bytes, symbol: ImportSymbol) {
    candidate.provider.moduleName == moduleName
    && (SameSymbol(candidate.provider.symbol, symbol) || SameOrdinal(candidate.ordinal, symbol))
  }

  predicate Forwards(f: Forwarding, moduleName: Bytes, symbol: ImportSymbol) {
    f.moduleName == moduleName && (SameSymbol(f.symbol, symbol) || SameOrdinal(f.ordinal, symbol))
  }

  predicate OfferedBy(candidates: seq<Candidate>, moduleName: Bytes, symbol: ImportSymbol) {
    exists k :: 0 <= k < |candidates| && Offers(candidates[k], moduleName, symbol)
  }

  predicate SymbolAt(candidates: seq<Candidate>, symbol: ImportSymbol) {
    exists k :: 0 <= k < |candidates| && SameSymbol(candidates[k].provider.symbol, symbol)
  }

  predicate ForwarderMatches(c: Catalogue, address: U64, moduleName: Bytes, symbol: ImportSymbol, depth: nat)
    decreases MAXIMUM_DEPTH - depth
  {
    depth < MAXIMUM_DEPTH && address in c.byAddress
    && (OfferedBy(c.byAddress[address], moduleName, symbol)
        || if IsApiSet(moduleName) then SymbolAt(c.byAddress[address], symbol)
           else
             exists k ::
               0 <= k < |c.forwarders| && Forwards(c.forwarders[k], moduleName, symbol)
               && ForwarderMatches(c, address, c.forwarders[k].targetModule, c.forwarders[k].targetSymbol, depth + 1))
  }

  /** How many candidates offer the symbol. */
  function OfferCount(candidates: seq<Candidate>, moduleName: Bytes, symbol: ImportSymbol): nat {
    if candidates == [] then 0
    else
      OfferCount(candidates[..|candidates| - 1], moduleName, symbol)
      + if Offers(candidates[|candidates| - 1], moduleName, symbol) then 1 else 0
  }

  function ResolveHint(c: Catalogue, address: U64, hint: Hint): Option<Provider>
    requires address in c.byAddress
  {
    var candidates, moduleName := c.byAddress[address], NormalizeModule(hint.moduleName);
    var offers := OfferCount(candidates, moduleName, hint.symbol);
    if offers > 1 then None
    else if offers == 1 || ForwarderMatches(c, address, moduleName, hint.symbol, 0)
            || (IsApiSet(moduleName) && SymbolAt(candidates, hint.symbol))
      then Some(Provider(moduleName, hint.symbol))
    else None
  }

  function Resolution(c: Catalogue, address: U64, hint: Option<Hint>): Option<Provider> {
    if address !in c.byAddress then None
    else if hint.Some? then ResolveHint(c, address, hint.value)
    else if |c.byAddress[address]| == 1 then Some(c.byAddress[address][0].provider)
    else None
  }
}
