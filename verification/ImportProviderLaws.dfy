/** What a resolver knows: exactly the usable exports of the process, each
    address resolving only where its contract is unique or exactly hinted. */
module ImportProviderLaws {
  import opened Bytes
  import opened ImportTypes
  import opened ImportProviderCatalogue

  /** A usable export of a loaded module. */
  ghost predicate Exported(modules: seq<RuntimeModule>, e: RuntimeExport) {
    Usable(e) && SomeLists(modules, e)
  }

  ghost predicate SomeLists(modules: seq<RuntimeModule>, e: RuntimeExport) {
    exists m :: 0 <= m < |modules| && Lists(modules[m], e)
  }

  ghost predicate Lists(m: RuntimeModule, e: RuntimeExport) {
    m.moduleName != [] && m.imageSize != 0 && e in m.exports
  }

  /** Exactly one of name and ordinal. */
  ghost predicate Shaped(symbol: ImportSymbol) {
    symbol.name.Some? != symbol.ordinal.Some?
  }

  ghost predicate Distinct(candidates: seq<Candidate>) {
    forall i, j :: 0 <= i < j < |candidates| ==> candidates[i].provider != candidates[j].provider
  }

  /** The catalogue's entries are the contracts of the exports in `from`, each once per address. */
  ghost predicate Reflects(c: Catalogue, from: iset<RuntimeExport>) {
    (forall a: U64 :: a in c.byAddress ==>
       c.byAddress[a] != [] && Distinct(c.byAddress[a])
       && forall k :: 0 <= k < |c.byAddress[a]| ==> Justified(c.byAddress[a][k], a, from))
    && forall e :: e in from && Usable(e) ==> e.address in c.byAddress && Listed(c.byAddress[e.address], ContractOf(e))
  }

  ghost predicate Justified(candidate: Candidate, a: U64, from: iset<RuntimeExport>) {
    exists e :: e in from && Usable(e) && e.address == a && candidate == Candidate(ContractOf(e), e.ordinal)
  }

  ghost predicate Listed(candidates: seq<Candidate>, p: Provider) {
    exists k :: 0 <= k < |candidates| && candidates[k].provider == p
  }

  lemma ContractsShaped(e: RuntimeExport)
    requires Named(e)
    ensures Shaped(ContractOf(e).symbol) && ContractOf(e).symbol.hint == 0 && ContractOf(e).moduleName != []
  {
  }

  lemma SameContractIsEqual(a: RuntimeExport, b: RuntimeExport)
    requires Named(a) && Named(b)
    ensures SameContract(ContractOf(a), ContractOf(b)) <==> ContractOf(a) == ContractOf(b)
  {
  }

  lemma AddExportReflects(c: Catalogue, from: iset<RuntimeExport>, e: RuntimeExport)
    requires Reflects(c, from)
    ensures Reflects(AddExport(c, e), from + iset{e})
  {
    hide ContractOf, Usable, Listed, Known, Justified;
    var r, all := AddExport(c, e), from + iset{e};
    forall a: U64 | a in r.byAddress
      ensures r.byAddress[a] != [] && Distinct(r.byAddress[a])
              && forall k :: 0 <= k < |r.byAddress[a]| ==> Justified(r.byAddress[a][k], a, all)
    {
      if Usable(e) && a == e.address {
        AddedJustified(At(c, a), from, e);
      } else {
        forall k | 0 <= k < |r.byAddress[a]| ensures Justified(r.byAddress[a][k], a, all) {
          JustifiedMore(r.byAddress[a][k], a, from, e);
        }
      }
    }
    forall x | x in all && Usable(x) ensures x.address in r.byAddress && Listed(r.byAddress[x.address], ContractOf(x)) {
      if Usable(e) && x.address == e.address {
        AddedListed(At(c, e.address), from, e, x);
      }
    }
  }

  lemma JustifiedMore(candidate: Candidate, a: U64, from: iset<RuntimeExport>, e: RuntimeExport)
    requires Justified(candidate, a, from)
    ensures Justified(candidate, a, from + iset{e})
  {
  }

  function Added(candidates: seq<Candidate>, e: RuntimeExport): seq<Candidate> {
    if Known(candidates, ContractOf(e)) then candidates else candidates + [Candidate(ContractOf(e), e.ordinal)]
  }

  lemma AddedJustified(candidates: seq<Candidate>, from: iset<RuntimeExport>, e: RuntimeExport)
    requires Usable(e) && Distinct(candidates)
    requires forall k :: 0 <= k < |candidates| ==> Justified(candidates[k], e.address, from)
    ensures Added(candidates, e) != [] && Distinct(Added(candidates, e))
    ensures forall k :: 0 <= k < |Added(candidates, e)| ==> Justified(Added(candidates, e)[k], e.address, from + iset{e})
  {
    hide ContractOf, Usable, SameContract;
    forall k | 0 <= k < |candidates|
      ensures Justified(candidates[k], e.address, from + iset{e})
      ensures !Known(candidates, ContractOf(e)) ==> candidates[k].provider != ContractOf(e)
    {
      assert Justified(candidates[k], e.address, from);
      var x :| x in from && Usable(x) && x.address == e.address && candidates[k] == Candidate(ContractOf(x), x.ordinal);
      UsableNamed(x);
      UsableNamed(e);
      SameContractIsEqual(x, e);
      assert x in from + iset{e};
    }
    assert e in from + iset{e};
  }

  lemma UsableNamed(e: RuntimeExport)
    requires Usable(e)
    ensures Named(e)
  {
  }

  lemma AddedListed(candidates: seq<Candidate>, from: iset<RuntimeExport>, e: RuntimeExport, x: RuntimeExport)
    requires Usable(e) && Usable(x) && x.address == e.address
    requires forall k :: 0 <= k < |candidates| ==> Justified(candidates[k], e.address, from)
    requires x == e || Listed(candidates, ContractOf(x))
    ensures Listed(Added(candidates, e), ContractOf(x))
  {
    hide ContractOf, Usable, SameContract;
    var r := Added(candidates, e);
    if x != e {
      var k :| 0 <= k < |candidates| && candidates[k].provider == ContractOf(x);
      assert r[k].provider == ContractOf(x);
    } else if Known(candidates, ContractOf(e)) {
      var k :| 0 <= k < |candidates| && SameContract(candidates[k].provider, ContractOf(e));
      var y :| y in from && Usable(y) && y.address == e.address && candidates[k] == Candidate(ContractOf(y), y.ordinal);
      UsableNamed(y);
      UsableNamed(e);
      SameContractIsEqual(y, e);
      assert r[k].provider == ContractOf(x);
    } else {
      assert r[|candidates|].provider == ContractOf(x);
    }
  }

  lemma {:induction false} AddExportsReflect(c: Catalogue, from: iset<RuntimeExport>, exports: seq<RuntimeExport>)
    requires Reflects(c, from)
    ensures Reflects(AddExports(c, exports), from + iset e | e in exports)
  {
    hide Reflects, AddExport;
    if exports == [] {
      assert from + (iset e | e in exports) == from;
    } else {
      var rest, last := exports[..|exports| - 1], exports[|exports| - 1];
      AddExportsReflect(c, from, rest);
      AddExportReflects(AddExports(c, rest), from + (iset e | e in rest), last);
      assert exports == rest + [last];
      assert from + (iset e | e in exports) == from + (iset e | e in rest) + iset{last};
    }
  }

  ghost function AllExports(modules: seq<RuntimeModule>): iset<RuntimeExport> {
    iset e | SomeLists(modules, e)
  }

  lemma {:induction false} CatalogueReflects(modules: seq<RuntimeModule>)
    ensures Reflects(CatalogueOf(modules), AllExports(modules))
  {
    hide AddExports, Lists;
    if modules == [] {
      assert AllExports(modules) == iset{};
    } else {
      var rest, m := modules[..|modules| - 1], modules[|modules| - 1];
      CatalogueReflects(rest);
      AllExportsStep(modules);
      if m.moduleName != [] && m.imageSize != 0 {
        AddExportsReflect(CatalogueOf(rest), AllExports(rest), m.exports);
      }
    }
  }

  lemma AllExportsStep(modules: seq<RuntimeModule>)
    requires modules != []
    ensures var rest, m := modules[..|modules| - 1], modules[|modules| - 1];
            AllExports(modules) == if m.moduleName != [] && m.imageSize != 0
                                   then AllExports(rest) + (iset e | e in m.exports) else AllExports(rest)
  {
    var rest, m := modules[..|modules| - 1], modules[|modules| - 1];
    forall e ensures e in AllExports(modules) <==> e in AllExports(rest) || Lists(m, e) {
      if e in AllExports(rest) {
        var i :| 0 <= i < |rest| && Lists(rest[i], e);
        assert Lists(modules[i], e);
      }
      if Lists(m, e) {
        assert Lists(modules[|modules| - 1], e);
      }
      if e in AllExports(modules) && !Lists(m, e) {
        var i :| 0 <= i < |modules| && Lists(modules[i], e);
        assert Lists(rest[i], e);
      }
    }
  }

  lemma ExportedIs(modules: seq<RuntimeModule>, e: RuntimeExport)
    ensures Exported(modules, e) <==> e in AllExports(modules) && Usable(e)
  {
  }

  /** An address is known exactly when a usable export lies there. */
  lemma ContainsExactly(modules: seq<RuntimeModule>, address: U64)
    ensures address in CatalogueOf(modules).byAddress <==> exists e :: Exported(modules, e) && e.address == address
  {
    hide AllExports, Exported, Usable, ContractOf, Listed, CatalogueOf;
    CatalogueReflects(modules);
    var c := CatalogueOf(modules);
    if address in c.byAddress {
      assert Justified(c.byAddress[address][0], address, AllExports(modules));
      var e :| e in AllExports(modules) && Usable(e) && e.address == address
               && c.byAddress[address][0] == Candidate(ContractOf(e), e.ordinal);
      ExportedIs(modules, e);
    }
    if e :| Exported(modules, e) && e.address == address {
      ExportedIs(modules, e);
    }
  }

  /** Without a hint an address resolves to a contract exactly when every usable
      export at the address is that one contract. */
  lemma UnhintedResolvesUnique(modules: seq<RuntimeModule>, address: U64, p: Provider)
    ensures Resolution(CatalogueOf(modules), address, None) == Some(p)
            <==> (exists e :: Exported(modules, e) && e.address == address)
                 && forall e :: Exported(modules, e) && e.address == address ==> ContractOf(e) == p
  {
    hide AllExports, Exported, Usable, ContractOf, CatalogueOf, Listed, Justified, Distinct;
    CatalogueReflects(modules);
    ContainsExactly(modules, address);
    var c := CatalogueOf(modules);
    if address in c.byAddress {
      OneContract(c.byAddress[address], p);
      forall e | Exported(modules, e) && e.address == address
        ensures Listed(c.byAddress[address], ContractOf(e))
      {
        ExportedIs(modules, e);
      }
      AllAreIt(modules, address, c.byAddress[address], p);
    }
  }

  lemma OneContract(candidates: seq<Candidate>, p: Provider)
    requires candidates != [] && Distinct(candidates)
    ensures (|candidates| == 1 && candidates[0].provider == p) <==> forall k :: 0 <= k < |candidates| ==> candidates[k].provider == p
  {
    if |candidates| > 1 {
      assert candidates[0].provider != candidates[1].provider;
    }
  }

  lemma AllAreIt(modules: seq<RuntimeModule>, address: U64, candidates: seq<Candidate>, p: Provider)
    requires forall k :: 0 <= k < |candidates| ==> Justified(candidates[k], address, AllExports(modules))
    requires forall e :: Exported(modules, e) && e.address == address ==> Listed(candidates, ContractOf(e))
    ensures (forall k :: 0 <= k < |candidates| ==> candidates[k].provider == p)
            <==> forall e :: Exported(modules, e) && e.address == address ==> ContractOf(e) == p
  {
    hide AllExports, Exported, Usable, ContractOf, Listed, Justified;
    if forall e :: Exported(modules, e) && e.address == address ==> ContractOf(e) == p {
      forall k | 0 <= k < |candidates| ensures candidates[k].provider == p {
        CandidateExport(modules, address, candidates[k]);
      }
    }
    if forall k :: 0 <= k < |candidates| ==> candidates[k].provider == p {
      forall e | Exported(modules, e) && e.address == address ensures ContractOf(e) == p {
        ListedMeans(candidates, ContractOf(e));
      }
    }
  }

  lemma ListedMeans(candidates: seq<Candidate>, p: Provider)
    requires Listed(candidates, p)
    ensures exists k :: 0 <= k < |candidates| && candidates[k].provider == p
  {
  }

  lemma CandidateExport(modules: seq<RuntimeModule>, address: U64, candidate: Candidate)
    requires Justified(candidate, address, AllExports(modules))
    ensures exists e :: Exported(modules, e) && e.address == address && ContractOf(e) == candidate.provider
  {
    hide AllExports, Exported, Usable, ContractOf;
    var e :| e in AllExports(modules) && Usable(e) && e.address == address && candidate == Candidate(ContractOf(e), e.ordinal);
    ExportedIs(modules, e);
  }

  /** What resolves is well formed: a module name, and exactly one of name and
      ordinal (for a hint that has exactly one). */
  lemma ResolvedShape(modules: seq<RuntimeModule>, address: U64, hint: Option<Hint>)
    requires Resolution(CatalogueOf(modules), address, hint).Some?
    requires hint.Some? ==> Shaped(hint.value.symbol)
    ensures address in CatalogueOf(modules).byAddress
    ensures var p := Resolution(CatalogueOf(modules), address, hint).value; p.moduleName != [] && Shaped(p.symbol)
  {
    hide AllExports, Exported, Usable, ContractOf, CatalogueOf, OfferCount, ForwarderMatches, SymbolAt, Shaped, NormalizeModule;
    CatalogueReflects(modules);
    if hint.None? {
      var candidate := CatalogueOf(modules).byAddress[address][0];
      assert Justified(candidate, address, AllExports(modules));
      var e :| e in AllExports(modules) && Usable(e) && e.address == address && candidate == Candidate(ContractOf(e), e.ordinal);
      UsableNamed(e);
      ContractsShaped(e);
    } else {
      NormalNotEmpty(hint.value.moduleName);
    }
  }

  lemma NormalNotEmpty(name: Bytes)
    ensures NormalizeModule(name) != []
  {
  }

  /** Normalising twice changes nothing. */
  lemma NormalizeIsIdempotent(name: Bytes)
    ensures NormalizeModule(NormalizeModule(name)) == NormalizeModule(name)
  {
    var r := NormalizeModule(name);
    assert r[|name|..] == [] || r[|name|] == 0x2e;
    var again := seq(|r|, i requires 0 <= i < |r| => Lower(r[i]));
    assert again == r;
  }

  // ---- forwarding ----

  /** `path` is a chain of forwarding contracts that starts at the symbol of `moduleName`. */
  ghost predicate Chain(c: Catalogue, path: seq<Forwarding>, moduleName: Bytes, symbol: ImportSymbol) {
    path == [] || (path[0] in c.forwarders && !IsApiSet(moduleName) && Forwards(path[0], moduleName, symbol)
                   && Chain(c, path[1..], path[0].targetModule, path[0].targetSymbol))
  }

  ghost function EndModule(path: seq<Forwarding>, moduleName: Bytes): Bytes {
    if path == [] then moduleName else path[|path| - 1].targetModule
  }

  ghost function EndSymbol(path: seq<Forwarding>, symbol: ImportSymbol): ImportSymbol {
    if path == [] then symbol else path[|path| - 1].targetSymbol
  }

  /** The contract is observed at the address, or is an API-set contract whose symbol is. */
  ghost predicate Observed(c: Catalogue, address: U64, moduleName: Bytes, symbol: ImportSymbol) {
    address in c.byAddress
    && (OfferedBy(c.byAddress[address], moduleName, symbol)
        || (IsApiSet(moduleName) && SymbolAt(c.byAddress[address], symbol)))
  }

  ghost predicate Reaches(c: Catalogue, address: U64, moduleName: Bytes, symbol: ImportSymbol, path: seq<Forwarding>) {
    Chain(c, path, moduleName, symbol) && Observed(c, address, EndModule(path, moduleName), EndSymbol(path, symbol))
  }

  lemma ReachesStep(c: Catalogue, address: U64, moduleName: Bytes, symbol: ImportSymbol, f: Forwarding, path: seq<Forwarding>)
    ensures Reaches(c, address, moduleName, symbol, [f] + path)
            <==> f in c.forwarders && !IsApiSet(moduleName) && Forwards(f, moduleName, symbol)
                 && Reaches(c, address, f.targetModule, f.targetSymbol, path)
  {
    hide Forwards, Observed, IsApiSet;
    assert ([f] + path)[1..] == path;
  }

  /** The forwarder search succeeds exactly when some chain of at most seven
      forwarding contracts (fewer when started deeper) leads to a contract observed at the address. */
  lemma {:induction false} ForwarderSearchIsExact(c: Catalogue, address: U64, moduleName: Bytes, symbol: ImportSymbol, depth: nat)
    ensures ForwarderMatches(c, address, moduleName, symbol, depth)
            <==> exists path :: |path| + depth < MAXIMUM_DEPTH && Reaches(c, address, moduleName, symbol, path)
    decreases MAXIMUM_DEPTH - depth
  {
    hide Forwards, IsApiSet, OfferedBy, SymbolAt, Reaches;
    if depth < MAXIMUM_DEPTH && address in c.byAddress {
      DirectReach(c, address, moduleName, symbol);
      if ForwarderMatches(c, address, moduleName, symbol, depth) {
        if !Observed(c, address, moduleName, symbol) {
          var k :| 0 <= k < |c.forwarders| && Forwards(c.forwarders[k], moduleName, symbol)
                   && ForwarderMatches(c, address, c.forwarders[k].targetModule, c.forwarders[k].targetSymbol, depth + 1);
          var f := c.forwarders[k];
          ForwarderSearchIsExact(c, address, f.targetModule, f.targetSymbol, depth + 1);
          var path :| |path| + (depth + 1) < MAXIMUM_DEPTH && Reaches(c, address, f.targetModule, f.targetSymbol, path);
          ReachesStep(c, address, moduleName, symbol, f, path);
          assert |[f] + path| + depth < MAXIMUM_DEPTH;
        }
      }
      if path :| |path| + depth < MAXIMUM_DEPTH && Reaches(c, address, moduleName, symbol, path) {
        if path != [] {
          var f := path[0];
          assert path == [f] + path[1..];
          ReachesStep(c, address, moduleName, symbol, f, path[1..]);
          ForwarderSearchIsExact(c, address, f.targetModule, f.targetSymbol, depth + 1);
          var k :| 0 <= k < |c.forwarders| && c.forwarders[k] == f;
        }
      }
    } else {
      NothingReached(c, address, moduleName, symbol);
    }
  }

  lemma DirectReach(c: Catalogue, address: U64, moduleName: Bytes, symbol: ImportSymbol)
    ensures Reaches(c, address, moduleName, symbol, []) <==> Observed(c, address, moduleName, symbol)
  {
    hide Observed;
  }

  lemma NothingReached(c: Catalogue, address: U64, moduleName: Bytes, symbol: ImportSymbol)
    ensures address !in c.byAddress ==> forall path :: !Reaches(c, address, moduleName, symbol, path)
  {
  }
}
