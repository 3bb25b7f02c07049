/** Answers import lookups from a catalogue of observed exports, which it builds
    export by export. */
module ImportProviderResolver {
  import opened Bytes
  import opened ImportTypes
  import opened ImportProviderCatalogue
  import Laws = ImportProviderLaws

  class Resolver {
    var byAddress: map<U64, seq<Candidate>>
    var forwarders: seq<Forwarding>

    ghost function Value(): Catalogue
      reads this
    {
      Catalogue(byAddress, forwarders)
    }

    constructor (modules: seq<RuntimeModule>)
      ensures Value() == CatalogueOf(modules)
    {
      byAddress, forwarders := map[], [];
      new;
      var m := 0;
      while m < |modules|
        invariant 0 <= m <= |modules|
        invariant Value() == CatalogueOf(modules[..m])
      {
        assert modules[..m + 1][..m] == modules[..m];
        var module_ := modules[m];
        if module_.moduleName != [] && module_.imageSize != 0 {
          AddAll(module_.exports);
        }
        m := m + 1;
      }
      assert modules[..m] == modules;
    }

    /** The export loop of one module. */
    method AddAll(exports: seq<RuntimeExport>)
      modifies this
      ensures Value() == AddExports(old(Value()), exports)
    {
      var e := 0;
      while e < |exports|
        invariant 0 <= e <= |exports|
        invariant Value() == AddExports(old(Value()), exports[..e])
      {
        assert exports[..e + 1][..e] == exports[..e];
        Add(exports[e]);
        e := e + 1;
      }
      assert exports[..e] == exports;
    }

    method Add(exported: RuntimeExport)
      modifies this
      ensures Value() == AddExport(old(Value()), exported)
    {
      if exported.forwarder.Some? && exported.moduleName != [] && (exported.name.Some? || exported.ordinal.Some?) {
        var symbol := ImportSymbol(exported.name, if exported.name.None? then exported.ordinal else None, 0);
        forwarders := forwarders + [Forwarding(NormalizeModule(exported.moduleName), symbol, exported.ordinal,
                                               NormalizeModule(exported.forwarder.value.moduleName),
                                               exported.forwarder.value.symbol)];
      }
      if exported.address == 0 || exported.moduleName == [] || (exported.name.None? && exported.ordinal.None?) {
        return;
      }
      var provider := Provider(NormalizeModule(exported.moduleName),
                               ImportSymbol(exported.name, if exported.name.None? then exported.ordinal else None, 0));
      var candidates := if exported.address in byAddress then byAddress[exported.address] else [];
      if !Known(candidates, provider) {
        candidates := candidates + [Candidate(provider, exported.ordinal)];
      }
      byAddress := byAddress[exported.address := candidates];
    }

    /** For a resolver of the modules' exports: whether a usable export lies at the address. */
    method Contains(address: U64) returns (found: bool)
      ensures found <==> address in Value().byAddress
      ensures forall modules :: Value() == CatalogueOf(modules) ==>
        (found <==> exists e :: Laws.Exported(modules, e) && e.address == address)
    {
      hide CatalogueOf, Laws.Exported;
      found := address in byAddress;
      forall modules | Value() == CatalogueOf(modules)
        ensures found <==> exists e :: Laws.Exported(modules, e) && e.address == address
      {
        Laws.ContainsExactly(modules, address);
      }
    }

    /** The forwarder search, with its recursion over forwarding contracts. */
    method Matches(address: U64, moduleName: Bytes, symbol: ImportSymbol, depth: nat) returns (found: bool)
      ensures found == ForwarderMatches(Value(), address, moduleName, symbol, depth)
      decreases MAXIMUM_DEPTH - depth
    {
      hide SameSymbol, SameOrdinal, IsApiSet;
      if depth >= MAXIMUM_DEPTH || address !in byAddress {
        return false;
      }
      var candidates := byAddress[address];
      var k := 0;
      while k < |candidates|
        invariant 0 <= k <= |candidates|
        invariant forall i :: 0 <= i < k ==> !Offers(candidates[i], moduleName, symbol)
      {
        if Offers(candidates[k], moduleName, symbol) {
          return true;
        }
        k := k + 1;
      }
      if IsApiSet(moduleName) {
        return SymbolAt(candidates, symbol);
      }
      k := 0;
      while k < |forwarders|
        invariant 0 <= k <= |forwarders|
        invariant forall i :: 0 <= i < k && Forwards(forwarders[i], moduleName, symbol) ==>
          !ForwarderMatches(Value(), address, forwarders[i].targetModule, forwarders[i].targetSymbol, depth + 1)
      {
        if Forwards(forwarders[k], moduleName, symbol) {
          var followed := Matches(address, forwarders[k].targetModule, forwarders[k].targetSymbol, depth + 1);
          if followed {
            return true;
          }
        }
        k := k + 1;
      }
      return false;
    }

    /** The candidate search under a hint: exactly one match, none, or several. */
    method CountOffers(candidates: seq<Candidate>, moduleName: Bytes, symbol: ImportSymbol) returns (count: nat)
      ensures count == Min(OfferCount(candidates, moduleName, symbol), 2)
    {
      hide Offers;
      count := 0;
      var k := 0;
      while k < |candidates|
        invariant 0 <= k <= |candidates| && count <= 1
        invariant count == OfferCount(candidates[..k], moduleName, symbol)
      {
        assert candidates[..k + 1][..k] == candidates[..k];
        if Offers(candidates[k], moduleName, symbol) {
          if count == 1 {
            MoreOffers(candidates, moduleName, symbol, k + 1);
            return 2;
          }
          count := 1;
        }
        k := k + 1;
      }
      assert candidates[..k] == candidates;
    }

    method Resolve(address: U64, hint: Option<Hint>) returns (provider: Option<Provider>)
      ensures provider == Resolution(Value(), address, hint)
    {
      hide OfferCount, ForwarderMatches, SymbolAt;
      if address !in byAddress {
        return None;
      }
      var candidates := byAddress[address];
      if hint.Some? {
        var moduleName := NormalizeModule(hint.value.moduleName);
        var offers := CountOffers(candidates, moduleName, hint.value.symbol);
        if offers > 1 {
          return None;
        }
        if offers == 0 {
          var forwarded := Matches(address, moduleName, hint.value.symbol, 0);
          if forwarded {
            return Some(Provider(moduleName, hint.value.symbol));
          }
          if !IsApiSet(moduleName) {
            return None;
          }
          return if SymbolAt(candidates, hint.value.symbol) then Some(Provider(moduleName, hint.value.symbol)) else None;
        }
        return Some(Provider(moduleName, hint.value.symbol));
      }
      return if |candidates| == 1 then Some(candidates[0].provider) else None;
    }
  }

  lemma {:induction false} MoreOffers(candidates: seq<Candidate>, moduleName: Bytes, symbol: ImportSymbol, n: nat)
    requires n <= |candidates|
    ensures OfferCount(candidates[..n], moduleName, symbol) <= OfferCount(candidates, moduleName, symbol)
    decreases |candidates| - n
  {
    hide Offers;
    if n < |candidates| {
      assert candidates[..n + 1][..n] == candidates[..n];
      MoreOffers(candidates, moduleName, symbol, n + 1);
    } else {
      assert candidates[..n] == candidates;
    }
  }
}
