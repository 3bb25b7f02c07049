/** What a resolver of observed exports answers, said of the exports themselves:
    names, ordinals and forwarders in listing order, without the catalogue. */
module ImportProviderExactLaws {
  import opened Bytes
  import opened ImportTypes
  import opened ImportProviderCatalogue
  import Laws = ImportProviderLaws

  // ---- names, symbols and contracts ----

  /** `full` is `name` with 'A' to 'Z' lowered, and with ".dll" behind it where it has no '.'. */
  ghost predicate Names(name: Bytes, full: Bytes) {
    var dotted := exists i :: 0 <= i < |name| && name[i] == 46;
    |full| == |name| + (if dotted then 0 else 4)
    && (forall i :: 0 <= i < |name| ==> full[i] == if 65 <= name[i] <= 90 then name[i] + 32 else name[i])
    && (!dotted ==> full[|name|..] == [46, 100, 108, 108])
  }

  /** The same name, or the same ordinal where neither has a name. */
  ghost predicate SameImport(a: ImportSymbol, b: ImportSymbol) {
    (a.name.Some? && b.name.Some? && a.name.value == b.name.value)
    || (a.name.None? && b.name.None? && a.ordinal.Some? && b.ordinal.Some? && a.ordinal.value == b.ordinal.value)
  }

  /** The symbol `s`, or the ordinal that a nameless `s` asks for. */
  ghost predicate Meets(symbol: ImportSymbol, ordinal: Option<U16>, s: ImportSymbol) {
    SameImport(symbol, s) || (s.name.None? && s.ordinal.Some? && ordinal == Some(s.ordinal.value))
  }

  /** The symbol of an export: its name, else its ordinal, and hint 0. */
  ghost predicate Exports(e: RuntimeExport, symbol: ImportSymbol) {
    symbol.name == e.name && symbol.hint == 0
    && (e.name.Some? ==> symbol.ordinal == None) && (e.name.None? ==> symbol.ordinal == e.ordinal && e.ordinal.Some?)
  }

  ghost predicate Contract(e: RuntimeExport, p: Provider) {
    e.moduleName != [] && Names(e.moduleName, p.moduleName) && Exports(e, p.symbol)
  }

  /** "api-" or "ext-" in front. */
  ghost predicate IsLoaderName(name: Bytes) {
    |name| >= 4 && name[3] == 45
    && ((name[0] == 97 && name[1] == 112 && name[2] == 105) || (name[0] == 101 && name[1] == 120 && name[2] == 116))
  }

  // ---- the exports in listing order ----

  /** The exports of the modules that have a name and a size, one module after another. */
  ghost function Listing(modules: seq<RuntimeModule>): seq<RuntimeExport> {
    if modules == [] then []
    else
      var m := modules[|modules| - 1];
      Listing(modules[..|modules| - 1]) + if m.moduleName == [] || m.imageSize == 0 then [] else m.exports
  }

  /** Export i puts the contract p at the address. */
  ghost predicate Puts(l: seq<RuntimeExport>, address: U64, i: int, p: Provider) {
    0 <= i < |l| && address != 0 && l[i].address == address && Contract(l[i], p)
  }

  /** Export i is the first to put the contract p there. */
  ghost predicate First(l: seq<RuntimeExport>, address: U64, i: int, p: Provider) {
    Puts(l, address, i, p) && forall j :: 0 <= j < i ==> !Puts(l, address, j, p)
  }

  /** Contract p, first put there by export i, is the one that is asked for. */
  ghost predicate Answers(l: seq<RuntimeExport>, address: U64, moduleName: Bytes, s: ImportSymbol, i: int, p: Provider) {
    First(l, address, i, p) && p.moduleName == moduleName && Meets(p.symbol, l[i].ordinal, s)
  }

  ghost predicate Ambiguous(l: seq<RuntimeExport>, address: U64, moduleName: Bytes, s: ImportSymbol) {
    exists i, p, j, q :: p != q && Answers(l, address, moduleName, s, i, p) && Answers(l, address, moduleName, s, j, q)
  }

  ghost predicate Answered(l: seq<RuntimeExport>, address: U64, moduleName: Bytes, s: ImportSymbol) {
    exists i, p :: Answers(l, address, moduleName, s, i, p)
  }

  /** Some contract at the address has the symbol, in whichever module. */
  ghost predicate Hosted(l: seq<RuntimeExport>, address: U64, s: ImportSymbol) {
    exists i, p :: Puts(l, address, i, p) && SameImport(p.symbol, s)
  }

  // ---- forwarding ----

  /** Export f forwards the symbol s of the module to another module's symbol. */
  ghost predicate Hands(f: RuntimeExport, moduleName: Bytes, s: ImportSymbol, toModule: Bytes, toSymbol: ImportSymbol) {
    f.forwarder.Some? && Names(f.forwarder.value.moduleName, toModule) && f.forwarder.value.symbol == toSymbol
    && exists p :: Contract(f, p) && p.moduleName == moduleName && Meets(p.symbol, f.ordinal, s)
  }

  /** At most `steps` forwardings lead from the symbol to one that is answered or hosted at the address. */
  ghost predicate Leads(l: seq<RuntimeExport>, address: U64, moduleName: Bytes, s: ImportSymbol, steps: nat)
    decreases steps
  {
    Answered(l, address, moduleName, s)
    || (IsLoaderName(moduleName) && Hosted(l, address, s))
    || (steps > 0 && !IsLoaderName(moduleName)
        && exists f, toModule, toSymbol ::
             f in l && Hands(f, moduleName, s, toModule, toSymbol) && Leads(l, address, toModule, toSymbol, steps - 1))
  }

  // ---- the model's words ----

  lemma NormalIs(name: Bytes, full: Bytes)
    ensures Names(name, full) <==> full == NormalizeModule(name)
  {
    var lower := seq(|name|, i requires 0 <= i < |name| => Lower(name[i]));
    assert 0x2e in lower <==> exists i :: 0 <= i < |name| && name[i] == 46 by {
      if 0x2e in lower {
        var i :| 0 <= i < |lower| && lower[i] == 0x2e;
        assert name[i] == 46;
      }
      if i :| 0 <= i < |name| && name[i] == 46 {
        assert lower[i] == 0x2e;
      }
    }
    if Names(name, full) {
      assert full == full[..|name|] + full[|name|..];
      assert full[..|name|] == lower;
    }
  }

  lemma SymbolIs(a: ImportSymbol, b: ImportSymbol)
    ensures SameImport(a, b) <==> SameSymbol(a, b)
  {
  }

  lemma MeetsIs(candidate: Candidate, moduleName: Bytes, s: ImportSymbol)
    ensures candidate.provider.moduleName == moduleName && Meets(candidate.provider.symbol, candidate.ordinal, s)
            <==> Offers(candidate, moduleName, s)
  {
  }

  lemma ForwardsIs(f: Forwarding, moduleName: Bytes, s: ImportSymbol)
    ensures f.moduleName == moduleName && Meets(f.symbol, f.ordinal, s) <==> Forwards(f, moduleName, s)
  {
  }

  lemma ContractIs(e: RuntimeExport, p: Provider)
    ensures Contract(e, p) <==> Named(e) && p == ContractOf(e)
  {
    hide Names, NormalizeModule;
    NormalIs(e.moduleName, p.moduleName);
  }

  lemma LoaderIs(name: Bytes)
    ensures IsLoaderName(name) <==> IsApiSet(name)
  {
    if |name| >= 4 {
      assert name[..4] == [name[0], name[1], name[2], name[3]];
    }
  }

  // ---- the catalogue of a listing ----

  lemma {:induction false} AddAppend(c: Catalogue, a: seq<RuntimeExport>, b: seq<RuntimeExport>)
    ensures AddExports(c, a + b) == AddExports(AddExports(c, a), b)
  {
    hide AddExport;
    if b == [] {
      assert a + b == a;
    } else {
      assert (a + b)[..|a + b| - 1] == a + b[..|b| - 1];
      AddAppend(c, a, b[..|b| - 1]);
    }
  }

  lemma {:induction false} CatalogueIs(modules: seq<RuntimeModule>)
    ensures CatalogueOf(modules) == AddExports(EMPTY, Listing(modules))
  {
    hide AddExport;
    if modules != [] {
      var rest, m := modules[..|modules| - 1], modules[|modules| - 1];
      CatalogueIs(rest);
      if m.moduleName == [] || m.imageSize == 0 {
        assert Listing(rest) + [] == Listing(rest);
      } else {
        AddAppend(EMPTY, Listing(rest), m.exports);
      }
    }
  }

  /** The positions whose exports are the first of their contract at the address. */
  ghost function Leaders(l: seq<RuntimeExport>, address: U64): seq<nat> {
    if l == [] then []
    else
      var n := |l| - 1;
      Leaders(l[..n], address) + if First(l, address, n, ContractOf(l[n])) then [n] else []
  }

  ghost predicate Reflects(l: seq<RuntimeExport>, address: U64, candidates: seq<Candidate>, leaders: seq<nat>) {
    |candidates| == |leaders|
    && (forall k :: 0 <= k < |leaders| ==>
          leaders[k] < |l| && candidates[k] == Candidate(ContractOf(l[leaders[k]]), l[leaders[k]].ordinal)
          && First(l, address, leaders[k], candidates[k].provider))
    && forall i, p :: First(l, address, i, p) ==> exists k :: 0 <= k < |leaders| && leaders[k] == i && candidates[k].provider == p
  }

  lemma FirstPrefix(l: seq<RuntimeExport>, address: U64, n: nat, i: int, p: Provider)
    requires n <= |l| && i < n
    ensures First(l[..n], address, i, p) <==> First(l, address, i, p)
  {
    hide Contract;
    if 0 <= i {
      forall j | 0 <= j <= i ensures Puts(l[..n], address, j, p) <==> Puts(l, address, j, p) {
      }
    }
  }

  lemma KnownIs(l: seq<RuntimeExport>, address: U64, candidates: seq<Candidate>, leaders: seq<nat>, e: RuntimeExport)
    requires Reflects(l, address, candidates, leaders) && Usable(e) && e.address == address
    ensures Known(candidates, ContractOf(e)) <==> exists j :: 0 <= j < |l| && Puts(l, address, j, ContractOf(e))
  {
    hide Contract, ContractOf, SameContract, Named;
    var p := ContractOf(e);
    if Known(candidates, p) {
      var k :| 0 <= k < |candidates| && SameContract(candidates[k].provider, p);
      var x := l[leaders[k]];
      ContractIs(x, candidates[k].provider);
      Laws.SameContractIsEqual(x, e);
      assert Puts(l, address, leaders[k], p);
    }
    if j: nat :| j < |l| && Puts(l, address, j, p) {
      var i := EarliestPut(l, address, j, p);
      var k :| 0 <= k < |leaders| && leaders[k] == i && candidates[k].provider == p;
      ContractIs(l[i], p);
      Laws.SameContractIsEqual(l[i], e);
    }
  }

  lemma {:induction false} EarliestPut(l: seq<RuntimeExport>, address: U64, j: nat, p: Provider) returns (i: nat)
    requires Puts(l, address, j, p)
    ensures i <= j && First(l, address, i, p)
  {
    hide Puts;
    if h: nat :| h < j && Puts(l, address, h, p) {
      i := EarliestPut(l, address, h, p);
    } else {
      i := j;
    }
  }

  lemma AddedAt(c: Catalogue, e: RuntimeExport, address: U64)
    ensures var adds := Usable(e) && e.address == address && !Known(At(c, address), ContractOf(e));
            At(AddExport(c, e), address) == if adds then At(c, address) + [Candidate(ContractOf(e), e.ordinal)] else At(c, address)
    ensures address in AddExport(c, e).byAddress <==> address in c.byAddress || (Usable(e) && e.address == address)
  {
    hide ContractOf, Known, Usable;
  }

  lemma {:induction false} CandidatesAre(l: seq<RuntimeExport>, address: U64)
    ensures Reflects(l, address, At(AddExports(EMPTY, l), address), Leaders(l, address))
    ensures address in AddExports(EMPTY, l).byAddress <==> Leaders(l, address) != []
  {
    hide Reflects, First, ContractOf, Known, Usable, AddExport, At;
    if l == [] {
      NothingReflects(address);
    } else {
      var n := |l| - 1;
      var before, e := l[..n], l[n];
      CandidatesAre(before, address);
      var candidates, leaders := At(AddExports(EMPTY, before), address), Leaders(before, address);
      StepReflects(l, address, candidates, leaders);
      AddedAt(AddExports(EMPTY, before), e, address);
      assert leaders + [] == leaders;
    }
  }

  lemma NothingReflects(address: U64)
    ensures Reflects([], address, At(EMPTY, address), [])
  {
  }

  lemma StepReflects(l: seq<RuntimeExport>, address: U64, candidates: seq<Candidate>, leaders: seq<nat>)
    requires l != [] && Reflects(l[..|l| - 1], address, candidates, leaders)
    ensures var e := l[|l| - 1];
            var fresh_ := First(l, address, |l| - 1, ContractOf(e));
            (fresh_ <==> Usable(e) && e.address == address && !Known(candidates, ContractOf(e)))
            && Reflects(l, address, if fresh_ then candidates + [Candidate(ContractOf(e), e.ordinal)] else candidates,
                        if fresh_ then leaders + [|l| - 1] else leaders)
            && (Usable(e) && e.address == address && Known(candidates, ContractOf(e)) ==> leaders != [])
  {
    hide Contract, ContractOf, Known, Named, First;
    var n := |l| - 1;
    var before, e := l[..n], l[n];
    FreshIs(l, address, candidates, leaders);
    var fresh_ := First(l, address, n, ContractOf(e));
    var c, s := if fresh_ then candidates + [Candidate(ContractOf(e), e.ordinal)] else candidates,
                if fresh_ then leaders + [n] else leaders;
    forall k | 0 <= k < |s|
      ensures s[k] < |l| && c[k] == Candidate(ContractOf(l[s[k]]), l[s[k]].ordinal) && First(l, address, s[k], c[k].provider)
    {
      if k < |leaders| {
        FirstPrefix(l, address, n, leaders[k], candidates[k].provider);
      }
    }
    forall i, p | First(l, address, i, p) ensures exists k :: 0 <= k < |s| && s[k] == i && c[k].provider == p {
      FirstMeans(l, address, i, p);
      if i < n {
        FirstPrefix(l, address, n, i, p);
        var k :| 0 <= k < |leaders| && leaders[k] == i && candidates[k].provider == p;
        assert s[k] == i && c[k].provider == p;
      } else {
        ContractIs(e, p);
        assert s[|leaders|] == i && c[|leaders|].provider == p;
      }
    }
    if Usable(e) && e.address == address && Known(candidates, ContractOf(e)) {
      KnownSome(candidates, ContractOf(e));
    }
  }

  lemma KnownSome(candidates: seq<Candidate>, p: Provider)
    requires Known(candidates, p)
    ensures candidates != []
  {
  }

  lemma FirstMeans(l: seq<RuntimeExport>, address: U64, i: int, p: Provider)
    requires First(l, address, i, p)
    ensures 0 <= i < |l| && l[i].address == address && address != 0 && Contract(l[i], p)
  {
    hide Contract;
  }

  lemma FreshIs(l: seq<RuntimeExport>, address: U64, candidates: seq<Candidate>, leaders: seq<nat>)
    requires l != [] && Reflects(l[..|l| - 1], address, candidates, leaders)
    ensures var e := l[|l| - 1];
            First(l, address, |l| - 1, ContractOf(e)) <==> Usable(e) && e.address == address && !Known(candidates, ContractOf(e))
  {
    hide Contract, ContractOf, Known, Named;
    var n := |l| - 1;
    var before, e := l[..n], l[n];
    ContractIs(e, ContractOf(e));
    if Usable(e) && e.address == address {
      KnownIs(before, address, candidates, leaders, e);
      forall j | 0 <= j < n ensures Puts(before, address, j, ContractOf(e)) <==> Puts(l, address, j, ContractOf(e)) {
      }
    }
  }

  // ---- offers ----

  /** Fewer than two offers: at most one position offers; none: no position does. */
  lemma {:induction false} OffersCounted(candidates: seq<Candidate>, moduleName: Bytes, s: ImportSymbol)
    ensures OfferCount(candidates, moduleName, s) == 0 <==> !OfferedBy(candidates, moduleName, s)
    ensures OfferCount(candidates, moduleName, s) > 1
            <==> exists i, j :: 0 <= i < j < |candidates| && Offers(candidates[i], moduleName, s)
                                && Offers(candidates[j], moduleName, s)
  {
    hide Offers;
    if candidates != [] {
      var n := |candidates| - 1;
      var rest := candidates[..n];
      OffersCounted(rest, moduleName, s);
      if OfferedBy(rest, moduleName, s) {
        var i :| 0 <= i < n && Offers(rest[i], moduleName, s);
        assert Offers(candidates[i], moduleName, s);
      }
      if i, j :| 0 <= i < j < n && Offers(rest[i], moduleName, s) && Offers(rest[j], moduleName, s) {
        assert Offers(candidates[i], moduleName, s) && Offers(candidates[j], moduleName, s);
      }
      if i, j :| 0 <= i < j < |candidates| && Offers(candidates[i], moduleName, s) && Offers(candidates[j], moduleName, s) {
        assert Offers(rest[i], moduleName, s);
        if j < n {
          assert Offers(rest[j], moduleName, s);
        }
      }
    }
  }

  lemma AnswersAre(l: seq<RuntimeExport>, address: U64, candidates: seq<Candidate>, leaders: seq<nat>,
                   moduleName: Bytes, s: ImportSymbol)
    requires Reflects(l, address, candidates, leaders)
    ensures Answered(l, address, moduleName, s) <==> OfferedBy(candidates, moduleName, s)
  {
    hide First, ContractOf, Offers, Meets;
    if OfferedBy(candidates, moduleName, s) {
      var k :| 0 <= k < |candidates| && Offers(candidates[k], moduleName, s);
      MeetsIs(candidates[k], moduleName, s);
      assert Answers(l, address, moduleName, s, leaders[k], candidates[k].provider);
    }
    if i, p :| Answers(l, address, moduleName, s, i, p) {
      var k := AnswerIndex(l, address, candidates, leaders, moduleName, s, i, p);
    }
  }

  lemma AnswerIndex(l: seq<RuntimeExport>, address: U64, candidates: seq<Candidate>, leaders: seq<nat>,
                    moduleName: Bytes, s: ImportSymbol, i: int, p: Provider) returns (k: nat)
    requires Reflects(l, address, candidates, leaders) && Answers(l, address, moduleName, s, i, p)
    ensures k < |candidates| && candidates[k].provider == p && Offers(candidates[k], moduleName, s)
  {
    hide First, ContractOf, Offers, Meets;
    var n: nat :| n < |leaders| && leaders[n] == i && candidates[n].provider == p;
    k := n;
    MeetsIs(candidates[k], moduleName, s);
  }

  lemma AmbiguityIs(l: seq<RuntimeExport>, address: U64, candidates: seq<Candidate>, leaders: seq<nat>,
                    moduleName: Bytes, s: ImportSymbol)
    requires Reflects(l, address, candidates, leaders) && Laws.Distinct(candidates)
    ensures Ambiguous(l, address, moduleName, s)
            <==> exists i, j :: 0 <= i < j < |candidates| && Offers(candidates[i], moduleName, s)
                                && Offers(candidates[j], moduleName, s)
  {
    hide First, ContractOf, Offers, Meets;
    if a, b :| 0 <= a < b < |candidates| && Offers(candidates[a], moduleName, s) && Offers(candidates[b], moduleName, s) {
      MeetsIs(candidates[a], moduleName, s);
      MeetsIs(candidates[b], moduleName, s);
      assert Answers(l, address, moduleName, s, leaders[a], candidates[a].provider);
      assert Answers(l, address, moduleName, s, leaders[b], candidates[b].provider);
      assert candidates[a].provider != candidates[b].provider;
    }
    if i, p, j, q :| p != q && Answers(l, address, moduleName, s, i, p) && Answers(l, address, moduleName, s, j, q) {
      var a := AnswerIndex(l, address, candidates, leaders, moduleName, s, i, p);
      var b := AnswerIndex(l, address, candidates, leaders, moduleName, s, j, q);
      if a < b {
        assert Offers(candidates[a], moduleName, s) && Offers(candidates[b], moduleName, s);
      } else {
        assert b < a;
        assert Offers(candidates[b], moduleName, s) && Offers(candidates[a], moduleName, s);
      }
    }
  }

  lemma HostedIs(l: seq<RuntimeExport>, address: U64, candidates: seq<Candidate>, leaders: seq<nat>, s: ImportSymbol)
    requires Reflects(l, address, candidates, leaders)
    ensures Hosted(l, address, s) <==> SymbolAt(candidates, s)
  {
    hide ContractOf, Contract, SameImport, SameSymbol;
    if SymbolAt(candidates, s) {
      var k :| 0 <= k < |candidates| && SameSymbol(candidates[k].provider.symbol, s);
      SymbolIs(candidates[k].provider.symbol, s);
      assert Puts(l, address, leaders[k], candidates[k].provider);
    }
    if j, p :| Puts(l, address, j, p) && SameImport(p.symbol, s) {
      var i := EarliestPut(l, address, j, p);
      var k :| 0 <= k < |leaders| && leaders[k] == i && candidates[k].provider == p;
      SymbolIs(p.symbol, s);
    }
  }

  // ---- forwarders ----

  /** The forwarding contract of an export that has one. */
  ghost predicate Recorded(e: RuntimeExport, f: Forwarding) {
    e.forwarder.Some? && Named(e)
    && f == Forwarding(ContractOf(e).moduleName, ContractOf(e).symbol, e.ordinal,
                       NormalizeModule(e.forwarder.value.moduleName), e.forwarder.value.symbol)
  }

  ghost predicate Mirrors(forwarders: seq<Forwarding>, l: seq<RuntimeExport>) {
    (forall e, f :: e in l && Recorded(e, f) ==> f in forwarders)
    && forall f :: f in forwarders ==> exists e :: e in l && Recorded(e, f)
  }

  lemma {:induction false} ForwardersAre(l: seq<RuntimeExport>)
    ensures Mirrors(AddExports(EMPTY, l).forwarders, l)
  {
    hide NormalizeModule, Known, SymbolOf, Named;
    if l != [] {
      var n := |l| - 1;
      var before, e := l[..n], l[n];
      ForwardersAre(before);
      var old_, new_ := AddExports(EMPTY, before).forwarders, AddExports(EMPTY, l).forwarders;
      assert l == before + [e];
      forall x, f | x in l && Recorded(x, f) ensures f in new_ {
        if x in before {
          assert f in old_;
        } else {
          assert f == new_[|new_| - 1];
        }
      }
      forall f | f in new_ ensures exists x :: x in l && Recorded(x, f) {
        if f in old_ {
          var x :| x in before && Recorded(x, f);
          assert x in l;
        } else {
          assert e in l && Recorded(e, f);
        }
      }
    }
  }

  lemma HandsIs(e: RuntimeExport, f: Forwarding, moduleName: Bytes, s: ImportSymbol)
    requires Recorded(e, f)
    ensures Forwards(f, moduleName, s) <==> Hands(e, moduleName, s, f.targetModule, f.targetSymbol)
  {
    hide Meets, Forwards, Contract, ContractOf, NormalizeModule, Names, Named;
    ContractIs(e, ContractOf(e));
    NormalIs(e.forwarder.value.moduleName, f.targetModule);
    ForwardsIs(f, moduleName, s);
    forall p | Contract(e, p) ensures p == ContractOf(e) {
      ContractIs(e, p);
    }
  }

  lemma HandsRecorded(e: RuntimeExport, moduleName: Bytes, s: ImportSymbol, toModule: Bytes, toSymbol: ImportSymbol)
    requires Hands(e, moduleName, s, toModule, toSymbol)
    ensures exists f :: Recorded(e, f) && f.targetModule == toModule && f.targetSymbol == toSymbol
  {
    hide Meets, Contract, ContractOf, NormalizeModule, Names, Named;
    var p :| Contract(e, p) && p.moduleName == moduleName && Meets(p.symbol, e.ordinal, s);
    ContractIs(e, p);
    NormalIs(e.forwarder.value.moduleName, toModule);
    assert Recorded(e, Forwarding(ContractOf(e).moduleName, ContractOf(e).symbol, e.ordinal, toModule, toSymbol));
  }

  /** The model's catalogue of the listing and the address's candidates in it. */
  ghost predicate Holds(l: seq<RuntimeExport>, address: U64, c: Catalogue, leaders: seq<nat>) {
    address in c.byAddress && Reflects(l, address, c.byAddress[address], leaders) && Mirrors(c.forwarders, l)
  }

  /** The search from a depth is the chain of the steps that remain. */
  lemma {:induction false} SearchIs(l: seq<RuntimeExport>, address: U64, c: Catalogue, leaders: seq<nat>,
                                    moduleName: Bytes, s: ImportSymbol, depth: nat)
    requires Holds(l, address, c, leaders) && depth < 8
    ensures ForwarderMatches(c, address, moduleName, s, depth) <==> Leads(l, address, moduleName, s, 7 - depth)
    decreases 8 - depth
  {
    hide Reflects, Recorded, Answered, Hosted, OfferedBy, SymbolAt, IsApiSet, IsLoaderName, Forwards, Hands;
    AnswersAre(l, address, c.byAddress[address], leaders, moduleName, s);
    HostedIs(l, address, c.byAddress[address], leaders, s);
    LoaderIs(moduleName);
    if depth == 7 {
      assert forall m, t :: !ForwarderMatches(c, address, m, t, 8);
    } else {
      forall k | 0 <= k < |c.forwarders|
        ensures var f := c.forwarders[k];
                ForwarderMatches(c, address, f.targetModule, f.targetSymbol, depth + 1)
                <==> Leads(l, address, f.targetModule, f.targetSymbol, 7 - depth - 1)
      {
        SearchIs(l, address, c, leaders, c.forwarders[k].targetModule, c.forwarders[k].targetSymbol, depth + 1);
      }
      StepsAre(l, address, c, moduleName, s, 7 - depth - 1);
    }
  }

  /** One forwarding, read from the catalogue or from the exports. */
  lemma StepsAre(l: seq<RuntimeExport>, address: U64, c: Catalogue, moduleName: Bytes, s: ImportSymbol, steps: nat)
    requires Mirrors(c.forwarders, l)
    ensures (exists k ::
               0 <= k < |c.forwarders| && Forwards(c.forwarders[k], moduleName, s)
               && Leads(l, address, c.forwarders[k].targetModule, c.forwarders[k].targetSymbol, steps))
            <==> exists e, toModule, toSymbol ::
                   e in l && Hands(e, moduleName, s, toModule, toSymbol) && Leads(l, address, toModule, toSymbol, steps)
  {
    hide Recorded, Forwards, Hands, Leads;
    if k :| 0 <= k < |c.forwarders| && Forwards(c.forwarders[k], moduleName, s)
            && Leads(l, address, c.forwarders[k].targetModule, c.forwarders[k].targetSymbol, steps) {
      var f := c.forwarders[k];
      assert f in c.forwarders;
      var e :| e in l && Recorded(e, f);
      HandsIs(e, f, moduleName, s);
    }
    if e, toModule, toSymbol :| e in l && Hands(e, moduleName, s, toModule, toSymbol) && Leads(l, address, toModule, toSymbol, steps) {
      HandsRecorded(e, moduleName, s, toModule, toSymbol);
      var f :| Recorded(e, f) && f.targetModule == toModule && f.targetSymbol == toSymbol;
      HandsIs(e, f, moduleName, s);
      assert f in c.forwarders;
      var k :| 0 <= k < |c.forwarders| && c.forwarders[k] == f;
    }
  }

  // ---- the answer ----

  lemma Held(modules: seq<RuntimeModule>, address: U64)
    ensures var l, c := Listing(modules), CatalogueOf(modules);
            (address in c.byAddress ==> Holds(l, address, c, Leaders(l, address)) && Laws.Distinct(c.byAddress[address])
                                        && c.byAddress[address] != [])
            && (address !in c.byAddress <==> Leaders(l, address) == [])
            && Reflects(l, address, At(c, address), Leaders(l, address))
  {
    hide AddExports, Reflects, Mirrors, Listing, Leaders, CatalogueOf, Laws.Listed, Laws.Justified;
    CatalogueIs(modules);
    CandidatesAre(Listing(modules), address);
    ForwardersAre(Listing(modules));
    Laws.CatalogueReflects(modules);
  }

  /** With a hint, an address resolves to the hinted symbol of the hinted module, under its
      full name, exactly when some export lies there, no two contracts there answer to the
      hint, and one does or a chain of at most seven forwardings leads to one that does, or
      from a loader contract to a module that has the symbol there. */
  lemma HintedIsExact(modules: seq<RuntimeModule>, address: U64, hint: Hint, p: Provider)
    ensures var l := Listing(modules);
            Resolution(CatalogueOf(modules), address, Some(hint)) == Some(p)
            <==> Names(hint.moduleName, p.moduleName) && p.symbol == hint.symbol
                 && !Ambiguous(l, address, p.moduleName, hint.symbol)
                 && (exists i, q :: Puts(l, address, i, q))
                 && Leads(l, address, p.moduleName, hint.symbol, 7)
  {
    hide CatalogueOf, Listing, Leaders, Reflects, Mirrors, Puts, Names, Leads, Ambiguous, ForwarderMatches, OfferCount,
         NormalizeModule, IsApiSet, SymbolAt, Laws.Distinct;
    var l, c := Listing(modules), CatalogueOf(modules);
    var m := NormalizeModule(hint.moduleName);
    Held(modules, address);
    NormalIs(hint.moduleName, p.moduleName);
    PutsIffLed(l, address, At(c, address), Leaders(l, address));
    if address in c.byAddress {
      var candidates, leaders := c.byAddress[address], Leaders(l, address);
      OffersCounted(candidates, m, hint.symbol);
      AmbiguityIs(l, address, candidates, leaders, m, hint.symbol);
      SearchIs(l, address, c, leaders, m, hint.symbol, 0);
      DirectLeads(l, address, candidates, leaders, m, hint.symbol);
    }
  }

  lemma PutsIffLed(l: seq<RuntimeExport>, address: U64, candidates: seq<Candidate>, leaders: seq<nat>)
    requires Reflects(l, address, candidates, leaders)
    ensures leaders != [] <==> exists i, q :: Puts(l, address, i, q)
  {
    hide ContractOf, Contract;
    if leaders != [] {
      assert Puts(l, address, leaders[0], candidates[0].provider);
    }
    if j, q :| Puts(l, address, j, q) {
      var i := EarliestPut(l, address, j, q);
    }
  }

  lemma DirectLeads(l: seq<RuntimeExport>, address: U64, candidates: seq<Candidate>, leaders: seq<nat>,
                    moduleName: Bytes, s: ImportSymbol)
    requires Reflects(l, address, candidates, leaders)
    ensures OfferedBy(candidates, moduleName, s) || (IsApiSet(moduleName) && SymbolAt(candidates, s))
            ==> Leads(l, address, moduleName, s, 7)
  {
    hide Reflects, Answered, Hosted, OfferedBy, SymbolAt, IsApiSet, IsLoaderName, Hands;
    AnswersAre(l, address, candidates, leaders, moduleName, s);
    HostedIs(l, address, candidates, leaders, s);
    LoaderIs(moduleName);
  }

  /** Without a hint, an address resolves to p exactly when p is put there and nothing else is. */
  lemma UnhintedIsExact(modules: seq<RuntimeModule>, address: U64, p: Provider)
    ensures var l := Listing(modules);
            Resolution(CatalogueOf(modules), address, None) == Some(p)
            <==> (exists i :: Puts(l, address, i, p)) && forall i, q :: Puts(l, address, i, q) ==> q == p
  {
    hide CatalogueOf, Listing, Leaders, Mirrors, Contract, ContractOf;
    var l, c := Listing(modules), CatalogueOf(modules);
    Held(modules, address);
    var candidates, leaders := At(c, address), Leaders(l, address);
    if address in c.byAddress {
      Laws.OneContract(candidates, p);
      if forall k :: 0 <= k < |candidates| ==> candidates[k].provider == p {
        assert Puts(l, address, leaders[0], p);
        forall j, q | Puts(l, address, j, q) ensures q == p {
          var i := EarliestPut(l, address, j, q);
        }
      }
      forall k | 0 <= k < |candidates| ensures Puts(l, address, leaders[k], candidates[k].provider) {
      }
    } else {
      PutsIffLed(l, address, candidates, leaders);
    }
  }
}
