/** What discovery finds: which lane positions are accepted, that slots never
    overlap, and that every plan is one the fixer can use. */
module ImportDiscoveryLaws {
  import opened Bytes
  import opened PeFormat
  import opened ImportTypes
  import opened ImportProviderCatalogue
  import opened ImportProviderResolver
  import opened ImportDiscovery
  import ProviderLaws = ImportProviderLaws
  import Builder = ImportTableBuilder

  // ---- the lane scan is exact ----

  /** Position `j` counts: its run is declared, it has a neighbour in its run,
      or it stands alone between two zero pointers. */
  ghost predicate Counts(l: Lane, j: nat) {
    Hit(l, j)
    && (l.window.declared || (j > 0 && Hit(l, j - 1)) || Hit(l, j + 1) || ZeroBounded(l, j, 1))
  }

  /** The scan is at the start of a run, or not at a candidate. */
  ghost predicate AtBoundary(l: Lane, k: nat) {
    k == 0 || !Hit(l, k - 1) || !Hit(l, k)
  }

  lemma RangeMembers(k: nat, n: nat, j: nat)
    ensures j in Range(k, n) <==> k <= j < k + n
  {
    if k <= j < k + n {
      assert Range(k, n)[j - k] == j;
    }
  }

  lemma {:induction false} PositionsAreExact(l: Lane, k: nat, j: nat)
    requires AtBoundary(l, k)
    ensures j in Positions(l, k) <==> k <= j && Counts(l, j)
    decreases Left(l, k)
  {
    hide Hit, ZeroBounded, Run, In, Left, Positions, RunAccepted, Range, Next;
    if In(l, k) {
      StepOf(l, k);
      BoundaryAfter(l, k);
      PositionsAreExact(l, Next(l, k), j);
      RangeMembers(k, Run(l, k), j);
      if k <= j < Next(l, k) {
        RunCounts(l, k, j);
      }
    } else {
      LaneEnd(l, k);
      if k <= j {
        BeyondEnd(l, k, j);
        OutIsNoCandidate(l, j);
      }
    }
  }

  lemma StepOf(l: Lane, k: nat)
    requires In(l, k)
    ensures Left(l, Next(l, k)) < Left(l, k) && Next(l, k) == if RunAccepted(l, k) then k + Run(l, k) else k + 1
    ensures Positions(l, k) == (if RunAccepted(l, k) then Range(k, Run(l, k)) else []) + Positions(l, Next(l, k))
  {
    hide Positions, RunAccepted, Run, Left, Range, In, Next;
    LaneStep(l, k, []);
    assert [] + Positions(l, k) == Positions(l, k);
    assert [] + Range(k, Run(l, k)) == Range(k, Run(l, k));
  }

  lemma OutIsNoCandidate(l: Lane, j: nat)
    requires !In(l, j)
    ensures !Hit(l, j)
  {
  }

  lemma BoundaryAfter(l: Lane, k: nat)
    requires In(l, k)
    ensures AtBoundary(l, Next(l, k))
  {
    hide Hit, ZeroBounded, Run, In;
    if !RunAccepted(l, k) && Run(l, k) > 0 {
      assert Run(l, k) == 1;
    }
  }

  /** Between `k` and the next visited position, exactly the run counts, if it is accepted. */
  lemma RunCounts(l: Lane, k: nat, j: nat)
    requires AtBoundary(l, k) && k <= j < Next(l, k)
    ensures Counts(l, j) <==> RunAccepted(l, k) && k <= j < k + Run(l, k)
  {
    hide Hit, ZeroBounded, Run, In;
    var n := Run(l, k);
    if RunAccepted(l, k) {
      assert Hit(l, j);
      if n >= 2 {
        assert j > k ==> Hit(l, j - 1);
        assert j == k ==> Hit(l, j + 1);
      }
    } else {
      assert j == k;
      if Hit(l, k) {
        assert n > 0;
        assert n == 1 && !Hit(l, k + 1);
      }
    }
  }

  /** The lane scan accepts exactly the positions that count. */
  lemma LaneScanIsExact(l: Lane, j: nat)
    ensures j in Positions(l, 0) <==> Counts(l, j)
  {
    hide Positions, Counts;
    PositionsAreExact(l, 0, j);
  }

  // ---- slots ----

  /** A slot inside the image that holds a pointer to a known export. */
  ghost predicate SlotSound(s: Scan, slot: Observed) {
    slot.rva + Width(s) <= |s.dump| && PointerAt(s, slot.rva) == Some(slot.address) && slot.address != 0
    && slot.address in s.catalogue.byAddress
  }

  ghost predicate Apart(slots: seq<Observed>, width: nat) {
    forall i, j :: 0 <= i < |slots| && 0 <= j < |slots| && i != j ==>
      slots[i].rva + width <= slots[j].rva || slots[j].rva + width <= slots[i].rva
  }

  ghost predicate SlotsSound(s: Scan, slots: seq<Observed>) {
    |slots| <= MAXIMUM_SLOTS && Apart(slots, Width(s)) && forall k :: 0 <= k < |slots| ==> SlotSound(s, slots[k])
  }

  lemma AppendApart(slots: seq<Observed>, slot: Observed, width: nat)
    requires Apart(slots, width) && !Holds(slots, slot.rva) && !Clashes(slots, slot.rva, width)
    ensures Apart(slots + [slot], width)
  {
    forall k | 0 <= k < |slots|
      ensures slots[k].rva + width <= slot.rva || slot.rva + width <= slots[k].rva
    {
    }
  }

  lemma PointsIsSound(s: Scan, rva: nat)
    requires Points(s, rva) && rva <= U32_MAX
    ensures SlotSound(s, Observed(rva, PointerAt(s, rva).value))
  {
    hide IsSourceImport;
  }

  lemma AddSlotKeeps(s: Scan, st: State, rva: nat)
    requires SlotsSound(s, st.slots) && Points(s, rva) && AddSlot(s, st, rva).Ok?
    ensures SlotsSound(s, AddSlot(s, st, rva).value.slots)
  {
    hide Points, SlotSound, PointerAt, Clashes, Holds, Apart;
    if !Holds(st.slots, rva) {
      AppendApart(st.slots, Observed(rva, PointerAt(s, rva).value), Width(s));
      PointsIsSound(s, rva);
    }
  }

  lemma {:induction false} AddPositionsKeep(l: Lane, st: State, positions: seq<nat>)
    requires SlotsSound(l.scan, st.slots) && AddPositions(l, st, positions).Ok?
    requires forall k :: 0 <= k < |positions| ==> Points(l.scan, Pos(l, positions[k]))
    ensures SlotsSound(l.scan, AddPositions(l, st, positions).value.slots)
    decreases |positions|
  {
    hide AddSlot, Points, SlotsSound, Pos;
    if positions != [] {
      var rest := positions[..|positions| - 1];
      assert forall k :: 0 <= k < |rest| ==> rest[k] == positions[k];
      AddPositionsKeep(l, st, rest);
      AddSlotKeeps(l.scan, AddPositions(l, st, rest).value, Pos(l, positions[|positions| - 1]));
    }
  }

  lemma LaneKeeps(l: Lane, st: State)
    requires SlotsSound(l.scan, st.slots) && AddLane(l, st).Ok?
    ensures SlotsSound(l.scan, AddLane(l, st).value.slots)
  {
    hide Positions, Points, SlotsSound, Pos, AddPositions, Doubtful;
    var positions := Positions(l, 0);
    forall k | 0 <= k < |positions| ensures Points(l.scan, Pos(l, positions[k])) {
      LaneScanIsExact(l, positions[k]);
      CountsPoints(l, positions[k]);
    }
    AddPositionsKeep(l, st, positions);
  }

  lemma CountsPoints(l: Lane, j: nat)
    requires Counts(l, j)
    ensures Points(l.scan, Pos(l, j))
  {
    hide Points, ZeroBounded;
  }

  lemma {:induction false} LanesKeep(s: Scan, w: Window, st: State, n: nat)
    requires SlotsSound(s, st.slots) && AddLanes(s, w, st, n).Ok?
    ensures SlotsSound(s, AddLanes(s, w, st, n).value.slots)
  {
    hide AddLane, SlotsSound;
    if n > 0 {
      LanesKeep(s, w, st, n - 1);
      LaneKeeps(Lane(s, w, w.start + (n - 1) * ALIGNMENT), AddLanes(s, w, st, n - 1).value);
    }
  }

  lemma {:induction false} SectionsKeep(s: Scan, sections: seq<Section>)
    requires AddSections(s, sections).Ok?
    ensures SlotsSound(s, AddSections(s, sections).value.slots)
  {
    hide WindowOf, AddLanes;
    if sections != [] {
      hide SlotsSound;
      var rest, last := sections[..|sections| - 1], sections[|sections| - 1];
      SectionsKeep(s, rest);
      var w := WindowOf(s, last);
      if w.Ok? && w.value.Some? {
        LanesKeep(s, w.value.value, AddSections(s, rest).value, Width(s) / ALIGNMENT);
      }
    }
  }

  lemma AddHintKeeps(s: Scan, h: Hinted, hint: Hint)
    requires SlotsSound(s, h.slots) && AddHint(s, h, hint).Ok?
    ensures SlotsSound(s, AddHint(s, h, hint).value.slots)
  {
    hide Apart, Clashes, Holds, ResolveHint, IsSourceImport, PointerAt;
    var target := PointerAt(s, hint.slotRva);
    if target.Some? && !Holds(h.slots, hint.slotRva) && !Clashes(h.slots, hint.slotRva, Width(s)) {
      AppendApart(h.slots, Observed(hint.slotRva, target.value), Width(s));
      PointerFits(s, hint.slotRva);
    }
  }

  lemma PointerFits(s: Scan, rva: nat)
    ensures PointerAt(s, rva).Some? <==> rva + Width(s) <= |s.dump|
  {
  }

  lemma {:induction false} HintsKeep(s: Scan, h: Hinted, hints: seq<Hint>)
    requires SlotsSound(s, h.slots) && AddHints(s, h, hints).Ok?
    ensures SlotsSound(s, AddHints(s, h, hints).value.slots)
  {
    hide AddHint, SlotsSound;
    if hints != [] {
      HintsKeep(s, h, hints[..|hints| - 1]);
      AddHintKeeps(s, AddHints(s, h, hints[..|hints| - 1]).value, hints[|hints| - 1]);
    }
  }

  /** All slots of a discovery lie in the dump, hold pointers to known exports, and never overlap. */
  lemma AllSlotsSound(s: Scan, upxHints: seq<Hint>)
    requires AllSlots(s, upxHints).Ok?
    ensures SlotsSound(s, AllSlots(s, upxHints).value.slots)
  {
    hide AddSections, AddHints, SlotsSound;
    SectionsKeep(s, s.layout.sections);
    if s.shell {
      HintsKeep(s, Hinted(AddSections(s, s.layout.sections).value.slots, []), upxHints);
    }
  }

  // ---- sorting ----

  ghost predicate Ascending(slots: seq<Observed>, width: nat) {
    forall i, j :: 0 <= i < j < |slots| ==> slots[i].rva + width <= slots[j].rva
  }

  ghost predicate InOrder(slots: seq<Observed>) {
    forall i, j :: 0 <= i < j < |slots| ==> slots[i].rva <= slots[j].rva
  }

  lemma {:induction false} InsertedMembers(sorted: seq<Observed>, slot: Observed)
    ensures multiset(Inserted(sorted, slot)) == multiset(sorted) + multiset{slot}
    ensures |Inserted(sorted, slot)| == |sorted| + 1
    ensures Inserted(sorted, slot)[0] == if sorted == [] || slot.rva <= sorted[0].rva then slot else sorted[0]
  {
    if sorted != [] {
      assert sorted == [sorted[0]] + sorted[1..];
      if slot.rva > sorted[0].rva {
        InsertedMembers(sorted[1..], slot);
      }
    }
  }

  /** Ordered lists are those whose head is least and whose rest is ordered. */
  lemma ConsInOrder(head: Observed, rest: seq<Observed>)
    requires InOrder(rest) && (rest != [] ==> head.rva <= rest[0].rva)
    ensures InOrder([head] + rest)
  {
  }

  lemma {:induction false} InsertedInOrder(sorted: seq<Observed>, slot: Observed)
    requires InOrder(sorted)
    ensures InOrder(Inserted(sorted, slot))
  {
    if sorted != [] && slot.rva > sorted[0].rva {
      assert InOrder(sorted[1..]);
      InsertedInOrder(sorted[1..], slot);
      InsertedMembers(sorted[1..], slot);
      ConsInOrder(sorted[0], Inserted(sorted[1..], slot));
    } else {
      ConsInOrder(slot, sorted);
    }
  }

  /** Sorting permutes the slots into address order. */
  lemma {:induction false} SortedInOrder(slots: seq<Observed>)
    ensures InOrder(Sorted(slots)) && multiset(Sorted(slots)) == multiset(slots) && |Sorted(slots)| == |slots|
  {
    hide Inserted, InOrder;
    if slots != [] {
      SortedInOrder(slots[1..]);
      InsertedInOrder(Sorted(slots[1..]), slots[0]);
      InsertedMembers(Sorted(slots[1..]), slots[0]);
      assert slots == [slots[0]] + slots[1..];
    } else {
      NothingInOrder();
    }
  }

  lemma NothingInOrder()
    ensures InOrder([])
  {
  }

  lemma SortedIsAscending(s: Scan, slots: seq<Observed>)
    requires SlotsSound(s, slots)
    ensures Ascending(Sorted(slots), Width(s)) && |Sorted(slots)| == |slots|
    ensures forall k :: 0 <= k < |slots| ==> SlotSound(s, Sorted(slots)[k])
    ensures forall slot :: slot in Sorted(slots) <==> slot in slots
  {
    hide SlotSound, Sorted;
    SortedInOrder(slots);
    var r := Sorted(slots);
    assert forall slot :: slot in multiset(r) <==> slot in r;
    assert forall slot :: slot in multiset(slots) <==> slot in slots;
    forall k | 0 <= k < |r| ensures SlotSound(s, r[k]) {
      assert r[k] in r;
    }
    forall i, j | 0 <= i < j < |r| ensures r[i].rva + Width(s) <= r[j].rva {
      DistinctPair(slots, r, Width(s), i, j);
    }
  }

  lemma DistinctPair(slots: seq<Observed>, r: seq<Observed>, width: nat, i: nat, j: nat)
    requires multiset(r) == multiset(slots) && Apart(slots, width) && InOrder(r) && i < j < |r| && width > 0
    ensures r[i].rva + width <= r[j].rva
  {
    assert r[i] in multiset(r) && r[j] in multiset(r);
    var a :| 0 <= a < |slots| && slots[a] == r[i];
    if r[i] == r[j] {
      assert r == r[..j] + [r[j]] + r[j + 1..];
      assert r[..j][i] == r[i];
      assert multiset(r)[r[i]] >= 2;
      OnlyOnce(slots, width, a);
    } else {
      var b :| 0 <= b < |slots| && slots[b] == r[j];
      assert a != b;
    }
  }

  lemma OnlyOnce(slots: seq<Observed>, width: nat, a: nat)
    requires Apart(slots, width) && a < |slots| && width > 0
    ensures multiset(slots)[slots[a]] == 1
  {
    var x, before, after := slots[a], slots[..a], slots[a + 1..];
    assert slots == before + [x] + after;
    assert x !in before && x !in after;
  }

  // ---- the plan ----

  /** One import slot of a plan. */
  datatype Entry = Entry(rva: nat, moduleName: Bytes, symbol: ImportSymbol)

  ghost function ModuleEntries(m: ImportModule, width: nat): (r: seq<Entry>)
    ensures |r| == |m.symbols|
  {
    seq(|m.symbols|, k requires 0 <= k < |m.symbols| => Entry(m.firstThunk + k * width, m.moduleName, m.symbols[k]))
  }

  /** The plan's import slots, in plan order. */
  ghost function Flatten(modules: seq<ImportModule>, width: nat): seq<Entry> {
    if modules == [] then []
    else Flatten(modules[..|modules| - 1], width) + ModuleEntries(modules[|modules| - 1], width)
  }

  lemma CandidateFlattens(modules: seq<ImportModule>, rva: U32, p: Provider, width: nat)
    requires AddCandidate(modules, rva, p, width).Some?
    ensures Flatten(AddCandidate(modules, rva, p, width).value, width) == Flatten(modules,
                                                                                  width) + [Entry(rva, p.moduleName, p.symbol)]
  {
    hide ModuleEntries;
    var r := AddCandidate(modules, rva, p, width).value;
    if |r| == |modules| {
      var last := modules[|modules| - 1];
      assert r[..|r| - 1] == modules[..|modules| - 1];
      GrownEntries(last, p.symbol, width);
      assert Flatten(modules[..|modules| - 1], width) + (ModuleEntries(last, width) + [Entry(rva, p.moduleName, p.symbol)])
          == Flatten(modules, width) + [Entry(rva, p.moduleName, p.symbol)];
    } else {
      assert r[..|r| - 1] == modules;
      SingleEntry(ImportModule(p.moduleName, rva, [p.symbol]), width);
    }
  }

  lemma GrownEntries(m: ImportModule, symbol: ImportSymbol, width: nat)
    ensures ModuleEntries(m.(symbols := m.symbols + [symbol]), width)
            == ModuleEntries(m, width) + [Entry(m.firstThunk + |m.symbols| * width, m.moduleName, symbol)]
  {
  }

  lemma SingleEntry(m: ImportModule, width: nat)
    requires |m.symbols| == 1
    ensures ModuleEntries(m, width) == [Entry(m.firstThunk, m.moduleName, m.symbols[0])]
  {
  }

  ghost function EntryOf(s: Scan, hints: seq<Hint>, slot: Observed): Entry
    requires Selected(s, hints, slot).Some?
  {
    Entry(slot.rva, Selected(s, hints, slot).value.moduleName, Selected(s, hints, slot).value.symbol)
  }

  /** The plan lists each slot with its selected provider, in slot order. */
  lemma {:induction false} BuildFlattens(s: Scan, hints: seq<Hint>, rejected: seq<U32>, slots: seq<Observed>)
    requires forall k :: 0 <= k < |slots| ==> Provided(s, hints, slots[k])
    ensures var entries := Flatten(Build(s, hints, Building([], rejected), slots).modules, Width(s));
            |entries| == |slots|
            && forall k :: 0 <= k < |slots| ==> Selected(s, hints, slots[k]).Some? && entries[k] == EntryOf(s, hints, slots[k])
  {
    hide Selected, AddCandidate, HintFails;
    if slots != [] {
      var rest, slot := slots[..|slots| - 1], slots[|slots| - 1];
      BuildFlattens(s, hints, rejected, rest);
      var before := Build(s, hints, Building([], rejected), rest);
      AddedIfProvided(s, hints, slot, before.modules);
      CandidateFlattens(before.modules, slot.rva, Selected(s, hints, slot).value, Width(s));
    }
  }

  /** Modules in address order, each within `bound`. */
  ghost predicate ModulesPlaced(modules: seq<ImportModule>, width: nat, bound: int) {
    (forall i :: 0 <= i < |modules| ==>
       modules[i].moduleName != [] && modules[i].symbols != []
       && modules[i].firstThunk + |modules[i].symbols| * width <= bound
       && forall k :: 0 <= k < |modules[i].symbols| ==> modules[i].symbols[k].name.Some? || modules[i].symbols[k].ordinal.Some?)
    && forall i, j :: 0 <= i < j < |modules| ==>
         modules[i].firstThunk + |modules[i].symbols| * width <= modules[j].firstThunk
  }

  lemma CandidatePlaced(modules: seq<ImportModule>, rva: U32, p: Provider, width: nat, bound: int)
    requires ModulesPlaced(modules, width, bound) && bound <= rva && width > 0
    requires AddCandidate(modules, rva, p, width).Some?
    ensures ModulesPlaced(AddCandidate(modules, rva, p, width).value, width, rva + width)
  {
    var r := AddCandidate(modules, rva, p, width).value;
    if |r| == |modules| {
      var last := modules[|modules| - 1];
      assert (|last.symbols| + 1) * width == |last.symbols| * width + width;
      forall i, j | 0 <= i < j < |r| ensures r[i].firstThunk + |r[i].symbols| * width <= r[j].firstThunk {
        assert modules[i].firstThunk + |modules[i].symbols| * width <= modules[j].firstThunk;
      }
    }
  }

  lemma {:induction false} BuildPlaced(s: Scan, hints: seq<Hint>, rejected: seq<U32>, slots: seq<Observed>)
    requires Ascending(slots, Width(s)) && forall k :: 0 <= k < |slots| ==> Provided(s, hints, slots[k])
    ensures ModulesPlaced(Build(s, hints, Building([], rejected), slots).modules, Width(s),
                          if slots == [] then 0 else slots[|slots| - 1].rva + Width(s))
  {
    hide Selected, AddCandidate, HintFails, ModulesPlaced;
    if slots != [] {
      var rest, slot := slots[..|slots| - 1], slots[|slots| - 1];
      BuildPlaced(s, hints, rejected, rest);
      var before := Build(s, hints, Building([], rejected), rest);
      AddedIfProvided(s, hints, slot, before.modules);
      CandidatePlaced(before.modules, slot.rva, Selected(s, hints, slot).value, Width(s),
                      if rest == [] then 0 else rest[|rest| - 1].rva + Width(s));
    } else {
      PlacedNothing(Width(s));
    }
  }

  lemma PlacedNothing(width: nat)
    ensures ModulesPlaced([], width, 0)
  {
  }

  // ---- every discovered plan ----

  ghost predicate HintsShaped(hints: seq<Hint>) {
    forall k :: 0 <= k < |hints| ==> ProviderLaws.Shaped(hints[k].symbol)
  }

  lemma {:induction false} HintFromList(hints: seq<Hint>, rva: U32)
    requires HintAt(hints, rva).Some?
    ensures HintAt(hints, rva).value in hints && HintAt(hints, rva).value.slotRva == rva
  {
    if hints[0].slotRva != rva {
      HintFromList(hints[1..], rva);
    }
  }

  /** The entry's provider is what its dumped pointer resolves to, alone or under a hint for that slot. */
  ghost predicate ResolvedFromDump(input: Input, e: Entry) {
    var s := ScanOf(input);
    e.rva + Width(s) <= |input.dump| && PointerAt(s, e.rva).Some?
    && exists hint: Option<Hint> :: (hint.Some? ==> hint.value.slotRva == e.rva)
         && Resolution(s.catalogue, PointerAt(s, e.rva).value, hint) == Some(Provider(e.moduleName, e.symbol))
  }

  lemma SelectedResolves(input: Input, hints: seq<Hint>, slot: Observed)
    requires var s := ScanOf(input); SlotSound(s, slot) && Selected(s, hints, slot).Some? && HintsShaped(hints)
    ensures ResolvedFromDump(input, EntryOf(ScanOf(input), hints, slot))
    ensures ProviderLaws.Shaped(EntryOf(ScanOf(input), hints, slot).symbol)
  {
    hide Resolution, PointerAt, CatalogueOf, ProviderLaws.Shaped, SourceOf, HintAt;
    var s, hint := ScanOf(input), HintAt(hints, slot.rva);
    if hint.Some? {
      HintFromList(hints, slot.rva);
      var k :| 0 <= k < |hints| && hints[k] == hint.value;
      assert ProviderLaws.Shaped(hints[k].symbol);
    }
    if Resolution(s.catalogue, slot.address, hint).Some? {
      ProviderLaws.ResolvedShape(input.modules, slot.address, hint);
    } else {
      ProviderLaws.ResolvedShape(input.modules, slot.address, None);
    }
  }

  /** The facts behind every successful, nonempty discovery. */
  lemma DiscoveryFacts(input: Input) returns (hints: seq<Hint>, slots: seq<Observed>)
    requires Outcome(input).plan.Ok? && HintsShaped(input.upxHints) && HintsShaped(input.analysed.providers)
    ensures var s := ScanOf(input);
            HintsShaped(hints) && Ascending(slots, Width(s)) && |slots| <= MAXIMUM_SLOTS
            && (forall k :: 0 <= k < |slots| ==> SlotSound(s, slots[k]) && Provided(s, hints, slots[k]))
    ensures slots == [] ==> Outcome(input).plan.value.modules == []
    ensures slots != [] ==> exists rejected :: Outcome(input).plan.value.modules
                                                == Build(ScanOf(input), hints, Building([], rejected), slots).modules
  {
    hide AllSlots, Build, Provided, SlotSound, Sorted, FirstUnprovided, CatalogueOf, HintsShaped, Ascending;
    var s := ScanOf(input);
    hints := HintsOf(s, input.upxHints);
    NoHints();
    var h := AllSlots(s, input.upxHints).value;
    if h.slots == [] {
      slots := [];
      NothingAscends(Width(s));
    } else {
      slots := Sorted(h.slots);
      AllSlotsSound(s, input.upxHints);
      SortedIsAscending(s, h.slots);
      AllProvided(s, hints, slots);
    }
  }

  lemma NoHints()
    ensures HintsShaped([])
  {
  }

  lemma NothingAscends(width: nat)
    ensures Ascending([], width)
  {
  }

  lemma {:induction false} AllProvided(s: Scan, hints: seq<Hint>, slots: seq<Observed>)
    requires FirstUnprovided(s, hints, slots) == |slots|
    ensures forall k :: 0 <= k < |slots| ==> Provided(s, hints, slots[k])
  {
    hide Provided;
    if slots != [] {
      AllProvided(s, hints, slots[1..]);
      forall k | 0 <= k < |slots| ensures Provided(s, hints, slots[k]) {
        assert k > 0 ==> slots[k] == slots[1..][k - 1];
      }
    }
  }

  ghost predicate EntriesOrdered(entries: seq<Entry>, width: nat, limit: nat) {
    (forall i, j :: 0 <= i < j < |entries| ==> entries[i].rva + width <= entries[j].rva)
    && forall k :: 0 <= k < |entries| ==> entries[k].rva + width <= limit
  }

  /** Any plan flattens to a strictly increasing list of at most 16,384 slots that
      do not overlap, lie in the image, are resolved from their dumped values
      and carry exactly one of name and ordinal. */
  lemma PlanIsWellFormed(input: Input)
    requires Outcome(input).plan.Ok? && |input.dump| == input.layout.sizeOfImage
    requires HintsShaped(input.upxHints) && HintsShaped(input.analysed.providers)
    ensures var width := input.layout.format.PointerSize();
            var entries := Flatten(Outcome(input).plan.value.modules, width);
            |entries| <= MAXIMUM_SLOTS && EntriesOrdered(entries, width, input.layout.sizeOfImage)
            && forall k :: 0 <= k < |entries| ==>
                 ResolvedFromDump(input, entries[k]) && ProviderLaws.Shaped(entries[k].symbol)
  {
    hide Outcome, SlotSound, Provided, Selected, CatalogueOf, Build, ResolvedFromDump, ProviderLaws.Shaped;
    var s := ScanOf(input);
    var hints, slots := DiscoveryFacts(input);
    if slots != [] {
      var rejected :| Outcome(input).plan.value.modules == Build(s, hints, Building([], rejected), slots).modules;
      BuildFlattens(s, hints, rejected, slots);
      var entries := Flatten(Outcome(input).plan.value.modules, Width(s));
      forall k | 0 <= k < |entries|
        ensures entries[k].rva + Width(s) <= input.layout.sizeOfImage && entries[k].rva == slots[k].rva
                && ResolvedFromDump(input, entries[k]) && ProviderLaws.Shaped(entries[k].symbol)
      {
        SelectedResolves(input, hints, slots[k]);
        SlotFits(s, slots[k]);
      }
    }
  }

  lemma SlotFits(s: Scan, slot: Observed)
    requires SlotSound(s, slot)
    ensures slot.rva + Width(s) <= |s.dump|
  {
  }

  lemma ModulePositions(modules: seq<ImportModule>, width: nat, i: nat, k: nat)
    returns (n: nat)
    requires i < |modules| && k < |modules[i].symbols|
    ensures n < |Flatten(modules, width)|
    ensures Flatten(modules, width)[n] == Entry(modules[i].firstThunk + k * width, modules[i].moduleName, modules[i].symbols[k])
    decreases |modules|
  {
    if i == |modules| - 1 {
      n := |Flatten(modules[..|modules| - 1], width)| + k;
    } else {
      n := ModulePositions(modules[..|modules| - 1], width, i, k);
    }
  }

  lemma {:induction false} SymbolsCounted(modules: seq<ImportModule>, width: nat, i: nat)
    requires i < |modules|
    ensures |modules[i].symbols| <= |Flatten(modules, width)|
  {
    if i < |modules| - 1 {
      SymbolsCounted(modules[..|modules| - 1], width, i);
    }
  }

  /** The fixer's module, overlap and symbol checks accept every discovered plan,
      and every module is short enough for the import validator. */
  lemma FixerAcceptsThePlan(input: Input, ctx: Builder.Context)
    requires Outcome(input).plan.Ok? && |input.dump| == input.layout.sizeOfImage
    requires HintsShaped(input.upxHints) && HintsShaped(input.analysed.providers)
    requires ctx.format == input.layout.format && ctx.sizeOfImage == input.layout.sizeOfImage
    ensures var modules := Outcome(input).plan.value.modules;
            (forall i :: 0 <= i < |modules| ==> Builder.ModuleShapeValid(ctx, modules[i]) && |modules[i].symbols| <= MAXIMUM_SLOTS)
            && (forall i, j :: 0 <= i < j < |modules| ==>
                  !Builder.Meets(Builder.RangeOf(ctx, modules[i]), Builder.RangeOf(ctx, modules[j])))
            && forall i, k :: 0 <= i < |modules| && 0 <= k < |modules[i].symbols| ==> ProviderLaws.Shaped(modules[i].symbols[k])
  {
    hide Outcome, SlotSound, Provided, Selected, CatalogueOf, Build, ResolvedFromDump, ProviderLaws.Shaped, Flatten, ScanOf, Ascending;
    var s := ScanOf(input);
    SameWidth(input);
    var hints, slots := DiscoveryFacts(input);
    PlanIsWellFormed(input);
    var modules := Outcome(input).plan.value.modules;
    if slots != [] {
      var rejected :| modules == Build(s, hints, Building([], rejected), slots).modules;
      BuildPlaced(s, hints, rejected, slots);
      SlotFits(s, slots[|slots| - 1]);
      forall i | 0 <= i < |modules|
        ensures Builder.ModuleShapeValid(ctx, modules[i]) && |modules[i].symbols| <= MAXIMUM_SLOTS
      {
        SymbolsCounted(modules, Width(s), i);
        ShapeOfModule(ctx, modules[i]);
      }
      forall i, k | 0 <= i < |modules| && 0 <= k < |modules[i].symbols| ensures ProviderLaws.Shaped(modules[i].symbols[k]) {
        var n := ModulePositions(modules, Width(s), i, k);
      }
    }
  }

  lemma SameWidth(input: Input)
    ensures Width(ScanOf(input)) == input.layout.format.PointerSize() && ScanOf(input).dump == input.dump
    ensures ScanOf(input).layout == input.layout
  {
    hide CatalogueOf;
  }

  lemma ShapeOfModule(ctx: Builder.Context, m: ImportModule)
    requires m.moduleName != [] && m.symbols != [] && |m.symbols| <= MAXIMUM_SLOTS
    requires m.firstThunk + |m.symbols| * ctx.format.PointerSize() <= ctx.sizeOfImage
    ensures Builder.ModuleShapeValid(ctx, m)
  {
    if ctx.format.Pe32? {
      assert |m.symbols| * 4 >= 4;
    } else {
      assert |m.symbols| * 8 >= 8;
    }
  }
}
