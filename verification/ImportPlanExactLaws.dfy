/** Which plan discovery returns: exactly the scanned slots and the usable
    hints of a packed image, each with the provider its pointer resolves to. */
module ImportPlanExactLaws {
  import opened Bytes
  import opened PeFormat
  import opened ImportTypes
  import opened ImportProviderCatalogue
  import opened ImportDiscovery
  import opened ImportDiscoveryLaws
  import opened ImportScanLaws
  import Sets = FiniteSets

  // ---- usable hints ----

  ghost predicate Near(a: int, b: int, size: nat) {
    a < b + size && b < a + size
  }

  /** The hint names a pointer to an export that its contract explains. */
  ghost predicate Explained(input: Input, hint: Hint) {
    !Occupied(input, hint.slotRva) && Stored(input, hint.slotRva).Some? && Stored(input, hint.slotRva).value != 0
    && Resolution(CatalogueOf(input.modules), Stored(input, hint.slotRva).value, Some(hint)).Some?
  }

  /** Hint `k` adds a slot: it is explained and meets no scanned slot and no
      slot added by an earlier hint. */
  ghost predicate Taken(input: Input, k: nat)
    requires k < |input.upxHints|
    decreases k
  {
    Explained(input, input.upxHints[k])
    && (forall b :: IsSlot(input, b) ==> !Near(b, input.upxHints[k].slotRva, SlotSize(input)))
    && forall j: nat :: j < k && Near(input.upxHints[j].slotRva, input.upxHints[k].slotRva, SlotSize(input)) ==> !Taken(input, j)
  }

  /** The slots that the first `n` hints add. */
  ghost function HintedSet(input: Input, n: nat): set<int>
    requires n <= |input.upxHints|
  {
    set k: nat | k < n && Taken(input, k) :: input.upxHints[k].slotRva as int
  }

  /** The scanned slots and, for a packed image, those of the first `n` hints. */
  ghost function SlotsWith(input: Input, n: nat): set<int>
    requires n <= |input.upxHints|
  {
    if Shell(input) then SlotSet(input) + HintedSet(input, n) else SlotSet(input)
  }

  ghost function WholeSet(input: Input): set<int> {
    SlotsWith(input, |input.upxHints|)
  }

  lemma HintedMore(input: Input, n: nat)
    requires n < |input.upxHints|
    ensures HintedSet(input, n + 1)
            == if Taken(input, n) then HintedSet(input, n) + {input.upxHints[n].slotRva as int} else HintedSet(input, n)
  {
    hide Taken;
  }

  lemma HintedNone(input: Input)
    ensures HintedSet(input, 0) == {}
  {
  }

  /** The slots held so far are the scanned ones and those of the first `n` hints. */
  ghost predicate HeldAre(input: Input, slots: seq<Observed>, n: nat)
    requires n <= |input.upxHints|
  {
    SlotsSound(ScanOf(input), slots) && Rvas(slots) == SlotSet(input) + HintedSet(input, n)
  }

  lemma HeldCount(input: Input, slots: seq<Observed>, n: nat)
    requires n <= |input.upxHints| && HeldAre(input, slots, n)
    ensures |slots| == |SlotSet(input) + HintedSet(input, n)|
    ensures forall a: nat :: Holds(slots, a) <==> a in SlotSet(input) + HintedSet(input, n)
  {
    hide SlotSound, SlotSet, HintedSet, Holds, ScanOf, Apart;
    WidthIs(input);
    RvasCounted(slots, SlotSize(input));
  }

  /** A slot list meets an address iff a member of its set does. */
  lemma MeetsIs(slots: seq<Observed>, width: nat, a: nat)
    requires width > 0
    ensures Holds(slots, a) || Clashes(slots, a, width) <==> exists b :: b in Rvas(slots) && Near(b, a, width)
  {
    if Holds(slots, a) || Clashes(slots, a, width) {
      var k :| 0 <= k < |slots| && Near(slots[k].rva, a, width);
      assert slots[k] in slots;
      assert slots[k].rva in Rvas(slots);
    }
    if b :| b in Rvas(slots) && Near(b, a, width) {
      var slot :| slot in slots && slot.rva == b;
      var k :| 0 <= k < |slots| && slots[k] == slot;
      assert b == a ==> Holds(slots, a);
      assert b != a ==> Clashes(slots, a, width);
    }
  }

  lemma ExplainedIs(input: Input, hint: Hint)
    ensures var s := ScanOf(input); var target := PointerAt(s, hint.slotRva);
            Explained(input, hint)
            <==> !IsSourceImport(s, hint.slotRva) && target.Some? && target.value != 0
                 && Resolution(s.catalogue, target.value, Some(hint)).Some?
  {
    hide Resolution, CatalogueOf, IsSourceImport, Occupied, Stored, PointerAt;
    SameAddress(input, hint.slotRva);
  }

  lemma TakenIs(input: Input, slots: seq<Observed>, n: nat)
    requires n < |input.upxHints| && HeldAre(input, slots, n)
    ensures Taken(input, n)
            <==> Explained(input, input.upxHints[n])
                 && !exists b :: b in Rvas(slots) && Near(b, input.upxHints[n].slotRva, SlotSize(input))
  {
    hide Explained, IsSlot, SlotsSound, ScanOf;
    var a := input.upxHints[n].slotRva;
    if b :| b in Rvas(slots) && Near(b, a, SlotSize(input)) {
      if b in SlotSet(input) {
        assert IsSlot(input, b);
      } else {
        var j: nat :| j < n && Taken(input, j) && input.upxHints[j].slotRva == b;
      }
    } else {
      forall b | IsSlot(input, b) ensures !Near(b, a, SlotSize(input)) {
        SlotInImage(input, b);
      }
      assert forall j: nat :: j < n && Taken(input, j) ==> input.upxHints[j].slotRva as int in HintedSet(input, n);
    }
  }

  ghost predicate HintFares(input: Input, r: Result<Hinted, DiscoveryError>, n: nat)
    requires n <= |input.upxHints|
  {
    if r.Ok? then HeldAre(input, r.value.slots, n)
    else r.error == InvalidInput && |SlotSet(input) + HintedSet(input, n)| > 16384
  }

  lemma AddHintFares(input: Input, h: Hinted, n: nat)
    requires n < |input.upxHints| && HeldAre(input, h.slots, n)
    ensures HintFares(input, AddHint(ScanOf(input), h, input.upxHints[n]), n + 1)
  {
    hide Taken, Explained, SlotsSound, SlotSet, HintedSet, ScanOf, Resolution, IsSourceImport, PointerAt, Holds, Clashes;
    var s, hint, slots := ScanOf(input), input.upxHints[n], h.slots;
    WidthIs(input);
    HintedMore(input, n);
    TakenIs(input, slots, n);
    ExplainedIs(input, hint);
    MeetsIs(slots, SlotSize(input), hint.slotRva);
    HeldCount(input, slots, n);
    if Taken(input, n) {
      var a := hint.slotRva as int;
      var held, more := SlotSet(input) + HintedSet(input, n), SlotSet(input) + HintedSet(input, n + 1);
      assert more == held + {a};
      assert Near(a, hint.slotRva, SlotSize(input));
      assert a !in held;
      if |slots| < MAXIMUM_SLOTS {
        AddHintKeeps(s, h, hint);
        RvasMore(slots, Observed(hint.slotRva, PointerAt(s, hint.slotRva).value));
      }
    }
  }

  lemma RvasMore(slots: seq<Observed>, slot: Observed)
    ensures Rvas(slots + [slot]) == Rvas(slots) + {slot.rva as int}
  {
    forall a | a in Rvas(slots) + {slot.rva as int} ensures a in Rvas(slots + [slot]) {
      if a == slot.rva {
        assert slot in slots + [slot];
      } else {
        var x :| x in slots && x.rva == a;
        assert x in slots + [slot];
      }
    }
  }

  lemma {:induction false} HintsFare(input: Input, h: Hinted, n: nat)
    requires n <= |input.upxHints| && HeldAre(input, h.slots, 0)
    ensures HintFares(input, AddHints(ScanOf(input), h, input.upxHints[..n]), n)
  {
    hide HeldAre, ScanOf, AddHint, SlotSet, HintedSet;
    var hints := input.upxHints;
    if n > 0 {
      assert hints[..n][..n - 1] == hints[..n - 1];
      HintsFare(input, h, n - 1);
      var before := AddHints(ScanOf(input), h, hints[..n - 1]);
      if before.Ok? {
        AddHintFares(input, before.value, n - 1);
      } else {
        HintedGrows(input, n - 1);
      }
    }
  }

  lemma HintedGrows(input: Input, n: nat)
    requires n < |input.upxHints|
    ensures |SlotSet(input) + HintedSet(input, n)| <= |SlotSet(input) + HintedSet(input, n + 1)|
  {
    hide SlotSet, HintedSet, Taken;
    HintedMore(input, n);
    Sets.SubsetCounts(SlotSet(input) + HintedSet(input, n), SlotSet(input) + HintedSet(input, n + 1));
  }

  // ---- all slots ----

  /** The image cannot be searched, or its slots cannot all be kept. */
  ghost predicate BadInput(input: Input) {
    HasBadIat(input) || |WholeSet(input)| > 16384
  }

  ghost predicate Contradictory(input: Input) {
    SlotsOverlap(input) || IsDoubtful(input)
  }

  lemma WholeCount(input: Input)
    ensures |SlotSet(input)| <= |WholeSet(input)|
  {
    hide SlotSet, HintedSet;
    Sets.SubsetCounts(SlotSet(input), WholeSet(input));
  }

  /** The slots collected are the whole set, each once. */
  lemma AllSlotsExact(input: Input)
    ensures var r := AllSlots(ScanOf(input), input.upxHints);
            (r.Ok? <==> !BadInput(input) && !Contradictory(input))
            && (r.Err? ==> (r.error == ImportsAmbiguous && Contradictory(input)) || (r.error == InvalidInput && BadInput(input)))
            && (r.Ok? ==> SlotsSound(ScanOf(input), r.value.slots) && Rvas(r.value.slots) == WholeSet(input)
                          && |r.value.slots| == |WholeSet(input)|)
  {
    hide ScanOf, AddSections, AddHints, SlotsSound, SlotSet, HintedSet, Rvas, HasBadIat, SlotsOverlap, IsDoubtful, IsSlot;
    var s, hints := ScanOf(input), input.upxHints;
    ScanIsExact(input);
    WholeCount(input);
    HintedNone(input);
    ShellIs(input);
    WidthIs(input);
    if ScanResult(input).Ok? && !ScanResult(input).value.unverified {
      var h := Hinted(ScanResult(input).value.slots, []);
      CollectedSound(input, h.slots);
      if Shell(input) {
        assert SlotSet(input) + {} == SlotSet(input);
        assert hints[..|hints|] == hints;
        HintsFare(input, h, |hints|);
        var r := AddHints(s, h, hints);
        if r.Ok? {
          HeldCount(input, r.value.slots, |hints|);
          WithinLimit(s, r.value.slots);
        }
      } else {
        WithinLimit(s, h.slots);
      }
    }
  }

  lemma WithinLimit(s: Scan, slots: seq<Observed>)
    requires SlotsSound(s, slots)
    ensures |slots| <= 16384
  {
  }

  lemma CollectedSound(input: Input, slots: seq<Observed>)
    requires Collected(input, slots)
    ensures SlotsSound(ScanOf(input), slots)
  {
    hide ScanOf, SlotsSound, IsSlot;
  }

  lemma ShellIs(input: Input)
    ensures ScanOf(input).shell <==> Shell(input)
  {
    hide CatalogueOf;
  }

  // ---- the plan ----

  ghost function HintsUsed(input: Input): seq<Hint> {
    if Shell(input) then input.upxHints
    else if HasImportDirectory(input) && input.analysed.complete then input.analysed.providers
    else []
  }

  /** The first hint for the address, if there is one. */
  ghost predicate FirstHint(hints: seq<Hint>, a: int, hint: Option<Hint>) {
    if hint.None? then forall k :: 0 <= k < |hints| ==> hints[k].slotRva != a
    else
      exists k :: 0 <= k < |hints| && hints[k] == hint.value && hints[k].slotRva == a
                  && forall j :: 0 <= j < k ==> hints[j].slotRva != a
  }

  lemma {:induction false} FirstHintIs(hints: seq<Hint>, rva: U32)
    ensures FirstHint(hints, rva, HintAt(hints, rva))
  {
    if hints != [] && hints[0].slotRva != rva {
      FirstHintIs(hints[1..], rva);
      assert forall k :: 0 < k < |hints| ==> hints[k] == hints[1..][k - 1];
      if HintAt(hints, rva).Some? {
        var k :| 0 <= k < |hints| - 1 && hints[1..][k] == HintAt(hints, rva).value
                 && forall j :: 0 <= j < k ==> hints[1..][j].slotRva != rva;
        assert hints[k + 1] == HintAt(hints, rva).value;
        forall j | 0 <= j < k + 1 ensures hints[j].slotRva != rva {
          assert j > 0 ==> hints[j] == hints[1..][j - 1];
        }
      }
    }
  }

  lemma OneFirstHint(hints: seq<Hint>, a: int, x: Option<Hint>, y: Option<Hint>)
    requires FirstHint(hints, a, x) && FirstHint(hints, a, y)
    ensures x == y
  {
    if x.Some? && y.Some? {
      var i :| 0 <= i < |hints| && hints[i] == x.value && hints[i].slotRva == a && forall j :: 0 <= j < i ==> hints[j].slotRva != a;
      var j :| 0 <= j < |hints| && hints[j] == y.value && hints[j].slotRva == a && forall i :: 0 <= i < j ==> hints[i].slotRva != a;
      assert i == j;
    }
  }

  /** The pointer at `a` resolves under the first hint for `a`, or for a packed
      image without one where that hint fails. */
  ghost predicate Chosen(input: Input, a: int, p: Provider) {
    exists hint :: FirstHint(HintsUsed(input), a, hint) && ChosenUnder(input, a, hint, p)
  }

  ghost predicate ChosenUnder(input: Input, a: int, hint: Option<Hint>, p: Provider) {
    Stored(input, a).Some?
    && (Resolved(input, Stored(input, a).value, hint) == Some(p)
        || (Shell(input) && hint.Some? && Resolved(input, Stored(input, a).value, hint) == None
            && Resolved(input, Stored(input, a).value, None) == Some(p)))
  }

  ghost function Resolved(input: Input, address: nat, hint: Option<Hint>): Option<Provider> {
    if address <= U64_MAX then Resolution(CatalogueOf(input.modules), address, hint) else None
  }

  ghost predicate HasProvider(input: Input, a: int) {
    exists p :: Chosen(input, a, p) && p.moduleName != [] && (p.symbol.name.Some? || p.symbol.ordinal.Some?)
  }

  lemma SelectedIsChosen(input: Input, slot: Observed)
    requires SlotSound(ScanOf(input), slot)
    ensures var s := ScanOf(input); var hints := HintsOf(s, input.upxHints);
            (Provided(s, hints, slot) <==> HasProvider(input, slot.rva))
            && (Selected(s, hints, slot).Some? ==> Chosen(input, slot.rva, Selected(s, hints, slot).value))
  {
    hide Resolution, CatalogueOf, HintAt, Stored, PointerAt, FirstHint, Shell, HintsUsed, HintsOf;
    var s := ScanOf(input);
    var hints, hint := HintsOf(s, input.upxHints), HintAt(HintsOf(s, input.upxHints), slot.rva);
    HintsAre(input);
    SameAddress(input, slot.rva);
    FirstHintIs(hints, slot.rva);
    forall p ensures Chosen(input, slot.rva, p) <==> Selected(s, hints, slot) == Some(p) {
      if other :| FirstHint(HintsUsed(input), slot.rva, other) && ChosenUnder(input, slot.rva, other, p) {
        OneFirstHint(hints, slot.rva, hint, other);
      }
    }
  }

  lemma HintsAre(input: Input)
    ensures HintsOf(ScanOf(input), input.upxHints) == HintsUsed(input)
    ensures ScanOf(input).shell <==> Shell(input)
    ensures ScanOf(input).catalogue == CatalogueOf(input.modules)
  {
    hide CatalogueOf;
    NoDirectoryIs(input);
  }

  ghost predicate Searchable(input: Input) {
    |input.dump| >= input.layout.sizeOfImage > 0 && !BadInput(input) && !Contradictory(input)
  }

  /** The plan lists exactly the addresses in `all`, in order, with their providers. */
  ghost predicate Lists(input: Input, entries: seq<Entry>, all: set<int>) {
    |entries| == |all|
    && (forall a: int :: a in all <==> exists n :: 0 <= n < |entries| && entries[n].rva == a)
    && (forall m, n :: 0 <= m < n < |entries| ==> entries[m].rva + SlotSize(input) <= entries[n].rva)
    && forall n :: 0 <= n < |entries| ==> Chosen(input, entries[n].rva, Provider(entries[n].moduleName, entries[n].symbol))
  }

  lemma RvasOf(slots: seq<Observed>, a: int)
    ensures a in Rvas(slots) <==> exists n :: 0 <= n < |slots| && slots[n].rva == a
  {
    if a in Rvas(slots) {
      var x :| x in slots && x.rva == a;
    }
    if n :| 0 <= n < |slots| && slots[n].rva == a {
      assert slots[n] in slots;
    }
  }

  /** What finishing does with the collected slots. */
  lemma FinishExact(input: Input, h: Hinted)
    requires SlotsSound(ScanOf(input), h.slots) && Rvas(h.slots) == WholeSet(input) && |h.slots| == |WholeSet(input)| && h.slots != []
    ensures var r := Finish(ScanOf(input), HintsOf(ScanOf(input), input.upxHints), h).plan;
            (r.Ok? <==> forall a :: a in WholeSet(input) ==> HasProvider(input, a)) && (r.Err? ==> r.error == ImportsAmbiguous)
            && (r.Ok? ==> Lists(input, Flatten(r.value.modules, SlotSize(input)), WholeSet(input)))
  {
    hide Build, HintsOf, SlotSound, Sorted, Apart, FirstUnprovided, Provided, Selected, ScanOf, Chosen, HasProvider, WholeSet, Rvas;
    var s, hints := ScanOf(input), HintsOf(ScanOf(input), input.upxHints);
    var slots := Sorted(h.slots);
    SortedIsAscending(s, h.slots);
    WidthIs(input);
    forall a ensures a in WholeSet(input) <==> exists n :: 0 <= n < |slots| && slots[n].rva == a {
      RvasOf(h.slots, a);
      RvasOf(slots, a);
      RvasSame(h.slots, slots);
    }
    forall n | 0 <= n < |slots|
      ensures Provided(s, hints, slots[n]) <==> HasProvider(input, slots[n].rva)
      ensures Selected(s, hints, slots[n]).Some? ==> Chosen(input, slots[n].rva, Selected(s, hints, slots[n]).value)
    {
      SelectedIsChosen(input, slots[n]);
    }
    AllProvidedIff(s, hints, slots);
    if FirstUnprovided(s, hints, slots) == |slots| {
      BuildFlattens(s, hints, h.rejected, slots);
      ListsSlots(input, slots, Flatten(Build(s, hints, Building([], h.rejected), slots).modules, SlotSize(input)));
    }
  }

  lemma RvasSame(xs: seq<Observed>, ys: seq<Observed>)
    requires forall slot :: slot in xs <==> slot in ys
    ensures Rvas(xs) == Rvas(ys)
  {
  }

  lemma ListsSlots(input: Input, slots: seq<Observed>, entries: seq<Entry>)
    requires |slots| == |WholeSet(input)| == |entries| && Ascending(slots, SlotSize(input))
    requires forall a: int :: a in WholeSet(input) <==> exists n :: 0 <= n < |slots| && slots[n].rva == a
    requires forall n :: 0 <= n < |slots| ==>
               entries[n].rva == slots[n].rva && Chosen(input, slots[n].rva, Provider(entries[n].moduleName, entries[n].symbol))
    ensures Lists(input, entries, WholeSet(input))
  {
    hide Chosen, WholeSet;
    forall a: int ensures a in WholeSet(input) <==> exists n :: 0 <= n < |entries| && entries[n].rva == a {
      if n :| 0 <= n < |entries| && entries[n].rva == a {
        assert slots[n].rva == a;
      }
    }
  }

  lemma {:induction false} AllProvidedIff(s: Scan, hints: seq<Hint>, slots: seq<Observed>)
    ensures FirstUnprovided(s, hints, slots) == |slots| <==> forall n :: 0 <= n < |slots| ==> Provided(s, hints, slots[n])
  {
    hide Provided;
    if slots != [] {
      AllProvidedIff(s, hints, slots[1..]);
      assert forall n :: 0 < n < |slots| ==> slots[n] == slots[1..][n - 1];
      if forall n :: 0 <= n < |slots| ==> Provided(s, hints, slots[n]) {
        forall n | 0 <= n < |slots| - 1 ensures Provided(s, hints, slots[1..][n]) {
          assert Provided(s, hints, slots[n + 1]);
        }
      }
    }
  }

  /** A plan is returned exactly when the image can be searched, its slots do not
      contradict each other, some slot exists where there is an import directory,
      and every slot has a provider. It then lists exactly the scanned slots and
      the usable hints, in address order, each with its provider. */
  lemma PlanIsExact(input: Input)
    ensures var r := Outcome(input).plan; var all := WholeSet(input);
            (r.Ok? <==> Searchable(input) && (all == {} ==> !HasImportDirectory(input))
                        && forall a :: a in all ==> HasProvider(input, a))
            && (r.Ok? ==> Lists(input, Flatten(r.value.modules, SlotSize(input)), all))
  {
    hide AllSlots, Finish, BadInput, Contradictory, WholeSet, HasProvider, Flatten, HintsOf, ScanOf, Lists;
    AllSlotsExact(input);
    if Searchable(input) {
      var h := AllSlots(ScanOf(input), input.upxHints).value;
      if h.slots != [] {
        FinishExact(input, h);
      } else {
        FinishEmpty(input, h);
      }
    }
  }

  lemma FinishEmpty(input: Input, h: Hinted)
    requires h.slots == [] && |WholeSet(input)| == 0
    ensures WholeSet(input) == {}
    ensures var r := Finish(ScanOf(input), HintsOf(ScanOf(input), input.upxHints), h).plan;
            if HasImportDirectory(input) then r == Err(ImportsNotFound)
            else r == Ok(ImportPlan([])) && Lists(input, Flatten([], SlotSize(input)), WholeSet(input))
  {
    hide WholeSet, ScanOf, HintsOf;
    WidthIs(input);
    NoDirectoryIs(input);
  }

  /** Each refusal has its cause. */
  lemma RefusalsAreExact(input: Input)
    requires Outcome(input).plan.Err?
    ensures var e := Outcome(input).plan.error; var all := WholeSet(input);
            (e == ImportsNotFound <==> Searchable(input) && all == {} && HasImportDirectory(input))
            && (e == InvalidInput ==> |input.dump| < input.layout.sizeOfImage || input.layout.sizeOfImage == 0 || BadInput(input))
            && (e == ImportsAmbiguous ==> Contradictory(input) || exists a :: a in all && !HasProvider(input, a))
  {
    hide AllSlots, Finish, BadInput, Contradictory, WholeSet, HasProvider, Flatten, HintsOf, ScanOf, Lists;
    AllSlotsExact(input);
    if Searchable(input) {
      var h := AllSlots(ScanOf(input), input.upxHints).value;
      if h.slots != [] {
        FinishExact(input, h);
      } else {
        FinishEmpty(input, h);
      }
    }
  }
}
