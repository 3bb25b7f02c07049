/** Finds the import address table of a dumped image: runs of pointers to known
    exports, scanned in native-width lanes, grouped into modules. */
module ImportDiscovery {
  import opened Bytes
  import opened PeFormat
  import opened ImportTypes
  import opened ImportProviderCatalogue
  import opened ImportProviderResolver

  const MAXIMUM_SLOTS := 16384
  const ALIGNMENT := 4

  datatype DiscoveryError = ImportsNotFound | ImportsAmbiguous | InvalidInput

  datatype ImportRange = ImportRange(begin: U32, end: U32)

  /** What the source-import analyser found; its scanner is not modelled. */
  datatype SourceImports = SourceImports(complete: bool, occupied: seq<ImportRange>, providers: seq<Hint>)

  datatype Input = Input(
    dump: Bytes, layout: Layout, analysed: SourceImports, upxHints: seq<Hint>, modules: seq<RuntimeModule>,
    recoveredEntryPoint: U32)

  /** What every step of the scan looks at. */
  datatype Scan = Scan(dump: Bytes, layout: Layout, shell: bool, source: SourceImports, catalogue: Catalogue)

  datatype Observed = Observed(rva: U32, address: U64)

  datatype State = State(slots: seq<Observed>, unverified: bool)

  /** The part of a section that is scanned: `start..=end` are slot addresses. */
  datatype Window = Window(start: nat, end: nat, sectionStart: nat, declared: bool)

  /** One lane of a window, entered at `lo`. */
  datatype Lane = Lane(scan: Scan, window: Window, lo: nat)

  datatype Discovered = Discovered(plan: Result<ImportPlan, DiscoveryError>, rejectedHints: seq<U32>)

  // ---- single addresses ----

  function Width(s: Scan): (n: nat)
    ensures n == 4 || n == 8
  {
    s.layout.format.PointerSize()
  }

  function PointerAt(s: Scan, rva: nat): (value: Option<U64>) {
    Powers();
    if Fits(s.dump, rva, Width(s)) then Some(ReadAt(s.dump, rva, Width(s))) else None
  }

  predicate IsZero(s: Scan, rva: nat) {
    PointerAt(s, rva) == Some(0)
  }

  predicate Overlaps(range: ImportRange, rva: nat, size: nat) {
    rva < range.end && range.begin < rva + size
  }

  predicate IsSourceImport(s: Scan, rva: nat) {
    s.shell
    && exists k :: 0 <= k < |s.source.occupied| && Overlaps(s.source.occupied[k], rva, Width(s))
  }

  predicate InUnverifiedDirectory(s: Scan, rva: nat) {
    var d := s.layout.directories[IMPORT_DIRECTORY];
    s.shell && !s.source.complete && d.address != 0
    && d.size <= s.layout.sizeOfImage - Min(d.address, s.layout.sizeOfImage)
    && rva >= d.address && rva - d.address < d.size
  }

  /** A pointer to a known export outside the loader's own tables. */
  predicate Points(s: Scan, rva: nat) {
    !IsSourceImport(s, rva) && PointerAt(s, rva).Some? && PointerAt(s, rva).value != 0
    && PointerAt(s, rva).value in s.catalogue.byAddress
  }

  predicate IsCandidate(s: Scan, rva: nat) {
    Points(s, rva) && !InUnverifiedDirectory(s, rva)
  }

  // ---- lanes ----

  function Pos(l: Lane, k: nat): nat {
    l.lo + k * Width(l.scan)
  }

  predicate In(l: Lane, k: nat) {
    Pos(l, k) <= l.window.end
  }

  predicate Hit(l: Lane, k: nat) {
    In(l, k) && IsCandidate(l.scan, Pos(l, k))
  }

  function Left(l: Lane, k: nat): nat {
    if In(l, k) then l.window.end + 1 - Pos(l, k) else 0
  }

  lemma LeftDecreases(l: Lane, k: nat)
    requires In(l, k)
    ensures Left(l, k + 1) < Left(l, k) && Pos(l, k + 1) == Pos(l, k) + Width(l.scan)
  {
    assert (k + 1) * Width(l.scan) == k * Width(l.scan) + Width(l.scan);
  }

  /** How many consecutive candidates start at position `k`. */
  function Run(l: Lane, k: nat): (n: nat)
    ensures n > 0 <==> Hit(l, k)
    ensures forall j :: k <= j < k + n ==> Hit(l, j)
    ensures !Hit(l, k + n)
    decreases Left(l, k)
  {
    if !Hit(l, k) then 0
    else
      LeftDecreases(l, k);
      1 + Run(l, k + 1)
  }

  /** The run `k..k+n` lies between two zero pointers of its section. */
  predicate ZeroBounded(l: Lane, k: nat, n: nat) {
    Pos(l, k) >= l.window.sectionStart + Width(l.scan) && In(l, k + n)
    && IsZero(l.scan, Pos(l, k) - Width(l.scan)) && IsZero(l.scan, Pos(l, k + n))
  }

  /** The run at `k` counts: it is declared, dense, or bounded by zeros. */
  predicate RunAccepted(l: Lane, k: nat) {
    Run(l, k) > 0 && (l.window.declared || Run(l, k) >= 2 || ZeroBounded(l, k, Run(l, k)))
  }

  /** Where the lane loop continues after position `k`. */
  function Next(l: Lane, k: nat): (n: nat)
    ensures n > k
  {
    if RunAccepted(l, k) then k + Run(l, k) else k + 1
  }

  lemma {:induction false} LeftShrinks(l: Lane, k: nat, n: nat)
    requires In(l, k) && n > k
    ensures Left(l, n) < Left(l, k)
    decreases n - k
  {
    LeftDecreases(l, k);
    if n > k + 1 {
      if In(l, k + 1) {
        LeftShrinks(l, k + 1, n);
      } else {
        BeyondEnd(l, k + 1, n);
      }
    }
  }

  lemma {:induction false} BeyondEnd(l: Lane, k: nat, n: nat)
    requires !In(l, k) && k <= n
    ensures !In(l, n)
    decreases n - k
  {
    if k < n {
      assert (k + 1) * Width(l.scan) == k * Width(l.scan) + Width(l.scan);
      BeyondEnd(l, k + 1, n);
    }
  }

  function Range(k: nat, n: nat): (r: seq<nat>)
    ensures |r| == n && forall i :: 0 <= i < n ==> r[i] == k + i
  {
    seq(n, i => k + i)
  }

  /** The positions the lane loop accepts from `k` on, in order. */
  function Positions(l: Lane, k: nat): seq<nat>
    decreases Left(l, k)
  {
    if !In(l, k) then []
    else
      LeftShrinks(l, k, Next(l, k));
      (if RunAccepted(l, k) then Range(k, Run(l, k)) else []) + Positions(l, Next(l, k))
  }

  /** Some pointer to a known export was left alone because it lies in an unverified directory. */
  predicate Doubtful(l: Lane, k: nat)
    decreases Left(l, k)
  {
    In(l, k) && (
      (Points(l.scan, Pos(l, k)) && InUnverifiedDirectory(l.scan, Pos(l, k)))
      || (LeftShrinks(l, k, Next(l, k)); Doubtful(l, Next(l, k))))
  }

  // ---- collecting slots ----

  predicate Holds(slots: seq<Observed>, rva: nat) {
    exists k :: 0 <= k < |slots| && slots[k].rva == rva
  }

  /** Some accepted slot overlaps a slot at `rva` without being it. */
  predicate Clashes(slots: seq<Observed>, rva: nat, width: nat) {
    exists k :: 0 <= k < |slots| && slots[k].rva != rva && slots[k].rva < rva + width && rva < slots[k].rva + width
  }

  function AddSlot(s: Scan, st: State, rva: nat): Result<State, DiscoveryError> {
    if Holds(st.slots, rva) then Ok(st)
    else if Clashes(st.slots, rva, Width(s)) then Err(ImportsAmbiguous)
    else if PointerAt(s, rva).None? || rva > U32_MAX || |st.slots| + 1 > MAXIMUM_SLOTS then Err(InvalidInput)
    else Ok(st.(slots := st.slots + [Observed(rva, PointerAt(s, rva).value)]))
  }

  function AddPositions(l: Lane, st: State, positions: seq<nat>): Result<State, DiscoveryError> {
    if positions == [] then Ok(st)
    else
      var before := AddPositions(l, st, positions[..|positions| - 1]);
      if before.Err? then before else AddSlot(l.scan, before.value, Pos(l, positions[|positions| - 1]))
  }

  function AddLane(l: Lane, st: State): Result<State, DiscoveryError> {
    var r := AddPositions(l, st, Positions(l, 0));
    if r.Err? then r else Ok(r.value.(unverified := st.unverified || Doubtful(l, 0)))
  }

  /** The first `n` lanes of a window. */
  function AddLanes(s: Scan, w: Window, st: State, n: nat): Result<State, DiscoveryError> {
    if n == 0 then Ok(st)
    else
      var before := AddLanes(s, w, st, n - 1);
      if before.Err? then before else AddLane(Lane(s, w, w.start + (n - 1) * ALIGNMENT), before.value)
  }

  // ---- sections ----

  predicate SectionHolds(section: Section, address: U32) {
    address >= section.virtualAddress && address - section.virtualAddress < section.Extent()
  }

  predicate Scannable(s: Scan, section: Section) {
    PeFormat.Has(section.characteristics, MEM_WRITE) || PeFormat.Has(section.characteristics, MEM_READ)
    || SectionHolds(section, s.layout.directories[IMPORT_DIRECTORY].address)
    || SectionHolds(section, s.layout.directories[IAT_DIRECTORY].address)
  }

  function AlignedWindow(start: nat, end: nat, sectionStart: nat, declared: bool, width: nat): Option<Window> {
    if end - start < width then None
    else Some(Window(start + (ALIGNMENT - start % ALIGNMENT) % ALIGNMENT, end - width, sectionStart, declared))
  }

  function WindowOf(s: Scan, section: Section): Result<Option<Window>, DiscoveryError> {
    var iat := s.layout.directories[IAT_DIRECTORY];
    if !Scannable(s, section) || section.virtualAddress >= s.layout.sizeOfImage then Ok(None)
    else
      var start := section.virtualAddress;
      var end := Min(start + section.Extent(), s.layout.sizeOfImage);
      if end - start < Width(s) then Ok(None)
      else if iat == NO_DIRECTORY then Ok(AlignedWindow(start, end, start, false, Width(s)))
      else if iat.address == 0 || iat.size < Width(s) || iat.address + iat.size > s.layout.sizeOfImage then Err(InvalidInput)
      else if iat.address >= end || iat.address + iat.size <= start then Ok(None)
      else Ok(AlignedWindow(Max(start, iat.address), Min(end, iat.address + iat.size), start, true, Width(s)))
  }

  function AddSection(s: Scan, st: State, section: Section): Result<State, DiscoveryError> {
    var w := WindowOf(s, section);
    if w.Err? then Err(w.error)
    else if w.value.None? then Ok(st)
    else AddLanes(s, w.value.value, st, Width(s) / ALIGNMENT)
  }

  function AddSections(s: Scan, sections: seq<Section>): Result<State, DiscoveryError> {
    if sections == [] then Ok(State([], false))
    else
      var before := AddSections(s, sections[..|sections| - 1]);
      if before.Err? then before else AddSection(s, before.value, sections[|sections| - 1])
  }

  // ---- hints ----

  function HintAt(hints: seq<Hint>, rva: U32): Option<Hint> {
    if hints == [] then None
    else if hints[0].slotRva == rva then Some(hints[0])
    else HintAt(hints[1..], rva)
  }

  datatype Hinted = Hinted(slots: seq<Observed>, rejected: seq<U32>)

  /** One hint of the unpacker's own import stream. */
  function AddHint(s: Scan, h: Hinted, hint: Hint): Result<Hinted, DiscoveryError> {
    var target := PointerAt(s, hint.slotRva);
    if Holds(h.slots, hint.slotRva) then Ok(h)
    else if IsSourceImport(s, hint.slotRva) || target.None? || target.value == 0
            || Resolution(s.catalogue, target.value, Some(hint)).None? || Clashes(h.slots, hint.slotRva, Width(s))
      then Ok(h.(rejected := h.rejected + [hint.slotRva]))
    else if |h.slots| >= MAXIMUM_SLOTS then Err(InvalidInput)
    else Ok(h.(slots := h.slots + [Observed(hint.slotRva, target.value)]))
  }

  function AddHints(s: Scan, h: Hinted, hints: seq<Hint>): Result<Hinted, DiscoveryError> {
    if hints == [] then Ok(h)
    else
      var before := AddHints(s, h, hints[..|hints| - 1]);
      if before.Err? then before else AddHint(s, before.value, hints[|hints| - 1])
  }

  // ---- the plan ----

  /** The slots in address order. */
  function Sorted(slots: seq<Observed>): seq<Observed> {
    if slots == [] then [] else Inserted(Sorted(slots[1..]), slots[0])
  }

  function Inserted(sorted: seq<Observed>, slot: Observed): seq<Observed> {
    if sorted == [] || slot.rva <= sorted[0].rva then [slot] + sorted
    else [sorted[0]] + Inserted(sorted[1..], slot)
  }

  /** The module list with one more slot: the last module grows if the slot continues it. */
  function AddCandidate(modules: seq<ImportModule>, rva: U32, p: Provider, width: nat): Option<seq<ImportModule>> {
    if p.moduleName == [] || (p.symbol.name.None? && p.symbol.ordinal.None?) then None
    else if modules != [] && modules[|modules| - 1].moduleName == p.moduleName
            && modules[|modules| - 1].firstThunk + |modules[|modules| - 1].symbols| * width == rva then
      var last := modules[|modules| - 1];
      Some(modules[..|modules| - 1] + [last.(symbols := last.symbols + [p.symbol])])
    else Some(modules + [ImportModule(p.moduleName, rva, [p.symbol])])
  }

  datatype Building = Building(modules: seq<ImportModule>, rejected: seq<U32>)

  /** The provider of a slot; a hint that does not resolve is dropped for a packed image. */
  function Selected(s: Scan, hints: seq<Hint>, slot: Observed): Option<Provider> {
    var hint := HintAt(hints, slot.rva);
    var p := Resolution(s.catalogue, slot.address, hint);
    if p.None? && s.shell && hint.Some? then Resolution(s.catalogue, slot.address, None) else p
  }

  predicate HintFails(s: Scan, hints: seq<Hint>, slot: Observed) {
    var hint := HintAt(hints, slot.rva);
    Resolution(s.catalogue, slot.address, hint).None? && s.shell && hint.Some?
  }

  function Build(s: Scan, hints: seq<Hint>, b: Building, slots: seq<Observed>): Building {
    if slots == [] then b
    else
      var before, slot := Build(s, hints, b, slots[..|slots| - 1]), slots[|slots| - 1];
      var p := Selected(s, hints, slot);
      var modules := if p.None? then None else AddCandidate(before.modules, slot.rva, p.value, Width(s));
      Building(if modules.None? then before.modules else modules.value,
               if HintFails(s, hints, slot) then before.rejected + [slot.rva] else before.rejected)
  }

  predicate Provided(s: Scan, hints: seq<Hint>, slot: Observed) {
    var p := Selected(s, hints, slot);
    p.Some? && p.value.moduleName != [] && (p.value.symbol.name.Some? || p.value.symbol.ordinal.Some?)
  }

  function FirstUnprovided(s: Scan, hints: seq<Hint>, slots: seq<Observed>): (n: nat)
    ensures n <= |slots|
  {
    if slots == [] || !Provided(s, hints, slots[0]) then 0 else 1 + FirstUnprovided(s, hints, slots[1..])
  }

  // ---- the whole discovery ----

  function SourceOf(input: Input): SourceImports {
    if input.layout.directories[IMPORT_DIRECTORY] == NO_DIRECTORY then SourceImports(true, [], []) else input.analysed
  }

  function ScanOf(input: Input): Scan {
    Scan(input.dump, input.layout,
         input.layout.entryPoint != input.recoveredEntryPoint && input.layout.directories[IAT_DIRECTORY] == NO_DIRECTORY,
         SourceOf(input), CatalogueOf(input.modules))
  }

  function HintsOf(s: Scan, upxHints: seq<Hint>): seq<Hint> {
    if s.shell then upxHints else if s.source.complete then s.source.providers else []
  }

  /** All slots: scanned ones, and for a packed image the hinted ones. */
  function AllSlots(s: Scan, upxHints: seq<Hint>): Result<Hinted, DiscoveryError> {
    var scanned := AddSections(s, s.layout.sections);
    if scanned.Err? then Err(scanned.error)
    else if scanned.value.unverified then Err(ImportsAmbiguous)
    else if s.shell then AddHints(s, Hinted(scanned.value.slots, []), upxHints)
    else Ok(Hinted(scanned.value.slots, []))
  }

  function Finish(s: Scan, hints: seq<Hint>, h: Hinted): Discovered {
    if h.slots == [] then
      Discovered(if s.layout.directories[IMPORT_DIRECTORY] == NO_DIRECTORY then Ok(ImportPlan([])) else Err(ImportsNotFound), [])
    else
      var slots := Sorted(h.slots);
      var n := FirstUnprovided(s, hints, slots);
      if n < |slots| then Discovered(Err(ImportsAmbiguous), Build(s, hints, Building([], h.rejected), slots[..n + 1]).rejected)
      else
        var b := Build(s, hints, Building([], h.rejected), slots);
        Discovered(Ok(ImportPlan(b.modules)), b.rejected)
  }

  function Outcome(input: Input): Discovered {
    if |input.dump| < input.layout.sizeOfImage || input.layout.sizeOfImage == 0 then Discovered(Err(InvalidInput), [])
    else
      var s := ScanOf(input);
      var h := AllSlots(s, input.upxHints);
      if h.Err? then Discovered(Err(h.error), []) else Finish(s, HintsOf(s, input.upxHints), h.value)
  }

  // ---- the program ----

  lemma {:induction false} PositionsFail(l: Lane, st: State, first: seq<nat>, second: seq<nat>)
    requires AddPositions(l, st, first).Err?
    ensures AddPositions(l, st, first + second) == AddPositions(l, st, first)
    decreases |second|
  {
    hide AddSlot;
    if second == [] {
      assert first + second == first;
    } else {
      var n := |second|;
      assert (first + second)[..|first + second| - 1] == first + second[..n - 1];
      PositionsFail(l, st, first, second[..n - 1]);
    }
  }

  lemma AddOne(l: Lane, st: State, done: seq<nat>, k: nat)
    ensures AddPositions(l, st, done + [k])
            == var before := AddPositions(l, st, done);
               if before.Err? then before else AddSlot(l.scan, before.value, Pos(l, k))
  {
    hide AddSlot;
    assert (done + [k])[..|done|] == done;
  }

  /** The run loop: where the candidates that start at `rva` end. */
  method RunEnd(l: Lane, k: nat) returns (runLength: nat)
    ensures runLength == Run(l, k)
  {
    hide IsCandidate, Run;
    runLength := 0;
    while In(l, k + runLength) && IsCandidate(l.scan, Pos(l, k + runLength))
      invariant forall j :: k <= j < k + runLength ==> Hit(l, j)
      decreases Left(l, k + runLength)
    {
      LeftDecreases(l, k + runLength);
      runLength := runLength + 1;
    }
    RunIsUnique(l, k, runLength);
  }

  lemma RunIsUnique(l: Lane, k: nat, n: nat)
    requires (forall j :: k <= j < k + n ==> Hit(l, j)) && !Hit(l, k + n)
    ensures Run(l, k) == n
  {
    hide Hit;
    var end: nat := k + Run(l, k);
    OneHit(l, k, n, end);
  }

  lemma OneHit(l: Lane, k: nat, n: nat, j: nat)
    requires forall j :: k <= j < k + n ==> Hit(l, j)
    ensures k <= j < k + n ==> Hit(l, j)
  {
  }

  /** The slot loop over one accepted run. */
  method AcceptRun(l: Lane, st0: State, ghost done: seq<nat>, st: State, k: nat, n: nat)
    returns (st': State, error: Option<DiscoveryError>)
    requires AddPositions(l, st0, done) == Ok(st)
    ensures var r := AddPositions(l, st0, done + Range(k, n));
            r == if error.Some? then Err(error.value) else Ok(st')
  {
    hide AddSlot, Pos, AddPositions;
    st', error := st, None;
    ghost var run := Range(k, n);
    assert done + run[..0] == done;
    var i := 0;
    while i < n
      invariant 0 <= i <= n
      invariant AddPositions(l, st0, done + run[..i]) == Ok(st')
    {
      AddOne(l, st0, done + run[..i], k + i);
      assert done + run[..i] + [k + i] == done + run[..i + 1];
      var added := AddSlot(l.scan, st', Pos(l, k + i));
      if added.Err? {
        PositionsFail(l, st0, done + run[..i + 1], run[i + 1..]);
        assert done + run[..i + 1] + run[i + 1..] == done + run;
        return st', Some(added.error);
      }
      st' := added.value;
      i := i + 1;
    }
    assert run[..n] == run;
  }

  lemma AcceptedPoints(l: Lane, k: nat)
    requires RunAccepted(l, k)
    ensures Points(l.scan, Pos(l, k)) && !InUnverifiedDirectory(l.scan, Pos(l, k))
  {
    hide Points, InUnverifiedDirectory, ZeroBounded, Pos;
  }

  lemma JoinThree(done: seq<nat>, here: seq<nat>, rest: seq<nat>)
    ensures done + (here + rest) == (done + here) + rest && done + [] == done && [] + rest == rest
  {
  }

  /** One turn of the lane loop: what it accepts, and whether it doubts. */
  lemma LaneStep(l: Lane, k: nat, done: seq<nat>)
    requires In(l, k)
    ensures Left(l, Next(l, k)) < Left(l, k)
    ensures Next(l, k) == if RunAccepted(l, k) then k + Run(l, k) else k + 1
    ensures done + Positions(l, k)
            == (if RunAccepted(l, k) then done + Range(k, Run(l, k)) else done) + Positions(l, Next(l, k))
    ensures Doubtful(l, k) <==> (Points(l.scan, Pos(l, k)) && InUnverifiedDirectory(l.scan, Pos(l, k))) || Doubtful(l, Next(l, k))
    ensures RunAccepted(l, k)
            <==> Run(l, k) > 0 && (l.window.declared || Run(l, k) >= 2 || ZeroBounded(l, k, Run(l, k)))
    ensures RunAccepted(l, k) ==> Points(l.scan, Pos(l, k)) && !InUnverifiedDirectory(l.scan, Pos(l, k))
  {
    hide Points, InUnverifiedDirectory, ZeroBounded, Run, In, Pos, Left, Hit, Range;
    LeftShrinks(l, k, Next(l, k));
    JoinThree(done, if RunAccepted(l, k) then Range(k, Run(l, k)) else [], Positions(l, Next(l, k)));
    if RunAccepted(l, k) {
      AcceptedPoints(l, k);
    }
  }

  lemma LaneEnd(l: Lane, k: nat)
    requires !In(l, k)
    ensures Positions(l, k) == [] && !Doubtful(l, k)
  {
  }

  /** The address loop of one lane. */
  method ScanLane(l: Lane, st0: State) returns (result: Result<State, DiscoveryError>)
    ensures result == AddLane(l, st0)
  {
    hide AddSlot, Points, InUnverifiedDirectory, ZeroBounded, AddPositions, Positions, Doubtful, RunAccepted, Next, Left, In, Pos,
      Range, IsCandidate, Run;
    var st, unverified := st0, st0.unverified;
    ghost var done: seq<nat> := [];
    NoPositions(l, st0);
    assert [] + Positions(l, 0) == Positions(l, 0);
    var k: nat := 0;
    while In(l, k)
      invariant done + Positions(l, k) == Positions(l, 0)
      invariant AddPositions(l, st0, done) == Ok(st)
      invariant unverified || Doubtful(l, k) <==> st0.unverified || Doubtful(l, 0)
      decreases Left(l, k)
    {
      LaneStep(l, k, done);
      var rva := Pos(l, k);
      if !Points(l.scan, rva) {
        k := k + 1;
      } else if InUnverifiedDirectory(l.scan, rva) {
        unverified := true;
        k := k + 1;
      } else {
        var runLength := RunEnd(l, k);
        if runLength == 0 || (!l.window.declared && runLength < 2 && !ZeroBounded(l, k, runLength)) {
          k := k + 1;
        } else {
          ghost var run := Range(k, runLength);
          var error: Option<DiscoveryError>;
          st, error := AcceptRun(l, st0, done, st, k, runLength);
          if error.Some? {
            PositionsFail(l, st0, done + run, Positions(l, k + runLength));
            return Err(error.value);
          }
          done := done + run;
          k := k + runLength;
        }
      }
    }
    LaneEnd(l, k);
    assert done + [] == done;
    result := Ok(st.(unverified := unverified));
  }

  lemma NoPositions(l: Lane, st: State)
    ensures AddPositions(l, st, []) == Ok(st)
  {
  }

  /** The lane loop of one window. */
  method ScanWindow(s: Scan, w: Window, st0: State) returns (result: Result<State, DiscoveryError>)
    ensures result == AddLanes(s, w, st0, Width(s) / ALIGNMENT)
  {
    hide AddLane;
    var st := st0;
    var lane := 0;
    while lane < Width(s) / ALIGNMENT
      invariant 0 <= lane <= Width(s) / ALIGNMENT
      invariant AddLanes(s, w, st0, lane) == Ok(st)
    {
      var scanned := ScanLane(Lane(s, w, w.start + lane * ALIGNMENT), st);
      if scanned.Err? {
        LanesFail(s, w, st0, lane + 1, Width(s) / ALIGNMENT);
        return scanned;
      }
      st := scanned.value;
      lane := lane + 1;
    }
    result := Ok(st);
  }

  lemma {:induction false} LanesFail(s: Scan, w: Window, st: State, n: nat, n': nat)
    requires n <= n' && AddLanes(s, w, st, n).Err?
    ensures AddLanes(s, w, st, n') == AddLanes(s, w, st, n)
    decreases n' - n
  {
    hide AddLane;
    if n < n' {
      LanesFail(s, w, st, n + 1, n');
    }
  }

  /** The section loop. */
  method ScanSections(s: Scan) returns (result: Result<State, DiscoveryError>)
    ensures result == AddSections(s, s.layout.sections)
  {
    hide WindowOf, AddLanes;
    var sections := s.layout.sections;
    var st := State([], false);
    var index := 0;
    while index < |sections|
      invariant 0 <= index <= |sections|
      invariant AddSections(s, sections[..index]) == Ok(st)
    {
      assert sections[..index + 1][..index] == sections[..index];
      var w := WindowOf(s, sections[index]);
      if w.Err? {
        SectionsFail(s, sections, index + 1);
        return Err(w.error);
      }
      if w.value.Some? {
        var scanned := ScanWindow(s, w.value.value, st);
        if scanned.Err? {
          SectionsFail(s, sections, index + 1);
          return scanned;
        }
        st := scanned.value;
      }
      index := index + 1;
    }
    assert sections[..index] == sections;
    result := Ok(st);
  }

  lemma {:induction false} SectionsFail(s: Scan, sections: seq<Section>, n: nat)
    requires n <= |sections| && AddSections(s, sections[..n]).Err?
    ensures AddSections(s, sections) == AddSections(s, sections[..n])
    decreases |sections| - n
  {
    hide AddSection;
    if n < |sections| {
      assert sections[..n + 1][..n] == sections[..n];
      SectionsFail(s, sections, n + 1);
    } else {
      assert sections[..n] == sections;
    }
  }

  /** The hint loop of a packed image. */
  method ApplyHints(s: Scan, providers: Resolver, slots0: seq<Observed>,
                    hints: seq<Hint>) returns (result: Result<Hinted, DiscoveryError>)
    requires providers.Value() == s.catalogue
    ensures result == AddHints(s, Hinted(slots0, []), hints)
  {
    hide Resolution, PointerAt, IsSourceImport, Clashes, Holds;
    var slots, rejected: seq<U32> := slots0, [];
    var index := 0;
    while index < |hints|
      invariant 0 <= index <= |hints|
      invariant AddHints(s, Hinted(slots0, []), hints[..index]) == Ok(Hinted(slots, rejected))
    {
      var hint := hints[index];
      assert hints[..index + 1][..index] == hints[..index];
      index := index + 1;
      if Holds(slots, hint.slotRva) {
        continue;
      }
      var target := PointerAt(s, hint.slotRva);
      if IsSourceImport(s, hint.slotRva) || target == None || target == Some(0) {
        rejected := rejected + [hint.slotRva];
        continue;
      }
      var provider := providers.Resolve(target.value, Some(hint));
      if provider == None || Clashes(slots, hint.slotRva, Width(s)) {
        rejected := rejected + [hint.slotRva];
        continue;
      }
      if |slots| >= MAXIMUM_SLOTS {
        HintsFail(s, Hinted(slots0, []), hints, index);
        return Err(InvalidInput);
      }
      slots := slots + [Observed(hint.slotRva, target.value)];
    }
    assert hints[..index] == hints;
    result := Ok(Hinted(slots, rejected));
  }

  lemma {:induction false} HintsFail(s: Scan, h: Hinted, hints: seq<Hint>, n: nat)
    requires n <= |hints| && AddHints(s, h, hints[..n]).Err?
    ensures AddHints(s, h, hints) == AddHints(s, h, hints[..n])
    decreases |hints| - n
  {
    hide AddHint;
    if n < |hints| {
      assert hints[..n + 1][..n] == hints[..n];
      HintsFail(s, h, hints, n + 1);
    } else {
      assert hints[..n] == hints;
    }
  }

  /** Whether some slot does not resolve with the hints at hand. */
  method RequiresHints(s: Scan, providers: Resolver, slots: seq<Observed>, hints: seq<Hint>) returns (required: bool)
    requires providers.Value() == s.catalogue
    ensures required <==> s.shell || slots == []
                          || exists k :: 0 <= k < |slots| && Resolution(s.catalogue, slots[k].address,
                                                                        HintAt(hints, slots[k].rva)).None?
  {
    hide Resolution, HintAt;
    required := s.shell || slots == [];
    if !required {
      var k := 0;
      while k < |slots|
        invariant 0 <= k <= |slots|
        invariant forall i :: 0 <= i < k ==> Resolution(s.catalogue, slots[i].address, HintAt(hints, slots[i].rva)).Some?
      {
        var provider := providers.Resolve(slots[k].address, HintAt(hints, slots[k].rva));
        if provider == None {
          return true;
        }
        k := k + 1;
      }
    }
  }

  /** The plan loop over the sorted slots. */
  method BuildPlan(s: Scan, providers: Resolver, hints: seq<Hint>, slots: seq<Observed>, rejected0: seq<U32>)
    returns (modules: seq<ImportModule>, rejected: seq<U32>, complete: bool)
    requires providers.Value() == s.catalogue
    ensures var n := FirstUnprovided(s, hints, slots);
            complete == (n == |slots|)
            && Building(modules, rejected) == Build(s, hints, Building([], rejected0), if complete then slots else slots[..n + 1])
  {
    hide Resolution, HintAt, AddCandidate, FirstUnprovided;
    modules, rejected, complete := [], rejected0, true;
    var k := 0;
    while k < |slots|
      invariant 0 <= k <= |slots|
      invariant Building(modules, rejected) == Build(s, hints, Building([], rejected0), slots[..k])
      invariant forall i :: 0 <= i < k ==> Provided(s, hints, slots[i])
    {
      var slot := slots[k];
      assert slots[..k + 1][..k] == slots[..k];
      var hint := HintAt(hints, slot.rva);
      var selected := providers.Resolve(slot.address, hint);
      if selected == None && s.shell && hint != None {
        rejected := rejected + [slot.rva];
        selected := providers.Resolve(slot.address, None);
      }
      assert selected == Selected(s, hints, slot);
      var added := if selected == None then None else AddCandidate(modules, slot.rva, selected.value, Width(s));
      AddedIfProvided(s, hints, slot, modules);
      if added == None {
        UnprovidedIs(s, hints, slots, k);
        return modules, rejected, false;
      }
      modules := added.value;
      k := k + 1;
    }
    UnprovidedIs(s, hints, slots, k);
    assert slots[..k] == slots;
  }

  lemma AddedIfProvided(s: Scan, hints: seq<Hint>, slot: Observed, modules: seq<ImportModule>)
    ensures Provided(s, hints, slot)
            <==> Selected(s, hints, slot).Some? && AddCandidate(modules, slot.rva, Selected(s, hints, slot).value, Width(s)).Some?
  {
    hide Selected;
  }

  lemma {:induction false} UnprovidedIs(s: Scan, hints: seq<Hint>, slots: seq<Observed>, n: nat)
    requires n <= |slots| && forall i :: 0 <= i < n ==> Provided(s, hints, slots[i])
    requires n < |slots| ==> !Provided(s, hints, slots[n])
    ensures FirstUnprovided(s, hints, slots) == n
  {
    hide Provided;
    if n > 0 {
      UnprovidedIs(s, hints, slots[1..], n - 1);
    }
  }

  method Discover(input: Input) returns (result: Discovered)
    ensures result == Outcome(input)
  {
    hide AddSections, AddHints, Build, Resolution, FirstUnprovided, HintAt;
    if |input.dump| < input.layout.sizeOfImage || input.layout.sizeOfImage == 0 {
      return Discovered(Err(InvalidInput), []);
    }
    var providers := new Resolver(input.modules);
    var s := Scan(input.dump, input.layout,
                  input.layout.entryPoint != input.recoveredEntryPoint && input.layout.directories[IAT_DIRECTORY] == NO_DIRECTORY,
                  SourceOf(input), Catalogue(providers.byAddress, providers.forwarders));
    assert s == ScanOf(input);
    var scanned := ScanSections(s);
    if scanned.Err? {
      return Discovered(Err(scanned.error), []);
    }
    if scanned.value.unverified {
      return Discovered(Err(ImportsAmbiguous), []);
    }
    var slots, rejected: seq<U32> := scanned.value.slots, [];
    var hints := if !s.shell && s.source.complete then s.source.providers else [];
    var required := RequiresHints(s, providers, slots, hints);
    if required && s.shell {
      hints := input.upxHints;
      var hinted := ApplyHints(s, providers, slots, hints);
      if hinted.Err? {
        return Discovered(Err(hinted.error), []);
      }
      slots, rejected := hinted.value.slots, hinted.value.rejected;
    }
    if slots == [] {
      return Discovered(if s.layout.directories[IMPORT_DIRECTORY] == NO_DIRECTORY then Ok(ImportPlan([])) else Err(ImportsNotFound), []);
    }
    slots := Sorted(slots);
    var modules, warnings, complete := BuildPlan(s, providers, hints, slots, rejected);
    result := Discovered(if complete then Ok(ImportPlan(modules)) else Err(ImportsAmbiguous), warnings);
  }
}
