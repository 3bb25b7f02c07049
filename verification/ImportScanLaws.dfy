/** Which addresses of a dump are import slots, stated on addresses alone. */
module ImportScanLaws {
  import opened Bytes
  import opened PeFormat
  import opened ImportProviderCatalogue
  import opened ImportDiscovery
  import opened ImportDiscoveryLaws
  import ProviderLaws = ImportProviderLaws
  import Sets = FiniteSets

  // ---- single addresses ----

  ghost function SlotSize(input: Input): nat {
    if input.layout.format.Pe32? then 4 else 8
  }

  /** The pointer stored at `a`, if the dump holds all of it. */
  ghost function Stored(input: Input, a: int): Option<nat> {
    if Fits(input.dump, a, SlotSize(input)) then Some(ReadAt(input.dump, a, SlotSize(input))) else None
  }

  ghost predicate HasImportDirectory(input: Input) {
    input.layout.directories[1].address != 0 || input.layout.directories[1].size != 0
  }

  ghost predicate HasIatDirectory(input: Input) {
    input.layout.directories[12].address != 0 || input.layout.directories[12].size != 0
  }

  /** The import table of the source is the packer's, not the program's. */
  ghost predicate Shell(input: Input) {
    input.layout.entryPoint != input.recoveredEntryPoint && !HasIatDirectory(input)
  }

  /** The address belongs to the packer's own import table. */
  ghost predicate Occupied(input: Input, a: int) {
    Shell(input) && HasImportDirectory(input)
    && exists k :: 0 <= k < |input.analysed.occupied| && Touched(input, input.analysed.occupied[k], a)
  }

  ghost predicate Touched(input: Input, range: ImportRange, a: int) {
    a < range.end && range.begin < a + SlotSize(input)
  }

  /** It lies in a packer's import directory that could not be read. */
  ghost predicate Unread(input: Input, a: int) {
    var d, size := input.layout.directories[1], input.layout.sizeOfImage;
    Shell(input) && !input.analysed.complete && d.address != 0 && d.size <= (if d.address < size then size - d.address else 0)
    && d.address <= a < d.address + d.size
  }

  /** A usable export lies at the address. */
  ghost predicate ExportAt(input: Input, address: int) {
    exists m, k :: 0 <= m < |input.modules| && 0 <= k < |input.modules[m].exports| && ExportsAt(input.modules[m], k, address)
  }

  ghost predicate ExportsAt(m: RuntimeModule, k: nat, address: int)
    requires k < |m.exports|
  {
    var e := m.exports[k];
    m.moduleName != [] && m.imageSize != 0
    && e.address == address && address != 0 && e.moduleName != [] && (e.name.Some? || e.ordinal.Some?)
  }

  ghost predicate PointsOut(input: Input, a: int) {
    !Occupied(input, a) && Stored(input, a).Some? && Stored(input, a).value != 0 && ExportAt(input, Stored(input, a).value)
  }

  ghost predicate Candidate(input: Input, a: int) {
    PointsOut(input, a) && !Unread(input, a)
  }

  ghost predicate Zero(input: Input, a: int) {
    Stored(input, a) == Some(0)
  }

  // ---- what is scanned ----

  ghost function EndOf(input: Input, s: Section): int {
    var extent := if s.rawSize > s.virtualSize then s.rawSize else s.virtualSize;
    if s.virtualAddress + extent < input.layout.sizeOfImage then s.virtualAddress + extent else input.layout.sizeOfImage
  }

  ghost predicate HoldsAddress(s: Section, a: int) {
    s.virtualAddress <= a && (a < s.virtualAddress + s.virtualSize || a < s.virtualAddress + s.rawSize)
  }

  /** Readable or writable, or the home of an import directory. */
  ghost predicate MayHoldSlots(input: Input, s: Section) {
    (s.characteristics / 0x8000_0000 % 2 == 1 || s.characteristics / 0x4000_0000 % 2 == 1
     || HoldsAddress(s, input.layout.directories[1].address) || HoldsAddress(s, input.layout.directories[12].address))
    && s.virtualAddress + SlotSize(input) <= EndOf(input, s)
  }

  /** An aligned address of the scanned part of the section: all of it, or its
      overlap with a declared IAT. */
  ghost predicate Scanned(input: Input, s: Section, a: int) {
    var iat := input.layout.directories[12];
    MayHoldSlots(input, s) && a % 4 == 0 && s.virtualAddress <= a && a + SlotSize(input) <= EndOf(input, s)
    && (HasIatDirectory(input) ==> iat.address <= a && a + SlotSize(input) <= iat.address + iat.size)
  }

  /** A scanned candidate that is declared, has a candidate one pointer before
      or behind it, or stands between two zeros. */
  ghost predicate SlotOf(input: Input, s: Section, a: int) {
    var w := SlotSize(input);
    Scanned(input, s, a) && Candidate(input, a)
    && (HasIatDirectory(input)
        || (Scanned(input, s, a - w) && Candidate(input, a - w)) || (Scanned(input, s, a + w) && Candidate(input, a + w))
        || (s.virtualAddress <= a - w && Zero(input, a - w) && Scanned(input, s, a + w) && Zero(input, a + w)))
  }

  ghost predicate IsSlot(input: Input, a: int) {
    exists k :: 0 <= k < |input.layout.sections| && SlotOf(input, input.layout.sections[k], a)
  }

  /** Some scanned pointer to an export lies in the unread directory. */
  ghost predicate IsDoubtful(input: Input) {
    exists k, a: int :: 0 <= k < |input.layout.sections| && Scanned(input, input.layout.sections[k], a) && Doubt(input, a)
  }

  ghost predicate Doubt(input: Input, a: int) {
    PointsOut(input, a) && Unread(input, a)
  }

  // ---- the model's predicates, on addresses ----

  lemma SameAddress(input: Input, a: nat)
    ensures var s := ScanOf(input);
            Width(s) == SlotSize(input) && PointerAt(s, a) == Stored(input, a) && (s.shell <==> Shell(input))
            && (IsSourceImport(s, a) <==> Occupied(input, a)) && (InUnverifiedDirectory(s, a) <==> Unread(input, a))
            && (Points(s, a) <==> PointsOut(input, a)) && (IsCandidate(s, a) <==> Candidate(input, a))
              && (IsZero(s, a) <==> Zero(input, a))
  {
    hide CatalogueOf, ReadAt, ExportAt;
    var s := ScanOf(input);
    NoDirectoryIs(input);
    forall k | 0 <= k < |input.analysed.occupied|
      ensures Overlaps(input.analysed.occupied[k], a, Width(s)) <==> Touched(input, input.analysed.occupied[k], a)
    {
    }
    if PointerAt(s, a).Some? {
      ExportedAt(input, PointerAt(s, a).value);
    }
  }

  lemma ExportedAt(input: Input, address: U64)
    ensures address in CatalogueOf(input.modules).byAddress <==> ExportAt(input, address)
  {
    hide CatalogueOf;
    ProviderLaws.ContainsExactly(input.modules, address);
    if e :| ProviderLaws.Exported(input.modules, e) && e.address == address {
      var m :| 0 <= m < |input.modules| && ProviderLaws.Lists(input.modules[m], e);
      var k :| 0 <= k < |input.modules[m].exports| && input.modules[m].exports[k] == e;
      assert ExportsAt(input.modules[m], k, address);
    }
    if ExportAt(input, address) {
      var m, k :| 0 <= m < |input.modules| && 0 <= k < |input.modules[m].exports| && ExportsAt(input.modules[m], k, address);
      assert ProviderLaws.Lists(input.modules[m], input.modules[m].exports[k]);
      assert ProviderLaws.Exported(input.modules, input.modules[m].exports[k]);
    }
  }

  lemma NoDirectoryIs(input: Input)
    ensures input.layout.directories[1] == NO_DIRECTORY <==> !HasImportDirectory(input)
    ensures input.layout.directories[12] == NO_DIRECTORY <==> !HasIatDirectory(input)
  {
  }

  // ---- windows and lanes ----

  /** A declared IAT that cannot be one. */
  ghost predicate BadIat(input: Input) {
    var iat := input.layout.directories[12];
    HasIatDirectory(input) && (iat.address == 0 || iat.size < SlotSize(input) || iat.address + iat.size > input.layout.sizeOfImage)
  }

  /** The addresses of a window are those scanned in the section. */
  ghost predicate WindowIs(input: Input, s: Section, w: Window) {
    w.start % 4 == 0 && w.sectionStart == s.virtualAddress && w.end <= U32_MAX && (w.declared <==> HasIatDirectory(input))
    && forall a: int :: a % 4 == 0 && w.start <= a <= w.end <==> Scanned(input, s, a)
  }

  lemma WindowExact(input: Input, section: Section)
    ensures var w := WindowOf(ScanOf(input), section);
            (w.Err? <==> MayHoldSlots(input, section) && BadIat(input)) && (w.Err? ==> w.error == InvalidInput)
            && (w.Ok? && w.value.None? ==> forall a :: !Scanned(input, section, a))
            && (w.Ok? && w.value.Some? ==> WindowIs(input, section, w.value.value))
  {
    hide CatalogueOf;
    var s := ScanOf(input);
    NoDirectoryIs(input);
    MayHoldIs(input, section);
    if !Scannable(s, section) || section.virtualAddress >= s.layout.sizeOfImage {
    } else {
      var iat, start := input.layout.directories[12], section.virtualAddress;
      var end := Min(start + section.Extent(), s.layout.sizeOfImage);
      assert end == EndOf(input, section);
      if end - start < Width(s) {
      } else if !HasIatDirectory(input) {
        AlignedIs(input, section, start, end, start, false);
      } else if !BadIat(input) && !(iat.address >= end || iat.address + iat.size <= start) {
        AlignedIs(input, section, Max(start, iat.address), Min(end, iat.address + iat.size), start, true);
      }
    }
  }

  lemma MayHoldIs(input: Input, section: Section)
    ensures var s := ScanOf(input);
            MayHoldSlots(input, section)
            <==> Scannable(s, section) && section.virtualAddress < s.layout.sizeOfImage
                 && Width(s) <= Min(section.virtualAddress + section.Extent(), s.layout.sizeOfImage) - section.virtualAddress
  {
    hide CatalogueOf;
  }

  lemma AlignedIs(input: Input, section: Section, start: nat, end: nat, sectionStart: nat, declared: bool)
    requires MayHoldSlots(input, section) && sectionStart == section.virtualAddress && start <= end <= EndOf(input, section)
    requires declared <==> HasIatDirectory(input)
    requires var iat := input.layout.directories[12];
             start == (if declared && iat.address > sectionStart then iat.address else sectionStart)
             && end == if declared && iat.address + iat.size < EndOf(input, section) then iat.address + iat.size else EndOf(input, section)
    ensures var w := AlignedWindow(start, end, sectionStart, declared, SlotSize(input));
            if w.None? then forall a :: !Scanned(input, section, a) else WindowIs(input, section, w.value)
  {
    hide MayHoldSlots, EndOf;
    ImageBound(input, section);
    var w := AlignedWindow(start, end, sectionStart, declared, SlotSize(input));
    if w.Some? {
      forall a: int ensures a % 4 == 0 && w.value.start <= a <= w.value.end <==> Scanned(input, section, a) {
        RoundsUp(start, a);
      }
    }
  }

  lemma ImageBound(input: Input, section: Section)
    ensures EndOf(input, section) <= input.layout.sizeOfImage
  {
  }

  lemma RoundsUp(start: nat, a: int)
    ensures (start + (4 - start % 4) % 4) % 4 == 0
    ensures a % 4 == 0 ==> (start <= a <==> start + (4 - start % 4) % 4 <= a)
  {
  }

  /** The lanes of a window, position by position, visit its aligned addresses. */
  ghost predicate Visits(s: Scan, w: Window, n: nat, a: int) {
    exists lane: nat, j: nat :: lane < n && At(s, w, lane, j) == a && a <= w.end
  }

  ghost function LaneOf(s: Scan, w: Window, lane: nat): Lane {
    Lane(s, w, w.start + lane * ALIGNMENT)
  }

  ghost function At(s: Scan, w: Window, lane: nat, j: nat): nat {
    Pos(LaneOf(s, w, lane), j)
  }

  lemma LanesVisit(s: Scan, w: Window, a: int)
    requires w.start % 4 == 0
    ensures Visits(s, w, Width(s) / ALIGNMENT, a) <==> a % 4 == 0 && w.start <= a <= w.end
  {
    hide Width, At;
    if a % 4 == 0 && w.start <= a <= w.end {
      var lane, j := LaneAndStep(s, w, a);
    }
    forall lane: nat, j: nat | lane < Width(s) / ALIGNMENT ensures At(s, w, lane, j) % 4 == 0 && w.start <= At(s, w, lane, j) {
      Neighbours(s, w, lane, j);
    }
  }

  lemma LaneAndStep(s: Scan, w: Window, a: int) returns (lane: nat, j: nat)
    requires w.start % 4 == 0 && a % 4 == 0 && w.start <= a
    ensures lane < Width(s) / ALIGNMENT && At(s, w, lane, j) == a
  {
    var d := (a - w.start) / 4;
    assert a == w.start + 4 * d;
    if Width(s) == 4 {
      lane, j := 0, d;
    } else {
      lane, j := d % 2, d / 2;
    }
  }

  lemma Neighbours(s: Scan, w: Window, lane: nat, j: nat)
    requires lane < Width(s) / ALIGNMENT
    ensures At(s, w, lane, j + 1) == At(s, w, lane, j) + Width(s)
    ensures j > 0 ==> At(s, w, lane, j - 1) == At(s, w, lane, j) - Width(s)
    ensures j == 0 ==> At(s, w, lane, j) - Width(s) < w.start
    ensures w.start % 4 == 0 ==> At(s, w, lane, j) % 4 == 0 && w.start <= At(s, w, lane, j)
  {
  }

  lemma HitIs(input: Input, section: Section, w: Window, lane: nat, j: nat)
    requires WindowIs(input, section, w) && lane < SlotSize(input) / 4
    ensures var s := ScanOf(input);
            var a := At(s, w, lane, j);
            (In(LaneOf(s, w, lane), j) <==> Scanned(input, section, a))
            && (Hit(LaneOf(s, w, lane), j) <==> Scanned(input, section, a) && Candidate(input, a))
  {
    hide CatalogueOf, IsCandidate, Candidate, Scanned;
    var s := ScanOf(input);
    SameAddress(input, At(s, w, lane, j));
    Neighbours(s, w, lane, j);
  }

  /** Nothing before the window's first addresses is scanned. */
  lemma FirstHasNoPrevious(input: Input, section: Section, w: Window, lane: nat)
    requires WindowIs(input, section, w) && lane < SlotSize(input) / 4
    ensures !Scanned(input, section, At(ScanOf(input), w, lane, 0) - SlotSize(input))
  {
    hide Scanned;
    var s := ScanOf(input);
    SameAddress(input, 0);
    Neighbours(s, w, lane, 0);
  }

  lemma ZerosAre(input: Input, section: Section, w: Window, lane: nat, j: nat)
    requires WindowIs(input, section, w) && lane < SlotSize(input) / 4
    ensures var s, width := ScanOf(input), SlotSize(input);
            var a := At(s, w, lane, j);
            ZeroBounded(LaneOf(s, w, lane), j, 1)
            <==> section.virtualAddress <= a - width && Zero(input, a - width) && Scanned(input, section, a + width)
                 && Zero(input, a + width)
  {
    hide CatalogueOf, Zero, IsZero, Scanned, In;
    var s, width := ScanOf(input), SlotSize(input);
    var a := At(s, w, lane, j);
    SameAddress(input, a + width);
    Neighbours(s, w, lane, j);
    HitIs(input, section, w, lane, j + 1);
    if a >= width {
      SameAddress(input, a - width);
    }
  }

  /** A lane position counts exactly when its address is a slot of the section. */
  lemma CountsIsSlot(input: Input, section: Section, w: Window, lane: nat, j: nat)
    requires WindowIs(input, section, w) && lane < SlotSize(input) / 4
    ensures var s := ScanOf(input);
            Counts(LaneOf(s, w, lane), j) <==> SlotOf(input, section, At(s, w, lane, j))
  {
    hide ScanOf, Candidate, Zero, Scanned, Hit, ZeroBounded;
    var s := ScanOf(input);
    SameAddress(input, 0);
    Neighbours(s, w, lane, j);
    HitIs(input, section, w, lane, j);
    HitIs(input, section, w, lane, j + 1);
    ZerosAre(input, section, w, lane, j);
    if j > 0 {
      HitIs(input, section, w, lane, j - 1);
    } else {
      FirstHasNoPrevious(input, section, w, lane);
    }
  }

  lemma ScannedIsIn(input: Input, section: Section, a: int)
    requires a < 0
    ensures !Scanned(input, section, a) && !Zero(input, a)
  {
  }

  // ---- collecting ----

  lemma AddSlotHolds(s: Scan, st: State, rva: nat, a: nat)
    requires AddSlot(s, st, rva).Ok?
    ensures Holds(AddSlot(s, st, rva).value.slots, a) <==> Holds(st.slots, a) || a == rva
  {
    hide PointerAt, Clashes;
    var r := AddSlot(s, st, rva).value.slots;
    if !Holds(st.slots, rva) {
      assert r[|st.slots|].rva == rva && forall k :: 0 <= k < |st.slots| ==> r[k] == st.slots[k];
      if k :| 0 <= k < |st.slots| && st.slots[k].rva == a {
        assert r[k].rva == a;
      }
    }
  }

  lemma {:induction false} AddPositionsHolds(l: Lane, st: State, positions: seq<nat>, a: nat)
    requires AddPositions(l, st, positions).Ok?
    ensures Holds(AddPositions(l, st, positions).value.slots, a)
            <==> Holds(st.slots, a) || exists k :: 0 <= k < |positions| && Pos(l, positions[k]) == a
    decreases |positions|
  {
    hide AddSlot, Holds, Pos;
    if positions != [] {
      var n, rest := |positions| - 1, positions[..|positions| - 1];
      AddPositionsHolds(l, st, rest, a);
      AddSlotHolds(l.scan, AddPositions(l, st, rest).value, Pos(l, positions[n]), a);
      assert forall k :: 0 <= k < n ==> rest[k] == positions[k];
      if k :| 0 <= k < |rest| && Pos(l, rest[k]) == a {
        assert Pos(l, positions[k]) == a;
      }
      if k :| 0 <= k < |positions| && Pos(l, positions[k]) == a {
        assert k < n ==> Pos(l, rest[k]) == a;
      }
    }
  }

  lemma LaneHolds(l: Lane, st: State, a: nat)
    requires AddLane(l, st).Ok?
    ensures Holds(AddLane(l, st).value.slots, a) <==> Holds(st.slots, a) || exists j: nat :: Counts(l, j) && Pos(l, j) == a
  {
    hide Holds, Pos, Positions, Counts, AddPositions, Doubtful;
    var positions := Positions(l, 0);
    AddPositionsHolds(l, st, positions, a);
    if k :| 0 <= k < |positions| && Pos(l, positions[k]) == a {
      LaneScanIsExact(l, positions[k]);
    }
    if j: nat :| Counts(l, j) && Pos(l, j) == a {
      LaneScanIsExact(l, j);
      var k :| 0 <= k < |positions| && positions[k] == j;
      assert Pos(l, positions[k]) == a;
    }
  }

  /** The slots of a window's first `n` lanes. */
  lemma {:induction false} LanesHold(s: Scan, w: Window, st: State, n: nat, a: nat)
    requires AddLanes(s, w, st, n).Ok?
    ensures Holds(AddLanes(s, w, st, n).value.slots, a)
            <==> Holds(st.slots, a) || exists lane: nat, j: nat :: lane < n && Counts(LaneOf(s, w, lane), j) && At(s, w, lane, j) == a
  {
    hide Holds, AddLane, Counts, Pos;
    if n > 0 {
      LanesHold(s, w, st, n - 1, a);
      var l := LaneOf(s, w, n - 1);
      LaneHolds(l, AddLanes(s, w, st, n - 1).value, a);
      if j: nat :| Counts(l, j) && Pos(l, j) == a {
        assert At(s, w, n - 1, j) == a;
      }
    }
  }

  lemma SectionHoldsSlots(input: Input, section: Section, st: State, a: nat)
    requires AddSection(ScanOf(input), st, section).Ok?
    ensures Holds(AddSection(ScanOf(input), st, section).value.slots, a) <==> Holds(st.slots, a) || SlotOf(input, section, a)
  {
    hide CatalogueOf, WindowOf, Holds, AddLanes, SlotOf, Counts, At, LaneOf, Scanned, MayHoldSlots;
    var s := ScanOf(input);
    WindowExact(input, section);
    SlotIsScanned(input, section, a);
    var found := WindowOf(s, section).value;
    if found.Some? {
      var w, n := found.value, Width(s) / ALIGNMENT;
      LanesHold(s, w, st, n, a);
      LanesVisit(s, w, a);
      if lane: nat, j: nat :| lane < n && Counts(LaneOf(s, w, lane), j) && At(s, w, lane, j) == a {
        CountsIsSlot(input, section, w, lane, j);
      }
      if SlotOf(input, section, a) {
        var lane: nat, j: nat :| lane < n && At(s, w, lane, j) == a && a <= w.end;
        CountsIsSlot(input, section, w, lane, j);
      }
    }
  }

  lemma SlotIsScanned(input: Input, section: Section, a: int)
    ensures SlotOf(input, section, a) ==> Scanned(input, section, a)
  {
  }

  lemma {:induction false} SectionsHold(input: Input, n: nat, a: nat)
    requires n <= |input.layout.sections| && AddSections(ScanOf(input), input.layout.sections[..n]).Ok?
    ensures Holds(AddSections(ScanOf(input), input.layout.sections[..n]).value.slots, a)
            <==> exists k :: 0 <= k < n && SlotOf(input, input.layout.sections[k], a)
  {
    hide ScanOf, Holds, AddSection, SlotOf;
    var sections := input.layout.sections;
    if n > 0 {
      assert sections[..n][..n - 1] == sections[..n - 1];
      SectionsHold(input, n - 1, a);
      SectionHoldsSlots(input, sections[n - 1], AddSections(ScanOf(input), sections[..n - 1]).value, a);
    } else {
      NothingHeld(a);
    }
  }

  lemma NothingHeld(a: nat)
    ensures !Holds([], a)
  {
  }

  // ---- doubt ----

  ghost predicate DoubtAt(l: Lane, j: nat) {
    In(l, j) && Points(l.scan, Pos(l, j)) && InUnverifiedDirectory(l.scan, Pos(l, j))
  }

  lemma {:induction false} DoubtfulIs(l: Lane, k: nat)
    ensures Doubtful(l, k) <==> exists j: nat :: k <= j && DoubtAt(l, j)
    decreases Left(l, k)
  {
    hide Points, InUnverifiedDirectory, Run, Pos, RunAccepted, Left, In, Next;
    if In(l, k) {
      StepOf(l, k);
      DoubtfulStep(l, k);
      DoubtfulIs(l, Next(l, k));
      forall j: nat | k < j < Next(l, k) ensures !DoubtAt(l, j) {
        SkippedIsSure(l, k, j);
      }
    } else {
      DoubtfulEnd(l, k);
      forall j: nat | k <= j ensures !DoubtAt(l, j) {
        BeyondEnd(l, k, j);
      }
    }
  }

  /** A position that the loop skips is a candidate. */
  lemma SkippedIsSure(l: Lane, k: nat, j: nat)
    requires k < j < Next(l, k)
    ensures !DoubtAt(l, j)
  {
    hide Points, InUnverifiedDirectory, Pos, Left, In;
    assert Hit(l, j);
  }

  lemma DoubtfulStep(l: Lane, k: nat)
    requires In(l, k)
    ensures Doubtful(l, k) <==> DoubtAt(l, k) || Doubtful(l, Next(l, k))
  {
    hide Points, InUnverifiedDirectory, Run, Pos, RunAccepted, Next;
  }

  lemma DoubtfulEnd(l: Lane, k: nat)
    requires !In(l, k)
    ensures !Doubtful(l, k)
  {
  }

  lemma {:induction false} PositionsKeepDoubt(l: Lane, st: State, positions: seq<nat>)
    requires AddPositions(l, st, positions).Ok?
    ensures AddPositions(l, st, positions).value.unverified == st.unverified
    decreases |positions|
  {
    hide PointerAt, Clashes, Holds, Pos;
    if positions != [] {
      PositionsKeepDoubt(l, st, positions[..|positions| - 1]);
    }
  }

  lemma LaneDoubts(l: Lane, st: State)
    requires AddLane(l, st).Ok?
    ensures AddLane(l, st).value.unverified <==> st.unverified || exists j: nat :: DoubtAt(l, j)
  {
    hide Positions, AddPositions, Doubtful, DoubtAt;
    PositionsKeepDoubt(l, st, Positions(l, 0));
    DoubtfulIs(l, 0);
  }

  lemma {:induction false} LanesDoubt(s: Scan, w: Window, st: State, n: nat)
    requires AddLanes(s, w, st, n).Ok?
    ensures AddLanes(s, w, st, n).value.unverified
            <==> st.unverified || exists lane: nat, j: nat :: lane < n && DoubtAt(LaneOf(s, w, lane), j)
  {
    hide AddLane, DoubtAt;
    if n > 0 {
      LanesDoubt(s, w, st, n - 1);
      LaneDoubts(LaneOf(s, w, n - 1), AddLanes(s, w, st, n - 1).value);
    }
  }

  ghost predicate SectionDoubts(input: Input, section: Section) {
    exists a: int :: Scanned(input, section, a) && Doubt(input, a)
  }

  lemma SectionDoubtful(input: Input, section: Section, st: State)
    requires AddSection(ScanOf(input), st, section).Ok?
    ensures AddSection(ScanOf(input), st, section).value.unverified <==> st.unverified || SectionDoubts(input, section)
  {
    hide CatalogueOf, WindowOf, AddLanes, At, LaneOf, Scanned, MayHoldSlots, DoubtAt, Doubt;
    var s := ScanOf(input);
    WindowExact(input, section);
    var found := WindowOf(s, section).value;
    if found.Some? {
      var w, n := found.value, Width(s) / ALIGNMENT;
      LanesDoubt(s, w, st, n);
      if lane: nat, j: nat :| lane < n && DoubtAt(LaneOf(s, w, lane), j) {
        DoubtIs(input, section, w, lane, j);
        assert Scanned(input, section, At(s, w, lane, j)) && Doubt(input, At(s, w, lane, j));
      }
      if SectionDoubts(input, section) {
        var a: int :| Scanned(input, section, a) && Doubt(input, a);
        LanesVisit(s, w, a);
        ScannedAligned(input, section, a);
        var lane: nat, j: nat :| lane < n && At(s, w, lane, j) == a && a <= w.end;
        DoubtIs(input, section, w, lane, j);
      }
    }
  }

  lemma ScannedAligned(input: Input, section: Section, a: int)
    ensures Scanned(input, section, a) ==> a % 4 == 0
  {
  }

  lemma DoubtIs(input: Input, section: Section, w: Window, lane: nat, j: nat)
    requires WindowIs(input, section, w) && lane < SlotSize(input) / 4
    ensures var s := ScanOf(input);
            DoubtAt(LaneOf(s, w, lane), j)
            <==> Scanned(input, section, At(s, w, lane, j)) && Doubt(input, At(s, w, lane, j))
  {
    hide CatalogueOf, Points, PointsOut, InUnverifiedDirectory, Unread, Scanned;
    var s := ScanOf(input);
    SameAddress(input, At(s, w, lane, j));
    Neighbours(s, w, lane, j);
    assert In(LaneOf(s, w, lane), j) <==> Scanned(input, section, At(s, w, lane, j));
  }

  lemma {:induction false} SectionsDoubt(input: Input, n: nat)
    requires n <= |input.layout.sections| && AddSections(ScanOf(input), input.layout.sections[..n]).Ok?
    ensures AddSections(ScanOf(input), input.layout.sections[..n]).value.unverified
            <==> exists k :: 0 <= k < n && SectionDoubts(input, input.layout.sections[k])
  {
    hide ScanOf, AddSection, SectionDoubts;
    var sections := input.layout.sections;
    if n > 0 {
      assert sections[..n][..n - 1] == sections[..n - 1];
      SectionsDoubt(input, n - 1);
      SectionDoubtful(input, sections[n - 1], AddSections(ScanOf(input), sections[..n - 1]).value);
    }
  }

  // ---- when the scan fails ----

  /** All slot addresses; they lie in the image. */
  ghost function SlotSet(input: Input): set<int> {
    set a: int | 0 <= a < input.layout.sizeOfImage && IsSlot(input, a)
  }

  ghost predicate SlotsOverlap(input: Input) {
    exists a, b :: IsSlot(input, a) && IsSlot(input, b) && a < b < a + SlotSize(input)
  }

  ghost predicate HasBadIat(input: Input) {
    BadIat(input) && exists k :: 0 <= k < |input.layout.sections| && MayHoldSlots(input, input.layout.sections[k])
  }

  /** A slot list that holds slots only, none twice, none overlapping. */
  ghost predicate Collected(input: Input, slots: seq<Observed>) {
    SlotsSound(ScanOf(input), slots) && forall k :: 0 <= k < |slots| ==> IsSlot(input, slots[k].rva)
  }

  ghost function Rvas(slots: seq<Observed>): set<int> {
    set slot | slot in slots :: slot.rva
  }

  lemma RvasAre(slots: seq<Observed>)
    ensures forall a: nat :: a in Rvas(slots) <==> Holds(slots, a)
  {
    forall a: nat ensures a in Rvas(slots) <==> Holds(slots, a) {
      if Holds(slots, a) {
        var k :| 0 <= k < |slots| && slots[k].rva == a;
        assert slots[k] in slots;
      }
    }
  }

  lemma RvasGrow(rest: seq<Observed>, last: Observed)
    ensures Rvas(rest + [last]) == Rvas(rest) + {last.rva as int}
  {
    assert forall x :: x in rest + [last] <==> x in rest || x == last;
  }

  lemma {:induction false} RvasCounted(slots: seq<Observed>, width: nat)
    requires Apart(slots, width) && width > 0
    ensures |Rvas(slots)| == |slots| && forall a: nat :: a in Rvas(slots) <==> Holds(slots, a)
  {
    hide Rvas;
    RvasAre(slots);
    if slots == [] {
      NoRvas();
    } else {
      var n := |slots| - 1;
      var rest, last := slots[..n], slots[n];
      assert slots == rest + [last];
      assert forall k :: 0 <= k < n ==> rest[k] == slots[k];
      RvasCounted(rest, width);
      RvasGrow(rest, last);
      assert !Holds(rest, last.rva);
    }
  }

  lemma NoRvas()
    ensures Rvas([]) == {}
  {
  }

  lemma SlotInImage(input: Input, a: int)
    requires IsSlot(input, a)
    ensures 0 <= a && a + SlotSize(input) <= input.layout.sizeOfImage && a in SlotSet(input) && Candidate(input, a)
  {
    hide Candidate, MayHoldSlots;
    var k :| 0 <= k < |input.layout.sections| && SlotOf(input, input.layout.sections[k], a);
    ImageBound(input, input.layout.sections[k]);
  }

  /** More slots than allowed. */
  ghost predicate TooMany(input: Input) {
    |SlotSet(input)| > 16384
  }

  lemma CollectedWithin(input: Input, slots: seq<Observed>)
    requires Collected(input, slots)
    ensures |slots| == |Rvas(slots)| <= |SlotSet(input)| && Rvas(slots) <= SlotSet(input)
  {
    hide IsSlot, SlotSound, ScanOf;
    WidthIs(input);
    RvasCounted(slots, SlotSize(input));
    forall a | a in Rvas(slots) ensures a in SlotSet(input) {
      var slot :| slot in slots && slot.rva == a;
      SlotInImage(input, a);
    }
    Sets.SubsetCounts(Rvas(slots), SlotSet(input));
  }

  lemma WidthIs(input: Input)
    ensures Width(ScanOf(input)) == SlotSize(input) && ScanOf(input).layout == input.layout && ScanOf(input).dump == input.dump
  {
    hide CatalogueOf;
  }

  /** Adding a slot fails only for an overlap or for too many slots. */
  lemma AddSlotFails(input: Input, st: State, a: nat)
    requires Collected(input, st.slots) && IsSlot(input, a)
    ensures var r := AddSlot(ScanOf(input), st, a);
            if r.Ok? then Collected(input, r.value.slots)
            else (r.error == ImportsAmbiguous && SlotsOverlap(input)) || (r.error == InvalidInput && TooMany(input))
  {
    hide IsSlot, PointerAt, ScanOf, SlotsSound;
    var s := ScanOf(input);
    WidthIs(input);
    SlotInImage(input, a);
    SlotPoints(input, a);
    if Holds(st.slots, a) {
    } else if Clashes(st.slots, a, Width(s)) {
      var k :| 0 <= k < |st.slots| && st.slots[k].rva != a && st.slots[k].rva < a + Width(s) && a < st.slots[k].rva + Width(s);
      assert IsSlot(input, st.slots[k].rva);
    } else if |st.slots| + 1 > MAXIMUM_SLOTS {
      FullMeansTooMany(input, st.slots, a);
    } else {
      AddSlotKeeps(s, st, a);
    }
  }

  lemma SlotPoints(input: Input, a: nat)
    requires IsSlot(input, a)
    ensures Points(ScanOf(input), a) && PointerAt(ScanOf(input), a).Some? && a <= U32_MAX
  {
    hide ScanOf, IsSlot, Occupied, Unread;
    SlotInImage(input, a);
    SameAddress(input, a);
  }

  lemma FullMeansTooMany(input: Input, slots: seq<Observed>, a: nat)
    requires Collected(input, slots) && IsSlot(input, a) && !Holds(slots, a) && |slots| + 1 > MAXIMUM_SLOTS
    ensures TooMany(input)
  {
    hide IsSlot, ScanOf, SlotSound;
    WidthIs(input);
    RvasCounted(slots, SlotSize(input));
    CollectedWithin(input, slots);
    SlotInImage(input, a);
    assert Rvas(slots) + {a as int} <= SlotSet(input) && a !in Rvas(slots);
    Sets.SubsetCounts(Rvas(slots) + {a as int}, SlotSet(input));
  }

  /** Either all is well so far, or the error has its cause in the input. */
  ghost predicate Fares(input: Input, r: Result<State, DiscoveryError>) {
    if r.Ok? then Collected(input, r.value.slots)
    else
      (r.error == ImportsAmbiguous && SlotsOverlap(input))
      || (r.error == InvalidInput && (TooMany(input) || HasBadIat(input)))
  }

  lemma {:induction false} AddPositionsFare(input: Input, l: Lane, st: State, positions: seq<nat>)
    requires l.scan == ScanOf(input) && Collected(input, st.slots)
    requires forall k :: 0 <= k < |positions| ==> IsSlot(input, Pos(l, positions[k]))
    ensures Fares(input, AddPositions(l, st, positions))
    decreases |positions|
  {
    hide AddSlot, Collected, IsSlot, Pos, SlotsOverlap, TooMany, HasBadIat;
    if positions != [] {
      var n, rest := |positions| - 1, positions[..|positions| - 1];
      assert forall k :: 0 <= k < n ==> rest[k] == positions[k];
      AddPositionsFare(input, l, st, rest);
      if AddPositions(l, st, rest).Ok? {
        AddSlotFails(input, AddPositions(l, st, rest).value, Pos(l, positions[n]));
      }
    }
  }

  lemma LaneFares(input: Input, section: Section, w: Window, lane: nat, st: State)
    requires section in input.layout.sections && WindowIs(input, section, w) && lane < SlotSize(input) / 4
             && Collected(input, st.slots)
    ensures Fares(input, AddLane(LaneOf(ScanOf(input), w, lane), st))
  {
    hide Positions, AddPositions, Doubtful, Collected, SlotsOverlap, TooMany, HasBadIat, WindowIs, Counts, SlotOf, ScanOf;
    var l := LaneOf(ScanOf(input), w, lane);
    var positions := Positions(l, 0);
    forall k | 0 <= k < |positions| ensures IsSlot(input, Pos(l, positions[k])) {
      LaneScanIsExact(l, positions[k]);
      CountsIsSlot(input, section, w, lane, positions[k]);
    }
    AddPositionsFare(input, l, st, positions);
  }

  lemma {:induction false} LanesFare(input: Input, section: Section, w: Window, st: State, n: nat)
    requires section in input.layout.sections && WindowIs(input, section, w) && n <= SlotSize(input) / 4 && Collected(input, st.slots)
    ensures Fares(input, AddLanes(ScanOf(input), w, st, n))
  {
    hide Collected, SlotsOverlap, TooMany, HasBadIat, WindowIs, AddLane, ScanOf;
    if n > 0 {
      LanesFare(input, section, w, st, n - 1);
      if AddLanes(ScanOf(input), w, st, n - 1).Ok? {
        LaneFares(input, section, w, n - 1, AddLanes(ScanOf(input), w, st, n - 1).value);
      }
    }
  }

  lemma SectionFares(input: Input, section: Section, st: State)
    requires section in input.layout.sections && Collected(input, st.slots)
    ensures Fares(input, AddSection(ScanOf(input), st, section))
    ensures AddSection(ScanOf(input), st, section).Ok? ==> !(MayHoldSlots(input, section) && BadIat(input))
  {
    hide Collected, SlotsOverlap, TooMany, WindowIs, AddLanes, ScanOf, WindowOf, BadIat, MayHoldSlots, Scanned;
    var s := ScanOf(input);
    WindowExact(input, section);
    WidthIs(input);
    var found := WindowOf(s, section);
    if found.Ok? && found.value.Some? {
      LanesFare(input, section, found.value.value, st, Width(s) / ALIGNMENT);
    }
  }

  lemma NothingCollected(input: Input)
    ensures Collected(input, [])
  {
  }

  lemma {:induction false} SectionsFare(input: Input, n: nat)
    requires n <= |input.layout.sections|
    ensures var r := AddSections(ScanOf(input), input.layout.sections[..n]);
            Fares(input, r)
            && (r.Ok? ==> forall k :: 0 <= k < n ==> !(MayHoldSlots(input, input.layout.sections[k]) && BadIat(input)))
  {
    hide Collected, SlotsOverlap, TooMany, HasBadIat, AddSection, ScanOf, BadIat, MayHoldSlots;
    var sections := input.layout.sections;
    if n > 0 {
      assert sections[..n][..n - 1] == sections[..n - 1];
      SectionsFare(input, n - 1);
      var before := AddSections(ScanOf(input), sections[..n - 1]);
      if before.Ok? {
        SectionFares(input, sections[n - 1], before.value);
      }
    } else {
      NothingCollected(input);
    }
  }

  // ---- the scan ----

  ghost predicate ScanFails(input: Input) {
    HasBadIat(input) || SlotsOverlap(input) || TooMany(input)
  }

  ghost function ScanResult(input: Input): Result<State, DiscoveryError> {
    AddSections(ScanOf(input), input.layout.sections)
  }

  /** The scan finds exactly the slots, each once, notes exactly the doubts, and
      fails exactly where the IAT is bad, two slots overlap or there are too many. */
  lemma ScanIsExact(input: Input)
    ensures ScanResult(input).Ok? <==> !ScanFails(input)
    ensures ScanResult(input).Err? && ScanResult(input).error == ImportsAmbiguous ==> SlotsOverlap(input)
    ensures ScanResult(input).Err? && ScanResult(input).error != ImportsAmbiguous ==>
              ScanResult(input).error == InvalidInput && (HasBadIat(input) || TooMany(input))
    ensures ScanResult(input).Ok? ==>
              var slots := ScanResult(input).value.slots;
              Collected(input, slots) && Rvas(slots) == SlotSet(input) && |slots| == |SlotSet(input)|
              && (ScanResult(input).value.unverified <==> IsDoubtful(input))
  {
    hide Collected, AddSections, ScanOf, IsSlot, SlotsOverlap, TooMany, HasBadIat, Rvas, SlotSet, IsDoubtful;
    var sections := input.layout.sections;
    assert sections[..|sections|] == sections;
    SectionsFare(input, |sections|);
    if ScanResult(input).Ok? {
      var slots := ScanResult(input).value.slots;
      SlotsFound(input);
      SectionsDoubt(input, |sections|);
      DoubtfulSections(input);
      NoBadIat(input);
      CollectedWithin(input, slots);
      NoneOverlap(input, slots);
      CollectedCount(input, slots);
    }
  }

  lemma NoBadIat(input: Input)
    requires forall k :: 0 <= k < |input.layout.sections| ==> !(MayHoldSlots(input, input.layout.sections[k]) && BadIat(input))
    ensures !HasBadIat(input)
  {
    hide MayHoldSlots, BadIat;
  }

  lemma DoubtfulSections(input: Input)
    ensures IsDoubtful(input)
            <==> exists k :: 0 <= k < |input.layout.sections| && SectionDoubts(input, input.layout.sections[k])
  {
    hide Scanned, Doubt;
    if k :| 0 <= k < |input.layout.sections| && SectionDoubts(input, input.layout.sections[k]) {
      var a: int :| Scanned(input, input.layout.sections[k], a) && Doubt(input, a);
    }
    if IsDoubtful(input) {
      var k, a: int :| 0 <= k < |input.layout.sections| && Scanned(input, input.layout.sections[k], a) && Doubt(input, a);
      assert SectionDoubts(input, input.layout.sections[k]);
    }
  }

  lemma SlotsFound(input: Input)
    requires ScanResult(input).Ok? && Collected(input, ScanResult(input).value.slots)
    ensures Rvas(ScanResult(input).value.slots) == SlotSet(input)
  {
    hide Collected, AddSections, ScanOf, SlotOf;
    var sections, slots := input.layout.sections, ScanResult(input).value.slots;
    assert sections[..|sections|] == sections;
    CollectedWithin(input, slots);
    forall a | a in SlotSet(input) ensures a in Rvas(slots) {
      SectionsHold(input, |sections|, a);
      var k :| 0 <= k < |slots| && slots[k].rva == a;
      assert slots[k] in slots;
    }
  }

  lemma NoneOverlap(input: Input, slots: seq<Observed>)
    requires Collected(input, slots) && Rvas(slots) == SlotSet(input)
    ensures !SlotsOverlap(input)
  {
    hide IsSlot, SlotSound, ScanOf, SlotSet, Apart;
    WidthIs(input);
    RvasCounted(slots, SlotSize(input));
    forall a, b | IsSlot(input, a) && IsSlot(input, b) && a < b ensures a + SlotSize(input) <= b {
      SlotInImage(input, a);
      SlotInImage(input, b);
      HeldApart(slots, SlotSize(input), a, b);
    }
  }

  lemma HeldApart(slots: seq<Observed>, width: nat, a: nat, b: nat)
    requires Apart(slots, width) && Holds(slots, a) && Holds(slots, b) && a < b
    ensures a + width <= b
  {
  }

  lemma CollectedCount(input: Input, slots: seq<Observed>)
    requires Collected(input, slots) && |slots| == |SlotSet(input)|
    ensures !TooMany(input)
  {
    hide IsSlot, Apart, SlotSound, ScanOf;
  }
}
