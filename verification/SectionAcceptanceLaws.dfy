/** Which captures can be split into sections: the demands on the input, and the
    number of sections that results. */
module SectionAcceptanceLaws {
  import opened Bytes
  import opened Alignment
  import opened PeFormat
  import opened ImportTypes
  import opened SectionLayoutRebuilder
  import opened SectionLayoutLaws
  import opened SectionRightsLaws
  import PowerLaws = PeParserLaws

  ghost predicate SectionStands(source: Layout, s: Section)
    requires source.sectionAlignment > 0
  {
    (s.virtualSize != 0 || s.rawSize != 0) && s.virtualAddress < source.sizeOfImage && s.virtualAddress % source.sectionAlignment == 0
  }

  ghost predicate ModuleStands(source: Layout, m: ImportModule) {
    m.symbols != [] && m.firstThunk + |m.symbols| * (if source.format.Pe32? then 4 else 8) <= source.sizeOfImage
  }

  ghost predicate RegionStands(source: Layout, region: Region) {
    region.offset < source.sizeOfImage && region.offset + region.size <= source.sizeOfImage
  }

  /** Power-of-two alignments, a whole image, some evidence of code, and
      sections, modules and regions that lie in the image. */
  ghost predicate Divisible(source: Layout, input: Input) {
    source.sections != [] && source.sizeOfImage != 0 && PowerLaws.Power(source.sectionAlignment)
      && PowerLaws.Power(source.fileAlignment)
    && source.sizeOfImage <= |input.loadedImage| && input.oep < source.sizeOfImage && input.evidence.code != []
    && (input.imports.Some? ==>
          forall k :: 0 <= k < |input.imports.value.modules| ==> ModuleStands(source, input.imports.value.modules[k]))
    && (forall k :: 0 <= k < |input.regions| ==> RegionStands(source, input.regions[k]))
    && source.sectionAlignment > 0 && forall k :: 0 <= k < |source.sections| ==> SectionStands(source, source.sections[k])
  }

  // ---- the demands ----

  lemma {:induction false} ModulesAre(source: Layout, modules: seq<ImportModule>)
    ensures IatRanges(source, modules).Some? <==> forall k :: 0 <= k < |modules| ==> ModuleStands(source, modules[k])
  {
    if modules != [] {
      var m, rest := modules[0], modules[1..];
      ModulesAre(source, rest);
      ModuleIs(source, m);
      hide ModuleStands;
      assert forall k :: 0 < k < |modules| ==> modules[k] == rest[k - 1];
      if forall k :: 0 <= k < |modules| ==> ModuleStands(source, modules[k]) {
        forall k | 0 <= k < |rest| ensures ModuleStands(source, rest[k]) {
          assert rest[k] == modules[k + 1];
        }
      }
    }
  }

  lemma ModuleIs(source: Layout, m: ImportModule)
    ensures var w := source.format.PointerSize();
            ModuleStands(source, m)
            <==> !(m.symbols == [] || |m.symbols| > U32_MAX / w || m.firstThunk >= source.sizeOfImage
                   || |m.symbols| * w > source.sizeOfImage - m.firstThunk)
  {
  }

  lemma {:induction false} RegionsStand(source: Layout, ranges: Ranges, regions: seq<Region>)
    ensures WithRegions(source, ranges, regions).Some? <==> forall k :: 0 <= k < |regions| ==> RegionStands(source, regions[k])
  {
    if regions != [] {
      var n := |regions| - 1;
      RegionsStand(source, ranges, regions[..n]);
      assert RegionInside(source, regions[n]) <==> RegionStands(source, regions[n]);
      assert forall k :: 0 <= k < n ==> regions[k] == regions[..n][k];
    }
  }

  lemma {:induction false} SectionsStand(source: Layout, ranges: Ranges, sections: seq<Section>)
    requires source.sectionAlignment > 0
    ensures AllPages(source, ranges, sections).Some? <==> forall k :: 0 <= k < |sections| ==> SectionStands(source, sections[k])
    ensures AllPages(source, ranges, sections).Some? && sections != [] ==> AllPages(source, ranges, sections).value != []
  {
    hide PagesFrom;
    if sections != [] {
      var n := |sections| - 1;
      SectionsStand(source, ranges, sections[..n]);
      assert SectionUsable(source, sections[n]) <==> SectionStands(source, sections[n]);
      assert forall k :: 0 <= k < n ==> sections[k] == sections[..n][k];
      if SectionUsable(source, sections[n]) {
        SomePage(source, ranges, sections[n]);
      }
    }
  }

  lemma SomePage(source: Layout, ranges: Ranges, section: Section)
    requires source.sectionAlignment > 0 && SectionUsable(source, section)
    ensures PagesFrom(source, ranges, section, section.virtualAddress) != []
  {
    hide Classify;
  }

  /** Planning succeeds exactly when the image can be divided. */
  lemma PlannedIff(source: Layout, input: Input)
    ensures Planned(source, input).Some? <==> Divisible(source, input)
  {
    hide IatRanges, WithRegions, AllPages, Merge, ModuleStands, RegionStands, SectionStands, IsPowerOfTwo;
    PowerLaws.PowerIs(source.sectionAlignment);
    PowerLaws.PowerIs(source.fileAlignment);
    PowerPositive(source.sectionAlignment);
    if InputValid(source, input) && input.evidence.code != [] {
      var modules := if input.imports.Some? then input.imports.value.modules else [];
      ModulesAre(source, modules);
      var iat := IatRanges(source, modules);
      if iat.Some? {
        var ranges := Ranges(input.evidence.code, input.evidence.writable, [], iat.value);
        RegionsStand(source, ranges, input.regions);
        var all := WithRegions(source, ranges, input.regions);
        if all.Some? {
          SectionsStand(source, all.value, source.sections);
        }
      }
    }
  }

  lemma PowerPositive(v: nat)
    ensures IsPowerOfTwo(v) ==> v > 0
  {
  }

  // ---- the number of sections ----

  /** A section starts at `a`: the address before it is of another sort, or of no section. */
  ghost predicate Starts(source: Layout, input: Input, a: int)
    requires source.sectionAlignment > 0
  {
    0 <= a
    && exists k :: 0 <= k < |source.sections| && Covers(source, source.sections[k], a)
                   && !(a > 0 && GoesTo(source, input, a - 1, SortAt(source, input, source.sections[k], a)))
  }

  ghost function StartSet(source: Layout, input: Input): set<int>
    requires source.sectionAlignment > 0
  {
    set a: int | 0 <= a < source.sizeOfImage && Starts(source, input, a)
  }

  ghost function Begins(planned: seq<PlannedRange>): set<int> {
    set k: nat | k < |planned| :: planned[k].range.begin as int
  }

  lemma {:induction false} BeginsCounted(planned: seq<PlannedRange>)
    requires Proper(planned) && Ordered(planned)
    ensures |Begins(planned)| == |planned|
  {
    if planned != [] {
      var n := |planned| - 1;
      var rest, last := planned[..n], planned[n].range.begin as int;
      assert forall k :: 0 <= k < n ==> rest[k] == planned[k];
      BeginsCounted(rest);
      assert Begins(planned) == Begins(rest) + {last};
      forall k | 0 <= k < n ensures planned[k].range.begin < last {
        assert planned[k].range.begin < planned[k].range.end <= planned[n].range.begin;
      }
      assert last !in Begins(rest);
    }
  }

  /** The address before a range is of another sort, wherever it lies. */
  lemma NotBefore(source: Layout, input: Input, i: nat, l: nat)
    requires OrderedSections(source.sections) && Planned(source, input).Some? && source.sectionAlignment > 0
    requires i < |Planned(source, input).value| && l < |source.sections| && Planned(source, input).value[i].range.begin > 0
    requires Covers(source, source.sections[l], Planned(source, input).value[i].range.begin - 1)
    ensures var p := Planned(source, input).value;
            SortAt(source, input, source.sections[l], p[i].range.begin - 1) != SortOf(p[i].role)
  {
    hide Planned, SortAt, SortOf, Covers, Absorbed, InSomeSource;
    var p := Planned(source, input).value;
    var a := p[i].range.begin;
    PlannedFacts(source, input);
    CoversIs(source, source.sections[l], a - 1);
    InThat(source, l, a - 1);
    var j :| 0 <= j < |p| && Inside(p[j], a - 1);
    RangeSort(source, input, j, l, a - 1);
    RangeBefore(p, j, i);
    SortsDiffer(p[j].role, p[i].role);
  }

  lemma StartOfRange(source: Layout, input: Input, i: nat)
    requires OrderedSections(source.sections) && Planned(source, input).Some? && source.sectionAlignment > 0
    requires i < |Planned(source, input).value|
    ensures Starts(source, input, Planned(source, input).value[i].range.begin)
  {
    hide Planned, SortAt, SortOf, Covers, Absorbed, InSomeSource, Maximal;
    var p := Planned(source, input).value;
    var a := p[i].range.begin;
    PlannedFacts(source, input);
    assert Inside(p[i], a) && InSomeRange(p, a);
    var k := SourceOf(source, a);
    RangeSort(source, input, i, k, a);
    forall l: nat | l < |source.sections| && a > 0 && Covers(source, source.sections[l], a - 1)
      ensures SortAt(source, input, source.sections[l], a - 1) != SortOf(p[i].role)
    {
      NotBefore(source, input, i, l);
    }
  }

  lemma SourceOf(source: Layout, a: nat) returns (k: nat)
    requires InSomeSource(source, source.sections, a)
    ensures k < |source.sections| && Covers(source, source.sections[k], a)
  {
    k :| k < |source.sections| && InSource(source, source.sections[k], a);
    CoversIs(source, source.sections[k], a);
  }

  lemma InThat(source: Layout, k: nat, a: int)
    requires k < |source.sections| && InSource(source, source.sections[k], a)
    ensures InSomeSource(source, source.sections, a)
  {
  }

  /** The range that holds the address before another's start ends there. */
  lemma RangeBefore(p: seq<PlannedRange>, j: nat, i: nat)
    requires Proper(p) && Ordered(p) && Maximal(p) && i < |p| && j < |p| && Inside(p[j], p[i].range.begin - 1)
    ensures j + 1 == i && p[j].range.end == p[i].range.begin && p[j].role != p[i].role
  {
    assert p[i].range.begin < p[i].range.end && p[j].range.begin < p[j].range.end;
    assert forall x :: 0 <= x < j ==> p[x].range.end <= p[j].range.begin;
    if j + 1 < |p| {
      assert p[j].range.end <= p[j + 1].range.begin < p[j + 1].range.end;
      assert forall x :: j + 1 < x < |p| ==> p[j + 1].range.end <= p[x].range.begin;
    }
  }

  /** Inside a range the address before is of the same sort. */
  lemma InsideGoesOn(source: Layout, input: Input, i: nat, a: nat)
    requires OrderedSections(source.sections) && Planned(source, input).Some? && source.sectionAlignment > 0
    requires i < |Planned(source, input).value| && Planned(source, input).value[i].range.begin < a < Planned(source, input).value[i].range.end
    ensures GoesTo(source, input, a - 1, SortOf(Planned(source, input).value[i].role))
  {
    hide Planned, SortAt, SortOf, Covers, Absorbed, InSomeSource, Maximal;
    var p := Planned(source, input).value;
    PlannedFacts(source, input);
    assert Inside(p[i], a - 1) && InSomeRange(p, a - 1);
    var l := SourceOf(source, a - 1);
    RangeSort(source, input, i, l, a - 1);
  }

  lemma RangeOfStart(source: Layout, input: Input, a: nat)
    requires OrderedSections(source.sections) && Planned(source, input).Some? && source.sectionAlignment > 0
    requires Starts(source, input, a)
    ensures a in Begins(Planned(source, input).value)
  {
    hide Planned, SortAt, SortOf, Covers, Absorbed, InSomeSource, Maximal;
    var p := Planned(source, input).value;
    PlannedFacts(source, input);
    var k :| 0 <= k < |source.sections| && Covers(source, source.sections[k], a)
      && !(a > 0 && GoesTo(source, input, a - 1, SortAt(source, input, source.sections[k], a)));
    CoversIs(source, source.sections[k], a);
    InThat(source, k, a);
    var i: nat :| i < |p| && Inside(p[i], a);
    RangeSort(source, input, i, k, a);
    if p[i].range.begin < a {
      InsideGoesOn(source, input, i, a);
    }
  }

  lemma StartsInImage(source: Layout, input: Input, a: int)
    requires source.sectionAlignment > 0 && Starts(source, input, a)
    ensures 0 <= a < source.sizeOfImage
  {
    hide SortAt, GoesTo;
  }

  lemma StartsAreBegins(source: Layout, input: Input)
    requires OrderedSections(source.sections) && Planned(source, input).Some? && source.sectionAlignment > 0
    ensures StartSet(source, input) == Begins(Planned(source, input).value)
  {
    hide Planned, Starts;
    var p := Planned(source, input).value;
    forall a ensures a in StartSet(source, input) <==> a in Begins(p) {
      if a in StartSet(source, input) {
        RangeOfStart(source, input, a);
      }
      if a in Begins(p) {
        var k: nat :| k < |p| && p[k].range.begin == a;
        StartOfRange(source, input, k);
        StartsInImage(source, input, a);
      }
    }
  }

  /** A section plan exists exactly for a divisible image of at most 95 sections;
      it has one section per start. */
  lemma DivisionIsExact(source: Layout, input: Input)
    requires OrderedSections(source.sections)
    ensures var r := Outcome(source, input);
            (r == Err(InvalidInput) <==> !Divisible(source, input))
            && (r.Ok? <==> Divisible(source, input) && |StartSet(source, input)| <= 95)
            && (r.Ok? ==> |r.value.sections| == |StartSet(source, input)| && r.value.tlsDirectory == input.evidence.tlsDirectory)
  {
    hide Planned, Divisible, StartSet, MakeName, Characteristics, RoleCount;
    PlannedIff(source, input);
    DivisiblePositive(source, input);
    if Planned(source, input).Some? {
      PlannedFacts(source, input);
      StartsAreBegins(source, input);
      BeginsCounted(Planned(source, input).value);
    }
  }

  lemma DivisiblePositive(source: Layout, input: Input)
    ensures Divisible(source, input) ==> source.sectionAlignment > 0
  {
  }
}
