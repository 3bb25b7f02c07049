/** What each rebuilt section is for: its name and its flags, in numbers, from
    what the page of each of its addresses overlaps. */
module SectionRightsLaws {
  import opened Bytes
  import opened PeFormat
  import opened ImportTypes
  import opened SectionLayoutRebuilder
  import opened SectionLayoutLaws

  /** The page of `a` in the source section, and what it may overlap. */
  ghost function PageBegin(source: Layout, a: nat): nat
    requires source.sectionAlignment > 0
  {
    a - a % source.sectionAlignment
  }

  ghost function PageEnd(source: Layout, s: Section, a: nat): int
    requires source.sectionAlignment > 0
  {
    var extent := if s.rawSize > s.virtualSize then s.rawSize else s.virtualSize;
    var next: int, last := PageBegin(source, a) + source.sectionAlignment, s.virtualAddress + extent;
    var end := if last < source.sizeOfImage then last else source.sizeOfImage;
    if next < end then next else end
  }

  ghost predicate Meeting(source: Layout, s: Section, a: nat, begin: int, end: int)
    requires source.sectionAlignment > 0
  {
    PageBegin(source, a) < end && begin < PageEnd(source, s, a)
  }

  ghost predicate OnRegion(source: Layout, regions: seq<Region>, s: Section, a: nat, writable: bool, executable: bool)
    requires source.sectionAlignment > 0
  {
    exists k :: 0 <= k < |regions| && regions[k].writable == writable && regions[k].executable == executable
      && Meeting(source, s, a, regions[k].offset, regions[k].offset + regions[k].size)
  }

  ghost predicate OnRange(source: Layout, ranges: seq<AddressRange>, s: Section, a: nat)
    requires source.sectionAlignment > 0
  {
    exists k :: 0 <= k < |ranges| && Meeting(source, s, a, ranges[k].begin, ranges[k].end)
  }

  ghost predicate OnIat(source: Layout, imports: Option<ImportPlan>, s: Section, a: nat)
    requires source.sectionAlignment > 0
  {
    imports.Some? && exists k :: 0 <= k < |imports.value.modules| && OnModule(source, imports.value.modules[k], s, a)
  }

  ghost predicate OnModule(source: Layout, m: ImportModule, s: Section, a: nat)
    requires source.sectionAlignment > 0
  {
    Meeting(source, s, a, m.firstThunk, m.firstThunk + |m.symbols| * (if source.format.Pe32? then 4 else 8))
  }

  ghost predicate OnDirectory(source: Layout, i: nat, s: Section, a: nat)
    requires source.sectionAlignment > 0 && i < 16
  {
    var d := source.directories[i];
    d.address != 0 && d.size != 0 && d.address + d.size <= source.sizeOfImage
    && Meeting(source, s, a, d.address, d.address + d.size)
  }

  /** A page with writable and executable memory. */
  ghost predicate Mixed(source: Layout, input: Input, s: Section, a: nat)
    requires source.sectionAlignment > 0
  {
    OnRegion(source, input.regions, s, a, true, true)
  }

  ghost predicate Written(source: Layout, input: Input, s: Section, a: nat)
    requires source.sectionAlignment > 0
  {
    OnRange(source, input.evidence.writable, s, a) || OnRegion(source, input.regions, s, a, true, false)
  }

  ghost predicate Executed(source: Layout, input: Input, s: Section, a: nat)
    requires source.sectionAlignment > 0
  {
    OnRange(source, input.evidence.code, s, a) || OnRegion(source, input.regions, s, a, false, true)
  }

  /** The source section may only be read. */
  ghost predicate OnlyRead(s: Section) {
    s.characteristics / 0x4000_0000 % 2 == 1 && s.characteristics / 0x8000_0000 % 2 == 0 && s.characteristics / 0x2000_0000 % 2 == 0
  }

  /** The name and flags of a section. */
  datatype Sort = Sort(name: string, flags: nat)

  /** The sort of section that address `a` of source section `s` goes to. */
  ghost function SortAt(source: Layout, input: Input, s: Section, a: nat): Sort
    requires source.sectionAlignment > 0
  {
    if Mixed(source, input, s, a) then Sort(".textw", 0xe000_0020)
    else if Written(source, input, s, a) then Sort(".data", 0xc000_0040)
    else if Executed(source, input, s, a) then Sort(".text", 0x6000_0020)
    else if OnIat(source, input.imports, s, a) then Sort(".iat", 0xc000_0040)
    else if OnDirectory(source, 3, s, a) then Sort(".pdata", 0x4000_0040)
    else if OnDirectory(source, 2, s, a) then Sort(".rsrc", 0x4000_0040)
    else if OnDirectory(source, 0, s, a) || OnlyRead(s) then Sort(".rdata", 0x4000_0040)
    else Sort(".data", 0xc000_0040)
  }

  // ---- the model's roles, in the same terms ----

  ghost function SortOf(role: Role): Sort {
    match role
    case Text => Sort(".text", 0x6000_0020)
    case ReadOnlyData => Sort(".rdata", 0x4000_0040)
    case WritableData => Sort(".data", 0xc000_0040)
    case ExceptionData => Sort(".pdata", 0x4000_0040)
    case ResourceData => Sort(".rsrc", 0x4000_0040)
    case ImportAddressTable => Sort(".iat", 0xc000_0040)
    case ExecutableWritable => Sort(".textw", 0xe000_0020)
  }

  lemma SortsDiffer(a: Role, b: Role)
    ensures SortOf(a) == SortOf(b) ==> a == b
  {
    assert SortOf(a).name[1] == SortOf(b).name[1] || SortOf(a) != SortOf(b);
  }

  lemma PageIs(source: Layout, s: Section, a: nat)
    requires source.sectionAlignment > 0 && InSource(source, s, a)
    ensures PageAt(source, s, a) == AddressRange(PageBegin(source, a), PageEnd(source, s, a))
  {
  }

  lemma TouchesIs(source: Layout, ranges: seq<AddressRange>, s: Section, a: nat)
    requires source.sectionAlignment > 0 && InSource(source, s, a)
    ensures Touches(PageAt(source, s, a), ranges) <==> OnRange(source, ranges, s, a)
  {
    hide PageAt, PageBegin, PageEnd;
    PageIs(source, s, a);
  }

  lemma OnAppend(source: Layout, ranges: seq<AddressRange>, last: AddressRange, s: Section, a: nat)
    requires source.sectionAlignment > 0
    ensures OnRange(source, ranges + [last], s, a) <==> OnRange(source, ranges, s, a) || Meeting(source, s, a, last.begin, last.end)
  {
    hide Meeting;
    var all := ranges + [last];
    assert all[|ranges|] == last && forall k :: 0 <= k < |ranges| ==> all[k] == ranges[k];
    if k :| 0 <= k < |ranges| && Meeting(source, s, a, ranges[k].begin, ranges[k].end) {
      assert Meeting(source, s, a, all[k].begin, all[k].end);
    }
    if Meeting(source, s, a, last.begin, last.end) {
      assert Meeting(source, s, a, all[|ranges|].begin, all[|ranges|].end);
    }
  }

  lemma RegionAppend(source: Layout, regions: seq<Region>, s: Section, a: nat, writable: bool, executable: bool)
    requires source.sectionAlignment > 0 && regions != []
    ensures var last := regions[|regions| - 1];
            OnRegion(source, regions, s, a, writable, executable)
            <==> OnRegion(source, regions[..|regions| - 1], s, a, writable, executable)
                 || (last.writable == writable && last.executable == executable
                     && Meeting(source, s, a, last.offset, last.offset + last.size))
  {
    hide Meeting;
    var before, n := regions[..|regions| - 1], |regions| - 1;
    assert forall k :: 0 <= k < n ==> before[k] == regions[k];
    if k :| 0 <= k < |before| && before[k].writable == writable && before[k].executable == executable
            && Meeting(source, s, a, before[k].offset, before[k].offset + before[k].size) {
      assert regions[k] == before[k];
    }
    if k :| 0 <= k < |regions| && regions[k].writable == writable && regions[k].executable == executable
            && Meeting(source, s, a, regions[k].offset, regions[k].offset + regions[k].size) {
      assert k < n ==> before[k] == regions[k];
    }
  }

  lemma {:induction false} RegionsAre(source: Layout, ranges: Ranges, regions: seq<Region>, s: Section, a: nat)
    requires source.sectionAlignment > 0 && WithRegions(source, ranges, regions).Some?
    ensures var r := WithRegions(source, ranges, regions).value;
            r.iat == ranges.iat
            && (OnRange(source, r.executableWritable, s, a)
                <==> OnRange(source, ranges.executableWritable, s, a) || OnRegion(source, regions, s, a, true, true))
            && (OnRange(source, r.writable, s, a)
                <==> OnRange(source, ranges.writable, s, a) || OnRegion(source, regions, s, a, true, false))
            && (OnRange(source, r.code, s, a)
                <==> OnRange(source, ranges.code, s, a) || OnRegion(source, regions, s, a, false, true))
  {
    hide Meeting, OnRange, OnRegion;
    if regions == [] {
      NoRegion(source, s, a);
    } else {
      var last, before := regions[|regions| - 1], regions[..|regions| - 1];
      RegionsAre(source, ranges, before, s, a);
      var b := WithRegions(source, ranges, before).value;
      var range := AddressRange(last.offset, last.offset + last.size);
      RegionAppend(source, regions, s, a, true, true);
      RegionAppend(source, regions, s, a, true, false);
      RegionAppend(source, regions, s, a, false, true);
      OnAppend(source, b.executableWritable, range, s, a);
      OnAppend(source, b.writable, range, s, a);
      OnAppend(source, b.code, range, s, a);
    }
  }

  lemma NoRegion(source: Layout, s: Section, a: nat)
    requires source.sectionAlignment > 0
    ensures forall w, x :: !OnRegion(source, [], s, a, w, x)
  {
  }

  lemma ModuleIs(source: Layout, modules: seq<ImportModule>, s: Section, a: nat)
    requires source.sectionAlignment > 0 && modules != [] && IatRanges(source, modules).Some?
    ensures IatRanges(source, modules[1..]).Some? && IatRanges(source, modules).value != []
    ensures IatRanges(source, modules).value[1..] == IatRanges(source, modules[1..]).value
    ensures var r := IatRanges(source, modules).value[0]; Meeting(source, s, a, r.begin, r.end) <==> OnModule(source, modules[0], s, a)
  {
    var m, rest := modules[0], IatRanges(source, modules[1..]);
    var size := |m.symbols| * source.format.PointerSize();
    assert IatRanges(source, modules).value == [AddressRange(m.firstThunk, m.firstThunk + size)] + rest.value;
  }

  lemma FirstOrRest(source: Layout, ranges: seq<AddressRange>, s: Section, a: nat)
    requires source.sectionAlignment > 0 && ranges != []
    ensures OnRange(source, ranges, s, a) <==> Meeting(source, s, a, ranges[0].begin, ranges[0].end)
                                               || OnRange(source, ranges[1..], s, a)
  {
    hide Meeting;
    var rest := ranges[1..];
    if k :| 0 <= k < |rest| && Meeting(source, s, a, rest[k].begin, rest[k].end) {
      assert ranges[k + 1] == rest[k];
    }
    if k :| 0 <= k < |ranges| && Meeting(source, s, a, ranges[k].begin, ranges[k].end) {
      assert k > 0 ==> rest[k - 1] == ranges[k];
    }
  }

  lemma FirstOrRestModule(source: Layout, modules: seq<ImportModule>, s: Section, a: nat)
    requires source.sectionAlignment > 0 && modules != []
    ensures OnIat(source, Some(ImportPlan(modules)), s, a)
            <==> OnModule(source, modules[0], s, a) || OnIat(source, Some(ImportPlan(modules[1..])), s, a)
  {
    hide OnModule;
    var rest := modules[1..];
    if k :| 0 <= k < |rest| && OnModule(source, rest[k], s, a) {
      assert modules[k + 1] == rest[k];
    }
    if k :| 0 <= k < |modules| && OnModule(source, modules[k], s, a) {
      assert k > 0 ==> rest[k - 1] == modules[k];
    }
  }

  lemma {:induction false} IatRangesAre(source: Layout, modules: seq<ImportModule>, s: Section, a: nat)
    requires source.sectionAlignment > 0 && IatRanges(source, modules).Some?
    ensures OnRange(source, IatRanges(source, modules).value, s, a) <==> OnIat(source, Some(ImportPlan(modules)), s, a)
  {
    hide Meeting, OnModule;
    if modules != [] {
      hide OnRange, OnIat;
      ModuleIs(source, modules, s, a);
      FirstOrRest(source, IatRanges(source, modules).value, s, a);
      FirstOrRestModule(source, modules, s, a);
      IatRangesAre(source, modules[1..], s, a);
    }
  }

  lemma DirectoryIs(source: Layout, i: nat, s: Section, a: nat)
    requires source.sectionAlignment > 0 && InSource(source, s, a) && i < DIRECTORY_COUNT
    ensures TouchesDirectory(PageAt(source, s, a), source, i) <==> OnDirectory(source, i, s, a)
  {
    hide PageAt, PageBegin, PageEnd;
    PageIs(source, s, a);
  }

  lemma RangesOf(source: Layout, input: Input, s: Section, a: nat)
    requires source.sectionAlignment > 0 && GatherRanges(source, input).Some?
    ensures var r := GatherRanges(source, input).value;
            (OnRange(source, r.executableWritable, s, a) <==> Mixed(source, input, s, a))
            && (OnRange(source, r.writable, s, a) <==> Written(source, input, s, a))
            && (OnRange(source, r.code, s, a) <==> Executed(source, input, s, a))
            && (OnRange(source, r.iat, s, a) <==> OnIat(source, input.imports, s, a))
  {
    hide Meeting, OnRegion, OnModule, WithRegions, IatRanges;
    var modules := if input.imports.Some? then input.imports.value.modules else [];
    var iat := IatRanges(source, modules).value;
    IatRangesAre(source, modules, s, a);
    NoIat(source, s, a);
    RegionsAre(source, Ranges(input.evidence.code, input.evidence.writable, [], iat), input.regions, s, a);
  }

  lemma NoIat(source: Layout, s: Section, a: nat)
    requires source.sectionAlignment > 0
    ensures !OnIat(source, Some(ImportPlan([])), s, a)
  {
  }

  /** The branches of the page classification. */
  lemma ClassifiedSort(source: Layout, input: Input, s: Section, a: nat)
    requires source.sectionAlignment > 0 && GatherRanges(source, input).Some? && InSource(source, s, a)
    ensures SortOf(Classify(PageAt(source, s, a), s, GatherRanges(source, input).value, source)) == SortAt(source, input, s, a)
  {
    hide PageAt, GatherRanges, Touches, TouchesDirectory, OnRange, Mixed, Written, Executed, OnIat, OnDirectory;
    var r := GatherRanges(source, input).value;
    RangesOf(source, input, s, a);
    TouchesIs(source, r.executableWritable, s, a);
    TouchesIs(source, r.writable, s, a);
    TouchesIs(source, r.code, s, a);
    TouchesIs(source, r.iat, s, a);
    DirectoryIs(source, 3, s, a);
    DirectoryIs(source, 2, s, a);
    DirectoryIs(source, 0, s, a);
  }

  // ---- the rebuilt sections ----

  /** The bytes of a name and the flags of a rebuilt section of the sort, the
      `ordinal`-th of its sort: the name, a digit unless it is the first, zeros. */
  ghost predicate IsSort(section: RebuiltSection, sort: Sort, ordinal: nat)
    requires |sort.name| < 8
  {
    section.characteristics == sort.flags
    && (forall i :: 0 <= i < |sort.name| ==> section.name[i] == sort.name[i] as int)
    && section.name[|sort.name|] == (if ordinal == 0 then 0 else 0x30 + if ordinal < 9 then ordinal else 9)
    && forall i :: |sort.name| < i < 8 ==> section.name[i] == 0
  }

  lemma BaseNameIs(role: Role)
    ensures |SortOf(role).name| == |BaseName(role)| < 8
    ensures forall i :: 0 <= i < |BaseName(role)| ==> BaseName(role)[i] == SortOf(role).name[i] as int
    ensures Characteristics(role) == SortOf(role).flags
  {
  }

  lemma MadeName(role: Role, ordinal: nat)
    ensures var base, name := BaseName(role), MakeName(role, ordinal);
            (forall i :: 0 <= i < |base| ==> name[i] == base[i])
            && name[|base|] == (if ordinal == 0 then 0 else 0x30 + if ordinal < 9 then ordinal else 9)
            && forall i :: |base| < i < 8 ==> name[i] == 0
  {
    hide BaseName;
  }

  lemma RoleIsSort(planned: seq<PlannedRange>, k: nat)
    requires k < |planned| && planned[k].range.begin <= planned[k].range.end
    ensures |SortOf(planned[k].role).name| < 8
    ensures IsSort(SectionOf(planned, k), SortOf(planned[k].role), RoleCount(planned[..k], planned[k].role))
  {
    hide RoleCount, BaseName, MakeName, Characteristics, SortOf;
    BaseNameIs(planned[k].role);
    MadeName(planned[k].role, RoleCount(planned[..k], planned[k].role));
  }

  /** The address lies in the source section and in the image. */
  ghost predicate Covers(source: Layout, s: Section, a: int) {
    s.virtualAddress <= a < source.sizeOfImage
    && (a < s.virtualAddress + s.virtualSize || a < s.virtualAddress + s.rawSize)
  }

  lemma CoversIs(source: Layout, s: Section, a: int)
    ensures Covers(source, s, a) <==> InSource(source, s, a)
  {
  }

  /** The address lies in a source section that sends it to the sort. */
  ghost predicate GoesTo(source: Layout, input: Input, a: nat, sort: Sort)
    requires source.sectionAlignment > 0
  {
    exists k :: 0 <= k < |source.sections| && Covers(source, source.sections[k], a)
      && SortAt(source, input, source.sections[k], a) == sort
  }

  /** How many of the sections start where the sort is. */
  ghost function OfSort(source: Layout, input: Input, sections: seq<RebuiltSection>, sort: Sort): nat
    requires source.sectionAlignment > 0
  {
    if sections == [] then 0
    else
      var n := |sections| - 1;
      OfSort(source, input, sections[..n], sort) + if GoesTo(source, input, sections[n].virtualAddress, sort) then 1 else 0
  }

  /** All addresses of a planned range are of its role's sort. */
  lemma RangeSort(source: Layout, input: Input, j: nat, k: nat, a: nat)
    requires OrderedSections(source.sections) && Planned(source, input).Some? && source.sectionAlignment > 0
    requires j < |Planned(source, input).value| && Inside(Planned(source, input).value[j], a)
    requires k < |source.sections| && Covers(source, source.sections[k], a)
    ensures SortAt(source, input, source.sections[k], a) == SortOf(Planned(source, input).value[j].role)
  {
    hide Planned, GatherRanges, AllPages, Classify, SortAt, SortOf, PageAt, Covers, Absorbed, Maximal, InSomeRange, InSomeSource;
    CoversIs(source, source.sections[k], a);
    PlannedFacts(source, input);
    var i := PageInsideRange(source, input, k, a);
    assert i == j;
    ClassifiedSort(source, input, source.sections[k], a);
  }

  lemma StartGoesTo(source: Layout, input: Input, j: nat, role: Role)
    requires OrderedSections(source.sections) && Planned(source, input).Some? && source.sectionAlignment > 0
    requires j < |Planned(source, input).value|
    ensures GoesTo(source, input, Planned(source, input).value[j].range.begin, SortOf(role))
            <==> Planned(source, input).value[j].role == role
  {
    hide Planned, GatherRanges, AllPages, SortAt, SortOf, Covers, Absorbed, Maximal;
    var p := Planned(source, input).value;
    var a := p[j].range.begin;
    PlannedFacts(source, input);
    SortsDiffer(p[j].role, role);
    assert Inside(p[j], a) && InSomeRange(p, a);
    var k :| 0 <= k < |source.sections| && InSource(source, source.sections[k], a);
    CoversIs(source, source.sections[k], a);
    RangeSort(source, input, j, k, a);
    forall i | 0 <= i < |source.sections| && Covers(source, source.sections[i], a)
      ensures SortAt(source, input, source.sections[i], a) == SortOf(p[j].role)
    {
      RangeSort(source, input, j, i, a);
    }
  }

  lemma {:induction false} CountIs(source: Layout, input: Input, n: nat, role: Role)
    requires OrderedSections(source.sections) && Outcome(source, input).Ok? && source.sectionAlignment > 0
    requires Planned(source, input).Some? && n <= |Planned(source, input).value| == |Outcome(source, input).value.sections|
    ensures OfSort(source, input, Outcome(source, input).value.sections[..n], SortOf(role))
            == RoleCount(Planned(source, input).value[..n], role)
  {
    hide Planned, SortOf, GoesTo, MakeName, Characteristics;
    if n > 0 {
      var p, s := Planned(source, input).value, Outcome(source, input).value.sections;
      CountIs(source, input, n - 1, role);
      StartGoesTo(source, input, n - 1, role);
      assert p[..n][..n - 1] == p[..n - 1] && s[..n][..n - 1] == s[..n - 1];
      assert s[n - 1].virtualAddress == p[n - 1].range.begin;
    }
  }

  /** Every address of a rebuilt section is of the section's own sort, which
      gives its flags and its name, numbered among the sections of the sort. */
  lemma SectionsAreSorted(source: Layout, input: Input, j: nat, k: nat, a: nat)
    requires OrderedSections(source.sections) && Outcome(source, input).Ok?
    requires j < |Outcome(source, input).value.sections| && k < |source.sections| && Covers(source, source.sections[k], a)
    requires var s := Outcome(source, input).value.sections[j]; s.virtualAddress <= a < s.virtualAddress + s.virtualSize
    ensures source.sectionAlignment > 0
    ensures var sort, s := SortAt(source, input, source.sections[k], a), Outcome(source, input).value.sections;
            |sort.name| < 8 && IsSort(s[j], sort, OfSort(source, input, s[..j], sort))
  {
    hide Planned, SortAt, SortOf, Covers, IsSort, MakeName, Characteristics, RoleCount, OfSort;
    SectionsPartitionTheImage(source, input);
    var p := Planned(source, input).value;
    assert Inside(p[j], a);
    RangeSort(source, input, j, k, a);
    RoleIsSort(p, j);
    CountIs(source, input, j, p[j].role);
  }

  /** Sections that touch are of different sorts. */
  lemma NeighboursDiffer(source: Layout, input: Input, j: nat, k: nat, l: nat)
    requires OrderedSections(source.sections) && Outcome(source, input).Ok? && source.sectionAlignment > 0
    requires j + 1 < |Outcome(source, input).value.sections| && k < |source.sections| && l < |source.sections|
    requires var s := Outcome(source, input).value.sections;
             s[j].virtualAddress + s[j].virtualSize == s[j + 1].virtualAddress
             && Covers(source, source.sections[k], s[j].virtualAddress) && Covers(source, source.sections[l], s[j + 1].virtualAddress)
    ensures var s := Outcome(source, input).value.sections;
            SortAt(source, input, source.sections[k], s[j].virtualAddress)
            != SortAt(source, input, source.sections[l], s[j + 1].virtualAddress)
  {
    hide Planned, SortAt, SortOf, Covers, MakeName, Characteristics, RoleCount;
    SectionsPartitionTheImage(source, input);
    var p, s := Planned(source, input).value, Outcome(source, input).value.sections;
    assert Inside(p[j], s[j].virtualAddress) && Inside(p[j + 1], s[j + 1].virtualAddress);
    RangeSort(source, input, j, k, s[j].virtualAddress);
    RangeSort(source, input, j + 1, l, s[j + 1].virtualAddress);
    SortsDiffer(p[j].role, p[j + 1].role);
  }

  /** The rights and contents of a rebuilt section, flag by flag. */
  lemma RightsAreExact(source: Layout, input: Input, j: nat, k: nat, a: nat)
    requires OrderedSections(source.sections) && Outcome(source, input).Ok? && source.sectionAlignment > 0
    requires j < |Outcome(source, input).value.sections| && k < |source.sections| && Covers(source, source.sections[k], a)
    requires var s := Outcome(source, input).value.sections[j]; s.virtualAddress <= a < s.virtualAddress + s.virtualSize
    ensures var f, s := Outcome(source, input).value.sections[j].characteristics, source.sections[k];
            var code := Mixed(source, input, s, a) || (Executed(source, input, s, a) && !Written(source, input, s, a));
            var table := OnDirectory(source, 3, s, a) || OnDirectory(source, 2, s, a) || OnDirectory(source, 0, s, a);
            f / 0x4000_0000 % 2 == 1
            && (f / 0x2000_0000 % 2 == 1 <==> code) && (f / 0x20 % 2 == 1 <==> code) && (f / 0x40 % 2 == 1 <==> !code)
            && (f / 0x8000_0000 % 2 == 1
                <==> Mixed(source, input, s, a) || Written(source, input, s, a)
                     || (!code && (OnIat(source, input.imports, s, a) || (!table && !OnlyRead(s)))))
  {
    hide Outcome, Mixed, Written, Executed, OnIat, OnDirectory, OnlyRead, Covers, OfSort;
    SectionsAreSorted(source, input, j, k, a);
  }
}
