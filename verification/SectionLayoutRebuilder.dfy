/** Splits the captured image into sections by the role of each page. */
module SectionLayoutRebuilder {
  import opened Bytes
  import opened Alignment
  import opened PeFormat
  import opened ImportTypes

  const MAXIMUM_SECTIONS := 95

  datatype Role =
    | Text | ReadOnlyData | WritableData | ExceptionData | ResourceData | ImportAddressTable
    | ExecutableWritable

  datatype AddressRange = AddressRange(begin: U32, end: U32)

  /** One captured memory region of the image. */
  datatype Region = Region(offset: U64, size: U64, readable: bool, writable: bool, executable: bool)

  /** What the code and TLS discovery found; its scanners are not modelled. */
  datatype CodeEvidence = CodeEvidence(
    code: seq<AddressRange>, writable: seq<AddressRange>, tlsDirectory: Option<Directory>)

  datatype Input = Input(
    loadedImage: Bytes, oep: U32, imports: Option<ImportPlan>, evidence: CodeEvidence, regions: seq<Region>)

  datatype RebuiltSection = RebuiltSection(
    name: SectionName, virtualAddress: U32, virtualSize: U32, characteristics: U32)

  datatype SectionPlan = SectionPlan(sections: seq<RebuiltSection>, tlsDirectory: Option<Directory>)

  datatype LayoutError = InvalidInput | TooManySections

  /** All ranges that decide a page's role. */
  datatype Ranges = Ranges(
    code: seq<AddressRange>, writable: seq<AddressRange>, executableWritable: seq<AddressRange>,
    iat: seq<AddressRange>)

  datatype PlannedRange = PlannedRange(range: AddressRange, role: Role)

  predicate Overlaps(left: AddressRange, right: AddressRange) {
    left.begin < right.end && right.begin < left.end
  }

  predicate Touches(page: AddressRange, ranges: seq<AddressRange>) {
    exists k :: 0 <= k < |ranges| && Overlaps(page, ranges[k])
  }

  predicate ValidDirectory(directory: Directory, imageSize: U32) {
    directory.address != 0 && directory.size != 0 && directory.address < imageSize
    && directory.size <= imageSize - directory.address
  }

  predicate TouchesDirectory(page: AddressRange, source: Layout, index: nat)
    requires index < DIRECTORY_COUNT
  {
    var d := source.directories[index];
    ValidDirectory(d, source.sizeOfImage) && Overlaps(page, AddressRange(d.address, d.address + d.size))
  }

  function Classify(page: AddressRange, section: Section, ranges: Ranges, source: Layout): Role {
    if Touches(page, ranges.executableWritable) then ExecutableWritable
    else if Touches(page, ranges.writable) then WritableData
    else if Touches(page, ranges.code) then Text
    else if Touches(page, ranges.iat) then ImportAddressTable
    else if TouchesDirectory(page, source, EXCEPTION_DIRECTORY) then ExceptionData
    else if TouchesDirectory(page, source, RESOURCE_DIRECTORY) then ResourceData
    else if TouchesDirectory(page, source, EXPORT_DIRECTORY) then ReadOnlyData
    else if Has(section.characteristics, MEM_READ) && !Has(section.characteristics, MEM_WRITE)
         && !Has(section.characteristics, MEM_EXECUTE) then ReadOnlyData
    else WritableData
  }

  function BaseName(role: Role): (name: Bytes)
    ensures 4 <= |name| <= 6
  {
    match role
    case Text => [0x2e, 0x74, 0x65, 0x78, 0x74]
    case ReadOnlyData => [0x2e, 0x72, 0x64, 0x61, 0x74, 0x61]
    case WritableData => [0x2e, 0x64, 0x61, 0x74, 0x61]
    case ExceptionData => [0x2e, 0x70, 0x64, 0x61, 0x74, 0x61]
    case ResourceData => [0x2e, 0x72, 0x73, 0x72, 0x63]
    case ImportAddressTable => [0x2e, 0x69, 0x61, 0x74]
    case ExecutableWritable => [0x2e, 0x74, 0x65, 0x78, 0x74, 0x77]
  }

  function Characteristics(role: Role): U32 {
    match role
    case Text => CNT_CODE + MEM_EXECUTE + MEM_READ
    case WritableData => CNT_INITIALIZED_DATA + MEM_READ + MEM_WRITE
    case ImportAddressTable => CNT_INITIALIZED_DATA + MEM_READ + MEM_WRITE
    case ExecutableWritable => CNT_CODE + MEM_EXECUTE + MEM_READ + MEM_WRITE
    case _ => CNT_INITIALIZED_DATA + MEM_READ
  }

  function MakeName(role: Role, ordinal: nat): SectionName {
    var base := BaseName(role);
    var name := base + Zeros(8 - |base|);
    if ordinal == 0 then name else name[|base| := 0x30 + Min(ordinal, 9)]
  }

  // ---- the ranges ----

  function IatRanges(source: Layout, modules: seq<ImportModule>): Option<seq<AddressRange>> {
    if modules == [] then Some([])
    else
      var m, pointerSize := modules[0], source.format.PointerSize();
      var size := |m.symbols| * pointerSize;
      if m.symbols == [] || |m.symbols| > U32_MAX / pointerSize || m.firstThunk >= source.sizeOfImage
         || size > source.sizeOfImage - m.firstThunk then None
      else
        var rest := IatRanges(source, modules[1..]);
        if rest.None? then None
        else Some([AddressRange(m.firstThunk, m.firstThunk + size)] + rest.value)
  }

  predicate RegionInside(source: Layout, region: Region) {
    region.offset < source.sizeOfImage && region.size <= source.sizeOfImage - region.offset
  }

  /** The ranges after classifying the captured regions `regions[..n]`. */
  function WithRegions(source: Layout, ranges: Ranges, regions: seq<Region>): Option<Ranges> {
    if regions == [] then Some(ranges)
    else
      var before := WithRegions(source, ranges, regions[..|regions| - 1]);
      var region := regions[|regions| - 1];
      if before.None? || !RegionInside(source, region) then None
      else
        var r, b := AddressRange(region.offset, region.offset + region.size), before.value;
        Some(if region.writable && region.executable
               then b.(executableWritable := b.executableWritable + [r])
             else if region.writable then b.(writable := b.writable + [r])
             else if region.executable then b.(code := b.code + [r])
             else b)
  }

  function GatherRanges(source: Layout, input: Input): Option<Ranges> {
    if input.evidence.code == [] then None
    else
      var iat := IatRanges(source, if input.imports.Some? then input.imports.value.modules else []);
      if iat.None? then None
      else WithRegions(source, Ranges(input.evidence.code, input.evidence.writable, [], iat.value), input.regions)
  }

  // ---- the pages ----

  function SectionEnd(source: Layout, section: Section): (end: U32)
    ensures end <= source.sizeOfImage
  {
    Min(section.virtualAddress + section.Extent(), source.sizeOfImage)
  }

  predicate SectionUsable(source: Layout, section: Section)
    requires source.sectionAlignment > 0
  {
    section.Extent() != 0 && section.virtualAddress < source.sizeOfImage
    && section.virtualAddress % source.sectionAlignment == 0
  }

  /** The pages of one source section from `cursor` on, with their roles. */
  function PagesFrom(source: Layout, ranges: Ranges, section: Section, cursor: U32): (pages: seq<PlannedRange>)
    requires source.sectionAlignment > 0
    decreases SectionEnd(source, section) - cursor
  {
    var end := SectionEnd(source, section);
    if cursor >= end then []
    else
      var page := AddressRange(cursor, Min(cursor + source.sectionAlignment, end));
      [PlannedRange(page, Classify(page, section, ranges, source))] + PagesFrom(source, ranges, section, page.end)
  }

  function AllPages(source: Layout, ranges: Ranges, sections: seq<Section>): (pages: Option<seq<PlannedRange>>)
    requires source.sectionAlignment > 0
  {
    if sections == [] then Some([])
    else
      var before := AllPages(source, ranges, sections[..|sections| - 1]);
      var section := sections[|sections| - 1];
      if before.None? || !SectionUsable(source, section) then None
      else Some(before.value + PagesFrom(source, ranges, section, section.virtualAddress))
  }

  /** A page extends the last range if it continues it in the same role. */
  function AddPage(planned: seq<PlannedRange>, page: PlannedRange): (r: seq<PlannedRange>)
    ensures r != []
  {
    if planned != [] && planned[|planned| - 1].role == page.role
       && planned[|planned| - 1].range.end == page.range.begin then
      var last := planned[|planned| - 1];
      planned[..|planned| - 1] + [PlannedRange(AddressRange(last.range.begin, page.range.end), page.role)]
    else
      planned + [page]
  }

  function Merge(pages: seq<PlannedRange>): seq<PlannedRange> {
    if pages == [] then [] else AddPage(Merge(pages[..|pages| - 1]), pages[|pages| - 1])
  }

  /** How many of the first `n` ranges have the role. */
  function RoleCount(planned: seq<PlannedRange>, role: Role): nat {
    if planned == [] then 0
    else
      RoleCount(planned[..|planned| - 1], role) + if planned[|planned| - 1].role == role then 1 else 0
  }

  function SectionOf(planned: seq<PlannedRange>, k: nat): RebuiltSection
    requires k < |planned| && planned[k].range.begin <= planned[k].range.end
  {
    var p := planned[k];
    RebuiltSection(MakeName(p.role, RoleCount(planned[..k], p.role)), p.range.begin, p.range.end - p.range.begin,
                   Characteristics(p.role))
  }

  ghost predicate Proper(planned: seq<PlannedRange>) {
    forall k :: 0 <= k < |planned| ==> planned[k].range.begin < planned[k].range.end
  }

  lemma {:induction false} PagesAreProper(source: Layout, ranges: Ranges, section: Section, cursor: U32)
    requires source.sectionAlignment > 0
    ensures Proper(PagesFrom(source, ranges, section, cursor))
    decreases SectionEnd(source, section) - cursor
  {
    hide Classify;
    if cursor < SectionEnd(source, section) {
      PagesAreProper(source, ranges, section, Min(cursor + source.sectionAlignment, SectionEnd(source, section)));
    }
  }

  lemma {:induction false} AllPagesAreProper(source: Layout, ranges: Ranges, sections: seq<Section>)
    requires source.sectionAlignment > 0 && AllPages(source, ranges, sections).Some?
    ensures Proper(AllPages(source, ranges, sections).value)
  {
    hide PagesFrom;
    if sections != [] {
      var section := sections[|sections| - 1];
      AllPagesAreProper(source, ranges, sections[..|sections| - 1]);
      PagesAreProper(source, ranges, section, section.virtualAddress);
    }
  }

  lemma {:induction false} MergeIsProper(pages: seq<PlannedRange>)
    requires Proper(pages)
    ensures Proper(Merge(pages))
  {
    if pages != [] {
      MergeIsProper(pages[..|pages| - 1]);
    }
  }

  predicate InputValid(source: Layout, input: Input) {
    source.sections != [] && source.sizeOfImage != 0 && IsPowerOfTwo(source.sectionAlignment)
    && IsPowerOfTwo(source.fileAlignment) && source.sizeOfImage <= |input.loadedImage|
    && input.oep < source.sizeOfImage
  }

  /** The merged ranges, before they are named. */
  function Planned(source: Layout, input: Input): (planned: Option<seq<PlannedRange>>)
    ensures planned.Some? ==> Proper(planned.value)
  {
    if !InputValid(source, input) then None
    else
      var ranges := GatherRanges(source, input);
      if ranges.None? then None
      else
        var pages := AllPages(source, ranges.value, source.sections);
        if pages.None? || pages.value == [] then None
        else
          AllPagesAreProper(source, ranges.value, source.sections);
          MergeIsProper(pages.value);
          Some(Merge(pages.value))
  }

  function Outcome(source: Layout, input: Input): Result<SectionPlan, LayoutError> {
    var planned := Planned(source, input);
    if planned.None? then Err(InvalidInput)
    else if |planned.value| > MAXIMUM_SECTIONS then Err(TooManySections)
    else
      var p := planned.value;
      Ok(SectionPlan(seq(|p|, k requires 0 <= k < |p| => SectionOf(p, k)), input.evidence.tlsDirectory))
  }

  // ---- the program ----

  method DiscoverIatRanges(source: Layout, imports: Option<ImportPlan>) returns (ranges: Option<seq<AddressRange>>)
    ensures ranges == IatRanges(source, if imports.Some? then imports.value.modules else [])
  {
    if imports.None? {
      return Some([]);
    }
    var modules := imports.value.modules;
    var found: seq<AddressRange> := [];
    var pointerSize := source.format.PointerSize();
    ghost var all := IatRanges(source, modules);
    assert modules[0..] == modules && (all.Some? ==> [] + all.value == all.value);
    var index := 0;
    while index < |modules|
      invariant 0 <= index <= |modules|
      invariant var rest := IatRanges(source, modules[index..]);
                all == if rest.None? then None else Some(found + rest.value)
    {
      var m := modules[index];
      assert modules[index..][1..] == modules[index + 1..];
      if m.symbols == [] || |m.symbols| > U32_MAX / pointerSize {
        return None;
      }
      var size := |m.symbols| * pointerSize;
      if m.firstThunk >= source.sizeOfImage || size > source.sizeOfImage - m.firstThunk {
        return None;
      }
      var range := AddressRange(m.firstThunk, m.firstThunk + size);
      assert forall rest: seq<AddressRange> :: found + ([range] + rest) == (found + [range]) + rest;
      found := found + [range];
      index := index + 1;
    }
    assert modules[index..] == [] && found + [] == found;
    return Some(found);
  }

  method ClassifyRegions(source: Layout, ranges: Ranges, regions: seq<Region>) returns (r: Option<Ranges>)
    ensures r == WithRegions(source, ranges, regions)
  {
    var b := ranges;
    var index := 0;
    while index < |regions|
      invariant 0 <= index <= |regions|
      invariant WithRegions(source, ranges, regions[..index]) == Some(b)
    {
      var region := regions[index];
      assert regions[..index + 1][..index] == regions[..index];
      if region.offset >= source.sizeOfImage || region.size > source.sizeOfImage - region.offset {
        RegionsFail(source, ranges, regions, index + 1);
        return None;
      }
      var range := AddressRange(region.offset, region.offset + region.size);
      if region.writable && region.executable {
        b := b.(executableWritable := b.executableWritable + [range]);
      } else if region.writable {
        b := b.(writable := b.writable + [range]);
      } else if region.executable {
        b := b.(code := b.code + [range]);
      }
      index := index + 1;
    }
    assert regions[..|regions|] == regions;
    r := Some(b);
  }

  lemma {:induction false} RegionsFail(source: Layout, ranges: Ranges, regions: seq<Region>, n: nat)
    requires n <= |regions| && WithRegions(source, ranges, regions[..n]).None?
    ensures WithRegions(source, ranges, regions).None?
    decreases |regions| - n
  {
    if n < |regions| {
      assert regions[..n + 1][..n] == regions[..n];
      RegionsFail(source, ranges, regions, n + 1);
    } else {
      assert regions[..n] == regions;
    }
  }

  lemma {:induction false} MergeAppend(first: seq<PlannedRange>, page: PlannedRange)
    ensures Merge(first + [page]) == AddPage(Merge(first), page)
  {
    assert (first + [page])[..|first|] == first;
  }

  /** The page loop of one source section. */
  method AddSectionPages(source: Layout, ranges: Ranges, original: Section, planned: seq<PlannedRange>,
                         ghost before: seq<PlannedRange>)
    returns (planned': seq<PlannedRange>)
    requires source.sectionAlignment > 0 && SectionUsable(source, original)
    requires planned == Merge(before)
    ensures planned' == Merge(before + PagesFrom(source, ranges, original, original.virtualAddress))
  {
    hide Classify, Merge, AddPage;
    planned' := planned;
    var end := SectionEnd(source, original);
    var cursor: U32 := original.virtualAddress;
    ghost var done := before;
    while cursor < end
      invariant done + PagesFrom(source, ranges, original, cursor)
                == before + PagesFrom(source, ranges, original, original.virtualAddress)
      invariant planned' == Merge(done)
      decreases end - cursor
    {
      var pageEnd: U32 := Min(cursor + source.sectionAlignment as int, end);
      var page := AddressRange(cursor, pageEnd);
      var role := Classify(page, original, ranges, source);
      MergeAppend(done, PlannedRange(page, role));
      assert done + ([PlannedRange(page, role)] + PagesFrom(source, ranges, original, pageEnd))
          == (done + [PlannedRange(page, role)]) + PagesFrom(source, ranges, original, pageEnd);
      planned' := AddPage(planned', PlannedRange(page, role));
      done := done + [PlannedRange(page, role)];
      cursor := pageEnd;
    }
    assert done + [] == done;
  }

  lemma {:induction false} PagesFail(source: Layout, ranges: Ranges, sections: seq<Section>, n: nat)
    requires source.sectionAlignment > 0 && n <= |sections| && AllPages(source, ranges, sections[..n]).None?
    ensures AllPages(source, ranges, sections).None?
    decreases |sections| - n
  {
    if n < |sections| {
      assert sections[..n + 1][..n] == sections[..n];
      PagesFail(source, ranges, sections, n + 1);
    } else {
      assert sections[..n] == sections;
    }
  }

  /** The loop over the source sections. */
  method PlanRanges(source: Layout, ranges: Ranges) returns (planned: Option<seq<PlannedRange>>)
    requires source.sectionAlignment > 0
    ensures var pages := AllPages(source, ranges, source.sections);
            planned == if pages.None? then None else Some(Merge(pages.value))
  {
    hide Classify, Merge, PagesFrom;
    var merged: seq<PlannedRange> := [];
    assert Merge([]) == [] by { MergeNothing(); }
    var index := 0;
    while index < |source.sections|
      invariant 0 <= index <= |source.sections|
      invariant var pages := AllPages(source, ranges, source.sections[..index]);
                pages.Some? && merged == Merge(pages.value)
    {
      var original := source.sections[index];
      assert source.sections[..index + 1][..index] == source.sections[..index];
      if original.Extent() == 0 || original.virtualAddress >= source.sizeOfImage
         || original.virtualAddress % source.sectionAlignment != 0 {
        PagesFail(source, ranges, source.sections, index + 1);
        return None;
      }
      merged := AddSectionPages(source, ranges, original, merged,
                                AllPages(source, ranges, source.sections[..index]).value);
      index := index + 1;
    }
    assert source.sections[..|source.sections|] == source.sections;
    planned := Some(merged);
  }

  lemma MergeNothing()
    ensures Merge([]) == []
  {
  }

  lemma {:induction false} MergeKeepsSome(pages: seq<PlannedRange>)
    ensures Merge(pages) == [] <==> pages == []
  {
  }

  method Build(source: Layout, input: Input) returns (result: Result<SectionPlan, LayoutError>)
    ensures result == Outcome(source, input)
  {
    hide Classify, Merge, AllPages, RoleCount, MakeName, Characteristics, IatRanges, WithRegions;
    if !InputValid(source, input) {
      return Err(InvalidInput);
    }
    if input.evidence.code == [] {
      return Err(InvalidInput);
    }
    var iat := DiscoverIatRanges(source, input.imports);
    if iat.None? {
      return Err(InvalidInput);
    }
    var ranges := ClassifyRegions(source, Ranges(input.evidence.code, input.evidence.writable, [], iat.value),
                                  input.regions);
    if ranges.None? {
      return Err(InvalidInput);
    }
    var planned := PlanRanges(source, ranges.value);
    if planned.None? {
      return Err(InvalidInput);
    }
    MergeKeepsSome(AllPages(source, ranges.value, source.sections).value);
    if planned.value == [] {
      return Err(InvalidInput);
    }
    if |planned.value| > MAXIMUM_SECTIONS {
      return Err(TooManySections);
    }
    assert Planned(source, input) == planned;
    var sections := NameSections(planned.value);
    result := Ok(SectionPlan(sections, input.evidence.tlsDirectory));
  }

  method NameSections(planned: seq<PlannedRange>) returns (sections: seq<RebuiltSection>)
    requires Proper(planned)
    ensures sections == seq(|planned|, k requires 0 <= k < |planned| => SectionOf(planned, k))
  {
    hide MakeName, Characteristics;
    sections := [];
    var nameCounts: map<Role, nat> := map[];
    var index := 0;
    while index < |planned|
      invariant 0 <= index <= |planned|
      invariant forall role :: (if role in nameCounts then nameCounts[role] else 0) == RoleCount(planned[..index], role)
      invariant sections == seq(index, k requires 0 <= k < index => SectionOf(planned, k))
    {
      var p := planned[index];
      var count := if p.role in nameCounts then nameCounts[p.role] else 0;
      assert planned[..index + 1][..index] == planned[..index];
      nameCounts := nameCounts[p.role := count + 1];
      sections := sections + [RebuiltSection(MakeName(p.role, count), p.range.begin, p.range.end - p.range.begin,
                                             Characteristics(p.role))];
      index := index + 1;
    }
  }
}
