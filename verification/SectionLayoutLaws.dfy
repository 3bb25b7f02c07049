/** The rebuilt sections are the maximal partition of the source extents by page role. */
module SectionLayoutLaws {
  import opened Bytes
  import opened Alignment
  import opened PeFormat
  import opened SectionLayoutRebuilder

  /** Source sections in address order without overlap, as the parser delivers them. */
  ghost predicate OrderedSections(sections: seq<Section>) {
    forall i, j :: 0 <= i < j < |sections| ==>
      sections[i].virtualAddress + sections[i].Extent() <= sections[j].virtualAddress
  }

  ghost predicate InSource(source: Layout, section: Section, a: int) {
    section.virtualAddress <= a < SectionEnd(source, section)
  }

  ghost predicate InSomeSource(source: Layout, sections: seq<Section>, a: int) {
    exists k :: 0 <= k < |sections| && InSource(source, sections[k], a)
  }

  ghost predicate Inside(p: PlannedRange, a: int) {
    p.range.begin <= a < p.range.end
  }

  ghost predicate InSomeRange(planned: seq<PlannedRange>, a: int) {
    exists k :: 0 <= k < |planned| && Inside(planned[k], a)
  }

  ghost predicate Ordered(planned: seq<PlannedRange>) {
    forall i, j :: 0 <= i < j < |planned| ==> planned[i].range.end <= planned[j].range.begin
  }

  ghost predicate Aligned(planned: seq<PlannedRange>, alignment: int)
    requires alignment > 0
  {
    forall k :: 0 <= k < |planned| ==> planned[k].range.begin % alignment == 0
  }

  /** The page of `section` that holds address `a`. */
  function PageAt(source: Layout, section: Section, a: nat): (page: AddressRange)
    requires source.sectionAlignment > 0 && section.virtualAddress <= a < SectionEnd(source, section)
    ensures page.begin <= a < page.end
  {
    var begin := a - a % source.sectionAlignment;
    AddressRange(begin, Min(begin + source.sectionAlignment as int, SectionEnd(source, section)))
  }

  // ---- one section's pages ----

  lemma {:induction false} PagesCover(source: Layout, ranges: Ranges, section: Section, cursor: U32)
    requires source.sectionAlignment > 0 && cursor % source.sectionAlignment == 0
    ensures var pages := PagesFrom(source, ranges, section, cursor);
            Ordered(pages) && Aligned(pages, source.sectionAlignment)
            && (forall k :: 0 <= k < |pages| ==>
                  cursor <= pages[k].range.begin && pages[k].range.end <= SectionEnd(source, section))
            && (forall a :: InSomeRange(pages, a) <==> cursor <= a < SectionEnd(source, section))
    decreases SectionEnd(source, section) - cursor
  {
    hide Classify;
    var end := SectionEnd(source, section);
    if cursor < end {
      var next: U32 := Min(cursor + source.sectionAlignment as int, end);
      var first := PlannedRange(AddressRange(cursor, next),
                                Classify(AddressRange(cursor, next), section, ranges, source));
      var rest := PagesFrom(source, ranges, section, next);
      if next < end {
        NextPage(cursor, source.sectionAlignment);
        PagesCover(source, ranges, section, next);
      }
      forall a ensures InSomeRange([first] + rest, a) <==> cursor <= a < end {
        if InSomeRange(rest, a) {
          var k :| 0 <= k < |rest| && Inside(rest[k], a);
          assert ([first] + rest)[k + 1] == rest[k];
        }
        if Inside(first, a) {
          assert ([first] + rest)[0] == first;
        }
      }
    }
  }

  lemma NextPage(cursor: int, alignment: int)
    requires alignment > 0 && cursor % alignment == 0
    ensures (cursor + alignment) % alignment == 0
  {
    MultiplePlus(cursor, 1, alignment);
  }

  lemma {:induction false} PageIsListed(source: Layout, ranges: Ranges, section: Section, cursor: U32, a: nat)
    requires source.sectionAlignment > 0 && cursor % source.sectionAlignment == 0
    requires section.virtualAddress <= cursor <= a < SectionEnd(source, section)
    ensures var page := PageAt(source, section, a);
            PlannedRange(page, Classify(page, section, ranges, source)) in PagesFrom(source, ranges, section, cursor)
    decreases SectionEnd(source, section) - cursor
  {
    hide Classify;
    var n, end := source.sectionAlignment, SectionEnd(source, section);
    if a < cursor + n {
      UniqueRemainder(a, n, cursor / n, a - cursor);
      assert PagesFrom(source, ranges, section, cursor)[0].range == PageAt(source, section, a);
    } else {
      NextPage(cursor, n);
      PageIsListed(source, ranges, section, cursor + n, a);
    }
  }

  // ---- all pages ----

  lemma AppendCovers(first: seq<PlannedRange>, second: seq<PlannedRange>, a: int)
    ensures InSomeRange(first + second, a) <==> InSomeRange(first, a) || InSomeRange(second, a)
  {
    if InSomeRange(first, a) {
      var k :| 0 <= k < |first| && Inside(first[k], a);
      assert (first + second)[k] == first[k];
    }
    if InSomeRange(second, a) {
      var k :| 0 <= k < |second| && Inside(second[k], a);
      assert (first + second)[|first| + k] == second[k];
    }
  }

  lemma {:induction false} AllPagesCover(source: Layout, ranges: Ranges, sections: seq<Section>)
    requires source.sectionAlignment > 0 && OrderedSections(sections)
    requires AllPages(source, ranges, sections).Some?
    ensures var pages := AllPages(source, ranges, sections).value;
            Ordered(pages) && Aligned(pages, source.sectionAlignment)
            && (forall k :: 0 <= k < |pages| && sections != [] ==>
                  pages[k].range.end <= SectionEnd(source, sections[|sections| - 1]))
            && (forall a :: InSomeRange(pages, a) <==> InSomeSource(source, sections, a))
  {
    hide PagesFrom, SectionEnd;
    if sections != [] {
      var before, section := sections[..|sections| - 1], sections[|sections| - 1];
      var first := AllPages(source, ranges, before).value;
      var second := PagesFrom(source, ranges, section, section.virtualAddress);
      AllPagesCover(source, ranges, before);
      PagesCover(source, ranges, section, section.virtualAddress);
      if before != [] {
        SectionEndBefore(source, before[|before| - 1], section);
      }
      forall a ensures InSomeRange(first + second, a) <==> InSomeSource(source, sections, a) {
        AppendCovers(first, second, a);
        if k :| 0 <= k < |before| && InSource(source, before[k], a) {
          assert InSource(source, sections[k], a);
        }
      }
    }
  }

  lemma SectionEndBefore(source: Layout, s: Section, t: Section)
    requires s.virtualAddress + s.Extent() <= t.virtualAddress && t.virtualAddress < source.sizeOfImage
    requires t.Extent() > 0
    ensures SectionEnd(source, s) <= t.virtualAddress < SectionEnd(source, t)
  {
  }

  lemma {:induction false} EveryPageIsListed(source: Layout, ranges: Ranges, sections: seq<Section>, k: nat, a: nat)
    requires source.sectionAlignment > 0 && AllPages(source, ranges, sections).Some?
    requires k < |sections| && InSource(source, sections[k], a)
    ensures var page := PageAt(source, sections[k], a);
            PlannedRange(page, Classify(page, sections[k], ranges, source)) in AllPages(source, ranges, sections).value
  {
    hide PagesFrom, PageAt, Classify;
    if k < |sections| - 1 {
      EveryPageIsListed(source, ranges, sections[..|sections| - 1], k, a);
    } else {
      PageIsListed(source, ranges, sections[k], sections[k].virtualAddress, a);
    }
  }

  // ---- merging ----

  /** Neighbours that touch play different roles. */
  ghost predicate Maximal(planned: seq<PlannedRange>) {
    forall k :: 0 <= k < |planned| - 1 && planned[k].range.end == planned[k + 1].range.begin ==>
      planned[k].role != planned[k + 1].role
  }

  ghost predicate Within(page: PlannedRange, p: PlannedRange) {
    p.range.begin <= page.range.begin && page.range.end <= p.range.end && p.role == page.role
  }

  /** Every page lies in a merged range of its own role. */
  ghost predicate Absorbed(pages: seq<PlannedRange>, planned: seq<PlannedRange>) {
    forall i :: 0 <= i < |pages| ==> exists j :: 0 <= j < |planned| && Within(pages[i], planned[j])
  }

  lemma AddPageKeeps(pages: seq<PlannedRange>, planned: seq<PlannedRange>, page: PlannedRange, alignment: int)
    requires alignment > 0
    requires Proper(planned) && Ordered(planned) && Maximal(planned) && Aligned(planned, alignment)
    requires Absorbed(pages, planned)
    requires page.range.begin < page.range.end && page.range.begin % alignment == 0
    requires planned != [] ==> planned[|planned| - 1].range.end <= page.range.begin
    ensures var r := AddPage(planned, page);
            Proper(r) && Ordered(r) && Maximal(r) && Aligned(r, alignment) && Absorbed(pages + [page], r)
            && r[|r| - 1].range.end == page.range.end
            && (forall a :: InSomeRange(r, a) <==> InSomeRange(planned, a) || Inside(page, a))
  {
    hide AddPage, Absorbed, InSomeRange, Inside;
    AddPageShape(planned, page);
    AddPageAbsorbs(pages, planned, page);
    forall a {
      AddPageCovers(planned, page, a);
    }
  }

  lemma AddPageAbsorbs(pages: seq<PlannedRange>, planned: seq<PlannedRange>, page: PlannedRange)
    requires Proper(planned) && Absorbed(pages, planned) && page.range.begin < page.range.end
    ensures Absorbed(pages + [page], AddPage(planned, page))
  {
    hide AddPage;
    var r := AddPage(planned, page);
    AddPageShape(planned, page);
    forall i | 0 <= i < |pages| + 1
      ensures exists j :: 0 <= j < |r| && Within((pages + [page])[i], r[j])
    {
      if i < |pages| {
        assert (pages + [page])[i] == pages[i];
        var j :| 0 <= j < |planned| && Within(pages[i], planned[j]);
        assert Within(pages[i], r[j]);
      } else {
        assert Within(page, r[|r| - 1]);
      }
    }
  }

  lemma AddPageCovers(planned: seq<PlannedRange>, page: PlannedRange, a: int)
    requires Proper(planned) && page.range.begin < page.range.end
    ensures InSomeRange(AddPage(planned, page), a) <==> InSomeRange(planned, a) || Inside(page, a)
  {
    hide AddPage;
    var r := AddPage(planned, page);
    AddPageShape(planned, page);
    if j :| 0 <= j < |planned| && Inside(planned[j], a) {
      assert Inside(r[j], a);
    }
    if Inside(page, a) {
      assert Inside(r[|r| - 1], a);
    }
    if j :| 0 <= j < |r| && Inside(r[j], a) {
      if j < |planned| && !Inside(page, a) {
        assert Inside(planned[j], a);
      }
    }
  }

  /** What `AddPage` does to the list, element by element. */
  lemma AddPageShape(planned: seq<PlannedRange>, page: PlannedRange)
    ensures var r, n := AddPage(planned, page), |planned|;
            (|r| == n || |r| == n + 1)
            && (forall j :: 0 <= j < |r| - 1 ==> j < n && r[j] == planned[j])
            && (|r| == n ==> n > 0 && planned[n - 1].role == page.role
                             && planned[n - 1].range.end == page.range.begin
                             && r[n - 1] == PlannedRange(AddressRange(planned[n - 1].range.begin, page.range.end), page.role))
            && (|r| == n + 1 ==>
                  r[n] == page
                  && (n > 0 && planned[n - 1].range.end == page.range.begin ==> planned[n - 1].role != page.role))
  {
  }

  lemma {:induction false} MergeKeeps(pages: seq<PlannedRange>, alignment: int)
    requires alignment > 0
    requires Proper(pages) && Ordered(pages) && Aligned(pages, alignment)
    ensures var r := Merge(pages);
            Proper(r) && Ordered(r) && Maximal(r) && Aligned(r, alignment) && Absorbed(pages, r)
            && (pages != [] ==> r != [] && r[|r| - 1].range.end == pages[|pages| - 1].range.end)
            && (forall a :: InSomeRange(r, a) <==> InSomeRange(pages, a))
  {
    hide AddPage, Absorbed, Maximal, Inside, InSomeRange;
    if pages != [] {
      var before, page := pages[..|pages| - 1], pages[|pages| - 1];
      MergeKeeps(before, alignment);
      AddPageKeeps(before, Merge(before), page, alignment);
      assert before + [page] == pages;
      LastCovers(pages);
    } else {
      MergeOfNothing(alignment);
    }
  }

  lemma LastCovers(pages: seq<PlannedRange>)
    requires pages != []
    ensures var n := |pages| - 1;
            forall a :: InSomeRange(pages, a) <==> InSomeRange(pages[..n], a) || Inside(pages[n], a)
  {
    hide Inside, InSomeRange;
    var before, page := pages[..|pages| - 1], pages[|pages| - 1];
    assert before + [page] == pages;
    forall a ensures InSomeRange(pages, a) <==> InSomeRange(before, a) || Inside(page, a) {
      AppendCovers(before, [page], a);
      AloneCovers(page, a);
    }
  }

  lemma AloneCovers(page: PlannedRange, a: int)
    ensures InSomeRange([page], a) <==> Inside(page, a)
  {
    hide Inside;
    assert [page][0] == page;
  }

  lemma MergeOfNothing(alignment: int)
    requires alignment > 0
    ensures Maximal([]) && Absorbed([], [])
  {
  }

  // ---- the rebuilt sections ----

  ghost predicate SectionHolds(section: RebuiltSection, a: int) {
    section.virtualAddress <= a < section.virtualAddress + section.virtualSize
  }

  /** The facts about merged ranges, for a layout with ordered sections. */
  lemma PlannedFacts(source: Layout, input: Input)
    requires OrderedSections(source.sections) && Planned(source, input).Some?
    ensures source.sectionAlignment > 0
    ensures var p := Planned(source, input).value;
            p != [] && Ordered(p) && Maximal(p) && Aligned(p, source.sectionAlignment)
            && (forall a :: InSomeRange(p, a) <==> InSomeSource(source, source.sections, a))
    ensures var ranges := GatherRanges(source, input);
            ranges.Some? && AllPages(source, ranges.value, source.sections).Some?
            && Absorbed(AllPages(source, ranges.value, source.sections).value, Planned(source, input).value)
  {
    hide AllPages, Merge, GatherRanges, Absorbed, Maximal, InSomeRange, InSomeSource;
    var ranges := GatherRanges(source, input).value;
    var pages := AllPages(source, ranges, source.sections).value;
    AllPagesAreProper(source, ranges, source.sections);
    AllPagesCover(source, ranges, source.sections);
    MergeKeeps(pages, source.sectionAlignment);
  }

  /** The range whose role decides address `a` of source section `k`. */
  lemma PageInsideRange(source: Layout, input: Input, k: nat, a: nat) returns (j: nat)
    requires OrderedSections(source.sections) && Planned(source, input).Some?
    requires source.sectionAlignment > 0 && GatherRanges(source, input).Some?
    requires k < |source.sections| && InSource(source, source.sections[k], a)
    ensures var p, page := Planned(source, input).value, PageAt(source, source.sections[k], a);
            j < |p| && Inside(p[j], a)
            && Within(PlannedRange(page, Classify(page, source.sections[k], GatherRanges(source, input).value, source)), p[j])
  {
    hide AllPages, Planned, GatherRanges, Classify, Maximal, InSomeRange, InSomeSource;
    PlannedFacts(source, input);
    var ranges := GatherRanges(source, input).value;
    var pages := AllPages(source, ranges, source.sections).value;
    EveryPageIsListed(source, ranges, source.sections, k, a);
    var page := PageAt(source, source.sections[k], a);
    var i :| 0 <= i < |pages| && pages[i] == PlannedRange(page, Classify(page, source.sections[k], ranges, source));
    j :| 0 <= j < |Planned(source, input).value| && Within(pages[i], Planned(source, input).value[j]);
  }

  /** Rebuilt sections are aligned, ordered, disjoint, within the image, and
      cover exactly the source extents; touching neighbours differ in what
      they may contain or in what the loader may do with them. */
  lemma SectionsPartitionTheImage(source: Layout, input: Input)
    requires OrderedSections(source.sections) && Outcome(source, input).Ok?
    ensures source.sectionAlignment > 0
    ensures var s := Outcome(source, input).value.sections;
            0 < |s| <= MAXIMUM_SECTIONS
            && (forall k :: 0 <= k < |s| ==>
                  s[k].virtualSize > 0 && s[k].virtualAddress % source.sectionAlignment == 0
                  && s[k].virtualAddress + s[k].virtualSize <= source.sizeOfImage)
            && (forall i, j :: 0 <= i < j < |s| ==> s[i].virtualAddress + s[i].virtualSize <= s[j].virtualAddress)
            && (forall a :: (exists k :: 0 <= k < |s| && SectionHolds(s[k], a))
                            <==> InSomeSource(source, source.sections, a))
    ensures var p := Planned(source, input).value;
            forall k :: 0 <= k < |p| - 1 && p[k].range.end == p[k + 1].range.begin ==> p[k].role != p[k + 1].role
  {
    hide Planned, InSomeSource, MakeName, RoleCount, Characteristics;
    PlannedFacts(source, input);
    var p := Planned(source, input).value;
    var s := Outcome(source, input).value.sections;
    forall a ensures (exists k :: 0 <= k < |s| && SectionHolds(s[k], a)) <==> InSomeSource(source, source.sections, a) {
      if k :| 0 <= k < |p| && Inside(p[k], a) {
        assert SectionHolds(s[k], a);
      }
      if k :| 0 <= k < |s| && SectionHolds(s[k], a) {
        assert Inside(p[k], a);
      }
    }
    forall k | 0 <= k < |p| ensures p[k].range.end <= source.sizeOfImage {
      assert Inside(p[k], p[k].range.end - 1);
      assert InSomeRange(p, p[k].range.end - 1);
      SourceInImage(source, p[k].range.end - 1);
    }
  }

  lemma SourceInImage(source: Layout, a: int)
    requires InSomeSource(source, source.sections, a)
    ensures a < source.sizeOfImage
  {
  }

  /** The page of an address overlaps a captured writable and executable region. */
  ghost predicate OnWritableCode(page: AddressRange, regions: seq<Region>) {
    exists k :: 0 <= k < |regions| && regions[k].writable && regions[k].executable
      && page.begin < regions[k].offset + regions[k].size && regions[k].offset < page.end
  }

  lemma {:induction false} WritableCodeRanges(source: Layout, ranges: Ranges, regions: seq<Region>, page: AddressRange)
    requires ranges.executableWritable == [] && WithRegions(source, ranges, regions).Some?
    ensures Touches(page, WithRegions(source, ranges, regions).value.executableWritable)
            <==> OnWritableCode(page, regions)
  {
    if regions != [] {
      var before, region := regions[..|regions| - 1], regions[|regions| - 1];
      var earlier := WithRegions(source, ranges, before).value;
      WritableCodeRanges(source, ranges, before, page);
      if region.writable && region.executable {
        TouchesAppend(page, earlier.executableWritable, AddressRange(region.offset, region.offset + region.size));
      }
      if k :| 0 <= k < |before| && before[k].writable && before[k].executable
              && page.begin < before[k].offset + before[k].size && before[k].offset < page.end {
        assert regions[k] == before[k];
      }
      if k :| 0 <= k < |regions| && regions[k].writable && regions[k].executable
              && page.begin < regions[k].offset + regions[k].size && regions[k].offset < page.end {
        if k < |before| {
          assert before[k] == regions[k];
        }
      }
    }
  }

  lemma TouchesAppend(page: AddressRange, ranges: seq<AddressRange>, last: AddressRange)
    ensures Touches(page, ranges + [last]) <==> Touches(page, ranges) || Overlaps(page, last)
  {
    var all := ranges + [last];
    if k :| 0 <= k < |ranges| && Overlaps(page, ranges[k]) {
      assert all[k] == ranges[k];
    }
    if k :| 0 <= k < |all| && Overlaps(page, all[k]) {
      assert k < |ranges| ==> all[k] == ranges[k];
    }
    assert all[|ranges|] == last;
  }

  lemma WritableAndExecutable(role: Role)
    ensures Has(Characteristics(role), MEM_WRITE) && Has(Characteristics(role), MEM_EXECUTE)
            <==> role == ExecutableWritable
  {
  }

  lemma ClassifiedWritableCode(page: AddressRange, section: Section, ranges: Ranges, source: Layout)
    ensures Classify(page, section, ranges, source) == ExecutableWritable <==> Touches(page, ranges.executableWritable)
  {
    hide Touches, TouchesDirectory;
  }

  /** A rebuilt section is writable and executable exactly when the page of
      each of its addresses overlaps a captured writable-executable region. */
  lemma WritableExecutableExactly(source: Layout, input: Input, j: nat, k: nat, a: nat)
    requires OrderedSections(source.sections) && Outcome(source, input).Ok?
    requires source.sectionAlignment > 0
    requires j < |Outcome(source, input).value.sections| && SectionHolds(Outcome(source, input).value.sections[j], a)
    requires k < |source.sections| && InSource(source, source.sections[k], a)
    ensures var flags := Outcome(source, input).value.sections[j].characteristics;
            Has(flags, MEM_WRITE) && Has(flags, MEM_EXECUTE)
            <==> OnWritableCode(PageAt(source, source.sections[k], a), input.regions)
  {
    hide AllPages, Merge, Classify, Maximal, InSomeRange, InSomeSource, MakeName, RoleCount, Characteristics, PageAt,
      IatRanges, WithRegions, OnWritableCode, Touches, Absorbed;
    PlannedFacts(source, input);
    var ranges := GatherRanges(source, input).value;
    var p := Planned(source, input).value;
    var i := PageInsideRange(source, input, k, a);
    assert Inside(p[j], a);
    assert i == j;
    var page := PageAt(source, source.sections[k], a);
    ClassifiedWritableCode(page, source.sections[k], ranges, source);
    WritableAndExecutable(p[j].role);
    var iat := IatRanges(source, if input.imports.Some? then input.imports.value.modules else []).value;
    WritableCodeRanges(source, Ranges(input.evidence.code, input.evidence.writable, [], iat), input.regions, page);
  }
}
