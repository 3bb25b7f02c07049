/** The file under construction: raw ranges tile the file after the headers,
    virtual ranges are stacked in order, and each section holds its content. */
module AssemblyLaws {
  import opened Bytes
  import opened Alignment
  import opened PeFormat
  import opened PeImageFixer
  import Sections = SectionLayoutRebuilder
  import Tables = ImportTableLaws

  const LIMIT := 0x4000_0000

  ghost predicate Aligns(layout: Layout) {
    IsPowerOfTwo(layout.fileAlignment) && IsPowerOfTwo(layout.sectionAlignment)
    && layout.fileAlignment <= layout.sectionAlignment
  }

  /** One header's place in the file and in memory. */
  ghost predicate Settled(layout: Layout, s: Section, headerSize: nat, size: nat, end: nat) {
    layout.sectionAlignment > 0 && s.virtualAddress % layout.sectionAlignment == 0 && 0 < s.virtualSize <= s.rawSize
    && s.virtualAddress + s.rawSize <= end
    && headerSize <= s.rawOffset <= headerSize + s.virtualAddress
    && s.rawOffset + s.rawSize <= size
  }

  /** Consecutive headers: adjacent in the file, ordered in memory. */
  ghost predicate Stacked(headers: seq<Section>) {
    (forall i, j :: 0 <= i < j < |headers| ==>
       headers[i].virtualAddress + headers[i].rawSize <= headers[j].virtualAddress
       && headers[i].rawOffset + headers[i].rawSize <= headers[j].rawOffset)
    && (forall i :: 0 <= i < |headers| - 1 ==>
          headers[i + 1].rawOffset == headers[i].rawOffset + headers[i].rawSize)
  }

  ghost predicate Good(layout: Layout, a: Assembly, headerSize: nat) {
    Aligns(layout) && layout.sectionAlignment > 0
    && a.end % layout.sectionAlignment == 0 && a.end <= LIMIT && headerSize <= LIMIT
    && |a.bytes| == a.nextRaw && headerSize <= a.nextRaw <= headerSize + a.end
    && Stacked(a.headers)
    && (forall k :: 0 <= k < |a.headers| ==> Settled(layout, a.headers[k], headerSize, |a.bytes|, a.end))
    && (a.headers == [] ==> a.nextRaw == headerSize)
    && (a.headers != [] ==>
          a.headers[0].rawOffset == headerSize
          && a.nextRaw == a.headers[|a.headers| - 1].rawOffset + a.headers[|a.headers| - 1].rawSize)
  }

  /** The section's file bytes are `content`, then zeros. */
  ghost predicate Contains(bytes: Bytes, s: Section, content: Bytes) {
    Fits(bytes, s.rawOffset, s.rawSize) && |content| <= s.rawSize
    && Slice(bytes, s.rawOffset, s.rawSize) == content + Zeros(s.rawSize - |content|)
  }

  lemma AlignmentFacts(layout: Layout)
    requires Aligns(layout)
    ensures layout.fileAlignment > 0 && layout.sectionAlignment > 0
    ensures layout.sectionAlignment % layout.fileAlignment == 0
  {
    PowerDivides(layout.fileAlignment, layout.sectionAlignment);
  }

  /** The padded size fits before any later aligned address. */
  lemma PaddedFits(layout: Layout, va: nat, size: U32, next: nat)
    requires Aligns(layout) && layout.fileAlignment > 0 && layout.sectionAlignment > 0
    requires AlignUp(size, layout.fileAlignment).Some?
    requires va % layout.sectionAlignment == 0 && next % layout.sectionAlignment == 0 && va + size <= next
    ensures size <= AlignUp(size, layout.fileAlignment).value
    ensures va + AlignUp(size, layout.fileAlignment).value <= next
  {
    AlignmentFacts(layout);
    AlignUpIsLeast(size, layout.fileAlignment);
    MultipleOfMultiple(va, layout.fileAlignment, layout.sectionAlignment);
    MultipleOfMultiple(next, layout.fileAlignment, layout.sectionAlignment);
    DifferenceOfMultiples(next, va, layout.fileAlignment);
  }

  lemma DifferenceOfMultiples(a: int, b: int, m: int)
    requires m > 0 && a % m == 0 && b % m == 0
    ensures (a - b) % m == 0
  {
    MultiplePlus(a, -(b / m), m);
    assert b == m * (b / m);
    assert a + -(b / m) * m == a - b;
  }

  /** Appending a section at or after the current end. */
  lemma AddSectionKeeps(layout: Layout, a: Assembly, headerSize: nat, name: SectionName, va: U32, content: Bytes,
                        flags: U32, end: U32)
    requires Good(layout, a, headerSize) && layout.fileAlignment > 0
    requires a.end <= va && va % layout.sectionAlignment == 0 && 0 < |content| <= LIMIT
    requires AddSection(layout, a, name, va, |content|, content, flags).Some?
    requires AlignUp(Wrap32(va + |content|), layout.sectionAlignment) == Some(end) && va + |content| <= U32_MAX
    requires end <= LIMIT
    ensures var b := AddSection(layout, a, name, va, |content|, content, flags).value.(end := end);
            Good(layout, b, headerSize)
            && |b.headers| == |a.headers| + 1 && b.headers[..|a.headers|] == a.headers
            && |a.bytes| <= |b.bytes| && b.bytes[..|a.bytes|] == a.bytes
            && var s := b.headers[|a.headers|];
               s.name == name && s.virtualAddress == va && s.virtualSize == |content| && s.characteristics == flags
               && Contains(b.bytes, s, content)
  {
    hide AddSection, AlignUp, IsPowerOfTwo, Stacked, Settled, Patch, Resize, Slice, Wrap32;
    WrapSmall(va + |content|);
    var raw := AddedShape(layout, a, name, va, content, flags);
    AlignUpIsLeast(va + |content|, layout.sectionAlignment);
    PaddedFits(layout, va, |content|, end);
    AppendedBytes(a.bytes, raw, content);
    var s := Section(name, va, |content|, a.nextRaw, raw, flags);
    var b := AddSection(layout, a, name, va, |content|, content, flags).value.(end := end);
    WrapSmall(a.nextRaw + raw);
    SettledNew(layout, s, headerSize, |b.bytes|, end);
    AllSettled(layout, a, s, headerSize, |b.bytes|, end);
    StackedAppend(a.headers, s, va);
  }

  lemma AddedShape(layout: Layout, a: Assembly, name: SectionName, va: U32, content: Bytes, flags: U32) returns (raw: U32)
    requires layout.fileAlignment > 0 && |content| <= LIMIT
    requires AddSection(layout, a, name, va, |content|, content, flags).Some?
    ensures AlignUp(|content|, layout.fileAlignment) == Some(raw) && |content| <= raw
    ensures AddSection(layout, a, name, va, |content|, content, flags).value
            == Assembly(Patch(Resize(a.bytes, a.nextRaw + raw), a.nextRaw, content),
                        a.headers + [Section(name, va, |content|, a.nextRaw, raw, flags)], Wrap32(a.nextRaw + raw), a.end)
  {
    hide AlignUp, Patch, Resize, Wrap32;
    WrapSmall(|content|);
    raw := AlignUp(|content|, layout.fileAlignment).value;
  }

  lemma SettledNew(layout: Layout, s: Section, headerSize: nat, size: nat, end: nat)
    requires layout.sectionAlignment > 0 && s.virtualAddress % layout.sectionAlignment == 0
    requires 0 < s.virtualSize <= s.rawSize && s.virtualAddress + s.rawSize <= end
    requires headerSize <= s.rawOffset <= headerSize + s.virtualAddress && s.rawOffset + s.rawSize <= size
    ensures Settled(layout, s, headerSize, size, end)
  {
  }

  lemma AllSettled(layout: Layout, a: Assembly, s: Section, headerSize: nat, size: nat, end: nat)
    requires forall k :: 0 <= k < |a.headers| ==> Settled(layout, a.headers[k], headerSize, |a.bytes|, a.end)
    requires Settled(layout, s, headerSize, size, end)
    requires |a.bytes| <= size && a.end <= end && a.end <= s.virtualAddress && |a.bytes| == s.rawOffset
    ensures forall k :: 0 <= k < |a.headers| + 1 ==> Settled(layout, (a.headers + [s])[k], headerSize, size, end)
    ensures forall k :: 0 <= k < |a.headers| ==>
      a.headers[k].virtualAddress + a.headers[k].rawSize <= s.virtualAddress
      && a.headers[k].rawOffset + a.headers[k].rawSize <= s.rawOffset
  {
    forall k | 0 <= k < |a.headers| + 1 ensures Settled(layout, (a.headers + [s])[k], headerSize, size, end) {
      if k < |a.headers| {
        assert (a.headers + [s])[k] == a.headers[k];
      }
    }
  }

  lemma StackedAppend(headers: seq<Section>, s: Section, va: int)
    requires Stacked(headers) && s.virtualAddress == va
    requires forall k :: 0 <= k < |headers| ==>
      headers[k].virtualAddress + headers[k].rawSize <= va && headers[k].rawOffset + headers[k].rawSize <= s.rawOffset
    requires headers != [] ==> s.rawOffset == headers[|headers| - 1].rawOffset + headers[|headers| - 1].rawSize
    ensures Stacked(headers + [s])
  {
  }

  lemma AppendedBytes(b: Bytes, raw: nat, content: Bytes)
    requires |content| <= raw
    ensures var r := Patch(Resize(b, |b| + raw), |b|, content);
            |r| == |b| + raw && r[..|b|] == b
            && Slice(r, |b|, raw) == content + Zeros(raw - |content|)
  {
    var r := Patch(Resize(b, |b| + raw), |b|, content);
    assert r[..|b|] == b;
    assert Slice(r, |b|, raw) == content + Zeros(raw - |content|);
  }

  // ---- the rebuilt sections ----

  /** Header `k` of the output is rebuilt section `s` with its captured bytes. */
  ghost predicate Copied(layout: Layout, image: Bytes, bytes: Bytes, h: Section, s: Sections.RebuiltSection)
    requires layout.sizeOfImage <= |image|
  {
    h.name == s.name && h.virtualAddress == s.virtualAddress && h.virtualSize == s.virtualSize
    && h.characteristics == s.characteristics
    && s.virtualAddress + s.virtualSize <= layout.sizeOfImage
    && Contains(bytes, h, image[s.virtualAddress..s.virtualAddress + s.virtualSize])
  }

  /** What the section plan must satisfy; `SectionsPartitionTheImage` proves it. */
  ghost predicate PlanOrdered(layout: Layout, sections: seq<Sections.RebuiltSection>) {
    layout.sectionAlignment > 0
    && (forall k :: 0 <= k < |sections| ==>
       sections[k].virtualSize > 0 && sections[k].virtualAddress % layout.sectionAlignment == 0
       && sections[k].virtualAddress + sections[k].virtualSize <= layout.sizeOfImage)
    && (forall i, j :: 0 <= i < j < |sections| ==>
          sections[i].virtualAddress + sections[i].virtualSize <= sections[j].virtualAddress)
  }

  lemma CopiedStays(layout: Layout, image: Bytes, a: Bytes, b: Bytes, h: Section, s: Sections.RebuiltSection)
    requires layout.sizeOfImage <= |image| && Copied(layout, image, a, h, s)
    requires |a| <= |b| && b[..|a|] == a
    ensures Copied(layout, image, b, h, s)
  {
    ContainsStays(a, b, h, image[s.virtualAddress..s.virtualAddress + s.virtualSize]);
  }

  lemma ContainsStays(a: Bytes, b: Bytes, s: Section, content: Bytes)
    requires Contains(a, s, content) && |a| <= |b| && b[..|a|] == a
    ensures Contains(b, s, content)
  {
    assert forall i :: 0 <= i < |a| ==> b[i] == b[..|a|][i];
    SameRangeRead(a, b, s.rawOffset, s.rawSize);
  }

  lemma {:induction false} PlacedSections(layout: Layout, image: Bytes, start: Assembly, headerSize: nat,
                                          sections: seq<Sections.RebuiltSection>, n: nat)
    requires Good(layout, start, headerSize) && start.headers == [] && start.end == 0
    requires layout.fileAlignment > 0 && n <= |sections| && layout.sizeOfImage <= |image|
    requires PlanOrdered(layout, sections) && InImage(layout, sections)
    requires layout.sizeOfImage <= LIMIT && layout.sectionAlignment <= LIMIT
    requires PlaceAll(layout, image, start, sections, n).Some?
    requires PlaceAll(layout, image, start, sections, n).value.end <= LIMIT
    ensures var a := PlaceAll(layout, image, start, sections, n).value;
            Good(layout, a, headerSize) && |a.headers| == n
            && |start.bytes| <= |a.bytes| && a.bytes[..|start.bytes|] == start.bytes
            && (n < |sections| ==> a.end <= sections[n].virtualAddress)
            && (n > 0 ==> sections[n - 1].virtualAddress + sections[n - 1].virtualSize <= a.end)
            && forall k :: 0 <= k < n ==> Copied(layout, image, a.bytes, a.headers[k], sections[k])
  {
    hide Good, AddSection, AlignUp, IsPowerOfTwo, Copied;
    if n > 0 {
      var before := PlaceAll(layout, image, start, sections, n - 1).value;
      var s := sections[n - 1];
      PlacedSections(layout, image, start, headerSize, sections, n - 1);
      PlaceStep(layout, image, before, headerSize, sections, n - 1);
      var a := PlaceAll(layout, image, start, sections, n).value;
      forall k | 0 <= k < n - 1 ensures Copied(layout, image, a.bytes, a.headers[k], sections[k]) {
        CopiedStays(layout, image, before.bytes, a.bytes, before.headers[k], sections[k]);
        assert a.headers[k] == a.headers[..n - 1][k];
      }
      PrefixTwice(start.bytes, before.bytes, a.bytes);
    }
  }

  lemma PrefixTwice(a: Bytes, b: Bytes, c: Bytes)
    requires |a| <= |b| <= |c| && b[..|a|] == a && c[..|b|] == b
    ensures c[..|a|] == a
  {
    assert c[..|a|] == c[..|b|][..|a|];
  }

  lemma PlaceStep(layout: Layout, image: Bytes, a: Assembly, headerSize: nat,
                  sections: seq<Sections.RebuiltSection>, n: nat)
    requires Good(layout, a, headerSize) && layout.fileAlignment > 0 && n < |sections|
    requires layout.sizeOfImage <= |image| && layout.sizeOfImage <= LIMIT
    requires PlanOrdered(layout, sections) && InImage(layout, sections)
    requires a.end <= sections[n].virtualAddress
    requires Place(layout, image, a, sections[n]).Some? && Place(layout, image, a, sections[n]).value.end <= LIMIT
    ensures var b, s := Place(layout, image, a, sections[n]).value, sections[n];
            Good(layout, b, headerSize) && |b.headers| == |a.headers| + 1 && b.headers[..|a.headers|] == a.headers
            && |a.bytes| <= |b.bytes| && b.bytes[..|a.bytes|] == a.bytes
            && Copied(layout, image, b.bytes, b.headers[|a.headers|], s)
            && s.virtualAddress + s.virtualSize <= b.end
            && (n + 1 < |sections| ==> b.end <= sections[n + 1].virtualAddress)
  {
    hide Good, AddSection, AlignUp, IsPowerOfTwo, Contains;
    var s := sections[n];
    var content := SectionContent(layout, image, s);
    assert content == image[s.virtualAddress..s.virtualAddress + s.virtualSize] && |content| == s.virtualSize;
    var end := AlignUp(Wrap32(s.virtualAddress + s.virtualSize), layout.sectionAlignment).value;
    var b := Place(layout, image, a, s).value;
    AlignUpIsLeast(s.virtualAddress + s.virtualSize, layout.sectionAlignment);
    assert b.end == end;
    AddSectionKeeps(layout, a, headerSize, s.name, s.virtualAddress, content, s.characteristics, end);
  }

  lemma StartIsGood(layout: Layout, image: Bytes, headerSize: U32)
    requires Aligns(layout) && layout.sizeOfHeaders <= |image| && headerSize <= LIMIT
    ensures Good(layout, StartAssembly(layout, image, headerSize), headerSize)
  {
    hide IsPowerOfTwo;
    AlignmentFacts(layout);
  }

  /** Rebuilt sections can serve the import table builder. */
  lemma GoodIsWellPlaced(layout: Layout, a: Assembly, headerSize: nat)
    requires Good(layout, a, headerSize)
    ensures Tables.WellPlaced(a.headers)
  {
    hide IsPowerOfTwo;
    forall i | 0 <= i < |a.headers|
      ensures a.headers[i].virtualSize <= a.headers[i].rawSize
              && a.headers[i].virtualAddress + a.headers[i].rawSize <= U32_MAX
              && a.headers[i].rawOffset + a.headers[i].rawSize <= U32_MAX
    {
      assert Settled(layout, a.headers[i], headerSize, |a.bytes|, a.end);
    }
  }
}
