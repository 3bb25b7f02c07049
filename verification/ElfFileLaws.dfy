/** Where the rebuilder puts things: the captured segments fill the image, the
    headers are written over it, and everything else follows it. */
module ElfFileLaws {
  import opened Bytes
  import opened ByteFields
  import opened ElfFormat
  import opened ElfSections
  import opened ElfImageRebuilder
  import Analyzer = ElfDynamicMetadataAnalyzer

  // ---- captured segments ----

  /** `order` visits every captured program header index once. */
  ghost predicate Enumerates(order: seq<nat>, segments: seq<CapturedSegment>) {
    (forall i, j :: 0 <= i < j < |order| ==> order[i] != order[j])
    && (forall k: nat :: k in order <==> SegmentOf(segments, k).Some?)
  }

  /** Nothing but file-backed loads was captured. */
  ghost predicate OnlyLoads(headers: seq<ProgramHeader>, segments: seq<CapturedSegment>) {
    forall k: nat :: SegmentOf(segments, k).Some? ==> k < |headers| && Filed(headers[k])
  }

  ghost predicate FileApart(a: ProgramHeader, b: ProgramHeader) {
    a.fileOffset + a.fileSize <= b.fileOffset || b.fileOffset + b.fileSize <= a.fileOffset
  }

  ghost predicate LoadsApart(headers: seq<ProgramHeader>) {
    forall i, j :: 0 <= i < j < |headers| && Filed(headers[i]) && Filed(headers[j]) ==> FileApart(headers[i], headers[j])
  }

  lemma {:induction false} SizeCovers(headers: seq<ProgramHeader>, segments: seq<CapturedSegment>, n: nat, k: nat)
    requires k < n <= |headers| && CapturedSize(headers, segments, n).Some? && Filed(headers[k])
    ensures headers[k].fileOffset + headers[k].fileSize <= CapturedSize(headers, segments, n).value
    ensures SegmentOf(segments, k).Some? && |SegmentOf(segments, k).value| == headers[k].fileSize
  {
    if k < n - 1 {
      SizeCovers(headers, segments, n - 1, k);
    }
  }

  /** After the copies, each visited load's file range holds its capture. */
  lemma {:induction false} CopiedRange(b: Bytes, headers: seq<ProgramHeader>, segments: seq<CapturedSegment>, order: seq<nat>,
                                       n: nat, m: nat)
    requires m < n <= |order| && Enumerates(order, segments) && OnlyLoads(headers, segments) && LoadsApart(headers)
    requires forall k: nat :: SegmentOf(segments, k).Some? ==> |SegmentOf(segments, k).value| == headers[k].fileSize
    requires CopyAll(b, headers, segments, order, n).Some?
    ensures order[m] in order && order[m] < |headers|
    ensures var h := headers[order[m]];
            Fits(b, h.fileOffset, h.fileSize)
            && Slice(CopyAll(b, headers, segments, order, n).value, h.fileOffset, h.fileSize) == SegmentOf(segments, order[m]).value
  {
    hide Patch, Slice;
    var before, last := CopyAll(b, headers, segments, order, n - 1).value, order[n - 1];
    var data := SegmentOf(segments, last).value;
    if m == n - 1 {
      PatchRead(before, headers[last].fileOffset, data);
    } else {
      CopiedRange(b, headers, segments, order, n - 1, m);
      var h := headers[order[m]];
      assert order[m] != last;
      assert FileApart(headers[if order[m] < last then order[m] else last], headers[if order[m] < last then last else order[m]]);
      PatchElsewhere(before, headers[last].fileOffset, data, h.fileOffset, h.fileSize);
    }
  }

  /** A capture as the rebuilder needs it for its result not to depend on the walk order. */
  ghost predicate Capturable(captured: CapturedImage, order: seq<nat>) {
    Enumerates(order, captured.segments) && OnlyLoads(captured.layout.programHeaders, captured.segments)
    && LoadsApart(captured.layout.programHeaders)
  }

  /** Every file-backed load is in the image, in full. */
  lemma FlatHoldsSegments(captured: CapturedImage, maximum: U64, order: seq<nat>, k: nat)
    requires Capturable(captured, order) && Flat(captured, maximum, order).Ok?
    requires k < |captured.layout.programHeaders| && Filed(captured.layout.programHeaders[k])
    ensures var flat, h := Flat(captured, maximum, order).value, captured.layout.programHeaders[k];
            SegmentOf(captured.segments, k).Some? && Fits(flat, h.fileOffset, h.fileSize)
            && Slice(flat, h.fileOffset, h.fileSize) == SegmentOf(captured.segments, k).value
  {
    hide CopyAll, CapturedSize, SegmentOf, Slice;
    var headers, segments := captured.layout.programHeaders, captured.segments;
    SizeCovers(headers, segments, |headers|, k);
    SegmentsWhole(headers, segments);
    assert k in order;
    var m :| 0 <= m < |order| && order[m] == k;
    CopiedRange(Zeros(CapturedSize(headers, segments, |headers|).value), headers, segments, order, |order|, m);
  }

  lemma SegmentsWhole(headers: seq<ProgramHeader>, segments: seq<CapturedSegment>)
    requires OnlyLoads(headers, segments) && CapturedSize(headers, segments, |headers|).Some?
    ensures forall k: nat :: SegmentOf(segments, k).Some? ==> |SegmentOf(segments, k).value| == headers[k].fileSize
  {
    hide CapturedSize, SegmentOf;
    forall k: nat | SegmentOf(segments, k).Some? ensures |SegmentOf(segments, k).value| == headers[k].fileSize {
      SizeCovers(headers, segments, |headers|, k);
    }
  }

  // ---- the tail ----

  lemma AlignedUp(v: U64, alignment: nat)
    requires AlignUp(v, alignment) != 0 && 1 <= alignment
    ensures v <= AlignUp(v, alignment) < v + alignment
  {
  }

  /** Image, names and section table follow one another; no sum wraps. */
  ghost predicate InOrder(c: ElfClass, size: nat, sections: seq<Section>, t: Tail) {
    size <= t.namesOffset < size + 8 && t.namesOffset + |t.names| <= t.tableOffset
    && t.tableOffset + (|sections| + 1) * c.SectionHeaderSize() == t.finalSize
  }

  lemma TailInOrder(b: Bytes, c: ElfClass, sections: seq<Section>, maximum: U64)
    requires |b| <= U64_MAX && Finish(b, c, sections, maximum).Ok?
    ensures var t := TailOf(c, |b|, sections);
            InOrder(c, |b|, sections, t) && t.finalSize <= maximum && t.names == NameTable(sections)
            && |sections| + 1 <= 0xffff && |Finish(b, c, sections, maximum).value| == t.finalSize
  {
    hide HeadersWritten, WriteAll, NameTable, AlignUp;
    var t := TailOf(c, |b|, sections);
    AlignedUp(|b|, c.AddressWidth());
    var sum := t.namesOffset + |t.names|;
    AlignedUp(Analyzer.Wrap64(sum), c.AddressWidth());
    assert (|sections| + 1) * c.SectionHeaderSize() <= 0xffff * 64;
    NoWrap(sum, t.tableOffset, t.finalSize);
  }

  lemma NoWrap(sum: nat, table: nat, end: nat)
    requires Analyzer.Wrap64(sum) <= table < Analyzer.Wrap64(sum) + 8 && sum <= end <= table + 0xffff * 64
    ensures Analyzer.Wrap64(sum) == sum
  {
  }

  /** All fields of section header `index` lie inside its entry. */
  lemma SectionFieldsInside(c: ElfClass, sections: seq<Section>, offset: nat, name: nat, s: Section)
    ensures AllApart(SectionFields(c, sections, offset, name, s))
    ensures forall k :: 0 <= k < |SectionFields(c, sections, offset, name, s)| ==>
      var f := SectionFields(c, sections, offset, name, s)[k];
      offset <= f.offset && f.offset + f.width <= offset + c.SectionHeaderSize()
  {
    hide IndexOf, Wrap32;
    var links, info := LinkFields(sections, s, offset + c.SectionLink()), InfoFields(s, offset + c.SectionLink() + 4);
    assert |links| <= 1 && |info| <= 1;
  }

  lemma EntryInside(c: ElfClass, table: nat, count: nat, index: nat)
    requires index < count
    ensures table <= SectionOffset(c, table, index)
    ensures SectionOffset(c, table, index) + c.SectionHeaderSize() <= table + count * c.SectionHeaderSize()
  {
    var size := c.SectionHeaderSize();
    assert (index + 1) * size <= count * size;
    assert (index + 1) * size == index * size + size;
  }

  lemma EntriesApart(c: ElfClass, table: nat, i: nat, j: nat)
    requires i < j
    ensures SectionOffset(c, table, i) + c.SectionHeaderSize() <= SectionOffset(c, table, j)
  {
    EntryInside(c, table, j, i);
  }

  /** Section headers leave everything outside their own entries alone. */
  lemma {:induction false} HeadersElsewhere(b: Bytes, c: ElfClass, sections: seq<Section>, t: Tail, n: nat, at: int, size: nat)
    requires n <= |sections| + 1 && Fits(b, at, size)
    requires forall k :: 1 <= k < n ==>
      at + size <= SectionOffset(c, t.tableOffset, k) || SectionOffset(c, t.tableOffset, k) + c.SectionHeaderSize() <= at
    ensures Slice(HeadersWritten(b, c, sections, t, n).bytes, at, size) == Slice(b, at, size)
    ensures ReadAt(HeadersWritten(b, c, sections, t, n).bytes, at, size) == ReadAt(b, at, size)
  {
    hide WriteAll, SectionFields, Slice, Unsigned, SectionOffset, Names, Emitted;
    if n > 1 {
      HeadersElsewhere(b, c, sections, t, n - 1, at, size);
      var before := HeadersWritten(b, c, sections, t, n - 1);
      var offset, name, s := SectionOffset(c, t.tableOffset, n - 1), |Names(sections, n - 1)|, Emitted(sections, t, n - 1);
      SectionFieldsInside(c, sections, offset, name, s);
      ReadElsewhere(before.bytes, SectionFields(c, sections, offset, name, s), at, size);
    }
  }

  lemma TableFieldsInHeader(c: ElfClass, count: nat, table: U64)
    ensures AllApart(TableFields(c, count, table))
    ensures forall k :: 0 <= k < 4 ==>
      var f := TableFields(c, count, table)[k];
      16 <= f.offset && f.offset + f.width <= c.HeaderSize()
  {
  }

  /** Finishing leaves every byte of the image alone, except where the ELF
      header points at the section table. */
  lemma FinishKeeps(b: Bytes, c: ElfClass, sections: seq<Section>, maximum: U64, at: nat, size: nat)
    requires |b| <= U64_MAX && Finish(b, c, sections, maximum).Ok? && Fits(b, at, size)
    requires Avoid(TableFields(c, |sections|, TailOf(c, |b|, sections).tableOffset), at, size)
    ensures |b| <= |Finish(b, c, sections, maximum).value|
    ensures Slice(Finish(b, c, sections, maximum).value, at, size) == Slice(b, at, size)
    ensures ReadAt(Finish(b, c, sections, maximum).value, at, size) == ReadAt(b, at, size)
  {
    hide WriteAll, HeadersWritten, Unsigned, TableFields, TailOf, Slice;
    TailInOrder(b, c, sections, maximum);
    var t := TailOf(c, |b|, sections);
    var grown := Grown(b, t);
    SameRangeRead(grown, b, at, size);
    forall k | 1 <= k < |sections| + 1 ensures at + size <= SectionOffset(c, t.tableOffset, k) {
      EntryInside(c, t.tableOffset, |sections| + 1, k);
    }
    HeadersElsewhere(grown, c, sections, t, |sections| + 1, at, size);
    ReadElsewhere(HeadersWritten(grown, c, sections, t, |sections| + 1).bytes, TableFields(c, |sections|, t.tableOffset), at, size);
  }
}
