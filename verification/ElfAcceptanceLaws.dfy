/** When a captured ELF image can be rebuilt, why not otherwise, and what fills
    the file between its loads. */
module ElfAcceptanceLaws {
  import opened Bytes
  import opened ByteFields
  import opened ElfFormat
  import opened ElfImageRebuilder
  import opened ElfFileLaws
  import Rebuilt = ElfRebuildLaws
  import Lists = ElfSections
  import Writer = ElfHeaderWriter
  import HeaderLaws = ElfHeaderLaws
  import Parser = ElfParser
  import Analyzer = ElfDynamicMetadataAnalyzer
  import Dynamic = ElfDynamicLaws

  // ---- writing fields ----

  lemma {:induction false} WriteAllIff(b: Bytes, fields: seq<Field>)
    ensures WriteAll(b, fields).ok <==> forall k :: 0 <= k < |fields| ==> Writable(|b|, fields[k])
  {
    hide PatchField, Writable;
    if fields != [] {
      var rest := fields[..|fields| - 1];
      WriteAllIff(b, rest);
      assert forall k :: 0 <= k < |rest| ==> rest[k] == fields[k];
    }
  }

  lemma AppendFields(size: nat, a: seq<Field>, b: seq<Field>)
    ensures (forall k :: 0 <= k < |a + b| ==> Writable(size, (a + b)[k]))
            <==> (forall k :: 0 <= k < |a| ==> Writable(size, a[k])) && forall k :: 0 <= k < |b| ==> Writable(size, b[k])
  {
    hide Writable;
    assert forall k :: 0 <= k < |a| ==> (a + b)[k] == a[k];
    assert forall k :: 0 <= k < |b| ==> (a + b)[|a| + k] == b[k];
  }

  // ---- the captured segments ----

  /** A load with bytes in the file. */
  ghost predicate InFile(h: ProgramHeader) {
    h.kind == 1 && h.fileSize != 0
  }

  ghost predicate FirstCapture(segments: seq<CapturedSegment>, k: nat, g: nat) {
    g < |segments| && segments[g].programHeaderIndex == k && forall j :: 0 <= j < g ==> segments[j].programHeaderIndex != k
  }

  /** The first capture of header `k` has its whole file size. */
  ghost predicate Whole(captured: CapturedImage, k: nat)
    requires k < |captured.layout.programHeaders|
  {
    var h := captured.layout.programHeaders[k];
    h.fileOffset + h.fileSize <= 0xffff_ffff_ffff_ffff
    && exists g: nat :: g < |captured.segments| && FirstCapture(captured.segments, k, g)
                        && |captured.segments[g].fileBytes| == h.fileSize
  }

  ghost predicate AllWhole(captured: CapturedImage, n: nat)
    requires n <= |captured.layout.programHeaders|
  {
    forall k: nat :: k < n && InFile(captured.layout.programHeaders[k]) ==> Whole(captured, k)
  }

  /** The highest end of a load's file range. */
  ghost predicate IsEnd(headers: seq<ProgramHeader>, n: nat, end: int) {
    (forall k :: 0 <= k < n && k < |headers| && InFile(headers[k]) ==> headers[k].fileOffset + headers[k].fileSize <= end)
    && (end == 0 || exists k :: 0 <= k < n && k < |headers| && InFile(headers[k])
                                && headers[k].fileOffset + headers[k].fileSize == end)
  }

  lemma {:induction false} SegmentIs(segments: seq<CapturedSegment>, k: nat)
    ensures var s := SegmentOf(segments, k);
            if s.Some? then exists g: nat :: g < |segments| && FirstCapture(segments, k, g) && segments[g].fileBytes == s.value
            else forall g: nat :: !FirstCapture(segments, k, g)
  {
    if segments != [] && segments[0].programHeaderIndex != k {
      var rest := segments[1..];
      SegmentIs(rest, k);
      assert forall g :: 0 < g < |segments| ==> segments[g] == rest[g - 1];
      if SegmentOf(rest, k).Some? {
        var g: nat :| g < |rest| && FirstCapture(rest, k, g) && rest[g].fileBytes == SegmentOf(rest, k).value;
        assert segments[g + 1] == rest[g] && FirstCapture(segments, k, g + 1);
      } else {
        forall g: nat ensures !FirstCapture(segments, k, g) {
          assert g > 0 ==> !FirstCapture(rest, k, g - 1);
        }
      }
    } else if segments != [] {
      assert FirstCapture(segments, k, 0);
    }
  }

  lemma WholeIs(captured: CapturedImage, k: nat)
    requires k < |captured.layout.programHeaders|
    ensures var h, s := captured.layout.programHeaders[k], SegmentOf(captured.segments, k);
            Whole(captured, k) <==> s.Some? && |s.value| == h.fileSize && h.fileOffset + h.fileSize <= U64_MAX
  {
    hide SegmentOf;
    SegmentIs(captured.segments, k);
    forall f: nat, g: nat | FirstCapture(captured.segments, k, f) && FirstCapture(captured.segments, k, g) ensures f == g {
    }
  }

  lemma {:induction false} SizeIs(captured: CapturedImage, n: nat)
    requires n <= |captured.layout.programHeaders|
    ensures var size := CapturedSize(captured.layout.programHeaders, captured.segments, n);
            (size.Some? <==> AllWhole(captured, n)) && (size.Some? ==> IsEnd(captured.layout.programHeaders, n, size.value))
  {
    hide SegmentOf, Whole;
    if n > 0 {
      SizeIs(captured, n - 1);
      WholeIs(captured, n - 1);
      var headers := captured.layout.programHeaders;
      assert Filed(headers[n - 1]) <==> InFile(headers[n - 1]);
      if CapturedSize(headers, captured.segments, n).Some? && InFile(headers[n - 1]) {
        EndStep(headers, n - 1, CapturedSize(headers, captured.segments, n - 1).value);
      }
    }
  }

  lemma EndStep(headers: seq<ProgramHeader>, n: nat, end: nat)
    requires n < |headers| && IsEnd(headers, n, end) && InFile(headers[n])
    ensures var last := headers[n].fileOffset + headers[n].fileSize; IsEnd(headers, n + 1, if end < last then last else end)
  {
  }

  lemma EndOnce(headers: seq<ProgramHeader>, n: nat, a: nat, b: nat)
    requires IsEnd(headers, n, a) && IsEnd(headers, n, b)
    ensures a == b
  {
  }

  // ---- the copies ----

  lemma {:induction false} CopiesFit(b: Bytes, headers: seq<ProgramHeader>, segments: seq<CapturedSegment>, order: seq<nat>, n: nat)
    requires n <= |order| && forall k :: 0 <= k < n ==> Copyable(|b|, headers, segments, order[k])
    ensures CopyAll(b, headers, segments, order, n).Some?
  {
    hide Copyable, Patch;
    if n > 0 {
      CopiesFit(b, headers, segments, order, n - 1);
    }
  }

  lemma FlatIs(captured: CapturedImage, maximum: U64, order: seq<nat>)
    requires Capturable(captured, order)
    ensures var c, headers, r := captured.layout.imageClass, captured.layout.programHeaders, Flat(captured, maximum, order);
            if maximum < c.HeaderSize() || headers == [] then r == Err(InvalidInput)
            else if !AllWhole(captured, |headers|) then r == Err(SegmentMissing)
            else
              exists end: nat :: IsEnd(headers, |headers|, end)
                && if end < c.HeaderSize() || end > maximum then r == Err(SizeInvalid) else r.Ok? && |r.value| == end
  {
    hide CopyAll, CapturedSize, SegmentOf, AllWhole, IsEnd, Copyable;
    var headers, segments := captured.layout.programHeaders, captured.segments;
    SizeIs(captured, |headers|);
    var size := CapturedSize(headers, segments, |headers|);
    if size.Some? {
      forall k | 0 <= k < |order| ensures Copyable(|Zeros(size.value)|, headers, segments, order[k]) {
        assert order[k] in order;
        SizeCovers(headers, segments, |headers|, order[k]);
        CopyableIs(size.value, headers, segments, order[k]);
      }
      CopiesFit(Zeros(size.value), headers, segments, order, |order|);
    }
  }

  lemma CopyableIs(size: nat, headers: seq<ProgramHeader>, segments: seq<CapturedSegment>, index: nat)
    ensures Copyable(size, headers, segments, index)
            <==> index < |headers| && SegmentOf(segments, index).Some?
                 && headers[index].fileOffset + |SegmentOf(segments, index).value| <= size
  {
  }

  // ---- the headers ----

  ghost predicate NarrowHeader(h: ProgramHeader) {
    h.fileOffset <= 0xffff_ffff && h.virtualAddress <= 0xffff_ffff && h.physicalAddress <= 0xffff_ffff && h.fileSize <= 0xffff_ffff
    && h.memorySize <= 0xffff_ffff && h.alignment <= 0xffff_ffff
  }

  /** The declared program headers are those of the layout, their table lies in
      the image, and the numbers of a 32-bit image have 32 bits. */
  ghost predicate HeadersFit(layout: Layout, size: nat) {
    var entry := if layout.imageClass.Bits32? then 32 else 56;
    |layout.programHeaders| == layout.programHeaderCount && layout.programHeaderEntrySize == entry
    && layout.programHeaderOffset + layout.programHeaderCount * entry <= size
    && (layout.imageClass.Bits32? ==>
          layout.entryPoint <= 0xffff_ffff && layout.programHeaderOffset <= 0xffff_ffff
          && forall k :: 0 <= k < |layout.programHeaders| ==> NarrowHeader(layout.programHeaders[k]))
  }

  lemma HeaderWritable(layout: Layout, size: nat)
    requires layout.imageClass.HeaderSize() <= size
    ensures (forall k :: 0 <= k < |Writer.HeaderFields(layout)| ==> Writable(size, Writer.HeaderFields(layout)[k]))
            <==> (layout.imageClass.Bits32? ==> layout.entryPoint <= 0xffff_ffff && layout.programHeaderOffset <= 0xffff_ffff)
  {
    hide Pow256;
    Powers();
    var f := Writer.HeaderFields(layout);
    assert Writable(size, f[3]) <==> (layout.imageClass.Bits32? ==> layout.entryPoint <= 0xffff_ffff);
    assert Writable(size, f[4]) <==> (layout.imageClass.Bits32? ==> layout.programHeaderOffset <= 0xffff_ffff);
  }

  lemma ProgramWritable(c: ElfClass, at: nat, h: ProgramHeader, size: nat)
    requires at + c.ProgramHeaderSize() <= size
    ensures (forall k :: 0 <= k < |Writer.ProgramFields(c, at, h)| ==> Writable(size, Writer.ProgramFields(c, at, h)[k]))
            <==> (c.Bits32? ==> NarrowHeader(h))
  {
    hide Pow256;
    Powers();
    var f := Writer.ProgramFields(c, at, h);
    assert Writable(size, f[2]) <==> (c.Bits32? ==> h.fileOffset <= 0xffff_ffff);
    assert Writable(size, f[3]) <==> (c.Bits32? ==> h.virtualAddress <= 0xffff_ffff);
    assert Writable(size, f[4]) <==> (c.Bits32? ==> h.physicalAddress <= 0xffff_ffff);
    assert Writable(size, f[5]) <==> (c.Bits32? ==> h.fileSize <= 0xffff_ffff);
    assert Writable(size, f[6]) <==> (c.Bits32? ==> h.memorySize <= 0xffff_ffff);
    assert Writable(size, f[7]) <==> (c.Bits32? ==> h.alignment <= 0xffff_ffff);
  }

  lemma {:induction false} ProgramsFit(b: Bytes, layout: Layout, n: nat)
    requires n <= |layout.programHeaders| && layout.imageClass.HeaderSize() <= |b|
    requires layout.programHeaderOffset + |layout.programHeaders| * layout.imageClass.ProgramHeaderSize() <= |b|
    ensures Writer.Programs(b, layout, n).ok
            <==> (layout.imageClass.Bits32? ==>
                    layout.entryPoint <= 0xffff_ffff && layout.programHeaderOffset <= 0xffff_ffff
                    && forall k :: 0 <= k < n ==> NarrowHeader(layout.programHeaders[k]))
  {
    hide WriteAll, Writer.HeaderFields, Writer.ProgramFields, NarrowHeader, Writable;
    if n == 0 {
      WriteAllIff(b, Writer.HeaderFields(layout));
      HeaderWritable(layout, |b|);
    } else {
      ProgramsFit(b, layout, n - 1);
      var c := layout.imageClass;
      var at := Parser.ProgramOffset(c, layout.programHeaderOffset, n - 1);
      HeaderLaws.OffsetsInTable(layout, n - 1);
      var before := Writer.Programs(b, layout, n - 1);
      WriteAllIff(before.bytes, Writer.ProgramFields(c, at, layout.programHeaders[n - 1]));
      ProgramWritable(c, at, layout.programHeaders[n - 1], |b|);
    }
  }

  lemma HeadersExact(b: Bytes, layout: Layout)
    requires layout.imageClass.HeaderSize() <= |b|
    ensures Writer.Outcome(b, layout).ok <==> HeadersFit(layout, |b|)
  {
    hide Writer.Programs, NarrowHeader;
    var entry := layout.imageClass.ProgramHeaderSize();
    assert layout.programHeaderEntrySize == entry ==>
             layout.programHeaderEntrySize * layout.programHeaderCount == layout.programHeaderCount * entry;
    if Writer.TableFits(|b|, layout) {
      ProgramsFit(b, layout, |layout.programHeaders|);
    }
  }

  // ---- names, sections and their table ----

  /** A zero, every name but that of the null section with a zero, and ".shstrtab". */
  ghost function NameBytes(sections: seq<Lists.Section>, n: nat): nat
    requires n <= |sections|
  {
    if n <= 1 then 11 else NameBytes(sections, n - 1) + |sections[n - 1].name| + 1
  }

  lemma {:induction false} NamesAre(sections: seq<Lists.Section>, n: nat)
    requires n <= |sections|
    ensures |Lists.Names(sections, n)| + 10 == NameBytes(sections, n)
  {
    if n > 1 {
      NamesAre(sections, n - 1);
    }
  }

  /** The next multiple of an address. */
  ghost predicate RoundedUp(value: int, least: int, wide: bool) {
    var w := if wide then 8 else 4;
    value % w == 0 && least <= value < least + w
  }

  lemma AlignIs(v: U64, c: ElfClass)
    requires 0 < v <= 0xffff_ffff_ffff_fff0
    ensures RoundedUp(AlignUp(v, c.AddressWidth()), v, c.Bits64?) && AlignUp(v, c.AddressWidth()) != 0
  {
  }

  /** A value of a 32-bit image that needs more than 32 bits. */
  ghost predicate Large(s: Lists.Section) {
    s.address > 0xffff_ffff || s.offset > 0xffff_ffff || s.size > 0xffff_ffff || s.alignment > 0xffff_ffff
  }

  ghost predicate Modest(s: Lists.Section) {
    s.flags <= 7 && s.alignment <= 0xffff_ffff_ffff_ffff && s.entrySize <= 24
  }

  ghost predicate AllModest(sections: seq<Lists.Section>) {
    forall k :: 0 <= k < |sections| ==> Modest(sections[k])
  }

  lemma {:induction false} LoadsModest(headers: seq<ProgramHeader>, n: nat)
    requires n <= |headers|
    ensures AllModest(Lists.LoadSections(headers, n).sections)
  {
    hide Lists.LoadName;
    if n > 0 {
      LoadsModest(headers, n - 1);
    }
  }

  lemma {:induction false} SpecialsModest(c: ElfClass, headers: seq<ProgramHeader>, n: nat)
    requires n <= |headers|
    ensures AllModest(Lists.SpecialSections(c, headers, n))
  {
    if n > 0 {
      SpecialsModest(c, headers, n - 1);
    }
  }

  lemma DescribedModest(c: ElfClass, headers: seq<ProgramHeader>, tags: Analyzer.TagMap)
    requires Dynamic.Needed(c, tags)
    ensures var d := Dynamic.Described(c, headers, tags); forall k :: 0 <= k < |d| ==> d[k].alignment <= 8 && d[k].entrySize <= 24
  {
    hide Dynamic.Needed, Dynamic.OffsetOf, Dynamic.SymbolBytes, Dynamic.PltTag;
  }

  lemma TablesModest(image: Bytes, c: ElfClass, headers: seq<ProgramHeader>)
    requires Analyzer.Outcome(image, c, headers).Ok?
    ensures var d := Analyzer.Outcome(image, c, headers).value.sections;
            forall k :: 0 <= k < |d| ==> d[k].alignment <= 8 && d[k].entrySize <= 24
  {
    hide Dynamic.FirstDynamicAt, Dynamic.TagsAre, Dynamic.EndsAt, Dynamic.Fault, Dynamic.TableFits, Dynamic.Described, Dynamic.Needed,
         Analyzer.Outcome;
    Dynamic.AnalysisIsExact(image, c, headers);
    forall tags | Dynamic.Needed(c, tags)
      ensures var d := Dynamic.Described(c, headers, tags); forall k :: 0 <= k < |d| ==> d[k].alignment <= 8 && d[k].entrySize <= 24
    {
      DescribedModest(c, headers, tags);
    }
  }

  lemma ListModest(image: Bytes, c: ElfClass, headers: seq<ProgramHeader>)
    requires Analyzer.Outcome(image, c, headers).Ok?
    ensures AllModest(Lists.AllSections(c, headers, Analyzer.Outcome(image, c, headers).value.sections))
  {
    hide Analyzer.Outcome, Lists.LoadSections, Lists.SpecialSections;
    TablesModest(image, c, headers);
    LoadsModest(headers, |headers|);
    SpecialsModest(c, headers, |headers|);
  }

  /** A word of the class, or a 32-bit word, can be written where its value fits. */
  lemma WordWritable(size: nat, at: nat, width: nat, v: U64)
    requires at + width <= size && (width == 4 || width == 8)
    ensures Writable(size, Field(at, width, v)) <==> width == 8 || v <= 0xffff_ffff
  {
    Powers();
  }

  lemma EdgesWritable(c: ElfClass, at: nat, name: nat, s: Lists.Section, size: nat)
    requires at + c.SectionHeaderSize() <= size && Modest(s)
    ensures var w := c.AddressWidth();
            (forall f :: f in FirstFields(c, at, name, s) + LastFields(c, at, s) ==> Writable(size, f)) <==> (c.Bits32? ==> !Large(s))
  {
    hide Writable, Wrap32;
    var w := c.AddressWidth();
    var all := FirstFields(c, at, name, s) + LastFields(c, at, s);
    WordWritable(size, at, 4, Wrap32(name));
    WordWritable(size, at + 4, 4, s.kind);
    WordWritable(size, at + c.SectionFlags(), w, s.flags);
    WordWritable(size, at + c.SectionAddress(), w, s.address);
    WordWritable(size, at + c.SectionFileOffset(), w, s.offset);
    WordWritable(size, at + c.SectionSize(), w, s.size);
    WordWritable(size, at + c.SectionAlignment(), w, s.alignment);
    WordWritable(size, at + c.SectionEntrySize(), w, s.entrySize);
    assert all[3] in all && all[4] in all && all[5] in all && all[6] in all;
  }

  ghost function FirstFields(c: ElfClass, at: nat, name: nat, s: Lists.Section): seq<Field> {
    var w := c.AddressWidth();
    [Field(at, 4, Wrap32(name)), Field(at + 4, 4, s.kind), Field(at + c.SectionFlags(), w, s.flags),
     Field(at + c.SectionAddress(), w, s.address), Field(at + c.SectionFileOffset(), w, s.offset),
     Field(at + c.SectionSize(), w, s.size)]
  }

  ghost function LastFields(c: ElfClass, at: nat, s: Lists.Section): seq<Field> {
    [Field(at + c.SectionAlignment(), c.AddressWidth(), s.alignment), Field(at + c.SectionEntrySize(), c.AddressWidth(), s.entrySize)]
  }

  lemma LinksWritable(c: ElfClass, sections: seq<Lists.Section>, at: nat, s: Lists.Section, size: nat)
    requires at + c.SectionHeaderSize() <= size
    ensures forall f :: f in LinkFields(sections, s, at + c.SectionLink()) + InfoFields(s, at + c.SectionLink() + 4) ==> Writable(size, f)
  {
    hide Lists.IndexOf, Wrap32;
    Powers();
  }

  lemma SectionWritable(c: ElfClass, sections: seq<Lists.Section>, at: nat, name: nat, s: Lists.Section, size: nat)
    requires at + c.SectionHeaderSize() <= size && Modest(s)
    ensures (forall k :: 0 <= k < |SectionFields(c, sections, at, name, s)| ==> Writable(size, SectionFields(c, sections, at, name, s)[k]))
            <==> (c.Bits32? ==> !Large(s))
  {
    hide Writable, LinkFields, InfoFields, FirstFields, LastFields, Large;
    var all := SectionFields(c, sections, at, name, s);
    var first, last := FirstFields(c, at, name, s), LastFields(c, at, s);
    var links := LinkFields(sections, s, at + c.SectionLink()) + InfoFields(s, at + c.SectionLink() + 4);
    FieldsSplit(c, sections, at, name, s);
    EdgesWritable(c, at, name, s, size);
    LinksWritable(c, sections, at, s, size);
    assert forall f :: f in all <==> f in first + last || f in links;
  }

  lemma FieldsSplit(c: ElfClass, sections: seq<Lists.Section>, at: nat, name: nat, s: Lists.Section)
    ensures SectionFields(c, sections, at, name, s)
            == FirstFields(c, at, name, s) + (LinkFields(sections, s, at + c.SectionLink()) + InfoFields(s, at + c.SectionLink() + 4))
               + LastFields(c, at, s)
  {
    hide LinkFields, InfoFields, Wrap32;
  }

  lemma {:induction false} SectionsFit(b: Bytes, c: ElfClass, sections: seq<Lists.Section>, t: Tail, n: nat)
    requires n <= |sections| + 1 && AllModest(sections) && t.tableOffset + (|sections| + 1) * c.SectionHeaderSize() <= |b|
    ensures HeadersWritten(b, c, sections, t, n).ok
            <==> (c.Bits32? ==> forall k :: 1 <= k < n ==> !Large(Emitted(sections, t, k)))
  {
    hide WriteAll, SectionFields, Lists.Names, Large, Writable;
    if n > 1 {
      SectionsFit(b, c, sections, t, n - 1);
      var before := HeadersWritten(b, c, sections, t, n - 1);
      var at, name, s := SectionOffset(c, t.tableOffset, n - 1), |Lists.Names(sections, n - 1)|, Emitted(sections, t, n - 1);
      EntryInside(c, t.tableOffset, |sections| + 1, n - 1);
      WriteAllIff(before.bytes, SectionFields(c, sections, at, name, s));
      SectionWritable(c, sections, at, name, s, |b|);
    }
  }

  lemma TableWritable(c: ElfClass, count: nat, table: U64, size: nat)
    requires count + 1 <= 0xffff && c.HeaderSize() <= size
    ensures (forall k :: 0 <= k < |TableFields(c, count, table)| ==> Writable(size, TableFields(c, count, table)[k]))
            <==> (c.Bits32? ==> table <= 0xffff_ffff)
  {
    hide Pow256;
    Powers();
    var f := TableFields(c, count, table);
    assert Writable(size, f[0]) <==> (c.Bits32? ==> table <= 0xffff_ffff);
  }

  /** How the image ends: names at `names`, the table at `table`. */
  ghost predicate EndingIs(size: nat, wide: bool, sections: seq<Lists.Section>, maximum: nat, names: int, table: int,
                           r: Result<Bytes, RebuildError>)
  {
    var end := table + (|sections| + 1) * if wide then 64 else 40;
    RoundedUp(names, size, wide) && RoundedUp(table, names + NameBytes(sections, |sections|), wide)
    && if |sections| + 1 > 0xffff || end > maximum then r == Err(SectionTableTooLarge)
       else if !wide && (names > 0xffff_ffff || NameBytes(sections, |sections|) > 0xffff_ffff
                         || exists k :: 1 <= k < |sections| && Large(sections[k])) then r == Err(SectionValueTooLarge)
       else if !wide && table > 0xffff_ffff then r == Err(SectionTableTooLarge)
       else r.Ok? && |r.value| == end
  }

  lemma TailIs(c: ElfClass, size: U64, sections: seq<Lists.Section>)
    requires sections != [] && 0 < size && size + NameBytes(sections, |sections|) + 32 <= U64_MAX
    ensures var t, wide := TailOf(c, size, sections), c.Bits64?;
            |t.names| == NameBytes(sections, |sections|) && RoundedUp(t.namesOffset, size, wide)
            && RoundedUp(t.tableOffset, t.namesOffset + NameBytes(sections, |sections|), wide) && t.namesOffset > 0
              && t.tableOffset > 0
            && t.finalSize == t.tableOffset + (|sections| + 1) * (if wide then 64 else 40)
  {
    hide AlignUp, Lists.NameTable, NameBytes, RoundedUp;
    var t := TailOf(c, size, sections);
    NamesAre(sections, |sections|);
    TableLength(sections);
    AlignIs(size, c);
    RoundedLow(t.namesOffset, size, c.Bits64?);
    SmallSum(t.namesOffset + |t.names|);
    AlignIs(t.namesOffset + |t.names|, c);
  }

  lemma GrownLength(b: Bytes, t: Tail)
    requires t.namesOffset + |t.names| <= t.finalSize
    ensures |Grown(b, t)| == t.finalSize
  {
  }

  lemma RoundedLow(value: int, least: int, wide: bool)
    requires RoundedUp(value, least, wide)
    ensures least <= value < least + 8
  {
  }

  lemma FinishExact(b: Bytes, c: ElfClass, sections: seq<Lists.Section>, maximum: U64)
    requires c.HeaderSize() <= |b| && AllModest(sections) && sections != []
    requires |b| + NameBytes(sections, |sections|) + 32 <= U64_MAX
    ensures exists names, table :: EndingIs(|b|, c.Bits64?, sections, maximum, names, table, Finish(b, c, sections, maximum))
  {
    hide HeadersWritten, WriteAll, TailOf, Large, TableFields, NameBytes, AllModest, RoundedUp, Grown, Writable;
    var t := TailOf(c, |b|, sections);
    TailIs(c, |b|, sections);
    RoundedLow(t.namesOffset, |b|, c.Bits64?);
    RoundedLow(t.tableOffset, t.namesOffset + NameBytes(sections, |sections|), c.Bits64?);
    if |sections| + 1 <= 0xffff && t.finalSize <= maximum {
      GrownLength(b, t);
      SectionsFit(Grown(b, t), c, sections, t, |sections| + 1);
      EmittedLarge(sections, t);
      var written := HeadersWritten(Grown(b, t), c, sections, t, |sections| + 1);
      WriteAllIff(written.bytes, TableFields(c, |sections|, t.tableOffset));
      TableWritable(c, |sections|, t.tableOffset, |written.bytes|);
    }
    assert EndingIs(|b|, c.Bits64?, sections, maximum, t.namesOffset, t.tableOffset, Finish(b, c, sections, maximum));
  }

  lemma SmallSum(sum: nat)
    requires sum <= U64_MAX
    ensures Analyzer.Wrap64(sum) == sum
  {
  }

  lemma TableLength(sections: seq<Lists.Section>)
    ensures |Lists.NameTable(sections)| == |Lists.Names(sections, |sections|)| + 10
  {
    hide Lists.Names;
  }

  lemma EmittedLarge(sections: seq<Lists.Section>, t: Tail)
    requires sections != [] && |t.names| <= U64_MAX
    ensures (forall k :: 1 <= k < |sections| + 1 ==> !Large(Emitted(sections, t, k)))
            <==> (forall k :: 1 <= k < |sections| ==> !Large(sections[k])) && t.namesOffset <= 0xffff_ffff && |t.names| <= 0xffff_ffff
  {
    SmallSum(|t.names|);
    assert Emitted(sections, t, |sections|) == NamesSection(t);
    forall k | 1 <= k < |sections| ensures Emitted(sections, t, k) == sections[k] {
    }
  }

  // ---- the verdict ----

  /** What follows once the image is copied: headers, dynamic table, section table. */
  ghost predicate CopiedIs(captured: CapturedImage, maximum: U64, flat: Bytes, r: Result<Bytes, RebuildError>) {
    var layout := captured.layout;
    var c, headers := layout.imageClass, layout.programHeaders;
    if !HeadersFit(layout, |flat|) then r == Err(HeaderInvalid)
    else
      var image := Writer.Outcome(flat, layout).bytes;
      var dynamic := Analyzer.Outcome(image, c, headers);
      if dynamic.Err? then r == Err(DynamicInvalid(dynamic.error))
      else
        var sections := Lists.AllSections(c, headers, dynamic.value.sections);
        |flat| + NameBytes(sections, |sections|) + 32 <= U64_MAX ==>
          exists names, table :: EndingIs(|flat|, c.Bits64?, sections, maximum, names, table, r)
  }

  /** The first demand that fails names the error. */
  ghost predicate RebuiltIs(captured: CapturedImage, maximum: U64, order: seq<nat>, r: Result<Bytes, RebuildError>) {
    var headers, least := captured.layout.programHeaders, if captured.layout.imageClass.Bits32? then 52 else 64;
    if maximum < least || headers == [] then r == Err(InvalidInput)
    else if !AllWhole(captured, |headers|) then r == Err(SegmentMissing)
    else
      exists end: nat :: IsEnd(headers, |headers|, end)
        && if end < least || end > maximum then r == Err(SizeInvalid)
           else exists flat :: Flat(captured, maximum, order) == Ok(flat) && |flat| == end && CopiedIs(captured, maximum, flat, r)
  }

  lemma CopiedExact(captured: CapturedImage, maximum: U64, order: seq<nat>, flat: Bytes)
    requires Flat(captured, maximum, order) == Ok(flat) && captured.layout.imageClass.HeaderSize() <= |flat| <= U64_MAX
    ensures CopiedIs(captured, maximum, flat, Outcome(captured, maximum, order))
  {
    hide Flat, Writer.Outcome, Analyzer.Outcome, Finish, HeadersFit, NameBytes, EndingIs, Lists.AllSections, AllModest;
    var layout := captured.layout;
    var c, headers := layout.imageClass, layout.programHeaders;
    HeadersExact(flat, layout);
    var headed := Writer.Outcome(flat, layout);
    if headed.ok {
      var dynamic := Analyzer.Outcome(headed.bytes, c, headers);
      if dynamic.Ok? {
        var sections := Lists.AllSections(c, headers, dynamic.value.sections);
        ListModest(headed.bytes, c, headers);
        ListStarts(c, headers, dynamic.value.sections);
        if |flat| + NameBytes(sections, |sections|) + 32 <= U64_MAX {
          FinishExact(headed.bytes, c, sections, maximum);
        }
      }
    }
  }

  /** Every rebuild of a capture has the verdict that its first failing demand gives. */
  lemma RebuildIsExact(captured: CapturedImage, maximum: U64, order: seq<nat>)
    requires Capturable(captured, order)
    ensures RebuiltIs(captured, maximum, order, Outcome(captured, maximum, order))
  {
    hide Flat, Capturable, AllWhole, IsEnd, CopiedIs;
    FlatIs(captured, maximum, order);
    OutcomeStarts(captured, maximum, order);
    var flat := Flat(captured, maximum, order);
    if flat.Ok? {
      CopiedExact(captured, maximum, order, flat.value);
    }
  }

  lemma OutcomeStarts(captured: CapturedImage, maximum: U64, order: seq<nat>)
    ensures Flat(captured, maximum, order).Err? ==> Outcome(captured, maximum, order) == Err(Flat(captured, maximum, order).error)
    ensures Flat(captured, maximum, order).Ok? ==>
              captured.layout.imageClass.HeaderSize() <= |Flat(captured, maximum, order).value| <= U64_MAX
  {
    hide Writer.Outcome, Analyzer.Outcome, Finish, CopyAll, CapturedSize;
  }

  // ---- between the loads ----

  ghost predicate InSomeLoad(headers: seq<ProgramHeader>, i: int) {
    exists k :: 0 <= k < |headers| && InFile(headers[k]) && headers[k].fileOffset <= i < headers[k].fileOffset + headers[k].fileSize
  }

  lemma {:induction false} CopiesElsewhere(b: Bytes, headers: seq<ProgramHeader>, segments: seq<CapturedSegment>, order: seq<nat>,
                                           n: nat, i: nat)
    requires n <= |order| && i < |b| && CopyAll(b, headers, segments, order, n).Some? && !InSomeLoad(headers, i)
    requires forall k :: 0 <= k < n ==>
               order[k] < |headers| && Filed(headers[order[k]]) && SegmentOf(segments, order[k]).Some?
               && |SegmentOf(segments, order[k]).value| == headers[order[k]].fileSize
    ensures CopyAll(b, headers, segments, order, n).value[i] == b[i]
  {
    hide SegmentOf;
    if n > 0 {
      CopiesElsewhere(b, headers, segments, order, n - 1, i);
      var h := headers[order[n - 1]];
      assert !(h.fileOffset <= i < h.fileOffset + h.fileSize);
    }
  }

  lemma FlatGaps(captured: CapturedImage, maximum: U64, order: seq<nat>, i: nat)
    requires Capturable(captured, order) && Flat(captured, maximum, order).Ok?
    requires i < |Flat(captured, maximum, order).value| && !InSomeLoad(captured.layout.programHeaders, i)
    ensures Flat(captured, maximum, order).value[i] == 0
  {
    hide CopyAll, CapturedSize, SegmentOf, InSomeLoad;
    var headers, segments := captured.layout.programHeaders, captured.segments;
    var size := CapturedSize(headers, segments, |headers|).value;
    SegmentsWhole(headers, segments);
    forall k | 0 <= k < |order|
      ensures order[k] < |headers| && Filed(headers[order[k]]) && SegmentOf(segments, order[k]).Some?
              && |SegmentOf(segments, order[k]).value| == headers[order[k]].fileSize
    {
      assert order[k] in order;
    }
    CopiesElsewhere(Zeros(size), headers, segments, order, |order|, i);
  }

  /** Before the end of the loads, what no load and no header covers is zero. */
  lemma GapsAreZero(captured: CapturedImage, maximum: U64, order: seq<nat>, end: nat, i: nat)
    requires Capturable(captured, order) && Outcome(captured, maximum, order).Ok?
    requires IsEnd(captured.layout.programHeaders, |captured.layout.programHeaders|, end) && i < end
    requires !InSomeLoad(captured.layout.programHeaders, i) && Rebuilt.ClearOfHeaders(captured.layout, i, 1)
    ensures var out := Outcome(captured, maximum, order).value; i < |out| && out[i] == 0
  {
    hide Outcome, Flat, Rebuilt.Stages, InSomeLoad, IsEnd, Capturable, TailOf, TableFields, Rebuilt.ClearOfHeaders, AllWhole;
    var flat, headed, sections := Rebuilt.StagesOf(captured, maximum, order);
    var out := Outcome(captured, maximum, order).value;
    Rebuilt.OutIsLonger(captured, maximum, flat, headed, sections, out);
    FlatIs(captured, maximum, order);
    var size: nat :| IsEnd(captured.layout.programHeaders, |captured.layout.programHeaders|, size) && |flat| == size;
    EndOnce(captured.layout.programHeaders, |captured.layout.programHeaders|, size, end);
    FlatGaps(captured, maximum, order, i);
    Rebuilt.ClearIsUntouched(captured.layout, |sections|, TailOf(captured.layout.imageClass, |headed|, sections).tableOffset, i, 1);
    Rebuilt.OutKeeps(captured, maximum, flat, headed, sections, out, i, 1);
    assert out[i] == Slice(out, i, 1)[0] && flat[i] == Slice(flat, i, 1)[0];
  }
}
