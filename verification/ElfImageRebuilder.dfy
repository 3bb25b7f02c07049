/** Writes a captured ELF image back as a file: segments at their file offsets,
    fresh headers, and a section table with its name table after the image. */
module ElfImageRebuilder {
  import opened Bytes
  import opened ByteFields
  import opened ElfFormat
  import opened ElfSections
  import Writer = ElfHeaderWriter
  import Analyzer = ElfDynamicMetadataAnalyzer

  datatype RebuildError =
    | InvalidInput | SegmentMissing | SizeInvalid | HeaderInvalid | DynamicInvalid(reason: Analyzer.DynamicError)
    | SectionTableTooLarge | SectionValueTooLarge | Failed

  /** Zero where the aligned value does not fit 64 bits. */
  function AlignUp(v: U64, alignment: nat): U64 {
    if alignment <= 1 || v % alignment == 0 then v
    else
      var r := v + (alignment - v % alignment);
      if r > U64_MAX then 0 else r
  }

  // ---- the captured bytes ----

  /** The bytes captured for a program header; the first capture counts. */
  function SegmentOf(segments: seq<CapturedSegment>, index: nat): Option<Bytes> {
    if segments == [] then None
    else if segments[0].programHeaderIndex == index then Some(segments[0].fileBytes)
    else SegmentOf(segments[1..], index)
  }

  predicate Filed(h: ProgramHeader) {
    h.kind == PT_LOAD && h.fileSize != 0
  }

  /** Where the first `n` loads end in the file; None if one was not captured whole. */
  function CapturedSize(headers: seq<ProgramHeader>, segments: seq<CapturedSegment>, n: nat): Option<U64>
    requires n <= |headers|
  {
    if n == 0 then Some(0)
    else
      var before, h := CapturedSize(headers, segments, n - 1), headers[n - 1];
      if before.None? || !Filed(h) then before
      else
        var found := SegmentOf(segments, n - 1);
        if found.None? || |found.value| != h.fileSize || h.fileOffset + h.fileSize > U64_MAX then None
        else Some(Max(before.value, h.fileOffset + h.fileSize))
  }

  /** A copy the source performs without a bounds check. */
  predicate Copyable(size: nat, headers: seq<ProgramHeader>, segments: seq<CapturedSegment>, index: nat) {
    index < |headers| && SegmentOf(segments, index).Some?
    && headers[index].fileOffset + |SegmentOf(segments, index).value| <= size
  }

  /** The buffer after copying the first `n` segments of `order`; None where a
      copy leaves the buffer, which the source does not define. */
  function CopyAll(b: Bytes, headers: seq<ProgramHeader>, segments: seq<CapturedSegment>, order: seq<nat>, n: nat): (r: Option<Bytes>)
    requires n <= |order|
    ensures r.Some? ==> |r.value| == |b|
  {
    if n == 0 then Some(b)
    else
      var before, index := CopyAll(b, headers, segments, order, n - 1), order[n - 1];
      if before.None? || !Copyable(|b|, headers, segments, index) then None
      else Some(Patch(before.value, headers[index].fileOffset, SegmentOf(segments, index).value))
  }

  // ---- the section table ----

  datatype Tail = Tail(names: Bytes, namesOffset: U64, tableOffset: U64, finalSize: nat)

  function TailOf(c: ElfClass, size: U64, sections: seq<Section>): Tail {
    var names := NameTable(sections);
    var namesOffset := AlignUp(size, c.AddressWidth());
    var tableOffset := AlignUp(Analyzer.Wrap64(namesOffset + |names|), c.AddressWidth());
    Tail(names, namesOffset, tableOffset, tableOffset + (|sections| + 1) * c.SectionHeaderSize())
  }

  function NamesSection(t: Tail): Section {
    Section(TABLE_NAME, STRING_TABLE, 0, 0, t.namesOffset, Analyzer.Wrap64(|t.names|), 1, 0, "")
  }

  function LinkFields(sections: seq<Section>, s: Section, at: nat): seq<Field> {
    if s.link == "" || IndexOf(sections, s.link, 0).None? then []
    else [Field(at, 4, Wrap32(IndexOf(sections, s.link, 0).value))]
  }

  function InfoFields(s: Section, at: nat): seq<Field> {
    if s.name == ".dynsym" then [Field(at, 4, 1)] else []
  }

  /** One section header. */
  function SectionFields(c: ElfClass, sections: seq<Section>, offset: nat, name: nat, s: Section): seq<Field> {
    var w := c.AddressWidth();
    [Field(offset, 4, Wrap32(name)), Field(offset + 4, 4, s.kind), Field(offset + c.SectionFlags(), w, s.flags),
     Field(offset + c.SectionAddress(), w, s.address), Field(offset + c.SectionFileOffset(), w, s.offset),
     Field(offset + c.SectionSize(), w, s.size)]
    + LinkFields(sections, s, offset + c.SectionLink()) + InfoFields(s, offset + c.SectionLink() + 4)
    + [Field(offset + c.SectionAlignment(), w, s.alignment), Field(offset + c.SectionEntrySize(), w, s.entrySize)]
  }

  function SectionOffset(c: ElfClass, table: nat, index: nat): nat {
    table + index * c.SectionHeaderSize()
  }

  /** Section `index` of the emitted table; the name table's section is the last. */
  function Emitted(sections: seq<Section>, t: Tail, index: nat): Section
    requires index <= |sections|
  {
    if index < |sections| then sections[index] else NamesSection(t)
  }

  /** The buffer after section headers 1 to `n - 1`; header 0 stays zero. */
  function HeadersWritten(b: Bytes, c: ElfClass, sections: seq<Section>, t: Tail, n: nat): (r: Written)
    requires n <= |sections| + 1
    ensures |r.bytes| == |b|
  {
    if n <= 1 then Written(b, true)
    else
      var before := HeadersWritten(b, c, sections, t, n - 1);
      if !before.ok then before
      else
        WriteAll(before.bytes, SectionFields(c, sections, SectionOffset(c, t.tableOffset, n - 1), |Names(sections, n - 1)|,
                                             Emitted(sections, t, n - 1)))
  }

  /** The ELF header's view of the section table. */
  function TableFields(c: ElfClass, count: nat, table: U64): seq<Field> {
    [Field(c.SectionTableOffset(), c.AddressWidth(), table), Field(c.SectionEntrySizeOffset(), 2, c.SectionHeaderSize()),
     Field(c.SectionCountOffset(), 2, count + 1), Field(c.SectionCountOffset() + 2, 2, count)]
  }

  /** The grown buffer with the name table. */
  function Grown(b: Bytes, t: Tail): Bytes
    requires t.namesOffset + |t.names| <= t.finalSize
  {
    Patch(Resize(b, t.finalSize), t.namesOffset, t.names)
  }

  function Finish(b: Bytes, c: ElfClass, sections: seq<Section>, maximum: U64): Result<Bytes, RebuildError>
    requires |b| <= U64_MAX
  {
    var t := TailOf(c, |b|, sections);
    if |sections| + 1 > 0xffff || t.namesOffset == 0 || t.tableOffset == 0 || t.finalSize > maximum then Err(SectionTableTooLarge)
    else if t.namesOffset + |t.names| > t.finalSize then Err(Failed)
    else
      var written := HeadersWritten(Grown(b, t), c, sections, t, |sections| + 1);
      if !written.ok then Err(SectionValueTooLarge)
      else
        var all := WriteAll(written.bytes, TableFields(c, |sections|, t.tableOffset));
        if !all.ok then Err(SectionTableTooLarge) else Ok(all.bytes)
  }

  // ---- the whole ----

  /** The file image of the captured segments, before any header is written. */
  function Flat(captured: CapturedImage, maximum: U64, order: seq<nat>): Result<Bytes, RebuildError> {
    var c, headers := captured.layout.imageClass, captured.layout.programHeaders;
    if maximum < c.HeaderSize() || headers == [] then Err(InvalidInput)
    else
      var size := CapturedSize(headers, captured.segments, |headers|);
      if size.None? then Err(SegmentMissing)
      else if size.value < c.HeaderSize() || size.value > maximum then Err(SizeInvalid)
      else
        var flat := CopyAll(Zeros(size.value), headers, captured.segments, order, |order|);
        if flat.None? then Err(Failed) else Ok(flat.value)
  }

  /** `order` is the order in which the hash map of segments is walked. */
  function Outcome(captured: CapturedImage, maximum: U64, order: seq<nat>): Result<Bytes, RebuildError> {
    var c, headers := captured.layout.imageClass, captured.layout.programHeaders;
    var flat := Flat(captured, maximum, order);
    if flat.Err? then Err(flat.error)
    else if |flat.value| > U64_MAX then Err(Failed)
    else
      var headed := Writer.Outcome(flat.value, captured.layout);
      if !headed.ok then Err(HeaderInvalid)
      else
        var dynamic := Analyzer.Outcome(headed.bytes, c, headers);
        if dynamic.Err? then Err(DynamicInvalid(dynamic.error))
        else Finish(headed.bytes, c, AllSections(c, headers, dynamic.value.sections), maximum)
  }

  // ---- the methods ----

  method FindSegment(segments: seq<CapturedSegment>, index: nat) returns (found: Option<Bytes>)
    ensures found == SegmentOf(segments, index)
  {
    var k := 0;
    assert segments[0..] == segments;
    while k < |segments|
      invariant 0 <= k <= |segments| && SegmentOf(segments, index) == SegmentOf(segments[k..], index)
    {
      if segments[k].programHeaderIndex == index {
        return Some(segments[k].fileBytes);
      }
      assert segments[k..][1..] == segments[k + 1..];
      k := k + 1;
    }
    return None;
  }

  method MeasureLoads(headers: seq<ProgramHeader>, segments: seq<CapturedSegment>) returns (size: Option<U64>)
    ensures size == CapturedSize(headers, segments, |headers|)
  {
    var fileSize: U64 := 0;
    var index := 0;
    while index < |headers|
      invariant 0 <= index <= |headers| && CapturedSize(headers, segments, index) == Some(fileSize)
    {
      var h := headers[index];
      if Filed(h) {
        var found := FindSegment(segments, index);
        if found == None || |found.value| != h.fileSize || h.fileOffset + h.fileSize > U64_MAX {
          MissingStays(headers, segments, index + 1);
          return None;
        }
        fileSize := Max(fileSize, h.fileOffset + h.fileSize);
      }
      index := index + 1;
    }
    return Some(fileSize);
  }

  lemma {:induction false} MissingStays(headers: seq<ProgramHeader>, segments: seq<CapturedSegment>, n: nat)
    requires n <= |headers| && CapturedSize(headers, segments, n).None?
    ensures CapturedSize(headers, segments, |headers|).None?
    decreases |headers| - n
  {
    hide SegmentOf;
    if n < |headers| {
      MissingStays(headers, segments, n + 1);
    }
  }

  method CopySegments(bytes: array<Byte>, headers: seq<ProgramHeader>, segments: seq<CapturedSegment>, order: seq<nat>)
    returns (ok: bool)
    modifies bytes
    ensures var copied := CopyAll(old(bytes[..]), headers, segments, order, |order|);
            ok == copied.Some? && (ok ==> bytes[..] == copied.value)
  {
    hide Patch;
    ghost var before := bytes[..];
    var k := 0;
    while k < |order|
      invariant 0 <= k <= |order| && CopyAll(before, headers, segments, order, k) == Some(bytes[..])
    {
      var index := order[k];
      var found := FindSegment(segments, index);
      if index >= |headers| || found == None || headers[index].fileOffset + |found.value| > bytes.Length {
        CopyStops(before, headers, segments, order, k + 1);
        return false;
      }
      CopyInto(bytes, headers[index].fileOffset, found.value);
      k := k + 1;
    }
    return true;
  }

  lemma {:induction false} CopyStops(b: Bytes, headers: seq<ProgramHeader>, segments: seq<CapturedSegment>, order: seq<nat>, n: nat)
    requires n <= |order| && CopyAll(b, headers, segments, order, n).None?
    ensures CopyAll(b, headers, segments, order, |order|).None?
    decreases |order| - n
  {
    hide Patch, Copyable;
    if n < |order| {
      CopyStops(b, headers, segments, order, n + 1);
    }
  }

  /** Writes one section header. */
  method WriteSection(bytes: array<Byte>, c: ElfClass, sections: seq<Section>, offset: nat, name: nat, s: Section) returns (ok: bool)
    modifies bytes
    ensures Written(bytes[..], ok) == WriteAll(old(bytes[..]), SectionFields(c, sections, offset, name, s))
  {
    hide WriteAll;
    var w := c.AddressWidth();
    var fields := [
      Field(offset, 4, Wrap32(name)), Field(offset + 4, 4, s.kind), Field(offset + c.SectionFlags(), w, s.flags),
      Field(offset + c.SectionAddress(), w, s.address), Field(offset + c.SectionFileOffset(), w, s.offset),
      Field(offset + c.SectionSize(), w, s.size)];
    ghost var scalars := fields;
    ghost var links := LinkFields(sections, s, offset + c.SectionLink());
    if s.link != "" {
      var linked := FindSection(sections, s.link);
      if linked.Some? {
        fields := fields + [Field(offset + c.SectionLink(), 4, Wrap32(linked.value))];
      }
    }
    assert fields == scalars + links;
    if s.name == ".dynsym" {
      fields := fields + [Field(offset + c.SectionLink() + 4, 4, 1)];
    }
    assert fields == scalars + links + InfoFields(s, offset + c.SectionLink() + 4);
    fields := fields + [Field(offset + c.SectionAlignment(), w, s.alignment), Field(offset + c.SectionEntrySize(), w, s.entrySize)];
    assert fields == SectionFields(c, sections, offset, name, s);
    ok := WriteFields(bytes, fields);
  }

  method WriteSections(bytes: array<Byte>, c: ElfClass, sections: seq<Section>, t: Tail, offsets: seq<nat>) returns (ok: bool)
    requires sections != [] && |offsets| == |sections| + 1
    requires forall k :: 1 <= k <= |sections| ==> offsets[k] == |Names(sections, k)|
    modifies bytes
    ensures Written(bytes[..], ok) == HeadersWritten(old(bytes[..]), c, sections, t, |sections| + 1)
  {
    hide WriteAll, SectionFields, Names;
    ghost var before := bytes[..];
    ok := true;
    var index := 1;
    while index <= |sections| && ok
      invariant 1 <= index <= |sections| + 1
      invariant Written(bytes[..], ok) == HeadersWritten(before, c, sections, t, index)
    {
      ok := WriteSection(bytes, c, sections, SectionOffset(c, t.tableOffset, index), offsets[index], Emitted(sections, t, index));
      index := index + 1;
    }
    if !ok {
      HeadersStop(before, c, sections, t, index);
    }
  }

  lemma {:induction false} HeadersStop(b: Bytes, c: ElfClass, sections: seq<Section>, t: Tail, n: nat)
    requires n <= |sections| + 1 && !HeadersWritten(b, c, sections, t, n).ok
    ensures HeadersWritten(b, c, sections, t, |sections| + 1) == HeadersWritten(b, c, sections, t, n)
    decreases |sections| - n
  {
    hide WriteAll, SectionFields, Names;
    if n <= |sections| {
      HeadersStop(b, c, sections, t, n + 1);
    }
  }

  lemma ListStarts(c: ElfClass, headers: seq<ProgramHeader>, dynamic: seq<Analyzer.DynamicSection>)
    ensures var s := AllSections(c, headers, dynamic); s != [] && s[0] == NULL_SECTION
  {
    LoadsStart(headers, |headers|);
  }

  lemma {:induction false} LoadsStart(headers: seq<ProgramHeader>, n: nat)
    requires n <= |headers|
    ensures var s := LoadSections(headers, n).sections; s != [] && s[0] == NULL_SECTION
  {
    if n > 0 {
      LoadsStart(headers, n - 1);
    }
  }

  /** Names, section table and the header's view of it, after the image. */
  method FinishImage(b: Bytes, c: ElfClass, sections: seq<Section>, maximum: U64) returns (result: Result<Bytes, RebuildError>)
    requires |b| <= U64_MAX && sections != []
    ensures result == Finish(b, c, sections, maximum)
  {
    hide HeadersWritten, WriteAll, AlignUp, NameTable, Names;
    var names, offsets := BuildNames(sections);
    var namesOffset := AlignUp(|b|, c.AddressWidth());
    var tableOffset := AlignUp(Analyzer.Wrap64(namesOffset + |names|), c.AddressWidth());
    var finalSize := tableOffset + (|sections| + 1) * c.SectionHeaderSize();
    var t := Tail(names, namesOffset, tableOffset, finalSize);
    if |sections| + 1 > 0xffff || namesOffset == 0 || tableOffset == 0 || finalSize > maximum {
      return Err(SectionTableTooLarge);
    }
    if namesOffset + |names| > finalSize {
      return Err(Failed);
    }
    var bytes := new Byte[finalSize](k => if 0 <= k < |b| then b[k] else 0);
    assert bytes[..] == Resize(b, finalSize);
    CopyInto(bytes, namesOffset, names);
    var ok := WriteSections(bytes, c, sections, t, offsets);
    if !ok {
      return Err(SectionValueTooLarge);
    }
    ok := WriteFields(bytes, TableFields(c, |sections|, tableOffset));
    if !ok {
      return Err(SectionTableTooLarge);
    }
    result := Ok(bytes[..]);
  }

  method Rebuild(captured: CapturedImage, maximum: U64, order: seq<nat>) returns (result: Result<Bytes, RebuildError>)
    ensures result == Outcome(captured, maximum, order)
  {
    hide Finish, CopyAll, CapturedSize, AllSections, Analyzer.Outcome, Writer.Outcome;
    var c, headers := captured.layout.imageClass, captured.layout.programHeaders;
    if maximum < c.HeaderSize() || headers == [] {
      return Err(InvalidInput);
    }
    var size := MeasureLoads(headers, captured.segments);
    if size == None {
      return Err(SegmentMissing);
    }
    if size.value < c.HeaderSize() || size.value > maximum {
      return Err(SizeInvalid);
    }
    var bytes := new Byte[size.value](_ => 0);
    assert bytes[..] == Zeros(size.value);
    var copied := CopySegments(bytes, headers, captured.segments, order);
    if !copied {
      return Err(Failed);
    }
    var ok := Writer.Write(bytes, captured.layout);
    if !ok {
      return Err(HeaderInvalid);
    }
    var dynamic := Analyzer.Analyze(bytes[..], c, headers);
    if dynamic.Err? {
      return Err(DynamicInvalid(dynamic.error));
    }
    var sections := BuildSections(c, headers, dynamic.value.sections);
    ListStarts(c, headers, dynamic.value.sections);
    result := FinishImage(bytes[..], c, sections, maximum);
  }
}
