/** Undoes, in the captured dynamic table, what the loader and the packer did to it. */
module LoadedSharedObjectNormalizer {
  import opened Bytes
  import opened ElfFormat
  import Analyzer = ElfDynamicMetadataAnalyzer

  const DEBUG_TAG := 21
  const INIT_TAG := 12
  const ADDRESS_TAGS: set<nat> := {
    3, 4, 5, 6, 7, 12, 13, 17, 23, 25, 26, 0x6ffffef5, 0x6ffffff0, 0x6ffffffc, 0x6ffffffe, 0x6ffffff9}

  datatype NormalizeError =
    | KindInvalid | ExecutableSegmentMissing | DynamicSegmentInvalid | DynamicSegmentMissing | LoadRangeOverflow
    | DynamicValueInvalid | DynamicTerminatorMissing

  /** What decides the new value of a dynamic entry. */
  datatype Setting = Setting(loadBias: U64, span: U64, initAddress: U64, packedEntry: U64)

  function NewValue(s: Setting, tag: nat, value: nat): nat {
    if tag == DEBUG_TAG then 0
    else if tag == INIT_TAG && value == s.packedEntry then s.initAddress
    else if tag in ADDRESS_TAGS && s.loadBias <= value < s.loadBias + s.span then value - s.loadBias
    else value
  }

  // ---- the table walk ----

  datatype Table = Table(c: ElfClass, offset: nat, size: nat) {
    predicate In(b: Bytes) {
      offset + size <= |b| && size % c.DynamicEntrySize() == 0
    }

    function TagAt(b: Bytes, cursor: nat): nat {
      ReadUnsigned(b, offset + cursor, c.AddressWidth())
    }

    function ValueOffset(cursor: nat): nat {
      offset + cursor + c.AddressWidth()
    }

    function ValueAt(b: Bytes, cursor: nat): nat {
      ReadUnsigned(b, ValueOffset(cursor), c.AddressWidth())
    }

    /** One entry's value replaced; None where it does not fit. */
    function Store(b: Bytes, cursor: nat, value: nat): (r: Option<Bytes>)
      ensures r.Some? ==> |r.value| == |b|
    {
      if !Fits(b, ValueOffset(cursor), c.AddressWidth()) || (c.Bits32? && value > U32_MAX) then None
      else Some(Patch(b, ValueOffset(cursor), LittleEndian(value, c.AddressWidth())))
    }
  }

  datatype Walked = Walked(bytes: Bytes, error: Option<NormalizeError>)

  /** The table rewritten from byte `cursor` on. */
  function Walk(b: Bytes, t: Table, s: Setting, cursor: nat): (r: Walked)
    ensures |r.bytes| == |b|
    decreases t.size - cursor
  {
    if cursor >= t.size then Walked(b, Some(DynamicTerminatorMissing))
    else if t.TagAt(b, cursor) == 0 then Walked(b, None)
    else
      var stored := t.Store(b, cursor, NewValue(s, t.TagAt(b, cursor), t.ValueAt(b, cursor)));
      if stored.None? then Walked(b, Some(DynamicValueInvalid)) else Walk(stored.value, t, s, cursor + t.c.DynamicEntrySize())
  }

  /** The rewriting loop, in place. */
  method Rewrite(bytes: array<Byte>, t: Table, s: Setting) returns (error: Option<NormalizeError>)
    modifies bytes
    ensures Walked(bytes[..], error) == Walk(old(bytes[..]), t, s, 0)
  {
    hide NewValue, LittleEndian, Patch, ReadUnsigned;
    ghost var before := bytes[..];
    var cursor: nat := 0;
    while cursor < t.size
      invariant Walk(before, t, s, 0) == Walk(bytes[..], t, s, cursor)
      decreases t.size - cursor
    {
      var tag, value := t.TagAt(bytes[..], cursor), t.ValueAt(bytes[..], cursor);
      if tag == 0 {
        return None;
      }
      value := NewValue(s, tag, value);
      ghost var entry := bytes[..];
      var stored := StoreValue(bytes, t, cursor, value);
      if !stored {
        return Some(DynamicValueInvalid);
      }
      cursor := cursor + t.c.DynamicEntrySize();
    }
    return Some(DynamicTerminatorMissing);
  }

  /** Writes one value, byte by byte. */
  method StoreValue(bytes: array<Byte>, t: Table, cursor: nat, value: nat) returns (ok: bool)
    modifies bytes
    ensures ok == t.Store(old(bytes[..]), cursor, value).Some?
    ensures bytes[..] == if ok then t.Store(old(bytes[..]), cursor, value).value else old(bytes[..])
  {
    hide LittleEndian;
    ghost var before := bytes[..];
    var offset, width := t.ValueOffset(cursor), t.c.AddressWidth();
    if offset > bytes.Length || width > bytes.Length - offset || (width == 4 && value > U32_MAX) {
      return false;
    }
    var all := LittleEndian(value, width);
    var index := 0;
    while index < width
      invariant 0 <= index <= width
      invariant forall i :: 0 <= i < bytes.Length ==>
        bytes[i] == if offset <= i < offset + index then all[i - offset] else before[i]
    {
      bytes[offset + index] := all[index];
      index := index + 1;
    }
    assert bytes[..] == Patch(before, offset, all);
    ok := true;
  }

  // ---- the whole ----

  function FirstExecutable(headers: seq<ProgramHeader>): Option<ProgramHeader> {
    if headers == [] then None
    else if headers[0].kind == PT_LOAD && headers[0].Executable() then Some(headers[0])
    else FirstExecutable(headers[1..])
  }

  predicate Contains(load: ProgramHeader, dynamic: ProgramHeader) {
    load.kind == PT_LOAD && dynamic.virtualAddress >= load.virtualAddress && dynamic.fileSize <= load.fileSize
    && dynamic.virtualAddress - load.virtualAddress <= load.fileSize - dynamic.fileSize
  }

  /** Index of the first load that holds the dynamic table. */
  function ContainingLoad(headers: seq<ProgramHeader>, dynamic: ProgramHeader, from: nat): (r: Option<nat>)
    requires from <= |headers|
    ensures r.Some? ==> r.value < |headers| && Contains(headers[r.value], dynamic)
    decreases |headers| - from
  {
    if from == |headers| then None
    else if Contains(headers[from], dynamic) then Some(from)
    else ContainingLoad(headers, dynamic, from + 1)
  }

  /** Position in the list of the first capture of a header. */
  function SegmentAt(segments: seq<CapturedSegment>, index: nat, from: nat): (r: Option<nat>)
    requires from <= |segments|
    ensures r.Some? ==> r.value < |segments|
    decreases |segments| - from
  {
    if from == |segments| then None
    else if segments[from].programHeaderIndex == index then Some(from)
    else SegmentAt(segments, index, from + 1)
  }

  /** The end of the highest of the first `n` headers' loads. */
  function Span(headers: seq<ProgramHeader>, n: nat): Option<U64>
    requires n <= |headers|
  {
    if n == 0 then Some(0)
    else
      var before, h := Span(headers, n - 1), headers[n - 1];
      if before.None? || h.kind != PT_LOAD then before
      else if h.virtualAddress + h.memorySize > U64_MAX then None
      else Some(Max(before.value, h.virtualAddress + h.memorySize))
  }

  datatype Plan = Nothing | Fault(error: NormalizeError) | Rewritten(segment: nat, table: Table, setting: Setting)

  /** Which segment is rewritten, and how. */
  function PlanOf(captured: CapturedImage, packedEntry: U64): (plan: Plan)
    ensures plan.Rewritten? ==> plan.segment < |captured.segments| && plan.table.In(captured.segments[plan.segment].fileBytes)
  {
    var c, headers := captured.layout.imageClass, captured.layout.programHeaders;
    if captured.layout.imageType != SharedObject then Fault(KindInvalid)
    else
      var dynamic := Analyzer.FirstDynamic(headers);
      if dynamic.None? then Nothing
      else
        var executable, load := FirstExecutable(headers), ContainingLoad(headers, dynamic.value, 0);
        if executable.None? then Fault(ExecutableSegmentMissing)
        else if load.None? then Fault(DynamicSegmentInvalid)
        else
          var segment := SegmentAt(captured.segments, load.value, 0);
          if segment.None? then Fault(DynamicSegmentMissing)
          else
            var table := Table(c, dynamic.value.virtualAddress - headers[load.value].virtualAddress, dynamic.value.fileSize);
            if !table.In(captured.segments[segment.value].fileBytes) then Fault(DynamicSegmentInvalid)
            else
              var span := Span(headers, |headers|);
              if span.None? || span.value + captured.loadBias > U64_MAX then Fault(LoadRangeOverflow)
              else
                Rewritten(segment.value, table,
                          Setting(captured.loadBias, span.value, executable.value.virtualAddress, packedEntry))
  }

  function WithSegment(captured: CapturedImage, segment: nat, bytes: Bytes): CapturedImage
    requires segment < |captured.segments|
  {
    captured.(segments := captured.segments[segment := captured.segments[segment].(fileBytes := bytes)])
  }

  datatype Normalised = Normalised(captured: CapturedImage, error: Option<NormalizeError>)

  function Outcome(captured: CapturedImage, packedEntry: U64): Normalised {
    var plan := PlanOf(captured, packedEntry);
    match plan
    case Nothing => Normalised(captured, None)
    case Fault(error) => Normalised(captured, Some(error))
    case Rewritten(segment, table, setting) =>
      var walked := Walk(captured.segments[segment].fileBytes, table, setting, 0);
      Normalised(WithSegment(captured, segment, walked.bytes), walked.error)
  }

  method MeasureSpan(headers: seq<ProgramHeader>) returns (span: Option<U64>)
    ensures span == Span(headers, |headers|)
  {
    var highest: U64 := 0;
    var index := 0;
    while index < |headers|
      invariant 0 <= index <= |headers| && Span(headers, index) == Some(highest)
    {
      var h := headers[index];
      if h.kind == PT_LOAD {
        if h.virtualAddress + h.memorySize > U64_MAX {
          OverflowStays(headers, index + 1);
          return None;
        }
        highest := Max(highest, h.virtualAddress + h.memorySize);
      }
      index := index + 1;
    }
    return Some(highest);
  }

  lemma {:induction false} OverflowStays(headers: seq<ProgramHeader>, n: nat)
    requires n <= |headers| && Span(headers, n).None?
    ensures Span(headers, |headers|).None?
    decreases |headers| - n
  {
    if n < |headers| {
      OverflowStays(headers, n + 1);
    }
  }

  method Normalize(captured: CapturedImage, packedEntry: U64) returns (result: Normalised)
    ensures result == Outcome(captured, packedEntry)
  {
    hide Walk, Span, FirstExecutable, ContainingLoad, SegmentAt, Analyzer.FirstDynamic;
    var c, headers := captured.layout.imageClass, captured.layout.programHeaders;
    if captured.layout.imageType != SharedObject {
      return Normalised(captured, Some(KindInvalid));
    }
    var dynamic := Analyzer.FindDynamic(headers);
    if dynamic == None {
      return Normalised(captured, None);
    }
    var executable, load := FirstExecutable(headers), ContainingLoad(headers, dynamic.value, 0);
    if executable == None {
      return Normalised(captured, Some(ExecutableSegmentMissing));
    }
    if load == None {
      return Normalised(captured, Some(DynamicSegmentInvalid));
    }
    var segment := SegmentAt(captured.segments, load.value, 0);
    if segment == None {
      return Normalised(captured, Some(DynamicSegmentMissing));
    }
    var data := captured.segments[segment.value].fileBytes;
    var table := Table(c, dynamic.value.virtualAddress - headers[load.value].virtualAddress, dynamic.value.fileSize);
    if !table.In(data) {
      return Normalised(captured, Some(DynamicSegmentInvalid));
    }
    var span := MeasureSpan(headers);
    if span == None || span.value > U64_MAX - captured.loadBias {
      return Normalised(captured, Some(LoadRangeOverflow));
    }
    var bytes := new Byte[|data|](k requires 0 <= k < |data| => data[k]);
    assert bytes[..] == data;
    var error := Rewrite(bytes, table, Setting(captured.loadBias, span.value, executable.value.virtualAddress, packedEntry));
    result := Normalised(WithSegment(captured, segment.value, bytes[..]), error);
  }
}
