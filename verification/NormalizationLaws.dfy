/** Normalising a captured shared object undoes what the loader did to it. */
module NormalizationLaws {
  import opened Bytes
  import opened ElfFormat
  import opened LoadedSharedObjectNormalizer
  import Analyzer = ElfDynamicMetadataAnalyzer
  import Classifier = ElfImageTypeClassifier

  // ---- one value ----

  /** What the file held: address values inside the image, DT_DEBUG zero, and
      DT_INIT not the packer's entry point. */
  ghost predicate Unloaded(s: Setting, tag: nat, value: nat) {
    (tag in ADDRESS_TAGS ==> value < s.span) && (tag == DEBUG_TAG ==> value == 0)
    && (tag == INIT_TAG ==> value != s.packedEntry)
  }

  /** What the loader may leave: the value itself, the value plus the bias for
      an address tag, anything for DT_DEBUG; never the packed entry as DT_INIT. */
  ghost predicate LoadedFrom(s: Setting, tag: nat, value: nat, loaded: nat) {
    (loaded == value || (tag in ADDRESS_TAGS && loaded == value + s.loadBias) || tag == DEBUG_TAG)
    && !(tag == INIT_TAG && loaded == s.packedEntry)
  }

  /** An address the loader left alone survives exactly when it is below the
      bias, or there is no bias to subtract. */
  lemma UnbiasedSurvivesIff(s: Setting, tag: nat, value: nat)
    requires tag in ADDRESS_TAGS && Unloaded(s, tag, value)
    ensures NewValue(s, tag, value) == value <==> value < s.loadBias || s.loadBias == 0
  {
    assert tag != DEBUG_TAG;
  }

  // ---- the table ----

  /** An entry before the end of the table, and not the terminator. */
  ghost predicate Begins(b: Bytes, t: Table, cursor: nat) {
    cursor < t.size && t.TagAt(b, cursor) != 0
  }

  /** Byte `i` belongs to the value of an entry before the terminator. */
  ghost predicate InEntries(b: Bytes, t: Table, cursor: nat, i: int)
    decreases t.size - cursor
  {
    Begins(b, t, cursor)
    && (t.ValueOffset(cursor) <= i < t.ValueOffset(cursor) + t.c.AddressWidth()
        || InEntries(b, t, cursor + t.c.DynamicEntrySize(), i))
  }

  /** The entries of `loaded` up to the terminator are what the loader can have
      made of those of `file`. */
  ghost predicate LoadedTable(file: Bytes, loaded: Bytes, t: Table, s: Setting, cursor: nat)
    decreases t.size - cursor
  {
    cursor < t.size && t.TagAt(loaded, cursor) == t.TagAt(file, cursor)
    && (t.TagAt(file, cursor) != 0 ==>
          Unloaded(s, t.TagAt(file, cursor), t.ValueAt(file, cursor))
          && LoadedFrom(s, t.TagAt(file, cursor), t.ValueAt(file, cursor), t.ValueAt(loaded, cursor))
          && LoadedTable(file, loaded, t, s, cursor + t.c.DynamicEntrySize()))
  }

  /** The loader touched nothing but values of entries before the terminator. */
  ghost predicate SameElsewhere(file: Bytes, loaded: Bytes, t: Table, cursor: nat) {
    |file| == |loaded| && forall i :: 0 <= i < |file| && !InEntries(file, t, cursor, i) ==> file[i] == loaded[i]
  }

  /** A whole entry lies in the buffer. */
  lemma EntryIn(b: Bytes, t: Table, cursor: nat)
    requires t.In(b) && cursor % t.c.DynamicEntrySize() == 0 && cursor < t.size
    ensures t.ValueOffset(cursor) + t.c.AddressWidth() == t.offset + cursor + t.c.DynamicEntrySize() <= |b|
    ensures (cursor + t.c.DynamicEntrySize()) % t.c.DynamicEntrySize() == 0
  {
    Classifier.EntryFits(t.c, t.size, cursor);
  }

  lemma ReadSame(a: Bytes, b: Bytes, at: nat, width: nat)
    requires |a| == |b| && forall i :: at <= i < |a| ==> a[i] == b[i]
    ensures ReadUnsigned(a, at, width) == ReadUnsigned(b, at, width)
  {
    if Fits(a, at, width) {
      SameRangeRead(a, b, at, width);
    }
  }

  /** Entries depend on the bytes from their position on. */
  lemma {:induction false} LaterTable(file: Bytes, a: Bytes, b: Bytes, t: Table, s: Setting, cursor: nat)
    requires LoadedTable(file, a, t, s, cursor) && |a| == |b|
    requires forall i :: t.offset + cursor <= i < |a| ==> a[i] == b[i]
    ensures LoadedTable(file, b, t, s, cursor)
    decreases t.size - cursor
  {
    hide ReadUnsigned, Unloaded, LoadedFrom;
    ReadSame(a, b, t.offset + cursor, t.c.AddressWidth());
    ReadSame(a, b, t.ValueOffset(cursor), t.c.AddressWidth());
    if t.TagAt(file, cursor) != 0 {
      LaterTable(file, a, b, t, s, cursor + t.c.DynamicEntrySize());
    }
  }

  lemma {:induction false} LaterEntries(a: Bytes, b: Bytes, t: Table, cursor: nat, i: int)
    requires |a| == |b| && forall j :: t.offset + cursor <= j < |a| ==> a[j] == b[j]
    ensures InEntries(a, t, cursor, i) == InEntries(b, t, cursor, i)
    decreases t.size - cursor
  {
    hide ReadUnsigned;
    if cursor < t.size {
      ReadSame(a, b, t.offset + cursor, t.c.AddressWidth());
      LaterEntries(a, b, t, cursor + t.c.DynamicEntrySize(), i);
    }
  }

  /** Storing the file's own value makes the value's bytes the file's. */
  lemma StoreOwnValue(file: Bytes, loaded: Bytes, t: Table, cursor: nat)
    requires |file| == |loaded| && Fits(file, t.ValueOffset(cursor), t.c.AddressWidth())
    ensures var r := t.Store(loaded, cursor, t.ValueAt(file, cursor));
            r.Some? && forall i :: 0 <= i < |file| ==>
              r.value[i] == if t.ValueOffset(cursor) <= i < t.ValueOffset(cursor) + t.c.AddressWidth() then file[i] else loaded[i]
  {
    hide LittleEndian;
    var width := t.c.AddressWidth();
    AddressRange(t.c);
    LittleEndianOfUnsigned(Slice(file, t.ValueOffset(cursor), width));
  }

  /** Every address value that the loader left alone is below the bias, or there is no bias. */
  ghost predicate Distinguishable(file: Bytes, loaded: Bytes, t: Table, s: Setting, cursor: nat)
    decreases t.size - cursor
  {
    Begins(file, t, cursor) ==>
      (t.TagAt(file, cursor) in ADDRESS_TAGS && t.ValueAt(loaded, cursor) == t.ValueAt(file, cursor) ==>
         t.ValueAt(file, cursor) < s.loadBias || s.loadBias == 0)
      && Distinguishable(file, loaded, t, s, cursor + t.c.DynamicEntrySize())
  }

  /** One value is restored exactly when it was moved, or is below the bias, or there is no bias. */
  lemma ValueRestoredIff(s: Setting, tag: nat, value: nat, loaded: nat)
    requires Unloaded(s, tag, value) && LoadedFrom(s, tag, value, loaded)
    ensures NewValue(s, tag, loaded) == value
            <==> (tag in ADDRESS_TAGS && loaded == value ==> value < s.loadBias || s.loadBias == 0)
    ensures NewValue(s, tag, loaded) <= loaded
  {
  }

  lemma {:induction false} LaterDistinguishable(file: Bytes, a: Bytes, b: Bytes, t: Table, s: Setting, cursor: nat)
    requires |a| == |b| && forall i :: t.offset + cursor <= i < |a| ==> a[i] == b[i]
    ensures Distinguishable(file, a, t, s, cursor) == Distinguishable(file, b, t, s, cursor)
    decreases t.size - cursor
  {
    hide ReadUnsigned;
    if Begins(file, t, cursor) {
      ReadSame(a, b, t.ValueOffset(cursor), t.c.AddressWidth());
      LaterDistinguishable(file, a, b, t, s, cursor + t.c.DynamicEntrySize());
    }
  }

  lemma {:induction false} EntriesAreLater(b: Bytes, t: Table, cursor: nat, i: int)
    requires InEntries(b, t, cursor, i)
    ensures t.offset + cursor <= i
    decreases t.size - cursor
  {
    hide ReadUnsigned;
    if !(t.ValueOffset(cursor) <= i < t.ValueOffset(cursor) + t.c.AddressWidth()) {
      EntriesAreLater(b, t, cursor + t.c.DynamicEntrySize(), i);
    }
  }

  /** A value that was stored stays what it is to the end of the walk. */
  lemma StoredStays(b: Bytes, t: Table, s: Setting, cursor: nat, value: nat)
    requires t.In(b) && cursor % t.c.DynamicEntrySize() == 0 && cursor < t.size && value < Pow256(t.c.AddressWidth())
    ensures t.Store(b, cursor, value).Some?
    ensures var r := Walk(t.Store(b, cursor, value).value, t, s, cursor + t.c.DynamicEntrySize()).bytes;
            t.ValueAt(r, cursor) == value
  {
    hide Walk, LittleEndian, Unsigned, Slice;
    EntryIn(b, t, cursor);
    AddressRange(t.c);
    var at, width := t.ValueOffset(cursor), t.c.AddressWidth();
    var stored := t.Store(b, cursor, value).value;
    PatchRead(b, at, LittleEndian(value, width));
    UnsignedOfLittleEndian(value, width);
    var r := Walk(stored, t, s, cursor + t.c.DynamicEntrySize()).bytes;
    forall i | at <= i < at + width ensures r[i] == stored[i] {
      if InEntries(stored, t, cursor + t.c.DynamicEntrySize(), i) {
        EntriesAreLater(stored, t, cursor + t.c.DynamicEntrySize(), i);
      }
      WalkFrame(stored, t, s, cursor + t.c.DynamicEntrySize(), i);
    }
    SameRangeRead(stored, r, at, width);
  }

  lemma ValueFits(b: Bytes, t: Table, cursor: nat)
    ensures t.ValueAt(b, cursor) < Pow256(t.c.AddressWidth())
  {
  }

  /** The walk restores the file's bytes exactly when what the loader left alone
      can be told from what it moved. */
  lemma {:induction false} WalkRestoresIff(file: Bytes, loaded: Bytes, t: Table, s: Setting, cursor: nat)
    requires t.In(file) && cursor % t.c.DynamicEntrySize() == 0
    requires LoadedTable(file, loaded, t, s, cursor) && SameElsewhere(file, loaded, t, cursor)
    ensures Walk(loaded, t, s, cursor) == Walked(file, None) <==> Distinguishable(file, loaded, t, s, cursor)
    decreases t.size - cursor
  {
    hide ReadUnsigned, NewValue, LittleEndian, Unloaded, LoadedFrom;
    EntryIn(file, t, cursor);
    if t.TagAt(file, cursor) == 0 {
      assert loaded == file;
    } else {
      var next, value := cursor + t.c.DynamicEntrySize(), NewValue(s, t.TagAt(file, cursor), t.ValueAt(loaded, cursor));
      ValueRestoredIff(s, t.TagAt(file, cursor), t.ValueAt(file, cursor), t.ValueAt(loaded, cursor));
      if value == t.ValueAt(file, cursor) {
        StoreOwnValue(file, loaded, t, cursor);
        var restored := t.Store(loaded, cursor, value).value;
        LaterTable(file, loaded, restored, t, s, next);
        LaterDistinguishable(file, loaded, restored, t, s, next);
        WalkRestoresIff(file, restored, t, s, next);
      } else {
        ValueFits(loaded, t, cursor);
        StoredStays(loaded, t, s, cursor, value);
      }
    }
  }

  /** With a bias of at least the image span nothing can be confused. */
  lemma {:induction false} HighBiasDistinguishes(file: Bytes, loaded: Bytes, t: Table, s: Setting, cursor: nat)
    requires LoadedTable(file, loaded, t, s, cursor) && s.span <= s.loadBias
    ensures Distinguishable(file, loaded, t, s, cursor)
    decreases t.size - cursor
  {
    hide ReadUnsigned;
    if t.TagAt(file, cursor) != 0 {
      HighBiasDistinguishes(file, loaded, t, s, cursor + t.c.DynamicEntrySize());
    }
  }

  /** Whatever the captured bytes are, only values of entries before the terminator change. */
  lemma {:induction false} WalkFrame(b: Bytes, t: Table, s: Setting, cursor: nat, i: nat)
    requires t.In(b) && cursor % t.c.DynamicEntrySize() == 0
    requires i < |b| && !InEntries(b, t, cursor, i)
    ensures Walk(b, t, s, cursor).bytes[i] == b[i]
    decreases t.size - cursor
  {
    hide ReadUnsigned, NewValue, LittleEndian;
    if Begins(b, t, cursor) {
      EntryIn(b, t, cursor);
      var stored := t.Store(b, cursor, NewValue(s, t.TagAt(b, cursor), t.ValueAt(b, cursor)));
      if stored.Some? {
        LaterEntries(b, stored.value, t, cursor + t.c.DynamicEntrySize(), i);
        WalkFrame(stored.value, t, s, cursor + t.c.DynamicEntrySize(), i);
      }
    }
  }

  // ---- the whole ----

  /** `loaded` captures `file`'s shared object after the loader ran on it. */
  ghost predicate CaptureOf(file: CapturedImage, loaded: CapturedImage, packedEntry: U64) {
    PlanOf(file, packedEntry).Rewritten? && |loaded.segments| == |file.segments|
    && var plan := PlanOf(file, packedEntry);
       var a, b := file.segments[plan.segment].fileBytes, loaded.segments[plan.segment].fileBytes;
       loaded == WithSegment(file, plan.segment, b)
       && LoadedTable(a, b, plan.table, plan.setting, 0) && SameElsewhere(a, b, plan.table, 0)
  }

  /** Every address entry that the loader left alone is below the load bias, or the bias is 0. */
  ghost predicate Restorable(file: CapturedImage, loaded: CapturedImage, packedEntry: U64)
    requires CaptureOf(file, loaded, packedEntry)
  {
    var plan := PlanOf(file, packedEntry);
    Distinguishable(file.segments[plan.segment].fileBytes, loaded.segments[plan.segment].fileBytes, plan.table, plan.setting, 0)
  }

  /** The bias is at least the image span. */
  ghost predicate LoadedCapture(file: CapturedImage, loaded: CapturedImage, packedEntry: U64) {
    CaptureOf(file, loaded, packedEntry)
    && PlanOf(file, packedEntry).setting.span <= PlanOf(file, packedEntry).setting.loadBias
  }

  /** The plan depends on the length of the segment, not on its bytes. */
  lemma PlanSurvives(captured: CapturedImage, packedEntry: U64, bytes: Bytes)
    requires PlanOf(captured, packedEntry).Rewritten?
    requires |bytes| == |captured.segments[PlanOf(captured, packedEntry).segment].fileBytes|
    ensures PlanOf(WithSegment(captured, PlanOf(captured, packedEntry).segment, bytes), packedEntry) == PlanOf(captured, packedEntry)
  {
    hide Span, FirstExecutable, ContainingLoad, Analyzer.FirstDynamic;
    var segment := PlanOf(captured, packedEntry).segment;
    var after := WithSegment(captured, segment, bytes).segments;
    var load := ContainingLoad(captured.layout.programHeaders, Analyzer.FirstDynamic(captured.layout.programHeaders).value, 0).value;
    SegmentAtSame(captured.segments, after, load, 0);
  }

  lemma SegmentAtSame(a: seq<CapturedSegment>, b: seq<CapturedSegment>, index: nat, from: nat)
    requires |a| == |b| && from <= |a|
    requires forall k :: 0 <= k < |a| ==> a[k].programHeaderIndex == b[k].programHeaderIndex
    ensures SegmentAt(a, index, from) == SegmentAt(b, index, from)
    decreases |a| - from
  {
    if from < |a| {
      SegmentAtSame(a, b, index, from + 1);
    }
  }

  /** Normalisation returns the capture of the file exactly when every address
      entry that the loader left alone is below the bias, or the bias is 0. */
  lemma NormalizationUndoesLoadingIff(file: CapturedImage, loaded: CapturedImage, packedEntry: U64)
    requires CaptureOf(file, loaded, packedEntry)
    ensures Outcome(loaded, packedEntry) == Normalised(file, None) <==> Restorable(file, loaded, packedEntry)
  {
    hide Walk, PlanOf, LoadedTable, SameElsewhere, Distinguishable;
    var plan := PlanOf(file, packedEntry);
    var a, b := file.segments[plan.segment].fileBytes, loaded.segments[plan.segment].fileBytes;
    LengthKept(a, b, plan.table);
    PlanSurvives(file, packedEntry, b);
    WalkRestoresIff(a, b, plan.table, plan.setting, 0);
    assert WithSegment(file, plan.segment, a) == file;
    assert forall r: Bytes :: WithSegment(loaded, plan.segment, r) == WithSegment(file, plan.segment, r);
    assert forall r: Bytes :: WithSegment(file, plan.segment, r).segments[plan.segment].fileBytes == r;
  }

  /** With a bias of at least the image span, normalisation returns the capture
      of the file, and normalising again changes nothing. */
  lemma NormalizationUndoesLoading(file: CapturedImage, loaded: CapturedImage, packedEntry: U64)
    requires LoadedCapture(file, loaded, packedEntry)
    ensures Outcome(loaded, packedEntry) == Normalised(file, None)
    ensures Outcome(file, packedEntry) == Normalised(file, None)
  {
    hide Outcome, PlanOf, LoadedTable, SameElsewhere, Distinguishable;
    var plan := PlanOf(file, packedEntry);
    var a, b := file.segments[plan.segment].fileBytes, loaded.segments[plan.segment].fileBytes;
    HighBiasDistinguishes(a, b, plan.table, plan.setting, 0);
    NormalizationUndoesLoadingIff(file, loaded, packedEntry);
    OwnTable(a, b, plan.table, plan.setting, 0);
    NothingMoved(a, plan.table);
    HighBiasDistinguishes(a, a, plan.table, plan.setting, 0);
    assert WithSegment(file, plan.segment, a) == file;
    NormalizationUndoesLoadingIff(file, file, packedEntry);
  }

  lemma LengthKept(a: Bytes, b: Bytes, t: Table)
    requires SameElsewhere(a, b, t, 0)
    ensures |a| == |b|
  {
  }

  lemma NothingMoved(a: Bytes, t: Table)
    ensures SameElsewhere(a, a, t, 0)
  {
  }

  lemma {:induction false} OwnTable(file: Bytes, loaded: Bytes, t: Table, s: Setting, cursor: nat)
    requires LoadedTable(file, loaded, t, s, cursor)
    ensures LoadedTable(file, file, t, s, cursor)
    decreases t.size - cursor
  {
    hide ReadUnsigned;
    if t.TagAt(file, cursor) != 0 {
      OwnTable(file, loaded, t, s, cursor + t.c.DynamicEntrySize());
    }
  }

  // ---- a bias inside the image ----

  /** A 32-bit shared object with one address entry, DT_STRTAB = 0x2000, loaded at 0x1000. */
  ghost function SmallBias(): CapturedImage {
    CapturedImage(
      Layout(Bits32, SharedObject, 0, 52, 32, 2, 0, 0, 0, 0,
             [ProgramHeader(PT_LOAD, 5, 0, 0, 0, 16, 0x4000, 1), ProgramHeader(PT_DYNAMIC, 6, 0, 0, 0, 16, 16, 4)]),
      0x1000, [CapturedSegment(0, StringTableAt(0x20))])
  }

  /** The dynamic table DT_STRTAB = 0x100 * `high`, DT_NULL. */
  ghost function StringTableAt(high: Byte): Bytes {
    [5, 0, 0, 0, 0, high, 0, 0, 0, 0, 0, 0, 0, 0, 0, 0]
  }

  function FromDigits(d0: nat, d1: nat, d2: nat, d3: nat): nat {
    d0 + 256 * (d1 + 256 * (d2 + 256 * d3))
  }

  lemma Digit(s: Bytes)
    requires s != []
    ensures Unsigned(s) == s[0] + 256 * Unsigned(s[1..])
  {
  }

  lemma WordOf(b: Bytes, at: nat)
    requires at + 4 <= |b|
    ensures ReadUnsigned(b, at, 4) == FromDigits(b[at], b[at + 1], b[at + 2], b[at + 3])
  {
    var w := Slice(b, at, 4);
    assert w[1..][1..][1..][1..] == [];
    Digit(w);
    Digit(w[1..]);
    Digit(w[1..][1..]);
    Digit(w[1..][1..][1..]);
    assert Unsigned([]) == 0;
  }

  lemma SmallBiasPlan()
    ensures PlanOf(SmallBias(), 1) == Rewritten(0, Table(Bits32, 0, 16), Setting(0x1000, 0x4000, 0, 1))
  {
    var headers, segments := SmallBias().layout.programHeaders, SmallBias().segments;
    assert headers[1..][0] == headers[1];
    assert Analyzer.FirstDynamic(headers) == Analyzer.FirstDynamic(headers[1..]) == Some(headers[1]);
    assert FirstExecutable(headers) == Some(headers[0]);
    assert Contains(headers[0], headers[1]) && ContainingLoad(headers, headers[1], 0) == Some(0);
    assert SegmentAt(segments, 0, 0) == Some(0);
    assert Span(headers, 0) == Some(0) && Span(headers, 1) == Some(0x4000) && Span(headers, 2) == Some(0x4000);
  }

  /** With a bias inside the image, an address that the loader left alone is
      moved: normalising the unloaded capture changes DT_STRTAB to 0x1000. */
  lemma SmallBiasMovesAddresses()
    ensures CaptureOf(SmallBias(), SmallBias(), 1)
    ensures !Restorable(SmallBias(), SmallBias(), 1) && Outcome(SmallBias(), 1) != Normalised(SmallBias(), None)
  {
    hide PlanOf, ReadUnsigned, Outcome;
    SmallBiasPlan();
    var file, t, s, b := SmallBias(), Table(Bits32, 0, 16), Setting(0x1000, 0x4000, 0, 1), StringTableAt(0x20);
    WordOf(b, 0);
    WordOf(b, 4);
    WordOf(b, 8);
    assert t.TagAt(b, 0) == 5 && t.ValueAt(b, 0) == 0x2000 && t.TagAt(b, 8) == 0;
    assert LoadedTable(b, b, t, s, 8);
    assert LoadedTable(b, b, t, s, 0);
    assert WithSegment(file, 0, b) == file;
    NothingMoved(b, t);
    NormalizationUndoesLoadingIff(file, file, 1);
  }
}
