/** Normalisation in numbers: which captures are refused, which table is
    rewritten, which tags count as addresses, and every value that changes. */
module NormalizationExactLaws {
  import opened Bytes
  import opened ElfFormat
  import opened LoadedSharedObjectNormalizer
  import Analyzer = ElfDynamicMetadataAnalyzer

  // ---- one entry ----

  /** The value that replaces a dynamic entry's: zero for DT_DEBUG, the code's
      address for a DT_INIT that is the packer's entry, an address in the loaded
      image made relative; anything else stays. */
  ghost function Replacement(s: Setting, tag: nat, value: nat): nat {
    if tag == 21 then 0
    else if tag == 12 && value == s.packedEntry then s.initAddress
    else if HoldsAddress(tag) && s.loadBias <= value && value - s.loadBias < s.span then value - s.loadBias
    else value
  }

  /** DT_PLTGOT, DT_HASH, DT_STRTAB, DT_SYMTAB, DT_RELA, DT_INIT, DT_FINI, DT_REL,
      DT_JMPREL, DT_INIT_ARRAY, DT_FINI_ARRAY, DT_GNU_HASH, DT_VERSYM, DT_VERDEF,
      DT_VERNEED and 0x6ffffff9. */
  ghost predicate HoldsAddress(tag: nat) {
    tag == 3 || tag == 4 || tag == 5 || tag == 6 || tag == 7 || tag == 12 || tag == 13 || tag == 17 || tag == 23 || tag == 25
    || tag == 26 || tag == 0x6fff_fef5 || tag == 0x6fff_fff0 || tag == 0x6fff_fffc || tag == 0x6fff_fffe || tag == 0x6fff_fff9
  }

  /** The address tags are exactly these sixteen. */
  lemma AddressTagsAre(tag: nat)
    ensures tag in ADDRESS_TAGS <==> HoldsAddress(tag)
  {
  }

  lemma ReplacementIs(s: Setting, tag: nat, value: nat)
    ensures NewValue(s, tag, value) == Replacement(s, tag, value)
  {
    AddressTagsAre(tag);
  }

  // ---- the table ----

  ghost function Width(c: ElfClass): nat {
    if c.Bits32? then 4 else 8
  }

  /** Where entry `k` of a table at `at` starts. */
  ghost function EntryAt(c: ElfClass, at: nat, k: nat): nat {
    at + if c.Bits32? then 8 * k else 16 * k
  }

  ghost predicate HasEntry(b: Bytes, c: ElfClass, at: nat, k: nat) {
    EntryAt(c, at, k + 1) <= |b|
  }

  ghost function Tag(b: Bytes, c: ElfClass, at: nat, k: nat): nat
    requires HasEntry(b, c, at, k)
  {
    ReadAt(b, EntryAt(c, at, k), Width(c))
  }

  ghost function Value(b: Bytes, c: ElfClass, at: nat, k: nat): nat
    requires HasEntry(b, c, at, k)
  {
    ReadAt(b, EntryAt(c, at, k) + Width(c), Width(c))
  }

  ghost predicate InValue(c: ElfClass, at: nat, from: nat, to: nat, i: int) {
    exists k: nat :: from <= k < to && EntryAt(c, at, k) + Width(c) <= i < EntryAt(c, at, k + 1)
  }

  ghost predicate Storable(c: ElfClass, s: Setting, tag: nat, value: nat) {
    c.Bits32? ==> Replacement(s, tag, value) < 0x1_0000_0000
  }

  /** Entry `k` is no terminator, its new value fits, and `after` holds it. */
  ghost predicate EntryDone(b: Bytes, after: Bytes, c: ElfClass, at: nat, s: Setting, k: nat) {
    HasEntry(b, c, at, k) && HasEntry(after, c, at, k) && Tag(b, c, at, k) != 0
    && Storable(c, s, Tag(b, c, at, k), Value(b, c, at, k)) && Tag(after, c, at, k) == Tag(b, c, at, k)
    && Value(after, c, at, k) == Replacement(s, Tag(b, c, at, k), Value(b, c, at, k))
  }

  /** Entries `from..to` have new values; no other byte has changed. */
  ghost predicate EntriesDone(b: Bytes, after: Bytes, c: ElfClass, at: nat, s: Setting, from: nat, to: nat) {
    |after| == |b| && (forall k: nat :: from <= k < to ==> EntryDone(b, after, c, at, s, k))
    && forall i :: 0 <= i < |b| && !InValue(c, at, from, to, i) ==> after[i] == b[i]
  }

  /** Why the loop over `count` entries stops at entry `m`. */
  ghost predicate StopsAt(b: Bytes, c: ElfClass, at: nat, s: Setting, count: nat, m: nat, error: Option<NormalizeError>) {
    if m == count then error == Some(DynamicTerminatorMissing)
    else
      m < count && HasEntry(b, c, at, m)
      && if Tag(b, c, at, m) == 0 then error == None
         else !Storable(c, s, Tag(b, c, at, m), Value(b, c, at, m)) && error == Some(DynamicValueInvalid)
  }

  ghost predicate TableDone(b: Bytes, r: Walked, c: ElfClass, at: nat, s: Setting, count: nat, from: nat) {
    exists m: nat :: from <= m && EntriesDone(b, r.bytes, c, at, s, from, m) && StopsAt(b, c, at, s, count, m, r.error)
  }

  lemma EntryReads(b: Bytes, t: Table, k: nat)
    requires HasEntry(b, t.c, t.offset, k)
    ensures var cursor := EntryAt(t.c, 0, k);
            t.TagAt(b, cursor) == Tag(b, t.c, t.offset, k) && t.ValueAt(b, cursor) == Value(b, t.c, t.offset, k)
            && t.ValueOffset(cursor) == EntryAt(t.c, t.offset, k) + Width(t.c)
            && EntryAt(t.c, 0, k + 1) == cursor + t.c.DynamicEntrySize()
            && EntryAt(t.c, t.offset, k + 1) == EntryAt(t.c, t.offset, k) + 2 * Width(t.c)
  {
  }

  /** One value stored: the entry is done and all later ones are as before. */
  lemma StoreExact(b: Bytes, t: Table, s: Setting, k: nat)
    requires HasEntry(b, t.c, t.offset, k) && Tag(b, t.c, t.offset, k) != 0
    ensures var cursor := EntryAt(t.c, 0, k);
            var stored := t.Store(b, cursor, NewValue(s, t.TagAt(b, cursor), t.ValueAt(b, cursor)));
            (stored.Some? <==> Storable(t.c, s, Tag(b, t.c, t.offset, k), Value(b, t.c, t.offset, k)))
            && (stored.Some? ==>
                  EntriesDone(b, stored.value, t.c, t.offset, s, k, k + 1)
                  && forall i :: EntryAt(t.c, t.offset, k + 1) <= i < |b| ==> stored.value[i] == b[i])
  {
    hide Replacement, NewValue, LittleEndian, Unsigned, Slice, ReadUnsigned;
    EntryReads(b, t, k);
    var c, at := t.c, t.offset;
    var tag, value := Tag(b, c, at, k), Value(b, c, at, k);
    ReplacementIs(s, tag, value);
    ReplacementBound(c, s, tag, value);
    var stored := t.Store(b, EntryAt(c, 0, k), NewValue(s, tag, value));
    if stored.Some? {
      var replaced, field := NewValue(s, tag, value), EntryAt(c, at, k) + Width(c);
      Powers();
      AddressRange(c);
      PatchRead(b, field, LittleEndian(replaced, Width(c)));
      UnsignedOfLittleEndian(replaced, Width(c));
      PatchElsewhere(b, field, LittleEndian(replaced, Width(c)), EntryAt(c, at, k), Width(c));
      forall i | 0 <= i < |b| && !InValue(c, at, k, k + 1, i) ensures stored.value[i] == b[i] {
        OwnValue(c, at, k, i);
      }
    }
  }

  lemma OwnValue(c: ElfClass, at: nat, k: nat, i: int)
    ensures EntryAt(c, at, k) + Width(c) <= i < EntryAt(c, at, k + 1) ==> InValue(c, at, k, k + 1, i)
  {
  }

  lemma ReplacementBound(c: ElfClass, s: Setting, tag: nat, value: nat)
    requires value < Pow256(Width(c))
    ensures Replacement(s, tag, value) < 0x1_0000_0000_0000_0000
  {
    Powers();
  }

  lemma EntriesApart(c: ElfClass, at: nat, j: nat, k: nat)
    requires j < k
    ensures EntryAt(c, at, j + 1) <= EntryAt(c, at, k)
    ensures EntryAt(c, at, j) + 2 * Width(c) == EntryAt(c, at, j + 1)
  {
  }

  lemma LaterSame(b: Bytes, stored: Bytes, c: ElfClass, at: nat, j: nat, k: nat)
    requires |b| == |stored| && j < k && forall i :: EntryAt(c, at, j + 1) <= i < |b| ==> stored[i] == b[i]
    requires HasEntry(b, c, at, k)
    ensures HasEntry(stored, c, at, k)
    ensures Tag(stored, c, at, k) == Tag(b, c, at, k) && Value(stored, c, at, k) == Value(b, c, at, k)
  {
    hide ReadAt, EntryAt, Width;
    EntriesApart(c, at, j, k);
    EntriesApart(c, at, k, k + 1);
    SameRangeRead(stored, b, EntryAt(c, at, k), Width(c));
    SameRangeRead(stored, b, EntryAt(c, at, k) + Width(c), Width(c));
  }

  /** An entry that is done stays done while later values change. */
  lemma EarlierDone(b: Bytes, stored: Bytes, after: Bytes, c: ElfClass, at: nat, s: Setting, j: nat, m: nat)
    requires EntryDone(b, stored, c, at, s, j) && |stored| == |after|
    requires forall i :: 0 <= i < |stored| && !InValue(c, at, j + 1, m, i) ==> after[i] == stored[i]
    ensures EntryDone(b, after, c, at, s, j)
  {
    hide ReadAt, EntryAt, Width, Replacement;
    var next := j + 1;
    forall i | EntryAt(c, at, j) <= i < EntryAt(c, at, next) ensures !InValue(c, at, next, m, i) {
      forall k: nat | next <= k < m ensures i < EntryAt(c, at, k) {
        EntriesApart(c, at, j, k);
      }
    }
    EntriesApart(c, at, j, j + 1);
    SameRangeRead(after, stored, EntryAt(c, at, j), Width(c));
    SameRangeRead(after, stored, EntryAt(c, at, j) + Width(c), Width(c));
  }

  lemma LaterDone(b: Bytes, stored: Bytes, after: Bytes, c: ElfClass, at: nat, s: Setting, j: nat, k: nat)
    requires EntryDone(stored, after, c, at, s, k) && j < k && |b| == |stored|
    requires forall i :: EntryAt(c, at, j + 1) <= i < |b| ==> stored[i] == b[i]
    ensures EntryDone(b, after, c, at, s, k)
  {
    hide Tag, Value, EntryAt, Replacement, Storable;
    LaterSame(b, stored, c, at, j, k);
  }

  lemma JoinDone(b: Bytes, stored: Bytes, after: Bytes, c: ElfClass, at: nat, s: Setting, j: nat, m: nat)
    requires EntriesDone(b, stored, c, at, s, j, j + 1) && EntriesDone(stored, after, c, at, s, j + 1, m) && j < m
    requires forall i :: EntryAt(c, at, j + 1) <= i < |b| ==> stored[i] == b[i]
    ensures EntriesDone(b, after, c, at, s, j, m)
  {
    hide EntryDone, EntryAt, Width;
    assert EntryDone(b, stored, c, at, s, j);
    EarlierDone(b, stored, after, c, at, s, j, m);
    forall k: nat | j <= k < m ensures EntryDone(b, after, c, at, s, k) {
      if k > j {
        LaterDone(b, stored, after, c, at, s, j, k);
      }
    }
    forall i | 0 <= i < |b| && !InValue(c, at, j, m, i) ensures after[i] == b[i] {
      InValueParts(c, at, j, m, i);
    }
  }

  lemma InValueParts(c: ElfClass, at: nat, j: nat, m: nat, i: int)
    requires j < m && !InValue(c, at, j, m, i)
    ensures !InValue(c, at, j, j + 1, i) && !InValue(c, at, j + 1, m, i)
  {
    hide EntryAt, Width;
  }

  /** One entry, then the rest of the table. */
  lemma RestDone(b: Bytes, stored: Bytes, r: Walked, c: ElfClass, at: nat, s: Setting, count: nat, j: nat)
    requires j < count && EntryAt(c, at, count) <= |b| && EntriesDone(b, stored, c, at, s, j, j + 1)
    requires forall i :: EntryAt(c, at, j + 1) <= i < |b| ==> stored[i] == b[i]
    requires TableDone(stored, r, c, at, s, count, j + 1)
    ensures TableDone(b, r, c, at, s, count, j)
  {
    hide Tag, Value, Storable, EntryDone, EntryAt, EntriesDone;
    var m: nat :| j + 1 <= m && EntriesDone(stored, r.bytes, c, at, s, j + 1, m) && StopsAt(stored, c, at, s, count, m, r.error);
    JoinDone(b, stored, r.bytes, c, at, s, j, m);
    SameLength(b, stored, c, at, s, j);
    if m < count {
      EntriesIn(c, at, m, count);
      LaterSame(b, stored, c, at, j, m);
    }
    assert StopsAt(b, c, at, s, count, m, r.error);
  }

  lemma SameLength(b: Bytes, stored: Bytes, c: ElfClass, at: nat, s: Setting, j: nat)
    requires EntriesDone(b, stored, c, at, s, j, j + 1)
    ensures |b| == |stored|
  {
  }

  lemma {:induction false} WalkExact(b: Bytes, t: Table, s: Setting, count: nat, j: nat)
    requires EntryAt(t.c, 0, count) == t.size && EntryAt(t.c, t.offset, count) <= |b| && j <= count
    ensures TableDone(b, Walk(b, t, s, EntryAt(t.c, 0, j)), t.c, t.offset, s, count, j)
    decreases count - j
  {
    hide Tag, Value, NewValue, Storable, ReadUnsigned, EntryDone, EntriesDone, EntryAt;
    var c, at, cursor := t.c, t.offset, EntryAt(t.c, 0, j);
    if j == count {
      NothingDone(b, c, at, s, j);
      assert StopsAt(b, c, at, s, count, j, Some(DynamicTerminatorMissing));
    } else {
      EntriesIn(c, at, j, count);
      EntryReads(b, t, j);
      if Tag(b, c, at, j) == 0 {
        NothingDone(b, c, at, s, j);
        assert StopsAt(b, c, at, s, count, j, None);
      } else {
        StoreExact(b, t, s, j);
        var stored := t.Store(b, cursor, NewValue(s, t.TagAt(b, cursor), t.ValueAt(b, cursor)));
        if stored.None? {
          NothingDone(b, c, at, s, j);
          assert StopsAt(b, c, at, s, count, j, Some(DynamicValueInvalid));
        } else {
          WalkExact(stored.value, t, s, count, j + 1);
          RestDone(b, stored.value, Walk(stored.value, t, s, EntryAt(c, 0, j + 1)), c, at, s, count, j);
        }
      }
    }
  }

  lemma EntriesIn(c: ElfClass, at: nat, j: nat, count: nat)
    requires j < count
    ensures EntryAt(c, at, j + 1) <= EntryAt(c, at, count) && EntryAt(c, 0, j) < EntryAt(c, 0, count)
  {
  }

  lemma NothingDone(b: Bytes, c: ElfClass, at: nat, s: Setting, j: nat)
    ensures EntriesDone(b, b, c, at, s, j, j)
  {
  }

  // ---- which table ----

  ghost predicate FirstDynamic(h: seq<ProgramHeader>, d: nat) {
    d < |h| && h[d].kind == 2 && forall j :: 0 <= j < d ==> h[j].kind != 2
  }

  ghost predicate IsCode(h: ProgramHeader) {
    h.kind == 1 && h.flags % 2 == 1
  }

  ghost predicate FirstCode(h: seq<ProgramHeader>, e: nat) {
    e < |h| && IsCode(h[e]) && forall j :: 0 <= j < e ==> !IsCode(h[j])
  }

  /** The load's file bytes hold all of the dynamic table. */
  ghost predicate Covers(load: ProgramHeader, table: ProgramHeader) {
    load.kind == 1 && load.virtualAddress <= table.virtualAddress
    && table.virtualAddress + table.fileSize <= load.virtualAddress + load.fileSize
  }

  ghost predicate FirstHolder(h: seq<ProgramHeader>, d: nat, l: nat)
    requires d < |h|
  {
    l < |h| && Covers(h[l], h[d]) && forall j :: 0 <= j < l ==> !Covers(h[j], h[d])
  }

  ghost predicate FirstCapture(segments: seq<CapturedSegment>, l: nat, g: nat) {
    g < |segments| && segments[g].programHeaderIndex == l && forall j :: 0 <= j < g ==> segments[j].programHeaderIndex != l
  }

  ghost predicate EndsBy(h: seq<ProgramHeader>, n: nat, limit: int) {
    forall k :: 0 <= k < n && k < |h| && h[k].kind == 1 ==> h[k].virtualAddress + h[k].memorySize <= limit
  }

  /** The span is the end of the highest load. */
  ghost predicate IsSpan(h: seq<ProgramHeader>, n: nat, span: int) {
    EndsBy(h, n, span)
    && ((span == 0 && forall k :: 0 <= k < n && k < |h| ==> h[k].kind != 1)
        || exists k :: 0 <= k < n && k < |h| && h[k].kind == 1 && h[k].virtualAddress + h[k].memorySize == span)
  }

  lemma {:induction false} DynamicIs(h: seq<ProgramHeader>)
    ensures var d := Analyzer.FirstDynamic(h);
            if d.Some? then exists k: nat :: k < |h| && FirstDynamic(h, k) && h[k] == d.value else forall k: nat :: !FirstDynamic(h, k)
  {
    if h != [] && h[0].kind != 2 {
      var rest := h[1..];
      DynamicIs(rest);
      assert forall k :: 0 < k < |h| ==> h[k] == rest[k - 1];
      if Analyzer.FirstDynamic(rest).Some? {
        var k: nat :| k < |rest| && FirstDynamic(rest, k) && rest[k] == Analyzer.FirstDynamic(rest).value;
        assert h[k + 1] == rest[k] && FirstDynamic(h, k + 1);
      } else {
        forall k: nat ensures !FirstDynamic(h, k) {
          assert k > 0 ==> !FirstDynamic(rest, k - 1);
        }
      }
    } else if h != [] {
      assert FirstDynamic(h, 0);
    }
  }

  lemma {:induction false} CodeIs(h: seq<ProgramHeader>)
    ensures var e := FirstExecutable(h);
            if e.Some? then exists k: nat :: k < |h| && FirstCode(h, k) && h[k] == e.value else forall k: nat :: !FirstCode(h, k)
  {
    if h != [] && !IsCode(h[0]) {
      var rest := h[1..];
      CodeIs(rest);
      assert forall k :: 0 < k < |h| ==> h[k] == rest[k - 1];
      if FirstExecutable(rest).Some? {
        var k: nat :| k < |rest| && FirstCode(rest, k) && rest[k] == FirstExecutable(rest).value;
        assert h[k + 1] == rest[k] && FirstCode(h, k + 1);
      } else {
        forall k: nat ensures !FirstCode(h, k) {
          assert k > 0 ==> !FirstCode(rest, k - 1);
        }
      }
    } else if h != [] {
      assert FirstCode(h, 0);
    }
  }

  lemma {:induction false} HolderIs(h: seq<ProgramHeader>, d: nat, from: nat)
    requires d < |h| && from <= |h| && forall j :: 0 <= j < from ==> !Covers(h[j], h[d])
    ensures var l := ContainingLoad(h, h[d], from);
            if l.Some? then FirstHolder(h, d, l.value) else forall k: nat :: !FirstHolder(h, d, k)
    decreases |h| - from
  {
    if from < |h| {
      assert Contains(h[from], h[d]) <==> Covers(h[from], h[d]);
      if !Contains(h[from], h[d]) {
        HolderIs(h, d, from + 1);
      }
    }
  }

  lemma {:induction false} CaptureIs(segments: seq<CapturedSegment>, l: nat, from: nat)
    requires from <= |segments| && forall j :: 0 <= j < from ==> segments[j].programHeaderIndex != l
    ensures var g := SegmentAt(segments, l, from);
            if g.Some? then FirstCapture(segments, l, g.value) else forall k: nat :: !FirstCapture(segments, l, k)
    decreases |segments| - from
  {
    if from < |segments| && segments[from].programHeaderIndex != l {
      CaptureIs(segments, l, from + 1);
    }
  }

  lemma {:induction false} SpanIs(h: seq<ProgramHeader>, n: nat)
    requires n <= |h|
    ensures Span(h, n).Some? <==> EndsBy(h, n, 0xffff_ffff_ffff_ffff)
    ensures Span(h, n).Some? ==> IsSpan(h, n, Span(h, n).value)
  {
    if n > 0 {
      SpanIs(h, n - 1);
      if Span(h, n).Some? {
        assert h[n - 1].kind == 1 && Span(h, n).value == h[n - 1].virtualAddress + h[n - 1].memorySize ==> IsSpan(h, n, Span(h, n).value);
      }
    }
  }

  // ---- the outcome ----

  /** The captured image with the file bytes of segment `g` replaced. */
  ghost predicate OnlySegment(captured: CapturedImage, after: CapturedImage, g: nat) {
    after.layout == captured.layout && after.loadBias == captured.loadBias && |after.segments| == |captured.segments|
    && forall k :: 0 <= k < |captured.segments| ==>
         after.segments[k].programHeaderIndex == captured.segments[k].programHeaderIndex
         && (k != g ==> after.segments[k] == captured.segments[k])
  }

  /** What happens once the table, its load and the code are found. */
  ghost predicate FoundIs(captured: CapturedImage, packedEntry: U64, r: Normalised, d: nat, e: nat, l: nat)
    requires d < |captured.layout.programHeaders| && e < |captured.layout.programHeaders| && l < |captured.layout.programHeaders|
  {
    var c, h := captured.layout.imageClass, captured.layout.programHeaders;
    if forall g: nat :: !FirstCapture(captured.segments, l, g) then r == Normalised(captured, Some(DynamicSegmentMissing))
    else
      exists g: nat :: FirstCapture(captured.segments, l, g) && h[l].virtualAddress <= h[d].virtualAddress
        && var at, size, bytes := h[d].virtualAddress - h[l].virtualAddress, h[d].fileSize, captured.segments[g].fileBytes;
           if at + size > |bytes| || size % (2 * Width(c)) != 0 then r == Normalised(captured, Some(DynamicSegmentInvalid))
           else if !EndsBy(h, |h|, 0xffff_ffff_ffff_ffff - captured.loadBias) then r == Normalised(captured, Some(LoadRangeOverflow))
           else
             exists span: U64 :: IsSpan(h, |h|, span) && OnlySegment(captured, r.captured, g)
               && TableDone(bytes, Walked(r.captured.segments[g].fileBytes, r.error), c, at,
                            Setting(captured.loadBias, span, h[e].virtualAddress, packedEntry), size / (2 * Width(c)), 0)
  }

  ghost predicate NormalisedIs(captured: CapturedImage, packedEntry: U64, r: Normalised) {
    var h := captured.layout.programHeaders;
    if captured.layout.imageType != SharedObject then r == Normalised(captured, Some(KindInvalid))
    else if forall d: nat :: !FirstDynamic(h, d) then r == Normalised(captured, None)
    else if forall e: nat :: !FirstCode(h, e) then r == Normalised(captured, Some(ExecutableSegmentMissing))
    else
      exists d: nat, e: nat :: FirstDynamic(h, d) && FirstCode(h, e)
        && if forall l: nat :: !FirstHolder(h, d, l) then r == Normalised(captured, Some(DynamicSegmentInvalid))
           else exists l: nat :: FirstHolder(h, d, l) && FoundIs(captured, packedEntry, r, d, e, l)
  }

  lemma SpanOverflow(h: seq<ProgramHeader>, e: nat, bias: U64)
    requires FirstCode(h, e)
    ensures Span(h, |h|).None? || Span(h, |h|).value + bias > U64_MAX <==> !EndsBy(h, |h|, 0xffff_ffff_ffff_ffff - bias)
  {
    SpanIs(h, |h|);
  }

  lemma CountIs(c: ElfClass, at: nat, size: nat)
    requires size % c.DynamicEntrySize() == 0
    ensures c.DynamicEntrySize() == 2 * Width(c)
    ensures EntryAt(c, 0, size / (2 * Width(c))) == size && EntryAt(c, at, size / (2 * Width(c))) == at + size && EntryAt(c, 0, 0) == 0
  {
  }

  lemma FoundExact(captured: CapturedImage, packedEntry: U64, d: nat, e: nat, l: nat)
    requires captured.layout.imageType == SharedObject
    requires var h := captured.layout.programHeaders;
             d < |h| && e < |h| && l < |h| && FirstDynamic(h, d) && FirstCode(h, e) && FirstHolder(h, d, l)
             && Analyzer.FirstDynamic(h) == Some(h[d]) && FirstExecutable(h) == Some(h[e]) && ContainingLoad(h, h[d], 0) == Some(l)
    ensures FoundIs(captured, packedEntry, Outcome(captured, packedEntry), d, e, l)
  {
    hide Walk, Span, EndsBy, IsSpan, TableDone, Analyzer.FirstDynamic, FirstExecutable, ContainingLoad, SegmentAt, FirstCapture,
      EntryAt, FirstDynamic, FirstCode, FirstHolder;
    var c, h := captured.layout.imageClass, captured.layout.programHeaders;
    CaptureIs(captured.segments, l, 0);
    HolderBelow(h, d, l);
    var g := SegmentAt(captured.segments, l, 0);
    if g.Some? {
      CaptureIndex(captured.segments, l, g.value);
      var at, size, bytes := h[d].virtualAddress - h[l].virtualAddress, h[d].fileSize, captured.segments[g.value].fileBytes;
      SpanOverflow(h, e, captured.loadBias);
      SpanIs(h, |h|);
      if at + size <= |bytes| && size % c.DynamicEntrySize() == 0 && EndsBy(h, |h|, 0xffff_ffff_ffff_ffff - captured.loadBias) {
        CountIs(c, at, size);
        var s := Setting(captured.loadBias, Span(h, |h|).value, h[e].virtualAddress, packedEntry);
        WalkExact(bytes, Table(c, at, size), s, size / (2 * Width(c)), 0);
      }
    }
  }

  lemma HolderBelow(h: seq<ProgramHeader>, d: nat, l: nat)
    requires d < |h| && FirstHolder(h, d, l)
    ensures h[l].virtualAddress <= h[d].virtualAddress
  {
  }

  lemma CaptureIndex(segments: seq<CapturedSegment>, l: nat, g: nat)
    requires FirstCapture(segments, l, g)
    ensures g < |segments| && forall k: nat :: FirstCapture(segments, l, k) ==> k == g
  {
  }

  /** Everything normalisation does, and when it refuses. */
  lemma NormalizationIsExact(captured: CapturedImage, packedEntry: U64)
    ensures NormalisedIs(captured, packedEntry, Outcome(captured, packedEntry))
  {
    hide Walk, Span, FoundIs, Analyzer.FirstDynamic, FirstExecutable, ContainingLoad, SegmentAt, FirstCapture, FirstDynamic, FirstCode,
      FirstHolder;
    var h := captured.layout.programHeaders;
    DynamicIs(h);
    CodeIs(h);
    if captured.layout.imageType == SharedObject && Analyzer.FirstDynamic(h).Some? && FirstExecutable(h).Some? {
      var d: nat :| d < |h| && FirstDynamic(h, d) && h[d] == Analyzer.FirstDynamic(h).value;
      var e: nat :| e < |h| && FirstCode(h, e) && h[e] == FirstExecutable(h).value;
      HolderIs(h, d, 0);
      var l := ContainingLoad(h, h[d], 0);
      if l.Some? {
        FoundExact(captured, packedEntry, d, e, l.value);
      }
    }
  }
}
