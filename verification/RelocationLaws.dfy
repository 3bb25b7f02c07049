/** What relocation inference finds, and that the rebaser's walk over an
    encoded directory visits exactly the encoded slots. */
module RelocationLaws {
  import opened Bytes
  import opened PeFormat
  import opened RelocationReconstructor
  import Rebaser = PeFileRebaser

  // ---- inference is exact ----

  /** The input checks that `Reconstruct` makes before scanning. */
  ghost predicate Accepted(snapshots: seq<Snapshot>, layout: Layout, preferredImageBase: U64) {
    |snapshots| == 3 && layout.sizeOfHeaders < layout.sizeOfImage && preferredImageBase != 0
    && (forall k :: 0 <= k < 3 ==> snapshots[k].loadedBase != 0 && layout.sizeOfImage <= |snapshots[k].bytes|)
    && (forall p, k :: 0 <= p < k < 3 ==> snapshots[p].loadedBase != snapshots[k].loadedBase)
    && AllAddressesFit(snapshots, layout.format, preferredImageBase)
  }

  lemma AcceptedIffNoInputError(snapshots: seq<Snapshot>, sourceSlots: seq<Rebaser.SourceSlot>, layout: Layout,
                                base: U64)
    ensures Accepted(snapshots, layout, base) ==>
      Outcome(snapshots, sourceSlots, layout, base) == Found(snapshots, sourceSlots, layout, base)
    ensures !Accepted(snapshots, layout, base) ==>
      Outcome(snapshots, sourceSlots, layout, base) in {Err(InvalidInput), Err(EvidenceInsufficient)}
  {
    hide Found;
    if |snapshots| == 3 && SnapshotError(snapshots, layout, 0) == None {
      SnapshotsAccepted(snapshots, layout, 0);
    } else if |snapshots| == 3 {
      SnapshotRejected(snapshots, layout, 0);
    }
  }

  lemma {:induction false} SnapshotRejected(snapshots: seq<Snapshot>, layout: Layout, index: nat)
    requires index <= |snapshots| && SnapshotError(snapshots, layout, index) != None
    ensures (exists k :: 0 <= k < |snapshots|
              && (snapshots[k].loadedBase == 0 || |snapshots[k].bytes| < layout.sizeOfImage))
         || (exists p, k :: 0 <= p < k < |snapshots| && snapshots[p].loadedBase == snapshots[k].loadedBase)
    ensures SnapshotError(snapshots, layout, index).value in {InvalidInput, EvidenceInsufficient}
    decreases |snapshots| - index
  {
    if snapshots[index].loadedBase != 0 && layout.sizeOfImage <= |snapshots[index].bytes|
       && forall p :: 0 <= p < index ==> snapshots[p].loadedBase != snapshots[index].loadedBase {
      SnapshotRejected(snapshots, layout, index + 1);
    }
  }

  lemma {:induction false} ScanIsExact(snapshots: seq<Snapshot>, sourceSlots: seq<Rebaser.SourceSlot>,
                                       layout: Layout, rva: int)
    requires snapshots != [] && Readable(snapshots, layout) && layout.sizeOfHeaders <= rva
    ensures var slots := Scan(snapshots, sourceSlots, layout, rva);
            Increasing(slots)
            && forall slot: RelocationSlot :: slot in slots <==>
                 rva <= slot.location && Qualifies(snapshots, sourceSlots, layout, slot)
    decreases layout.sizeOfImage - rva
  {
    hide PointsTo, IsPackedResidue, Readable;
    if InRange(layout, rva) {
      ScanIsExact(snapshots, sourceSlots, layout, rva + 1);
      var here, rest := SlotAt(snapshots, sourceSlots, layout, rva), Scan(snapshots, sourceSlots, layout, rva + 1);
      forall slot: RelocationSlot
        ensures slot in here + rest <==> rva <= slot.location && Qualifies(snapshots, sourceSlots, layout, slot)
      {
        if slot.location == rva && Qualifies(snapshots, sourceSlots, layout, slot) {
          assert Target(snapshots, layout, rva) == Some(slot.imageTarget);
          assert here[0] == slot;
        }
      }
      assert forall i :: 0 <= i < |rest| ==> rest[i] in rest;
    }
  }

  lemma {:induction false} NeighboursApartIsApart(slots: seq<RelocationSlot>, width: nat, i: int, j: int)
    requires NeighboursApart(slots, width) && 0 <= i < j < |slots|
    ensures slots[i].location + width <= slots[j].location
    decreases j
  {
    if i + 1 < j {
      NeighboursApartIsApart(slots, width, i, j - 1);
    }
  }

  /** Two qualifying slots share a byte. */
  ghost predicate Clash(snapshots: seq<Snapshot>, sourceSlots: seq<Rebaser.SourceSlot>, layout: Layout,
                        a: RelocationSlot, b: RelocationSlot)
    requires Readable(snapshots, layout)
  {
    Qualifies(snapshots, sourceSlots, layout, a) && Qualifies(snapshots, sourceSlots, layout, b)
    && a.location < b.location < a.location + layout.format.PointerSize()
  }

  /** Neighbours decide whether any two of the qualifying slots overlap. */
  lemma ApartOrClash(snapshots: seq<Snapshot>, sourceSlots: seq<Rebaser.SourceSlot>, layout: Layout, slots: seq<RelocationSlot>)
    requires Readable(snapshots, layout) && Increasing(slots)
    requires forall s :: s in slots <==> Qualifies(snapshots, sourceSlots, layout, s)
    ensures var width := layout.format.PointerSize();
            (NeighboursApart(slots, width) ==> Apart(slots, width))
            && (NeighboursApart(slots, width) <==> !exists a, b :: Clash(snapshots, sourceSlots, layout, a, b))
  {
    hide Qualifies;
    var width := layout.format.PointerSize();
    if NeighboursApart(slots, width) {
      forall i, j | 0 <= i < j < |slots| ensures slots[i].location + width <= slots[j].location {
        NeighboursApartIsApart(slots, width, i, j);
      }
      forall a, b | a in slots && b in slots && a.location < b.location ensures a.location + width <= b.location {
        var i :| 0 <= i < |slots| && slots[i] == a;
        var j :| 0 <= j < |slots| && slots[j] == b;
        assert i < j;
      }
    } else {
      var i :| 0 <= i < |slots| - 1 && slots[i].location + width > slots[i + 1].location;
      assert slots[i] in slots && slots[i + 1] in slots;
      assert Clash(snapshots, sourceSlots, layout, slots[i], slots[i + 1]);
    }
  }

  /** A plan's slots are precisely the qualifying locations in increasing order;
      the plan is refused as ambiguous exactly when two of them overlap. */
  lemma InferenceIsExact(snapshots: seq<Snapshot>, sourceSlots: seq<Rebaser.SourceSlot>, layout: Layout, base: U64)
    requires Accepted(snapshots, layout, base)
    ensures var r := Outcome(snapshots, sourceSlots, layout, base);
            (r == Err(CandidatesAmbiguous) <==> exists a, b :: Clash(snapshots, sourceSlots, layout, a, b))
            && (r == Err(NoRelocations) <==> forall s :: !Qualifies(snapshots, sourceSlots, layout, s))
            && (r.Ok? ==>
                  Increasing(r.value.slots) && Apart(r.value.slots, layout.format.PointerSize())
                  && r.value.slots != []
                  && forall s :: s in r.value.slots <==> Qualifies(snapshots, sourceSlots, layout, s))
            && (r.Err? ==> r.error in {CandidatesAmbiguous, NoRelocations})
  {
    hide Scan, DirectoryBytes, Qualifies, SnapshotError, PointsTo, ReadAt, IsPackedResidue, Outcome;
    var width := layout.format.PointerSize();
    AcceptedIffNoInputError(snapshots, sourceSlots, layout, base);
    ScanIsExact(snapshots, sourceSlots, layout, layout.sizeOfHeaders);
    var slots := Scan(snapshots, sourceSlots, layout, layout.sizeOfHeaders);
    QualifyingInRange(snapshots, sourceSlots, layout);
    ApartOrClash(snapshots, sourceSlots, layout, slots);
    if slots != [] {
      assert slots[0] in slots;
    }
  }

  lemma QualifyingInRange(snapshots: seq<Snapshot>, sourceSlots: seq<Rebaser.SourceSlot>, layout: Layout)
    requires Readable(snapshots, layout)
    ensures forall s :: Qualifies(snapshots, sourceSlots, layout, s) ==>
      layout.sizeOfHeaders <= s.location && InRange(layout, s.location) && s.imageTarget < layout.sizeOfImage
  {
  }

  /** A location whose bytes did not follow the image base is never a slot. */
  lemma FixedValueIsNoSlot(snapshots: seq<Snapshot>, sourceSlots: seq<Rebaser.SourceSlot>, layout: Layout,
                           base: U64, s: RelocationSlot, p: nat, k: nat)
    requires Accepted(snapshots, layout, base) && InRange(layout, s.location)
    requires p < k < 3
    requires var w := layout.format.PointerSize();
             ReadAt(snapshots[p].bytes, s.location, w) == ReadAt(snapshots[k].bytes, s.location, w)
    ensures !Qualifies(snapshots, sourceSlots, layout, s)
  {
    hide ReadAt, IsPackedResidue;
    assert snapshots[p].loadedBase != snapshots[k].loadedBase;
  }

  // ---- the walk over an encoded directory ----

  lemma {:induction false} WordsAt(format: Format, run: seq<RelocationSlot>, k: nat)
    requires k < |run|
    ensures Slice(Words(format, run), 2 * k, 2) == LittleEndian(Word(format, run[k]), 2)
  {
    hide LittleEndian, Word, Slice, Words;
    var rest, last := run[..|run| - 1], run[|run| - 1];
    WordsStep(format, rest, last);
    assert run == rest + [last];
    var before, word := Words(format, rest), LittleEndian(Word(format, last), 2);
    if k < |rest| {
      WordsAt(format, rest, k);
      SlicePrefix(before, word, 2 * k, 2);
      SliceOf(before + word, 2 * k, 2);
    } else {
      SliceOf(before + word, |before|, 2);
      assert (before + word)[|before|..|before| + 2] == word;
    }
  }

  lemma SliceOf(s: Bytes, k: nat, n: nat)
    requires k + n <= |s|
    ensures Slice(s, k, n) == s[k..k + n]
  {
  }

  /** File bytes from `at` hold `content`, and those bytes are bytes `k..` of the directory. */
  ghost predicate Holds(source: Bytes, at: nat, content: Bytes) {
    Fits(source, at, |content|) && Slice(source, at, |content|) == content
  }

  lemma HoldsPart(source: Bytes, at: nat, content: Bytes, k: nat, n: nat)
    requires Holds(source, at, content) && k + n <= |content|
    ensures Holds(source, at + k, content[k..k + n])
    ensures Fits(source, at + k, n) && ReadAt(source, at + k, n) == Unsigned(content[k..k + n])
  {
    var part := content[k..k + n];
    forall i | 0 <= i < n ensures Slice(source, at + k, n)[i] == part[i] {
      assert Slice(source, at, |content|)[k + i] == source[at + k + i];
    }
    assert Slice(source, at + k, n) == part;
  }

  /** The directory's address range is one contiguous file range at `d`. */
  ghost predicate Contiguous(layout: Layout, d: nat) {
    forall k: nat, n: nat :: 0 < n && k + n <= Rebaser.RelocationDirectory(layout).size ==>
      Rebaser.RvaToRaw(layout, Rebaser.DirectoryRva(layout, k), n) == Some(d + k)
  }

  /** Every slot can be read through the layout. */
  ghost predicate SlotsMapped(source: Bytes, layout: Layout, slots: seq<RelocationSlot>) {
    forall k :: 0 <= k < |slots| ==> Mapped(source, layout, slots[k])
  }

  ghost predicate Mapped(source: Bytes, layout: Layout, slot: RelocationSlot) {
    var raw := Rebaser.RvaToRaw(layout, slot.location, layout.format.PointerSize());
    raw.Some? && Fits(source, raw.value, layout.format.PointerSize())
  }

  function Located(layout: Layout, slot: RelocationSlot): Rebaser.Slot {
    var raw := Rebaser.RvaToRaw(layout, slot.location, layout.format.PointerSize());
    Rebaser.Slot(slot.location, if raw.Some? then raw.value else 0)
  }

  function LocatedAll(layout: Layout, slots: seq<RelocationSlot>): (r: seq<Rebaser.Slot>)
    ensures |r| == |slots| && forall k :: 0 <= k < |r| ==> r[k] == Located(layout, slots[k])
  {
    seq(|slots|, k requires 0 <= k < |slots| => Located(layout, slots[k]))
  }

  /** One encoded word is read as its slot. */
  lemma EntryOfWord(source: Bytes, layout: Layout, d: nat, k: nat, page: U32, slot: RelocationSlot)
    requires Contiguous(layout, d) && k + 2 <= Rebaser.RelocationDirectory(layout).size
    requires Holds(source, d + k, LittleEndian(Word(layout.format, slot), 2))
    requires PageOf(slot.location) == page && Mapped(source, layout, slot)
    ensures Rebaser.Entry(source, layout, page, Rebaser.DirectoryRva(layout, k))
            == Ok(Some(Located(layout, slot)))
  {
    hide Rebaser.RvaToRaw, LittleEndian, Unsigned;
    Powers();
    var word := Word(layout.format, slot);
    UnsignedOfLittleEndian(word, 2);
    HoldsPart(source, d + k, LittleEndian(word, 2), 0, 2);
    assert LittleEndian(word, 2)[0..2] == LittleEndian(word, 2);
    assert ReadAt(source, d + k, 2) == word;
    WordParts(layout.format, slot);
  }

  lemma WordParts(format: Format, slot: RelocationSlot)
    ensures Word(format, slot) / 0x1000 == format.RelocationType()
    ensures Word(format, slot) % 0x1000 == slot.location % 0x1000
  {
    var offset := slot.location % 0x1000;
    assert (3 * 0x1000 + offset) / 0x1000 == 3 && (10 * 0x1000 + offset) / 0x1000 == 10;
    assert (3 * 0x1000 + offset) % 0x1000 == offset && (10 * 0x1000 + offset) % 0x1000 == offset;
  }

  lemma EntryOfPadding(source: Bytes, layout: Layout, d: nat, k: nat, page: U32)
    requires Contiguous(layout, d) && k + 2 <= Rebaser.RelocationDirectory(layout).size
    requires Holds(source, d + k, Zeros(2))
    ensures Rebaser.Entry(source, layout, page, Rebaser.DirectoryRva(layout, k)) == Ok(None)
  {
    hide Rebaser.RvaToRaw, Unsigned;
    var zeros := Zeros(2);
    HoldsPart(source, d + k, zeros, 0, 2);
    UnsignedOfZeros(zeros);
    assert zeros[0..2] == zeros;
    assert Unsigned(zeros) == 0;
  }

  /** An even run needs no padding and an odd one needs one zero word. */
  lemma PaddingCases(count: nat)
    ensures |Padding(count)| == 2 * (PaddedCount(count) - count)
    ensures (PaddedCount(count) == count && Padding(count) == [])
         || (PaddedCount(count) == count + 1 && Padding(count) == Zeros(2))
    ensures (2 * PaddedCount(count)) % 4 == 0
  {
  }

  /** The directory bytes from `k` are the padded words of `run`, all in `page`. */
  ghost predicate RunStands(source: Bytes, layout: Layout, d: nat, k: nat, page: U32, run: seq<RelocationSlot>) {
    Contiguous(layout, d)
    && k + 2 * PaddedCount(|run|) <= Rebaser.RelocationDirectory(layout).size
    && Holds(source, d + k, Words(layout.format, run) + Padding(|run|))
    && (forall i :: 0 <= i < |run| ==> PageOf(run[i].location) == page)
    && SlotsMapped(source, layout, run)
  }

  lemma EntryOfRun(source: Bytes, layout: Layout, d: nat, k: nat, page: U32, run: seq<RelocationSlot>, index: nat)
    requires RunStands(source, layout, d, k, page, run) && index < |run|
    ensures Rebaser.Entry(source, layout, page, Rebaser.DirectoryRva(layout, k + 2 * index))
            == Ok(Some(Located(layout, run[index])))
  {
    hide Contiguous, Rebaser.Entry, Words, Padding, PaddedCount, Mapped, LittleEndian, Holds, Located, Slice, PageOf,
         Rebaser.DirectoryRva;
    var all := Words(layout.format, run) + Padding(|run|);
    PaddingCases(|run|);
    HoldsPart(source, d + k, all, 2 * index, 2);
    WordsAt(layout.format, run, index);
    SlicePrefix(Words(layout.format, run), Padding(|run|), 2 * index, 2);
    EntryOfWord(source, layout, d, k + 2 * index, page, run[index]);
  }

  lemma PaddingOfRun(source: Bytes, layout: Layout, d: nat, k: nat, page: U32, run: seq<RelocationSlot>)
    requires RunStands(source, layout, d, k, page, run) && PaddedCount(|run|) > |run|
    ensures Rebaser.Entry(source, layout, page, Rebaser.DirectoryRva(layout, k + 2 * |run|)) == Ok(None)
  {
    hide Contiguous, Rebaser.Entry, Words, Padding, PaddedCount, LittleEndian, Holds, Slice, PageOf, SlotsMapped, Rebaser.DirectoryRva;
    var words, zeros := Words(layout.format, run), Padding(|run|);
    PaddingCases(|run|);
    HoldsPart(source, d + k, words + zeros, 2 * |run|, 2);
    assert (words + zeros)[2 * |run|..2 * |run| + 2] == Zeros(2);
    EntryOfPadding(source, layout, d, k + 2 * |run|, page);
  }

  lemma {:induction false} EntriesOfRun(source: Bytes, layout: Layout, d: nat, k: nat, page: U32,
                                        run: seq<RelocationSlot>, index: nat)
    requires RunStands(source, layout, d, k, page, run) && index <= |run|
    ensures Rebaser.Entries(source, layout, page, k, index, PaddedCount(|run|))
            == Ok(LocatedAll(layout, run[index..]))
    decreases |run| - index
  {
    hide RunStands, Rebaser.Entry, Words, Padding, PaddedCount, LocatedAll, Located, Slice, PageOf, Rebaser.DirectoryRva;
    PaddingCases(|run|);
    if index < |run| {
      EntryOfRun(source, layout, d, k, page, run, index);
      EntriesOfRun(source, layout, d, k, page, run, index + 1);
      LocatedStep(layout, run, index);
    } else {
      assert run[index..] == [];
      LocatedNothing(layout);
      if PaddedCount(|run|) > |run| {
        PaddingOfRun(source, layout, d, k, page, run);
        Rebaser.PrependNothing(Rebaser.Entries(source, layout, page, k, index + 1, PaddedCount(|run|)));
      }
    }
  }

  lemma SlicePrefix(a: Bytes, b: Bytes, k: nat, n: nat)
    requires k + n <= |a|
    ensures (a + b)[k..k + n] == Slice(a, k, n)
  {
    forall i | 0 <= i < n ensures (a + b)[k..k + n][i] == Slice(a, k, n)[i] {
    }
  }

  lemma LocatedStep(layout: Layout, run: seq<RelocationSlot>, index: nat)
    requires index < |run|
    ensures LocatedAll(layout, run[index..]) == [Located(layout, run[index])] + LocatedAll(layout, run[index + 1..])
  {
    hide Located;
  }

  lemma LocatedNothing(layout: Layout)
    ensures LocatedAll(layout, []) == []
  {
  }

  lemma BlockLength(format: Format, page: U32, run: seq<RelocationSlot>)
    ensures |BlockBytes(format, page, run)| == 8 + 2 * PaddedCount(|run|)
    ensures |BlockBytes(format, page, run)| % 4 == 0
    ensures |BlockBytes(format, page, run)| <= U32_MAX ==> BlockSize(|run|) == |BlockBytes(format, page, run)|
  {
    hide LittleEndian, Words, Padding, PaddedCount, BlockSize;
    PaddingCases(|run|);
    if 8 + 2 * PaddedCount(|run|) <= U32_MAX {
      BlockSizeFits(|run|);
    }
  }

  lemma BlockSizeFits(count: nat)
    requires 8 + 2 * PaddedCount(count) <= U32_MAX
    ensures BlockSize(count) == 8 + 2 * PaddedCount(count)
  {
    var size := 8 + 2 * count;
    assert Wrap32(size) == size;
    if count % 2 == 1 {
      assert size % 4 == 2;
      assert Wrap32(size + 2) == size + 2;
    } else {
      assert size % 4 == 0;
    }
  }

  lemma BlockParts(format: Format, page: U32, run: seq<RelocationSlot>)
    requires |BlockBytes(format, page, run)| <= U32_MAX
    ensures var block := BlockBytes(format, page, run);
            |block| >= 8 && block[0..4] == LittleEndian(page, 4) && block[4..8] == LittleEndian(|block|, 4)
            && block[8..] == Words(format, run) + Padding(|run|)
  {
    hide Words, LittleEndian, Padding, PaddedCount, BlockSize;
    BlockLength(format, page, run);
    var a, b := LittleEndian(page, 4), LittleEndian(BlockSize(|run|), 4);
    assert BlockBytes(format, page, run) == a + b + (Words(format, run) + Padding(|run|));
  }

  lemma HeadOfRun(source: Bytes, layout: Layout, d: nat, k: nat, page: U32, run: seq<RelocationSlot>)
    requires Contiguous(layout, d)
    requires k + |BlockBytes(layout.format, page, run)| <= Rebaser.RelocationDirectory(layout).size
    requires Holds(source, d + k, BlockBytes(layout.format, page, run))
    ensures Rebaser.BlockHeader(source, layout, k)
            == Some(Rebaser.BlockHead(page, |BlockBytes(layout.format, page, run)|))
  {
    hide BlockBytes, PaddedCount, Holds, Contiguous;
    var block := BlockBytes(layout.format, page, run);
    BlockLength(layout.format, page, run);
    HeadBytes(source, layout.format, d + k, page, run);
    ContiguousAt(layout, d, k, 8);
    HeadRead(source, layout, d + k, k, page, PaddedCount(|run|));
  }

  lemma ContiguousAt(layout: Layout, d: nat, k: nat, n: nat)
    requires Contiguous(layout, d) && 0 < n && k + n <= Rebaser.RelocationDirectory(layout).size
    ensures Rebaser.RvaToRaw(layout, Rebaser.DirectoryRva(layout, k), n) == Some(d + k)
  {
    hide Rebaser.RvaToRaw, Rebaser.DirectoryRva;
  }

  /** The two header words of an encoded block. */
  lemma HeadBytes(source: Bytes, format: Format, at: nat, page: U32, run: seq<RelocationSlot>)
    requires |BlockBytes(format, page, run)| <= U32_MAX && Holds(source, at, BlockBytes(format, page, run))
    ensures Fits(source, at, 8) && ReadAt(source, at, 4) == page
    ensures ReadAt(source, at + 4, 4) == |BlockBytes(format, page, run)|
  {
    hide LittleEndian, Unsigned, Pow256, BlockBytes, ReadAt, Holds;
    var block := BlockBytes(format, page, run);
    Powers();
    BlockParts(format, page, run);
    UnsignedOfLittleEndian(page, 4);
    UnsignedOfLittleEndian(|block|, 4);
    HoldsPart(source, at, block, 0, 4);
    HoldsPart(source, at, block, 4, 4);
  }

  lemma HeadRead(source: Bytes, layout: Layout, raw: nat, k: nat, page: U32, count: nat)
    requires Rebaser.RvaToRaw(layout, Rebaser.DirectoryRva(layout, k), 8) == Some(raw) && Fits(source, raw, 8)
    requires ReadAt(source, raw, 4) == page && ReadAt(source, raw + 4, 4) == 8 + 2 * count
    requires k + 8 + 2 * count <= Rebaser.RelocationDirectory(layout).size
    ensures Rebaser.BlockHeader(source, layout, k) == Some(Rebaser.BlockHead(page, 8 + 2 * count))
  {
    hide Unsigned, Rebaser.RvaToRaw, ReadAt, Rebaser.DirectoryRva, Pow256;
    assert (8 + 2 * count - 8) % 2 == 0;
  }

  /** The walk reads one encoded block: its header, its slots, its padding. */
  lemma BlockOfRun(source: Bytes, layout: Layout, d: nat, k: nat, page: U32, run: seq<RelocationSlot>)
    requires Contiguous(layout, d)
    requires k + |BlockBytes(layout.format, page, run)| <= Rebaser.RelocationDirectory(layout).size
    requires Holds(source, d + k, BlockBytes(layout.format, page, run))
    requires forall i :: 0 <= i < |run| ==> PageOf(run[i].location) == page
    requires SlotsMapped(source, layout, run)
    ensures var head := Rebaser.BlockHead(page, |BlockBytes(layout.format, page, run)|);
            Rebaser.BlockHeader(source, layout, k) == Some(head)
            && Rebaser.Block(source, layout, k, head) == Ok(LocatedAll(layout, run))
  {
    hide Words, LittleEndian, Unsigned, Pow256, BlockBytes, Holds, Rebaser.Entries, SlotsMapped, LocatedAll, Rebaser.RvaToRaw,
      Rebaser.BlockHeader, PaddedCount, Padding, BlockSize, Contiguous, PageOf;
    var block := BlockBytes(layout.format, page, run);
    HeadOfRun(source, layout, d, k, page, run);
    BlockLength(layout.format, page, run);
    BlockParts(layout.format, page, run);
    HoldsPart(source, d + k, block, 8, |block| - 8);
    assert block[8..8 + (|block| - 8)] == block[8..];
    EntriesOfRun(source, layout, d, k + 8, page, run, 0);
    assert run[0..] == run;
  }

  /** The walk over an encoded directory visits exactly the encoded slots, in
      order, and consumes exactly the directory. */
  lemma {:induction false} WalkVisitsEncodedSlots(source: Bytes, layout: Layout, d: nat, k: nat,
                                                  slots: seq<RelocationSlot>)
    requires Contiguous(layout, d)
    requires k + |DirectoryBytes(layout.format, slots)| == Rebaser.RelocationDirectory(layout).size
    requires Holds(source, d + k, DirectoryBytes(layout.format, slots))
    requires SlotsMapped(source, layout, slots)
    ensures Rebaser.Blocks(source, layout, k) == Ok(LocatedAll(layout, slots))
    decreases |slots|
  {
    hide Contiguous, Holds, SlotsMapped, BlockBytes, LocatedAll, PageOf, FirstRun, PaddedCount, Rebaser.BlockHeader, Rebaser.Block;
    if slots != [] {
      var n := FirstRun(slots);
      var page := PageOf(slots[0].location);
      var block := BlockBytes(layout.format, page, slots[..n]);
      var rest := DirectoryBytes(layout.format, slots[n..]);
      BlockLength(layout.format, page, slots[..n]);
      HoldsBoth(source, d + k, block, rest);
      MappedParts(source, layout, slots, n);
      forall i | 0 <= i < n ensures PageOf(slots[..n][i].location) == page {
        RunIsOnePage(slots, i);
      }
      BlockOfRun(source, layout, d, k, page, slots[..n]);
      WalkVisitsEncodedSlots(source, layout, d, k + |block|, slots[n..]);
    } else {
      LocatedNothing(layout);
    }
  }

  lemma HoldsBoth(source: Bytes, at: nat, first: Bytes, second: Bytes)
    requires Holds(source, at, first + second)
    ensures Holds(source, at, first) && Holds(source, at + |first|, second)
  {
    hide Holds;
    HoldsPart(source, at, first + second, 0, |first|);
    HoldsPart(source, at, first + second, |first|, |second|);
    assert (first + second)[0..0 + |first|] == first;
    assert (first + second)[|first|..|first| + |second|] == second;
  }

  lemma MappedParts(source: Bytes, layout: Layout, slots: seq<RelocationSlot>, n: nat)
    requires SlotsMapped(source, layout, slots) && n <= |slots|
    ensures SlotsMapped(source, layout, slots[..n]) && SlotsMapped(source, layout, slots[n..])
    ensures LocatedAll(layout, slots) == LocatedAll(layout, slots[..n]) + LocatedAll(layout, slots[n..])
  {
    hide Mapped, Located;
  }

  /** The page of every block, in file order. */
  function BlockPages(slots: seq<RelocationSlot>): seq<U32> {
    if slots == [] then []
    else [PageOf(slots[0].location)] + BlockPages(slots[FirstRun(slots)..])
  }

  lemma PagesAreMonotone(a: U32, b: U32)
    requires a <= b
    ensures PageOf(a) <= PageOf(b)
  {
  }

  /** Every later slot of an ordered list lies in a later page than its first run. */
  lemma PagesAfterRun(slots: seq<RelocationSlot>, k: nat)
    requires Increasing(slots) && slots != [] && FirstRun(slots) <= k < |slots|
    ensures PageOf(slots[0].location) < PageOf(slots[k].location)
  {
    hide PageOf;
    var n := FirstRun(slots);
    PagesAreMonotone(slots[0].location, slots[n].location);
    assert n < k ==> slots[n].location < slots[k].location;
    PagesAreMonotone(slots[n].location, slots[k].location);
  }

  lemma {:induction false} DirectoryIsAligned(format: Format, slots: seq<RelocationSlot>)
    ensures |DirectoryBytes(format, slots)| % 4 == 0
  {
    hide BlockBytes, FirstRun;
    if slots != [] {
      var n := FirstRun(slots);
      BlockLength(format, PageOf(slots[0].location), slots[..n]);
      DirectoryIsAligned(format, slots[n..]);
    }
  }

  lemma RunIsOnePage(slots: seq<RelocationSlot>, k: nat)
    requires slots != [] && k < FirstRun(slots)
    ensures PageOf(slots[k].location) == PageOf(slots[0].location)
  {
  }

  /** Every block's page is the page of some slot. */
  lemma {:induction false} BlockHasSlot(slots: seq<RelocationSlot>, b: nat) returns (k: nat)
    requires b < |BlockPages(slots)|
    ensures k < |slots| && PageOf(slots[k].location) == BlockPages(slots)[b]
  {
    hide PageOf, FirstRun;
    if b == 0 {
      k := 0;
    } else {
      var n := FirstRun(slots);
      var j := BlockHasSlot(slots[n..], b - 1);
      k := n + j;
      assert slots[n..][j] == slots[k];
    }
  }

  /** Every slot lies in the page of some block. */
  lemma {:induction false} SlotHasBlock(slots: seq<RelocationSlot>, k: nat) returns (b: nat)
    requires k < |slots|
    ensures b < |BlockPages(slots)| && PageOf(slots[k].location) == BlockPages(slots)[b]
    decreases |slots|
  {
    hide PageOf, FirstRun;
    var n := FirstRun(slots);
    if k < n {
      RunIsOnePage(slots, k);
      b := 0;
    } else {
      assert slots[n..][k - n] == slots[k];
      b := SlotHasBlock(slots[n..], k - n);
      b := b + 1;
    }
  }

  /** For ordered slots there is one block per 4 KiB page, in page order. */
  lemma {:induction false} OneBlockPerPage(slots: seq<RelocationSlot>, i: nat, j: nat)
    requires Increasing(slots) && i < j < |BlockPages(slots)|
    ensures BlockPages(slots)[i] < BlockPages(slots)[j]
    decreases |slots|
  {
    hide PageOf, FirstRun;
    var n := FirstRun(slots);
    if i == 0 {
      var k := BlockHasSlot(slots[n..], j - 1);
      assert slots[n..][k] == slots[n + k];
      PagesAfterRun(slots, n + k);
    } else {
      OneBlockPerPage(slots[n..], i - 1, j - 1);
    }
  }
}
