/** Relocation inference in numbers: which addresses become slots, which
    captures are refused, and what the encoded directory says byte by byte. */
module RelocationExactLaws {
  import opened Bytes
  import opened PeFormat
  import opened RelocationReconstructor
  import Laws = RelocationLaws
  import Rebaser = PeFileRebaser

  // ---- the slots ----

  ghost function SlotSize(layout: Layout): nat {
    if layout.format.Pe32? then 4 else 8
  }

  /** The packed file itself relocated `a` to the same target. */
  ghost predicate Residue(sourceSlots: seq<Rebaser.SourceSlot>, a: int, target: int) {
    exists k :: 0 <= k < |sourceSlots| && sourceSlots[k].location == a
                && sourceSlots[k].imageTarget.Some? && sourceSlots[k].imageTarget.value == target
                && forall j :: 0 <= j < k ==> sourceSlots[j].location != a
  }

  ghost predicate Holds(snapshot: Snapshot, layout: Layout, a: int, target: int) {
    Fits(snapshot.bytes, a, SlotSize(layout)) && ReadAt(snapshot.bytes, a, SlotSize(layout)) == snapshot.loadedBase + target
  }

  /** Between the headers and the end of the image every capture holds its own
      base plus the target, and the packed file did not relocate it there. */
  ghost predicate IsSlot(snapshots: seq<Snapshot>, sourceSlots: seq<Rebaser.SourceSlot>, layout: Layout, a: int, target: int) {
    layout.sizeOfHeaders <= a && a + SlotSize(layout) <= layout.sizeOfImage && 0 <= target < layout.sizeOfImage
    && (forall k :: 0 <= k < |snapshots| ==> Holds(snapshots[k], layout, a, target))
    && !Residue(sourceSlots, a, target)
  }

  ghost predicate SlotsOverlap(snapshots: seq<Snapshot>, sourceSlots: seq<Rebaser.SourceSlot>, layout: Layout) {
    exists a, t, b, u :: IsSlot(snapshots, sourceSlots, layout, a, t) && IsSlot(snapshots, sourceSlots, layout, b, u)
                         && a < b < a + SlotSize(layout)
  }

  lemma {:induction false} ResidueIs(sourceSlots: seq<Rebaser.SourceSlot>, a: U32, target: U32)
    ensures IsPackedResidue(sourceSlots, a, target) <==> Residue(sourceSlots, a, target)
  {
    if sourceSlots != [] && sourceSlots[0].location != a {
      var rest := sourceSlots[1..];
      ResidueIs(rest, a, target);
      assert forall k :: 0 < k < |sourceSlots| ==> sourceSlots[k] == rest[k - 1];
      if Residue(rest, a, target) {
        var k :| 0 <= k < |rest| && rest[k].location == a && rest[k].imageTarget.Some? && rest[k].imageTarget.value == target
                 && forall j :: 0 <= j < k ==> rest[j].location != a;
        assert sourceSlots[k + 1] == rest[k];
        forall j | 0 <= j < k + 1 ensures sourceSlots[j].location != a {
          assert j > 0 ==> sourceSlots[j] == rest[j - 1];
        }
      }
      if Residue(sourceSlots, a, target) {
        var k :| 0 <= k < |sourceSlots| && sourceSlots[k].location == a && sourceSlots[k].imageTarget.Some?
                 && sourceSlots[k].imageTarget.value == target && forall j :: 0 <= j < k ==> sourceSlots[j].location != a;
        assert rest[k - 1] == sourceSlots[k];
        assert forall j :: 0 <= j < k - 1 ==> rest[j] == sourceSlots[j + 1];
      }
    }
  }

  lemma QualifiesIs(snapshots: seq<Snapshot>, sourceSlots: seq<Rebaser.SourceSlot>, layout: Layout, slot: RelocationSlot)
    requires Readable(snapshots, layout)
    ensures Qualifies(snapshots, sourceSlots, layout, slot)
            <==> IsSlot(snapshots, sourceSlots, layout, slot.location, slot.imageTarget)
  {
    hide ReadAt, IsPackedResidue, Residue;
    ResidueIs(sourceSlots, slot.location, slot.imageTarget);
    if InRange(layout, slot.location) {
      forall k | 0 <= k < |snapshots|
        ensures Holds(snapshots[k], layout, slot.location, slot.imageTarget)
                <==> ReadAt(snapshots[k].bytes, slot.location, layout.format.PointerSize())
                     == snapshots[k].loadedBase + slot.imageTarget
      {
      }
    }
  }

  // ---- the inputs ----

  ghost predicate Sized(snapshots: seq<Snapshot>, layout: Layout, base: U64) {
    |snapshots| == 3 && layout.sizeOfHeaders < layout.sizeOfImage && base != 0
  }

  /** The capture has no base or is too short. */
  ghost predicate Broken(snapshots: seq<Snapshot>, layout: Layout, k: int) {
    0 <= k < |snapshots| && (snapshots[k].loadedBase == 0 || |snapshots[k].bytes| < layout.sizeOfImage)
  }

  ghost predicate Repeats(snapshots: seq<Snapshot>, k: int) {
    0 <= k < |snapshots| && exists j :: 0 <= j < k && snapshots[j].loadedBase == snapshots[k].loadedBase
  }

  ghost predicate Sound(snapshots: seq<Snapshot>, layout: Layout) {
    forall k :: 0 <= k < |snapshots| ==> !Broken(snapshots, layout, k) && !Repeats(snapshots, k)
  }

  ghost predicate BasesFit(snapshots: seq<Snapshot>, layout: Layout, base: U64) {
    layout.format.Pe32? ==> base < 0x1_0000_0000 && forall k :: 0 <= k < |snapshots| ==> snapshots[k].loadedBase < 0x1_0000_0000
  }

  lemma {:induction false} SnapshotErrorIs(snapshots: seq<Snapshot>, layout: Layout, index: nat)
    requires index <= |snapshots|
    ensures var e := SnapshotError(snapshots, layout, index);
            (e.None? <==> forall k :: index <= k < |snapshots| ==> !Broken(snapshots, layout, k) && !Repeats(snapshots, k))
            && (e == Some(InvalidInput)
                <==> exists k :: index <= k && Broken(snapshots, layout, k) && forall j :: index <= j < k ==> !Repeats(snapshots, j))
            && (e.Some? ==> e.value == InvalidInput || e.value == EvidenceInsufficient)
    decreases |snapshots| - index
  {
    if index < |snapshots| {
      SnapshotErrorIs(snapshots, layout, index + 1);
      hide Broken, Repeats;
      SnapshotErrorStep(snapshots, layout, index);
      if Broken(snapshots, layout, index) {
      } else if !Repeats(snapshots, index) {
        if k :| index <= k && Broken(snapshots, layout, k) && forall j :: index <= j < k ==> !Repeats(snapshots, j) {
          assert k > index;
        }
      }
    }
  }

  lemma SnapshotErrorStep(snapshots: seq<Snapshot>, layout: Layout, index: nat)
    requires index < |snapshots|
    ensures SnapshotError(snapshots, layout, index)
            == if Broken(snapshots, layout, index) then Some(InvalidInput)
               else if Repeats(snapshots, index) then Some(EvidenceInsufficient)
               else SnapshotError(snapshots, layout, index + 1)
  {
  }

  lemma AcceptedIs(snapshots: seq<Snapshot>, layout: Layout, base: U64)
    ensures Laws.Accepted(snapshots, layout, base)
            <==> Sized(snapshots, layout, base) && Sound(snapshots, layout) && BasesFit(snapshots, layout, base)
  {
    if |snapshots| == 3 {
      forall k | 0 <= k < 3
        ensures layout.format.AddressFits(snapshots[k].loadedBase) <==> (layout.format.Pe32? ==> snapshots[k].loadedBase < 0x1_0000_0000)
      {
      }
      if Laws.Accepted(snapshots, layout, base) {
        forall k | 0 <= k < 3 ensures !Broken(snapshots, layout, k) && !Repeats(snapshots, k) {
        }
      }
      if Sound(snapshots, layout) {
        forall k | 0 <= k < 3 ensures snapshots[k].loadedBase != 0 && layout.sizeOfImage <= |snapshots[k].bytes| {
          assert !Broken(snapshots, layout, k);
        }
        forall p, k | 0 <= p < k < 3 ensures snapshots[p].loadedBase != snapshots[k].loadedBase {
          assert !Repeats(snapshots, k);
        }
      }
    }
  }

  // ---- the encoded directory ----

  /** The first block: page, size and one word per slot of the page (type 3 for
      32-bit images and 10 for 64-bit ones), padded to an even count. */
  ghost predicate BlockIs(bytes: Bytes, format: Format, slots: seq<RelocationSlot>, n: nat) {
    var page, size := if slots == [] then 0 else slots[0].location / 0x1000, 8 + 2 * (n + n % 2);
    0 < n <= |slots| && Fits(bytes, 0, size)
    && (forall k :: 0 <= k < n ==> slots[k].location / 0x1000 == page) && (n < |slots| ==> slots[n].location / 0x1000 != page)
    && ReadAt(bytes, 0, 4) == page * 0x1000 && ReadAt(bytes, 4, 4) == size
    && (forall k :: 0 <= k < n ==>
          ReadAt(bytes, 8 + 2 * k, 2) == (if format.Pe32? then 3 else 10) * 0x1000 + slots[k].location % 0x1000)
    && (n % 2 == 1 ==> ReadAt(bytes, 8 + 2 * n, 2) == 0)
  }

  /** The directory is one such block per page, and nothing else. */
  ghost predicate Encodes(bytes: Bytes, format: Format, slots: seq<RelocationSlot>)
    decreases |slots|
  {
    if slots == [] then bytes == []
    else
      exists n: nat :: BlockIs(bytes, format, slots, n) && Encodes(bytes[8 + 2 * (n + n % 2)..], format, slots[n..])
  }

  lemma PageNumber(location: U32)
    ensures PageOf(location) == location / 0x1000 * 0x1000
  {
  }

  lemma SamePage(a: U32, b: U32)
    ensures PageOf(a) == PageOf(b) <==> a / 0x1000 == b / 0x1000
  {
    PageNumber(a);
    PageNumber(b);
  }

  lemma WordValue(format: Format, slot: RelocationSlot)
    ensures Word(format, slot) == (if format.Pe32? then 3 else 10) * 0x1000 + slot.location % 0x1000
  {
  }

  lemma SliceRead(bytes: Bytes, at: nat, v: nat, width: nat)
    requires Fits(bytes, at, width) && v < Pow256(width) && Slice(bytes, at, width) == LittleEndian(v, width)
    ensures ReadAt(bytes, at, width) == v
  {
    hide LittleEndian, Unsigned;
    UnsignedOfLittleEndian(v, width);
  }

  lemma MiddleSlice(a: Bytes, b: Bytes, c: Bytes, k: nat, n: nat)
    requires k + n <= |b|
    ensures Slice(a + b + c, |a| + k, n) == Slice(b, k, n)
  {
    var found, part := Slice(a + b + c, |a| + k, n), Slice(b, k, n);
    assert forall i :: 0 <= i < n ==> found[i] == part[i];
  }

  lemma PageCount(slots: seq<RelocationSlot>, n: nat)
    requires Increasing(slots) && n <= |slots| && forall k :: 0 <= k < n ==> slots[k].location / 0x1000 == slots[0].location / 0x1000
    ensures n <= 0x1000
  {
    if n > 0 {
      IncreasingBy(slots, n - 1);
    }
  }

  lemma {:induction false} IncreasingBy(slots: seq<RelocationSlot>, k: nat)
    requires Increasing(slots) && k < |slots|
    ensures slots[0].location + k <= slots[k].location
  {
    if k > 0 {
      IncreasingBy(slots, k - 1);
    }
  }

  lemma BlockStands(format: Format, slots: seq<RelocationSlot>, rest: Bytes)
    requires slots != [] && Increasing(slots)
    ensures var n := FirstRun(slots); var block := BlockBytes(format, PageOf(slots[0].location), slots[..n]);
            |block| == 8 + 2 * (n + n % 2) && BlockIs(block + rest, format, slots, n)
  {
    hide LittleEndian, Words, Word, PageOf, Increasing, Slice, ReadAt;
    var n, page := FirstRun(slots), PageOf(slots[0].location);
    var run := slots[..n];
    var words, pad := Words(format, run), Padding(n);
    var block := BlockBytes(format, page, run);
    var all := block + rest;
    forall k | 0 <= k < |slots| ensures PageOf(slots[k].location) == page <==> slots[k].location / 0x1000 == slots[0].location / 0x1000 {
      SamePage(slots[k].location, slots[0].location);
    }
    PageCount(slots, n);
    SizeField(n);
    Powers();
    PageNumber(slots[0].location);
    var first, second := LittleEndian(page, 4), LittleEndian(BlockSize(n), 4);
    assert all == [] + first + (second + words + pad + rest);
    MiddleSlice([], first, second + words + pad + rest, 0, 4);
    WholeSlice(first);
    SliceRead(all, 0, page, 4);
    assert all == first + second + (words + pad + rest);
    MiddleSlice(first, second, words + pad + rest, 0, 4);
    WholeSlice(second);
    SliceRead(all, 4, BlockSize(n), 4);
    var head := first + second;
    assert all == head + words + (pad + rest);
    forall k | 0 <= k < n
      ensures Fits(all, 8 + 2 * k, 2)
      ensures ReadAt(all, 8 + 2 * k, 2) == (if format.Pe32? then 3 else 10) * 0x1000 + slots[k].location % 0x1000
    {
      MiddleSlice(head, words, pad + rest, 2 * k, 2);
      Laws.WordsAt(format, run, k);
      WordValue(format, slots[k]);
      SliceRead(all, 8 + 2 * k, Word(format, slots[k]), 2);
    }
    if n % 2 == 1 {
      assert all == (head + words) + pad + rest;
      MiddleSlice(head + words, pad, rest, 0, 2);
      WholeSlice(pad);
      ZeroWord();
      SliceRead(all, 8 + 2 * n, 0, 2);
    }
  }

  lemma WholeSlice(b: Bytes)
    ensures Slice(b, 0, |b|) == b
  {
  }

  lemma ZeroWord()
    ensures LittleEndian(0, 2) == Zeros(2)
  {
    assert LittleEndian(0, 1) == [0] + LittleEndian(0, 0);
  }

  lemma SizeField(n: nat)
    requires n <= 0x1000
    ensures BlockSize(n) == 8 + 2 * (n + n % 2) && |Padding(n)| == 2 * (n % 2)
  {
    WrapSmall(8 + 2 * n);
    WrapSmall(8 + 2 * n + 2);
  }

  lemma {:induction false} DirectoryEncodes(format: Format, slots: seq<RelocationSlot>)
    requires Increasing(slots)
    ensures Encodes(DirectoryBytes(format, slots), format, slots)
    decreases |slots|
  {
    hide BlockIs, BlockBytes, PageOf;
    if slots != [] {
      var n := FirstRun(slots);
      var block, rest := BlockBytes(format, PageOf(slots[0].location), slots[..n]), DirectoryBytes(format, slots[n..]);
      BlockStands(format, slots, rest);
      assert (block + rest)[|block|..] == rest;
      DirectoryEncodes(format, slots[n..]);
    }
  }

  // ---- the outcome ----

  /** The plan lists exactly the slots, by address, and encodes them. */
  ghost predicate PlanIs(plan: RebuildPlan, snapshots: seq<Snapshot>, sourceSlots: seq<Rebaser.SourceSlot>,
                         layout: Layout, base: U64) {
    plan.preferredImageBase == base && plan.enableDynamicBase && plan.enableHighEntropyVa
    && (forall i, j :: 0 <= i < j < |plan.slots| ==> plan.slots[i].location < plan.slots[j].location)
    && (forall a: U32, t: U32 :: RelocationSlot(a, t) in plan.slots <==> IsSlot(snapshots, sourceSlots, layout, a, t))
    && Encodes(plan.directoryBytes, layout.format, plan.slots)
  }

  ghost predicate AnySlot(snapshots: seq<Snapshot>, sourceSlots: seq<Rebaser.SourceSlot>, layout: Layout) {
    exists a, t :: IsSlot(snapshots, sourceSlots, layout, a, t)
  }

  /** A plan is made exactly for three sound captures under addressable bases
      that have a slot and no two overlapping ones; each refusal has its cause. */
  lemma ReconstructionIsExact(snapshots: seq<Snapshot>, sourceSlots: seq<Rebaser.SourceSlot>, layout: Layout, base: U64)
    ensures var r := Outcome(snapshots, sourceSlots, layout, base);
            var accepted := Sized(snapshots, layout, base) && Sound(snapshots, layout) && BasesFit(snapshots, layout, base);
            (r.Ok? ==> PlanIs(r.value, snapshots, sourceSlots, layout, base))
            && (r.Ok? <==> accepted && AnySlot(snapshots, sourceSlots, layout) && !SlotsOverlap(snapshots, sourceSlots, layout))
            && (r == Err(CandidatesAmbiguous) <==> accepted && SlotsOverlap(snapshots, sourceSlots, layout))
            && (r == Err(NoRelocations) <==> accepted && !AnySlot(snapshots, sourceSlots, layout))
            && (r == Err(InvalidInput)
                <==> Sized(snapshots, layout, base)
                     && ((Sound(snapshots, layout) && !BasesFit(snapshots, layout, base))
                         || exists k :: Broken(snapshots, layout, k) && forall j :: 0 <= j < k ==> !Repeats(snapshots, j)))
  {
    hide Found, SnapshotError, Qualifies, IsSlot, Broken, Repeats, Encodes, DirectoryBytes, Laws.Accepted, BasesFit;
    AcceptedIs(snapshots, layout, base);
    if |snapshots| == 3 {
      SnapshotErrorIs(snapshots, layout, 0);
    }
    BrokenIsIndex(snapshots, layout);
    FitsIs(snapshots, layout, base);
    if Laws.Accepted(snapshots, layout, base) {
      Laws.AcceptedIffNoInputError(snapshots, sourceSlots, layout, base);
      Laws.InferenceIsExact(snapshots, sourceSlots, layout, base);
      SlotsAre(snapshots, sourceSlots, layout, base);
      PlanParts(snapshots, sourceSlots, layout, base);
      if Outcome(snapshots, sourceSlots, layout, base).Ok? {
        DirectoryEncodes(layout.format, Outcome(snapshots, sourceSlots, layout, base).value.slots);
      }
    }
  }

  lemma BrokenIsIndex(snapshots: seq<Snapshot>, layout: Layout)
    ensures forall k :: Broken(snapshots, layout, k) ==> 0 <= k < |snapshots|
  {
  }

  lemma FitsIs(snapshots: seq<Snapshot>, layout: Layout, base: U64)
    ensures AllAddressesFit(snapshots, layout.format, base) <==> BasesFit(snapshots, layout, base)
  {
  }

  lemma SlotsAre(snapshots: seq<Snapshot>, sourceSlots: seq<Rebaser.SourceSlot>, layout: Layout, base: U64)
    requires Laws.Accepted(snapshots, layout, base)
    ensures forall s :: Qualifies(snapshots, sourceSlots, layout, s) <==> IsSlot(snapshots, sourceSlots, layout,
                                                                                 s.location, s.imageTarget)
    ensures AnySlot(snapshots, sourceSlots, layout) <==> exists s :: Qualifies(snapshots, sourceSlots, layout, s)
    ensures SlotsOverlap(snapshots, sourceSlots, layout)
            <==> exists a, b :: Laws.Clash(snapshots, sourceSlots, layout, a, b)
  {
    hide Qualifies, IsSlot;
    forall s ensures Qualifies(snapshots, sourceSlots, layout, s) <==> IsSlot(snapshots, sourceSlots, layout, s.location,
                                                                              s.imageTarget) {
      QualifiesIs(snapshots, sourceSlots, layout, s);
    }
    forall a, t | IsSlot(snapshots, sourceSlots, layout, a, t)
      ensures 0 <= a <= U32_MAX && 0 <= t <= U32_MAX && Qualifies(snapshots, sourceSlots, layout, RelocationSlot(a, t))
    {
      SlotInRange(snapshots, sourceSlots, layout, a, t);
      QualifiesIs(snapshots, sourceSlots, layout, RelocationSlot(a, t));
    }
    if a, t, b, u :| IsSlot(snapshots, sourceSlots, layout, a, t) && IsSlot(snapshots, sourceSlots, layout, b, u)
                     && a < b < a + SlotSize(layout) {
      assert Laws.Clash(snapshots, sourceSlots, layout, RelocationSlot(a, t), RelocationSlot(b, u));
    }
    if a, b :| Laws.Clash(snapshots, sourceSlots, layout, a, b) {
      assert IsSlot(snapshots, sourceSlots, layout, a.location, a.imageTarget);
      assert IsSlot(snapshots, sourceSlots, layout, b.location, b.imageTarget);
    }
    if a, t :| IsSlot(snapshots, sourceSlots, layout, a, t) {
      assert Qualifies(snapshots, sourceSlots, layout, RelocationSlot(a, t));
    }
  }

  lemma SlotInRange(snapshots: seq<Snapshot>, sourceSlots: seq<Rebaser.SourceSlot>, layout: Layout, a: int, t: int)
    requires IsSlot(snapshots, sourceSlots, layout, a, t)
    ensures 0 <= a <= U32_MAX && 0 <= t <= U32_MAX
  {
  }

  lemma PlanParts(snapshots: seq<Snapshot>, sourceSlots: seq<Rebaser.SourceSlot>, layout: Layout, base: U64)
    requires Laws.Accepted(snapshots, layout, base)
    ensures var r := Outcome(snapshots, sourceSlots, layout, base);
            r.Ok? ==> r.value.preferredImageBase == base && r.value.enableDynamicBase && r.value.enableHighEntropyVa
                      && r.value.directoryBytes == DirectoryBytes(layout.format, r.value.slots)
  {
    hide Scan, DirectoryBytes;
    Laws.AcceptedIffNoInputError(snapshots, sourceSlots, layout, base);
  }
}
