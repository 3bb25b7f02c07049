/** Infers pointer slots from three snapshots of one image loaded at distinct
    bases, and encodes them as a base-relocation directory. */
module RelocationReconstructor {
  import opened Bytes
  import opened PeFormat
  import Rebaser = PeFileRebaser

  datatype Snapshot = Snapshot(loadedBase: U64, bytes: Bytes)

  datatype RelocationSlot = RelocationSlot(location: U32, imageTarget: U32)

  datatype RebuildPlan = RebuildPlan(
    preferredImageBase: U64, enableDynamicBase: bool, enableHighEntropyVa: bool,
    slots: seq<RelocationSlot>, directoryBytes: Bytes)

  datatype RebuildError = InvalidInput | EvidenceInsufficient | CandidatesAmbiguous | NoRelocations

  // ---- the directory encoder ----

  function PageOf(location: U32): U32 {
    location - location % 0x1000
  }

  /** How many leading slots lie in `page`. */
  function RunLength(slots: seq<RelocationSlot>, page: U32): (n: nat)
    ensures n <= |slots|
    ensures forall k :: 0 <= k < n ==> PageOf(slots[k].location) == page
    ensures n < |slots| ==> PageOf(slots[n].location) != page
  {
    if slots == [] || PageOf(slots[0].location) != page then 0
    else 1 + RunLength(slots[1..], page)
  }

  function Word(format: Format, slot: RelocationSlot): U16 {
    format.RelocationType() * 0x1000 + slot.location % 0x1000
  }

  function Words(format: Format, run: seq<RelocationSlot>): (s: Bytes)
    ensures |s| == 2 * |run|
  {
    if run == [] then []
    else Words(format, run[..|run| - 1]) + LittleEndian(Word(format, run[|run| - 1]), 2)
  }

  lemma WordsOfNothing(format: Format)
    ensures Words(format, []) == []
  {
  }

  lemma WordsStep(format: Format, run: seq<RelocationSlot>, slot: RelocationSlot)
    ensures Words(format, run + [slot]) == Words(format, run) + LittleEndian(Word(format, slot), 2)
  {
    assert (run + [slot])[..|run|] == run;
  }

  function BlockSize(count: nat): U32 {
    var size := Wrap32(8 + 2 * count);
    if size % 4 != 0 then Wrap32(size + 2) else size
  }

  /** Entries of a block of `count` slots: an odd block gets one padding word. */
  function PaddedCount(count: nat): nat {
    count + count % 2
  }

  function Padding(count: nat): Bytes {
    if count % 2 == 1 then Zeros(2) else []
  }

  function BlockBytes(format: Format, page: U32, run: seq<RelocationSlot>): Bytes {
    LittleEndian(page, 4) + LittleEndian(BlockSize(|run|), 4) + Words(format, run) + Padding(|run|)
  }

  function FirstRun(slots: seq<RelocationSlot>): (n: nat)
    requires slots != []
    ensures 0 < n <= |slots|
  {
    RunLength(slots, PageOf(slots[0].location))
  }

  function DirectoryBytes(format: Format, slots: seq<RelocationSlot>): Bytes {
    if slots == [] then []
    else
      var n := FirstRun(slots);
      BlockBytes(format, PageOf(slots[0].location), slots[..n]) + DirectoryBytes(format, slots[n..])
  }

  method EncodeDirectory(format: Format, slots: seq<RelocationSlot>) returns (bytes: Bytes)
    ensures bytes == DirectoryBytes(format, slots)
  {
    hide DirectoryBytes, BlockBytes, RunLength;
    bytes := [];
    var begin := 0;
    while begin < |slots|
      invariant 0 <= begin <= |slots|
      invariant DirectoryBytes(format, slots) == bytes + DirectoryBytes(format, slots[begin..])
    {
      var page := PageOf(slots[begin].location);
      var end := RunEnd(slots, begin, page);
      var block := EncodeBlock(format, page, slots[begin..end]);
      DirectoryStep(format, slots, begin, end);
      assert bytes + (block + DirectoryBytes(format, slots[end..]))
          == (bytes + block) + DirectoryBytes(format, slots[end..]);
      bytes := bytes + block;
      begin := end;
    }
    assert DirectoryBytes(format, slots[begin..]) == [] by { DirectoryOfNothing(format, slots[begin..]); }
  }

  lemma DirectoryOfNothing(format: Format, slots: seq<RelocationSlot>)
    requires slots == []
    ensures DirectoryBytes(format, slots) == []
  {
  }

  lemma DirectoryStep(format: Format, slots: seq<RelocationSlot>, begin: nat, end: nat)
    requires begin < end <= |slots|
    requires end == begin + RunLength(slots[begin..], PageOf(slots[begin].location))
    ensures DirectoryBytes(format, slots[begin..])
            == BlockBytes(format, PageOf(slots[begin].location), slots[begin..end])
               + DirectoryBytes(format, slots[end..])
  {
    hide BlockBytes, RunLength;
    assert slots[begin..][..end - begin] == slots[begin..end];
    assert slots[begin..][end - begin..] == slots[end..];
  }

  /** The inner loop: where the run of slots in `page` that starts at `begin` ends. */
  method RunEnd(slots: seq<RelocationSlot>, begin: nat, page: U32) returns (end: nat)
    requires begin < |slots| && PageOf(slots[begin].location) == page
    ensures begin < end <= |slots|
    ensures end == begin + RunLength(slots[begin..], page)
    ensures forall k :: 0 <= k < end - begin ==> PageOf(slots[begin..end][k].location) == page
  {
    end := begin;
    while end < |slots| && PageOf(slots[end].location) == page
      invariant begin <= end <= |slots|
      invariant forall k :: begin <= k < end ==> PageOf(slots[k].location) == page
    {
      end := end + 1;
    }
    RunOfPage(slots[begin..], page, end - begin);
  }

  lemma RunOfPage(slots: seq<RelocationSlot>, page: U32, n: nat)
    requires n <= |slots|
    requires forall k :: 0 <= k < n ==> PageOf(slots[k].location) == page
    requires n < |slots| ==> PageOf(slots[n].location) != page
    ensures RunLength(slots, page) == n
  {
  }

  method EncodeBlock(format: Format, page: U32, run: seq<RelocationSlot>) returns (bytes: Bytes)
    requires forall k :: 0 <= k < |run| ==> PageOf(run[k].location) == page
    ensures bytes == BlockBytes(format, page, run)
  {
    hide LittleEndian, Words;
    WordsOfNothing(format);
    var blockSize: int := Wrap32(8 + |run| * 2);
    if blockSize % 4 != 0 {
      blockSize := Wrap32(blockSize + 2);
    }
    bytes := LittleEndian(page, 4) + LittleEndian(blockSize, 4);
    var index := 0;
    while index < |run|
      invariant 0 <= index <= |run|
      invariant bytes == LittleEndian(page, 4) + LittleEndian(blockSize, 4) + Words(format, run[..index])
    {
      assert PageOf(run[index].location) == page;
      var offset := run[index].location - page;
      assert run[..index + 1] == run[..index] + [run[index]];
      WordsStep(format, run[..index], run[index]);
      bytes := bytes + LittleEndian(format.RelocationType() * 0x1000 + offset, 2);
      index := index + 1;
    }
    assert run[..|run|] == run;
    if |run| % 2 != 0 {
      bytes := bytes + [0, 0];
    }
  }

  // ---- inference ----

  /** Every snapshot is long enough to be read up to the image size. */
  ghost predicate Readable(snapshots: seq<Snapshot>, layout: Layout) {
    forall k :: 0 <= k < |snapshots| ==> layout.sizeOfImage <= |snapshots[k].bytes|
  }

  predicate InRange(layout: Layout, rva: int) {
    layout.sizeOfHeaders <= rva && rva + layout.format.PointerSize() <= layout.sizeOfImage
  }

  /** All snapshots hold their own base plus the same in-image offset at `rva`. */
  predicate PointsTo(snapshots: seq<Snapshot>, layout: Layout, rva: int, target: int)
    requires Readable(snapshots, layout) && InRange(layout, rva)
  {
    0 <= target < layout.sizeOfImage
    && forall k :: 0 <= k < |snapshots| ==>
         ReadAt(snapshots[k].bytes, rva, layout.format.PointerSize()) == snapshots[k].loadedBase + target
  }

  /** The evidence recorded for the first source slot at `location`. */
  function SourceTarget(sourceSlots: seq<Rebaser.SourceSlot>, location: U32): Option<U32> {
    if sourceSlots == [] then None
    else if sourceSlots[0].location == location then sourceSlots[0].imageTarget
    else SourceTarget(sourceSlots[1..], location)
  }

  predicate IsPackedResidue(sourceSlots: seq<Rebaser.SourceSlot>, location: U32, target: U32) {
    SourceTarget(sourceSlots, location) == Some(target)
  }

  /** `slot` is a relocation of the unpacked image. */
  predicate Qualifies(snapshots: seq<Snapshot>, sourceSlots: seq<Rebaser.SourceSlot>, layout: Layout,
                      slot: RelocationSlot)
    requires Readable(snapshots, layout)
  {
    InRange(layout, slot.location) && PointsTo(snapshots, layout, slot.location, slot.imageTarget)
    && !IsPackedResidue(sourceSlots, slot.location, slot.imageTarget)
  }

  function Target(snapshots: seq<Snapshot>, layout: Layout, rva: int): (target: Option<U32>)
    requires snapshots != [] && Readable(snapshots, layout) && InRange(layout, rva)
    ensures target.Some? ==> PointsTo(snapshots, layout, rva, target.value)
    ensures forall t :: PointsTo(snapshots, layout, rva, t) ==> target == Some(t)
  {
    var t := ReadAt(snapshots[0].bytes, rva, layout.format.PointerSize()) - snapshots[0].loadedBase;
    if PointsTo(snapshots, layout, rva, t) then Some(t) else None
  }

  /** The slot at `rva`, if there is one. */
  function SlotAt(snapshots: seq<Snapshot>, sourceSlots: seq<Rebaser.SourceSlot>, layout: Layout, rva: int)
    : seq<RelocationSlot>
    requires snapshots != [] && Readable(snapshots, layout) && InRange(layout, rva)
  {
    var target := Target(snapshots, layout, rva);
    if target.None? || IsPackedResidue(sourceSlots, rva, target.value) then []
    else [RelocationSlot(rva, target.value)]
  }

  /** Every qualifying slot from `rva` on, in address order. */
  function Scan(snapshots: seq<Snapshot>, sourceSlots: seq<Rebaser.SourceSlot>, layout: Layout, rva: int)
    : seq<RelocationSlot>
    requires snapshots != [] && Readable(snapshots, layout) && layout.sizeOfHeaders <= rva
    decreases layout.sizeOfImage - rva
  {
    if !InRange(layout, rva) then []
    else SlotAt(snapshots, sourceSlots, layout, rva) + Scan(snapshots, sourceSlots, layout, rva + 1)
  }

  ghost predicate Increasing(slots: seq<RelocationSlot>) {
    forall i, j :: 0 <= i < j < |slots| ==> slots[i].location < slots[j].location
  }

  /** No two slots share a byte. */
  ghost predicate Apart(slots: seq<RelocationSlot>, width: nat) {
    forall i, j :: 0 <= i < j < |slots| ==> slots[i].location + width <= slots[j].location
  }

  /** Increasing slots are apart when neighbours are. */
  predicate NeighboursApart(slots: seq<RelocationSlot>, width: nat) {
    forall i :: 0 <= i < |slots| - 1 ==> slots[i].location + width <= slots[i + 1].location
  }

  function Found(snapshots: seq<Snapshot>, sourceSlots: seq<Rebaser.SourceSlot>, layout: Layout,
                 preferredImageBase: U64): Result<RebuildPlan, RebuildError>
    requires snapshots != [] && Readable(snapshots, layout)
  {
    var slots := Scan(snapshots, sourceSlots, layout, layout.sizeOfHeaders);
    if !NeighboursApart(slots, layout.format.PointerSize()) then Err(CandidatesAmbiguous)
    else if slots == [] then Err(NoRelocations)
    else Ok(RebuildPlan(preferredImageBase, true, true, slots, DirectoryBytes(layout.format, slots)))
  }

  function SnapshotError(snapshots: seq<Snapshot>, layout: Layout, index: nat): Option<RebuildError>
    decreases |snapshots| - index
  {
    if index >= |snapshots| then None
    else if snapshots[index].loadedBase == 0 || |snapshots[index].bytes| < layout.sizeOfImage then Some(InvalidInput)
    else if exists p :: 0 <= p < index && snapshots[p].loadedBase == snapshots[index].loadedBase
      then Some(EvidenceInsufficient)
    else SnapshotError(snapshots, layout, index + 1)
  }

  predicate AllAddressesFit(snapshots: seq<Snapshot>, format: Format, preferredImageBase: U64) {
    format.AddressFits(preferredImageBase)
    && forall k :: 0 <= k < |snapshots| ==> format.AddressFits(snapshots[k].loadedBase)
  }

  function Outcome(snapshots: seq<Snapshot>, sourceSlots: seq<Rebaser.SourceSlot>, layout: Layout,
                   preferredImageBase: U64): Result<RebuildPlan, RebuildError>
  {
    if |snapshots| != 3 || layout.sizeOfHeaders >= layout.sizeOfImage || preferredImageBase == 0
      then Err(EvidenceInsufficient)
    else if SnapshotError(snapshots, layout, 0).Some? then Err(SnapshotError(snapshots, layout, 0).value)
    else if !AllAddressesFit(snapshots, layout.format, preferredImageBase) then Err(InvalidInput)
    else
      SnapshotsAccepted(snapshots, layout, 0);
      Found(snapshots, sourceSlots, layout, preferredImageBase)
  }

  lemma {:induction false} SnapshotsAccepted(snapshots: seq<Snapshot>, layout: Layout, index: nat)
    requires index <= |snapshots| && SnapshotError(snapshots, layout, index) == None
    ensures forall k :: index <= k < |snapshots| ==>
      snapshots[k].loadedBase != 0 && layout.sizeOfImage <= |snapshots[k].bytes|
    ensures forall p, k :: 0 <= p < k && index <= k < |snapshots| ==>
      snapshots[p].loadedBase != snapshots[k].loadedBase
    decreases |snapshots| - index
  {
    if index < |snapshots| {
      SnapshotsAccepted(snapshots, layout, index + 1);
    }
  }

  /** The snapshot loop at one address. */
  method Candidate(snapshots: seq<Snapshot>, layout: Layout, rva: U32) returns (target: Option<U32>)
    requires snapshots != [] && Readable(snapshots, layout) && InRange(layout, rva)
    ensures target == Target(snapshots, layout, rva)
  {
    target := None;
    var index := 0;
    while index < |snapshots|
      invariant 0 <= index <= |snapshots|
      invariant index == 0 <==> target == None
      invariant target.Some? ==> 0 <= target.value < layout.sizeOfImage
      invariant target.Some? ==> forall k :: 0 <= k < index ==>
        ReadAt(snapshots[k].bytes, rva, layout.format.PointerSize()) == snapshots[k].loadedBase + target.value
    {
      var value := ReadAt(snapshots[index].bytes, rva, layout.format.PointerSize());
      if value < snapshots[index].loadedBase {
        return None;
      }
      var relative := value - snapshots[index].loadedBase;
      if relative >= layout.sizeOfImage || (target.Some? && target.value != relative) {
        return None;
      }
      target := Some(relative);
      index := index + 1;
    }
  }

  lemma ScanStep(snapshots: seq<Snapshot>, sourceSlots: seq<Rebaser.SourceSlot>, layout: Layout, rva: int,
                 slots: seq<RelocationSlot>)
    requires snapshots != [] && Readable(snapshots, layout) && InRange(layout, rva)
    ensures slots + Scan(snapshots, sourceSlots, layout, rva)
            == slots + SlotAt(snapshots, sourceSlots, layout, rva) + Scan(snapshots, sourceSlots, layout, rva + 1)
  {
    hide SlotAt, Readable;
  }

  method ReconstructTyped(snapshots: seq<Snapshot>, sourceSlots: seq<Rebaser.SourceSlot>, layout: Layout,
                          preferredImageBase: U64)
    returns (result: Result<RebuildPlan, RebuildError>)
    requires snapshots != [] && Readable(snapshots, layout)
    ensures result == if AllAddressesFit(snapshots, layout.format, preferredImageBase)
                      then Found(snapshots, sourceSlots, layout, preferredImageBase)
                      else Err(InvalidInput)
  {
    hide Readable, PointsTo, ReadAt, Target, Scan, DirectoryBytes, IsPackedResidue, AllAddressesFit;
    if !AllAddressesFit(snapshots, layout.format, preferredImageBase) {
      return Err(InvalidInput);
    }
    var slots: seq<RelocationSlot> := [];
    var width := layout.format.PointerSize();
    var rva := layout.sizeOfHeaders;
    ghost var all := Scan(snapshots, sourceSlots, layout, layout.sizeOfHeaders);
    assert [] + all == all;
    while rva + width <= layout.sizeOfImage
      invariant layout.sizeOfHeaders <= rva
      invariant all == slots + Scan(snapshots, sourceSlots, layout, rva)
      invariant NeighboursApart(slots, width)
      decreases layout.sizeOfImage - rva
    {
      var target := Candidate(snapshots, layout, rva);
      ScanStep(snapshots, sourceSlots, layout, rva, slots);
      if target.Some? && !IsPackedResidue(sourceSlots, rva, target.value) {
        var slot := RelocationSlot(rva, target.value);
        if slots != [] && slots[|slots| - 1].location + width > rva {
          assert all[|slots| - 1] == slots[|slots| - 1] && all[|slots|] == slot;
          return Err(CandidatesAmbiguous);
        }
        slots := slots + [slot];
      } else {
        assert slots + [] == slots;
      }
      rva := rva + 1;
    }
    assert Scan(snapshots, sourceSlots, layout, rva) == [] by { ScanEnd(snapshots, sourceSlots, layout, rva); }
    assert all == slots;
    if slots == [] {
      return Err(NoRelocations);
    }
    var directory := EncodeDirectory(layout.format, slots);
    result := Ok(RebuildPlan(preferredImageBase, true, true, slots, directory));
    if directory == [] {
      DirectoryNotEmpty(layout.format, slots);
      assert false;
    }
  }

  lemma ScanEnd(snapshots: seq<Snapshot>, sourceSlots: seq<Rebaser.SourceSlot>, layout: Layout, rva: int)
    requires snapshots != [] && Readable(snapshots, layout) && layout.sizeOfHeaders <= rva
    requires rva + layout.format.PointerSize() > layout.sizeOfImage
    ensures Scan(snapshots, sourceSlots, layout, rva) == []
  {
  }

  lemma DirectoryNotEmpty(format: Format, slots: seq<RelocationSlot>)
    requires slots != []
    ensures |DirectoryBytes(format, slots)| >= 10
  {
    hide LittleEndian, Words, BlockSize;
  }

  method Reconstruct(snapshots: seq<Snapshot>, sourceSlots: seq<Rebaser.SourceSlot>, layout: Layout,
                     preferredImageBase: U64)
    returns (result: Result<RebuildPlan, RebuildError>)
    ensures result == Outcome(snapshots, sourceSlots, layout, preferredImageBase)
  {
    hide Found;
    if |snapshots| != 3 || layout.sizeOfHeaders >= layout.sizeOfImage || preferredImageBase == 0 {
      return Err(EvidenceInsufficient);
    }
    var index := 0;
    while index < |snapshots|
      invariant 0 <= index <= |snapshots|
      invariant SnapshotError(snapshots, layout, 0) == SnapshotError(snapshots, layout, index)
    {
      if snapshots[index].loadedBase == 0 || |snapshots[index].bytes| < layout.sizeOfImage {
        return Err(InvalidInput);
      }
      var previous := 0;
      while previous < index
        invariant 0 <= previous <= index
        invariant forall p :: 0 <= p < previous ==> snapshots[p].loadedBase != snapshots[index].loadedBase
      {
        if snapshots[previous].loadedBase == snapshots[index].loadedBase {
          return Err(EvidenceInsufficient);
        }
        previous := previous + 1;
      }
      index := index + 1;
    }
    SnapshotsAccepted(snapshots, layout, 0);
    result := ReconstructTyped(snapshots, sourceSlots, layout, preferredImageBase);
  }
}
