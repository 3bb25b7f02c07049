/** Applies a base-relocation directory to a PE file so that it loads at a
    required base. The walk over the directory reads only the source file; the
    slots it finds are then adjusted in a copy. */
module PeFileRebaser {
  import opened Bytes
  import opened Structs
  import opened PeFormat

  datatype RebaseError =
    InvalidInput | MissingRelocations | InvalidRelocationDirectory | UnsupportedRelocationType

  datatype SourceSlot = SourceSlot(location: U32, imageTarget: Option<U32>)

  datatype RebasedImage = RebasedImage(bytes: Bytes, requiredBase: U64, sourceSlots: seq<SourceSlot>)

  /** A relocation slot the walk visits: its address and its file position. */
  datatype Slot = Slot(rva: U32, raw: nat)

  /** IMAGE_BASE_RELOCATION. */
  datatype BlockHead = BlockHead(page: U32, size: U32)

  const BLOCK_HEADER_SIZE := 8

  // ---- addresses to file positions ----

  function RawIn(sections: seq<Section>, rva: U32, size: nat): Option<nat> {
    if sections == [] then None
    else
      var s := sections[0];
      var delta := rva - s.virtualAddress;
      if 0 <= delta <= s.rawSize && size <= s.rawSize - delta then Some(s.rawOffset + delta)
      else RawIn(sections[1..], rva, size)
  }

  function RvaToRaw(layout: Layout, rva: U32, size: nat): Option<nat> {
    if rva < layout.sizeOfHeaders then
      if size <= layout.sizeOfHeaders - rva then Some(rva) else None
    else
      RawIn(layout.sections, rva, size)
  }

  function ReadRva(source: Bytes, layout: Layout, rva: U32, width: nat): Option<nat> {
    match RvaToRaw(layout, rva, width)
    case None => None
    case Some(raw) => if Fits(source, raw, width) then Some(ReadAt(source, raw, width)) else None
  }

  // ---- the directory walk ----

  function RelocationDirectory(layout: Layout): Directory {
    layout.directories[BASE_RELOCATION_DIRECTORY]
  }

  /** The address of byte `k` of the directory, in 32-bit arithmetic. */
  function DirectoryRva(layout: Layout, k: nat): U32 {
    Wrap32(RelocationDirectory(layout).address + k)
  }

  /** One directory entry; `Ok(None)` for padding. */
  function Entry(source: Bytes, layout: Layout, page: U32, rva: U32)
    : (entry: Result<Option<Slot>, RebaseError>)
    ensures entry.Ok? && entry.value.Some? ==>
      entry.value.value.raw + layout.format.PointerSize() <= |source|
  {
    match ReadRva(source, layout, rva, 2)
    case None => Err(InvalidRelocationDirectory)
    case Some(entry) =>
      var kind := entry / 0x1000;
      if kind == 0 then Ok(None)
      else if kind != layout.format.RelocationType() then Err(UnsupportedRelocationType)
      else
        var slot := page + entry % 0x1000;
        if slot > U32_MAX then Err(InvalidRelocationDirectory)
        else
          match RvaToRaw(layout, slot, layout.format.PointerSize())
          case None => Err(InvalidRelocationDirectory)
          case Some(raw) =>
            if Fits(source, raw, layout.format.PointerSize()) then Ok(Some(Slot(slot, raw)))
            else Err(InvalidRelocationDirectory)
  }

  function Prepend<T>(first: seq<T>, rest: Result<seq<T>, RebaseError>): Result<seq<T>, RebaseError> {
    match rest
    case Ok(more) => Ok(first + more)
    case Err(e) => Err(e)
  }

  function Optional<T>(o: Option<T>): seq<T> {
    match o
    case None => []
    case Some(x) => [x]
  }

  /** Entries `index..count` of the block whose first entry is directory byte `first`. */
  function Entries(source: Bytes, layout: Layout, page: U32, first: nat, index: nat, count: nat)
    : Result<seq<Slot>, RebaseError>
    decreases count - index
  {
    if index >= count then Ok([])
    else
      match Entry(source, layout, page, DirectoryRva(layout, first + 2 * index))
      case Err(e) => Err(e)
      case Ok(slot) => Prepend(Optional(slot), Entries(source, layout, page, first, index + 1, count))
  }

  /** The page and byte size of the block at `consumed`, if it is well formed. */
  function BlockHeader(source: Bytes, layout: Layout, consumed: nat): (block: Option<BlockHead>)
    ensures block.Some? ==> BLOCK_HEADER_SIZE <= block.value.size <= RelocationDirectory(layout).size - consumed
  {
    var directory := RelocationDirectory(layout);
    match RvaToRaw(layout, DirectoryRva(layout, consumed), BLOCK_HEADER_SIZE)
    case None => None
    case Some(raw) =>
      if !Fits(source, raw, BLOCK_HEADER_SIZE) then None
      else
        Powers();
        var page, size := ReadAt(source, raw, 4), ReadAt(source, raw + 4, 4);
        if size < BLOCK_HEADER_SIZE || size > directory.size - consumed
           || (size - BLOCK_HEADER_SIZE) % 2 != 0 then None
        else Some(BlockHead(page, size))
  }

  function Block(source: Bytes, layout: Layout, consumed: nat, block: BlockHead)
    : Result<seq<Slot>, RebaseError>
    requires block.size >= BLOCK_HEADER_SIZE
  {
    Entries(source, layout, block.page, consumed + BLOCK_HEADER_SIZE, 0,
            (block.size - BLOCK_HEADER_SIZE) / 2)
  }

  /** The slots named by the directory from byte `consumed` on. */
  function Blocks(source: Bytes, layout: Layout, consumed: nat): Result<seq<Slot>, RebaseError>
    decreases RelocationDirectory(layout).size - consumed
  {
    if consumed >= RelocationDirectory(layout).size then Ok([])
    else
      var head := BlockHeader(source, layout, consumed);
      if head.None? then Err(InvalidRelocationDirectory)
      else
        var slots := Block(source, layout, consumed, head.value);
        if slots.Err? then slots
        else Prepend(slots.value, Blocks(source, layout, consumed + head.value.size))
  }

  ghost predicate SlotsFit(slots: seq<Slot>, size: nat, width: nat) {
    forall k :: 0 <= k < |slots| ==> slots[k].raw + width <= size
  }

  lemma SlotsFitAppend(first: seq<Slot>, second: seq<Slot>, size: nat, width: nat)
    requires SlotsFit(first, size, width) && SlotsFit(second, size, width)
    ensures SlotsFit(first + second, size, width)
  {
  }

  lemma {:induction false} EntriesFit(source: Bytes, layout: Layout, page: U32, first: nat, index: nat, count: nat)
    ensures var r := Entries(source, layout, page, first, index, count);
            r.Ok? ==> SlotsFit(r.value, |source|, layout.format.PointerSize())
    decreases count - index
  {
    if index < count {
      EntriesFit(source, layout, page, first, index + 1, count);
    }
  }

  lemma {:induction false} BlocksFit(source: Bytes, layout: Layout, consumed: nat)
    ensures var r := Blocks(source, layout, consumed);
            r.Ok? ==> SlotsFit(r.value, |source|, layout.format.PointerSize())
    decreases RelocationDirectory(layout).size - consumed
  {
    hide Entries, RvaToRaw, BlockHeader;
    if consumed < RelocationDirectory(layout).size {
      hide SlotsFit;
      var head := BlockHeader(source, layout, consumed);
      if head.Some? {
        var size := head.value.size;
        EntriesFit(source, layout, head.value.page, consumed + BLOCK_HEADER_SIZE, 0, (size - BLOCK_HEADER_SIZE) / 2);
        BlocksFit(source, layout, consumed + size);
        var here, rest := Block(source, layout, consumed, head.value), Blocks(source, layout, consumed + size);
        if here.Ok? && rest.Ok? {
          SlotsFitAppend(here.value, rest.value, |source|, layout.format.PointerSize());
          assert Blocks(source, layout, consumed).value == here.value + rest.value;
        }
      }
    }
  }

  // ---- the adjusted copy ----

  /** What one slot holds after rebasing by `delta`. */
  function Moved(source: Bytes, format: Format, slot: Slot, delta: int): (s: Bytes)
    requires slot.raw + format.PointerSize() <= |source|
    ensures |s| == format.PointerSize()
  {
    LittleEndian((ReadAt(source, slot.raw, format.PointerSize()) + delta) % format.Modulus(),
                 format.PointerSize())
  }

  function Apply(source: Bytes, format: Format, slots: seq<Slot>, delta: int): (r: Bytes)
    requires SlotsFit(slots, |source|, format.PointerSize())
    ensures |r| == |source|
  {
    if slots == [] then source
    else
      var last := slots[|slots| - 1];
      Patch(Apply(source, format, slots[..|slots| - 1], delta), last.raw,
            Moved(source, format, last, delta))
  }

  function Evidence(source: Bytes, layout: Layout, slot: Slot): SourceSlot
    requires slot.raw + layout.format.PointerSize() <= |source|
  {
    var value := ReadAt(source, slot.raw, layout.format.PointerSize());
    var relative := value - layout.preferredImageBase;
    SourceSlot(slot.rva, if 0 <= relative < layout.sizeOfImage then Some(relative) else None)
  }

  /** The optional header of an image that must load exactly at `base`. */
  function Placed(format: Format, header: Bytes, base: U64): (r: Bytes)
    requires |header| == OptionalSize(format)
    ensures |r| == |header|
  {
    HeaderSizes(format);
    var fields := Unpack(OptionalWidths(format), header);
    Powers();
    PackOfUnpack(OptionalWidths(format), header);
    Pack(OptionalWidths(format),
         fields[IMAGE_BASE := base][DLL_CHARACTERISTICS := ClearPlacement(fields[DLL_CHARACTERISTICS])]
               [CHECK_SUM := 0])
  }

  function Relocated(source: Bytes, layout: Layout, slots: seq<Slot>, base: U64): (r: Bytes)
    requires SlotsFit(slots, |source|, layout.format.PointerSize())
    requires Fits(source, layout.ntHeaderOffset, NtSize(layout.format))
    ensures |r| == |source|
  {
    var moved := Apply(source, layout.format, slots, base - layout.preferredImageBase);
    var at := layout.ntHeaderOffset + 24;
    Patch(moved, at, Placed(layout.format, Slice(moved, at, OptionalSize(layout.format)), base))
  }

  predicate Admissible(source: Bytes, layout: Layout, base: U64) {
    source != [] && base != 0 && base % 0x1_0000 == 0 && layout.preferredImageBase != 0
    && layout.format.AddressFits(base) && layout.format.AddressFits(layout.preferredImageBase)
    && Fits(source, layout.ntHeaderOffset, NtSize(layout.format))
  }

  /** The whole outcome as a function of the file, its layout and the base. */
  function Outcome(source: Bytes, layout: Layout, base: U64): Result<RebasedImage, RebaseError> {
    var directory := RelocationDirectory(layout);
    if !Admissible(source, layout, base) then Err(InvalidInput)
    else if directory.address == 0 || directory.size < BLOCK_HEADER_SIZE then Err(MissingRelocations)
    else
      match Blocks(source, layout, 0)
      case Err(e) => Err(e)
      case Ok(slots) =>
        BlocksFit(source, layout, 0);
        Ok(RebasedImage(Relocated(source, layout, slots, base), base,
                        seq(|slots|, k requires 0 <= k < |slots| => Evidence(source, layout, slots[k]))))
  }

  /** The copy and the evidence list after the slots in `done`. */
  ghost predicate Adjusted(source: Bytes, layout: Layout, done: seq<Slot>, delta: int,
                           bytes: Bytes, sourceSlots: seq<SourceSlot>)
  {
    SlotsFit(done, |source|, layout.format.PointerSize())
    && bytes == Apply(source, layout.format, done, delta)
    && sourceSlots == seq(|done|, k requires 0 <= k < |done| => Evidence(source, layout, done[k]))
  }

  lemma AdjustedStep(source: Bytes, layout: Layout, done: seq<Slot>, delta: int,
                     bytes: Bytes, sourceSlots: seq<SourceSlot>, slot: Slot)
    requires Adjusted(source, layout, done, delta, bytes, sourceSlots)
    requires slot.raw + layout.format.PointerSize() <= |source|
    ensures |bytes| == |source|
    ensures Adjusted(source, layout, done + [slot], delta,
                     Patch(bytes, slot.raw, Moved(source, layout.format, slot, delta)),
                     sourceSlots + [Evidence(source, layout, slot)])
  {
    assert (done + [slot])[..|done|] == done;
  }

  lemma AdjustedNothing(source: Bytes, layout: Layout, delta: int)
    ensures Adjusted(source, layout, [], delta, source, [])
  {
  }

  lemma PrependTwice<T>(first: seq<T>, second: seq<T>, rest: Result<seq<T>, RebaseError>)
    ensures Prepend(first, Prepend(second, rest)) == Prepend(first + second, rest)
  {
    if rest.Ok? {
      assert first + (second + rest.value) == first + second + rest.value;
    }
  }

  lemma PrependNothing<T>(rest: Result<seq<T>, RebaseError>)
    ensures Prepend([], rest) == rest
  {
    if rest.Ok? {
      assert [] + rest.value == rest.value;
    }
  }

  /** The entry loop of one block. */
  method RebaseBlock(source: Bytes, layout: Layout, delta: int, consumed: nat, block: BlockHead,
                     bytes: Bytes, sourceSlots: seq<SourceSlot>, ghost done: seq<Slot>)
    returns (bytes': Bytes, sourceSlots': seq<SourceSlot>, error: Option<RebaseError>)
    requires block.size >= BLOCK_HEADER_SIZE
    requires Adjusted(source, layout, done, delta, bytes, sourceSlots)
    ensures var slots := Block(source, layout, consumed, block);
            if slots.Err? then error == Some(slots.error)
            else error == None && Adjusted(source, layout, done + slots.value, delta, bytes', sourceSlots')
  {
    hide Apply, Adjusted, Evidence, ReadAt, Patch, LittleEndian, Entry, Slice;
    bytes', sourceSlots', error := bytes, sourceSlots, None;
    var first := consumed + BLOCK_HEADER_SIZE;
    var page, entryCount := block.page, (block.size - BLOCK_HEADER_SIZE) / 2;
    var width := layout.format.PointerSize();
    ghost var here: seq<Slot> := [];
    assert done + here == done;
    PrependNothing(Entries(source, layout, page, first, 0, entryCount));
    var index := 0;
    while index < entryCount
      invariant 0 <= index <= entryCount
      invariant Block(source, layout, consumed, block)
                == Prepend(here, Entries(source, layout, page, first, index, entryCount))
      invariant Adjusted(source, layout, done + here, delta, bytes', sourceSlots')
    {
      var entry := Entry(source, layout, page, DirectoryRva(layout, first + 2 * index));
      if entry.Err? {
        return bytes', sourceSlots', Some(entry.error);
      }
      PrependTwice(here, Optional(entry.value), Entries(source, layout, page, first, index + 1, entryCount));
      if entry.value == None {
        assert here + [] == here;
      } else {
        var slot := entry.value.value;
        AdjustedStep(source, layout, done + here, delta, bytes', sourceSlots', slot);
        assert done + here + [slot] == done + (here + [slot]);
        here := here + [slot];
        var value := ReadAt(source, slot.raw, width);
        sourceSlots' := sourceSlots' + [Evidence(source, layout, slot)];
        bytes' := Patch(bytes', slot.raw, LittleEndian((value + delta) % layout.format.Modulus(), width));
      }
      index := index + 1;
    }
    assert here + [] == here;
  }

  method RebaseTyped(source: Bytes, layout: Layout, requiredBase: U64)
    returns (result: Result<RebasedImage, RebaseError>)
    requires source != [] && requiredBase != 0 && requiredBase % 0x1_0000 == 0
    requires layout.preferredImageBase != 0
    ensures result == Outcome(source, layout, requiredBase)
  {
    hide Apply, Block, Entries, BlockHeader, RvaToRaw, RawIn, Placed, Evidence, Patch;
    if !layout.format.AddressFits(requiredBase) || !layout.format.AddressFits(layout.preferredImageBase)
       || layout.ntHeaderOffset > |source| || NtSize(layout.format) > |source| - layout.ntHeaderOffset {
      return Err(InvalidInput);
    }
    var directory := RelocationDirectory(layout);
    if directory.address == 0 || directory.size < BLOCK_HEADER_SIZE {
      return Err(MissingRelocations);
    }
    var bytes := source;
    var sourceSlots: seq<SourceSlot> := [];
    var delta := requiredBase - layout.preferredImageBase;
    ghost var done: seq<Slot> := [];
    AdjustedNothing(source, layout, delta);
    PrependNothing(Blocks(source, layout, 0));
    var consumed := 0;
    while consumed < directory.size
      invariant 0 <= consumed <= directory.size
      invariant Blocks(source, layout, 0) == Prepend(done, Blocks(source, layout, consumed))
      invariant Adjusted(source, layout, done, delta, bytes, sourceSlots)
      decreases directory.size - consumed
    {
      var head := BlockHeader(source, layout, consumed);
      if head == None {
        return Err(InvalidRelocationDirectory);
      }
      var block := head.value;
      var error;
      bytes, sourceSlots, error :=
        RebaseBlock(source, layout, delta, consumed, block, bytes, sourceSlots, done);
      if error != None {
        return Err(error.value);
      }
      ghost var slots := Block(source, layout, consumed, block).value;
      PrependTwice(done, slots, Blocks(source, layout, consumed + block.size));
      done := done + slots;
      consumed := consumed + block.size;
    }
    assert done + [] == done;
    BlocksFit(source, layout, 0);
    var at := layout.ntHeaderOffset + 24;
    bytes := Patch(bytes, at, Placed(layout.format, Slice(bytes, at, OptionalSize(layout.format)), requiredBase));
    result := Ok(RebasedImage(bytes, requiredBase, sourceSlots));
  }

  method Rebase(source: Bytes, layout: Layout, requiredBase: U64)
    returns (result: Result<RebasedImage, RebaseError>)
    ensures result == Outcome(source, layout, requiredBase)
  {
    if source == [] || requiredBase == 0 || requiredBase % 0x1_0000 != 0 || layout.preferredImageBase == 0 {
      return Err(InvalidInput);
    }
    result := RebaseTyped(source, layout, requiredBase);
  }
}
