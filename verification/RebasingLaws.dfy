/** Laws of rebasing: what ends up at each slot, composition, and return. */
module RebasingLaws {
  import opened Bytes
  import opened Structs
  import opened PeFormat
  import opened PeFileRebaser

  /** No slot overlaps another one partially. */
  ghost predicate EqualOrDisjoint(slots: seq<Slot>, width: nat) {
    forall i, j :: 0 <= i < |slots| && 0 <= j < |slots| ==>
      slots[i].raw == slots[j].raw || slots[i].raw + width <= slots[j].raw
      || slots[j].raw + width <= slots[i].raw
  }

  ghost predicate InSlot(slots: seq<Slot>, width: nat, i: int) {
    exists k :: 0 <= k < |slots| && slots[k].raw <= i < slots[k].raw + width
  }

  lemma {:induction false} ApplyElsewhere(source: Bytes, format: Format, slots: seq<Slot>, delta: int, i: int)
    requires SlotsFit(slots, |source|, format.PointerSize())
    requires 0 <= i < |source| && !InSlot(slots, format.PointerSize(), i)
    ensures Apply(source, format, slots, delta)[i] == source[i]
  {
    if slots != [] {
      var rest := slots[..|slots| - 1];
      assert forall k :: 0 <= k < |rest| ==> rest[k] == slots[k];
      ApplyElsewhere(source, format, rest, delta, i);
    }
  }

  /** Every slot holds its own moved value, however often it is listed. */
  lemma {:induction false} ApplyAtSlot(source: Bytes, format: Format, slots: seq<Slot>, delta: int, k: nat)
    requires SlotsFit(slots, |source|, format.PointerSize())
    requires EqualOrDisjoint(slots, format.PointerSize())
    requires k < |slots|
    ensures Slice(Apply(source, format, slots, delta), slots[k].raw, format.PointerSize())
            == Moved(source, format, slots[k], delta)
  {
    hide Moved, Slice, ReadAt;
    var last, rest := slots[|slots| - 1], slots[..|slots| - 1];
    var before := Apply(source, format, rest, delta);
    var s := Moved(source, format, last, delta);
    if slots[k].raw == last.raw {
      PatchRead(before, last.raw, s);
      MovedByPosition(source, format, slots[k], last, delta);
    } else {
      PatchElsewhere(before, last.raw, s, slots[k].raw, format.PointerSize());
      ApplyAtSlot(source, format, rest, delta, k);
    }
  }

  lemma MovedByPosition(source: Bytes, format: Format, a: Slot, b: Slot, delta: int)
    requires a.raw == b.raw && a.raw + format.PointerSize() <= |source|
    ensures Moved(source, format, a, delta) == Moved(source, format, b, delta)
  {
  }

  // ---- the walk depends only on the directory's bytes ----

  /** The parts of a layout that the directory walk looks at. */
  predicate SameAddresses(a: Layout, b: Layout) {
    a.format == b.format && a.sizeOfHeaders == b.sizeOfHeaders && a.sections == b.sections
    && RelocationDirectory(a) == RelocationDirectory(b) && a.ntHeaderOffset == b.ntHeaderOffset
  }

  /** File bytes `raw .. raw+n` are bytes `k .. k+n` of the directory. */
  ghost predicate DirectoryRange(layout: Layout, k: nat, n: nat, raw: nat) {
    k + n <= RelocationDirectory(layout).size
    && RvaToRaw(layout, DirectoryRva(layout, k), n) == Some(raw)
  }

  ghost predicate SameDirectory(a: Bytes, b: Bytes, layout: Layout) {
    |a| == |b|
    && forall k: nat, n: nat, raw: nat :: DirectoryRange(layout, k, n, raw) && Fits(a, raw, n) ==>
         SameRange(a, b, raw, n)
  }

  lemma EntrySame(a: Bytes, b: Bytes, layout: Layout, layout': Layout, page: U32, k: nat)
    requires SameAddresses(layout, layout') && SameDirectory(a, b, layout)
    requires k + 2 <= RelocationDirectory(layout).size
    ensures Entry(a, layout, page, DirectoryRva(layout, k)) == Entry(b, layout', page, DirectoryRva(layout', k))
  {
    hide ReadAt, RawIn, SameRange;
    var raw := RvaToRaw(layout, DirectoryRva(layout, k), 2);
    if raw.Some? && Fits(a, raw.value, 2) {
      assert DirectoryRange(layout, k, 2, raw.value);
      SameRangeRead(a, b, raw.value, 2);
    }
  }

  lemma {:induction false} EntriesSame(a: Bytes, b: Bytes, layout: Layout, layout': Layout, page: U32,
                                       k: nat, index: nat, count: nat)
    requires SameAddresses(layout, layout') && SameDirectory(a, b, layout)
    requires k + 2 * count <= RelocationDirectory(layout).size
    ensures Entries(a, layout, page, k, index, count) == Entries(b, layout', page, k, index, count)
    decreases count - index
  {
    hide Entry, RvaToRaw, SameDirectory;
    if index < count {
      EntrySame(a, b, layout, layout', page, k + 2 * index);
      EntriesSame(a, b, layout, layout', page, k, index + 1, count);
    }
  }

  lemma BlockHeaderSame(a: Bytes, b: Bytes, layout: Layout, layout': Layout, consumed: nat)
    requires SameAddresses(layout, layout') && SameDirectory(a, b, layout)
    requires consumed < RelocationDirectory(layout).size
    ensures BlockHeader(a, layout, consumed) == BlockHeader(b, layout', consumed)
  {
    hide RawIn, Unsigned, Pow256;
    var raw := RvaToRaw(layout, DirectoryRva(layout, consumed), 8);
    if raw.Some? && Fits(a, raw.value, 8) && consumed + 8 <= RelocationDirectory(layout).size {
      assert DirectoryRange(layout, consumed, 8, raw.value);
      SameRangeRead(a, b, raw.value, 4);
      SameRangeRead(a, b, raw.value + 4, 4);
    }
  }

  lemma {:induction false} BlocksSame(a: Bytes, b: Bytes, layout: Layout, layout': Layout, consumed: nat)
    requires SameAddresses(layout, layout') && SameDirectory(a, b, layout)
    ensures Blocks(a, layout, consumed) == Blocks(b, layout', consumed)
    decreases RelocationDirectory(layout).size - consumed
  {
    hide Entries, SameDirectory, RvaToRaw, BlockHeader, Prepend, SlotsFit;
    if consumed < RelocationDirectory(layout).size {
      BlockHeaderSame(a, b, layout, layout', consumed);
      var head := BlockHeader(a, layout, consumed);
      if head.Some? {
        EntriesSame(a, b, layout, layout', head.value.page, consumed + 8, 0, (head.value.size - 8) / 2);
        BlocksSame(a, b, layout, layout', consumed + head.value.size);
      }
    }
  }

  // ---- header placement ----

  lemma OptionalWidthFacts(format: Format)
    ensures var w := OptionalWidths(format);
            w[IMAGE_BASE] == format.PointerSize() && w[DLL_CHARACTERISTICS] == 2 && w[CHECK_SUM] == 4
  {
  }

  lemma PlacedFields(format: Format, header: Bytes, base: U64)
    requires |header| == OptionalSize(format) && format.AddressFits(base)
    ensures Size(OptionalWidths(format)) == OptionalSize(format)
    ensures var f := Unpack(OptionalWidths(format), header);
            Unpack(OptionalWidths(format), Placed(format, header, base))
            == f[IMAGE_BASE := base][DLL_CHARACTERISTICS := ClearPlacement(f[DLL_CHARACTERISTICS])][CHECK_SUM := 0]
  {
    hide Pack, Unpack, OptionalWidths, ClearPlacement;
    var w := OptionalWidths(format);
    HeaderSizes(format);
    PackOfUnpack(w, header);
    OptionalWidthFacts(format);
    Powers();
    PointerRange(format);
    var f := Unpack(w, header);
    UnpackOfPack(w, f[IMAGE_BASE := base][DLL_CHARACTERISTICS := ClearPlacement(f[DLL_CHARACTERISTICS])][CHECK_SUM := 0]);
  }

  /** Placing an already placed header only changes its base. */
  lemma PlacedTwice(format: Format, header: Bytes, b: U64, c: U64)
    requires |header| == OptionalSize(format) && format.AddressFits(b) && format.AddressFits(c)
    ensures Placed(format, Placed(format, header, b), c) == Placed(format, header, c)
  {
    hide Unpack, OptionalWidths, Pack, ClearPlacement;
    HeaderSizes(format);
    PlacedFields(format, header, b);
    var f := Unpack(OptionalWidths(format), header);
    PlacementCleared(f[DLL_CHARACTERISTICS]);
    var g := Unpack(OptionalWidths(format), Placed(format, header, b));
    assert f[IMAGE_BASE := c][DLL_CHARACTERISTICS := ClearPlacement(f[DLL_CHARACTERISTICS])][CHECK_SUM := 0]
        == g[IMAGE_BASE := c][DLL_CHARACTERISTICS := ClearPlacement(g[DLL_CHARACTERISTICS])][CHECK_SUM := 0];
  }

  // ---- the rebased file ----

  predicate InHeader(layout: Layout, i: int) {
    layout.ntHeaderOffset <= i < layout.ntHeaderOffset + NtSize(layout.format)
  }

  predicate InOptional(layout: Layout, i: int) {
    layout.ntHeaderOffset + 24 <= i < layout.ntHeaderOffset + NtSize(layout.format)
  }

  /** Slots overlap only if equal, and neither the slots nor the NT header
      overlap the relocation directory; slots avoid the NT header. */
  ghost predicate Separate(source: Bytes, layout: Layout, slots: seq<Slot>) {
    var width := layout.format.PointerSize();
    EqualOrDisjoint(slots, width)
    && (forall i :: InSlot(slots, width, i) ==> !InHeader(layout, i))
    && forall k: nat, n: nat, raw: nat, i ::
         DirectoryRange(layout, k, n, raw) && raw <= i < raw + n && Fits(source, raw, n)
         ==> !InSlot(slots, width, i) && !InHeader(layout, i)
  }

  lemma RelocatedElsewhere(source: Bytes, layout: Layout, slots: seq<Slot>, base: U64, i: int)
    requires SlotsFit(slots, |source|, layout.format.PointerSize())
    requires Fits(source, layout.ntHeaderOffset, NtSize(layout.format))
    requires 0 <= i < |source| && !InSlot(slots, layout.format.PointerSize(), i) && !InOptional(layout, i)
    ensures Relocated(source, layout, slots, base)[i] == source[i]
  {
    hide Placed, Apply, Slice;
    ApplyElsewhere(source, layout.format, slots, base - layout.preferredImageBase, i);
  }

  lemma SlotAvoidsHeader(layout: Layout, slots: seq<Slot>, k: nat)
    requires k < |slots|
    requires forall i :: InSlot(slots, layout.format.PointerSize(), i) ==> !InHeader(layout, i)
    ensures slots[k].raw + layout.format.PointerSize() <= layout.ntHeaderOffset
            || layout.ntHeaderOffset + NtSize(layout.format) <= slots[k].raw
  {
    var w := layout.format.PointerSize();
    assert InSlot(slots, w, slots[k].raw);
    assert InSlot(slots, w, slots[k].raw + w - 1);
  }

  lemma RelocatedAtSlot(source: Bytes, layout: Layout, slots: seq<Slot>, base: U64, k: nat)
    requires SlotsFit(slots, |source|, layout.format.PointerSize())
    requires Fits(source, layout.ntHeaderOffset, NtSize(layout.format))
    requires EqualOrDisjoint(slots, layout.format.PointerSize()) && k < |slots|
    requires forall i :: InSlot(slots, layout.format.PointerSize(), i) ==> !InHeader(layout, i)
    ensures Slice(Relocated(source, layout, slots, base), slots[k].raw, layout.format.PointerSize())
            == Moved(source, layout.format, slots[k], base - layout.preferredImageBase)
  {
    hide Placed, Apply, Slice, Moved, EqualOrDisjoint, InSlot;
    var delta, at := base - layout.preferredImageBase, layout.ntHeaderOffset + 24;
    var moved := Apply(source, layout.format, slots, delta);
    SlotAvoidsHeader(layout, slots, k);
    PatchElsewhere(moved, at, Placed(layout.format, Slice(moved, at, OptionalSize(layout.format)), base),
                   slots[k].raw, layout.format.PointerSize());
    ApplyAtSlot(source, layout.format, slots, delta, k);
  }

  lemma RelocatedHeader(source: Bytes, layout: Layout, slots: seq<Slot>, base: U64)
    requires SlotsFit(slots, |source|, layout.format.PointerSize())
    requires Fits(source, layout.ntHeaderOffset, NtSize(layout.format))
    requires forall i :: InSlot(slots, layout.format.PointerSize(), i) ==> !InHeader(layout, i)
    ensures var at, n := layout.ntHeaderOffset + 24, OptionalSize(layout.format);
            Slice(Relocated(source, layout, slots, base), at, n) == Placed(layout.format, Slice(source, at, n), base)
  {
    hide Placed, Apply, InSlot;
    var delta, at, n := base - layout.preferredImageBase, layout.ntHeaderOffset + 24, OptionalSize(layout.format);
    var moved := Apply(source, layout.format, slots, delta);
    forall i | at <= i < at + n ensures moved[i] == source[i] {
      assert InHeader(layout, i);
      ApplyElsewhere(source, layout.format, slots, delta, i);
    }
    SameRangeRead(moved, source, at, n);
    PatchRead(moved, at, Placed(layout.format, Slice(moved, at, n), base));
  }

  lemma RelocatedKeepsDirectory(source: Bytes, layout: Layout, slots: seq<Slot>, base: U64)
    requires SlotsFit(slots, |source|, layout.format.PointerSize())
    requires Fits(source, layout.ntHeaderOffset, NtSize(layout.format))
    requires Separate(source, layout, slots)
    ensures SameDirectory(source, Relocated(source, layout, slots, base), layout)
  {
    hide Relocated, DirectoryRange, InSlot, EqualOrDisjoint;
    var r := Relocated(source, layout, slots, base);
    forall k: nat, n: nat, raw: nat | DirectoryRange(layout, k, n, raw) && Fits(source, raw, n)
      ensures SameRange(source, r, raw, n)
    {
      forall i | raw <= i < raw + n ensures source[i] == r[i] {
        RelocatedElsewhere(source, layout, slots, base, i);
      }
    }
  }

  lemma SumOfMoves(format: Format, v: int, d: int, e: int)
    ensures ((v + d) % format.Modulus() + e) % format.Modulus() == (v + (d + e)) % format.Modulus()
  {
    var q, r := (v + d) / format.Modulus(), (v + d) % format.Modulus();
    if format.Pe32? {
      assert v + d == 0x1_0000_0000 * q + r;
      assert (0x1_0000_0000 * q + (r + e)) % 0x1_0000_0000 == (r + e) % 0x1_0000_0000;
    } else {
      assert v + d == 0x1_0000_0000_0000_0000 * q + r;
      assert (0x1_0000_0000_0000_0000 * q + (r + e)) % 0x1_0000_0000_0000_0000 == (r + e) % 0x1_0000_0000_0000_0000;
    }
  }

  /** A slot moved twice holds what one move by the sum would leave. */
  lemma MovedAgain(source: Bytes, between: Bytes, format: Format, slot: Slot, d: int, e: int)
    requires slot.raw + format.PointerSize() <= |source| == |between|
    requires Slice(between, slot.raw, format.PointerSize()) == Moved(source, format, slot, d)
    ensures Moved(between, format, slot, e) == Moved(source, format, slot, d + e)
  {
    hide LittleEndian, Unsigned, Slice;
    PointerRange(format);
    var v := ReadAt(source, slot.raw, format.PointerSize());
    UnsignedOfLittleEndian((v + d) % format.Modulus(), format.PointerSize());
    SumOfMoves(format, v, d, e);
  }

  lemma MovedByNothing(source: Bytes, format: Format, slot: Slot)
    requires slot.raw + format.PointerSize() <= |source|
    ensures Moved(source, format, slot, 0) == Slice(source, slot.raw, format.PointerSize())
  {
    hide LittleEndian, Unsigned, Slice;
    PointerRange(format);
    LittleEndianOfUnsigned(Slice(source, slot.raw, format.PointerSize()));
  }

  /** Two buffers agree once they agree on every slot, on the optional header
      and everywhere else. */
  lemma SameEverywhere(a: Bytes, b: Bytes, layout: Layout, slots: seq<Slot>)
    requires |a| == |b| && SlotsFit(slots, |a|, layout.format.PointerSize())
    requires Fits(a, layout.ntHeaderOffset, NtSize(layout.format))
    requires forall k :: 0 <= k < |slots| ==>
      Slice(a, slots[k].raw, layout.format.PointerSize()) == Slice(b, slots[k].raw, layout.format.PointerSize())
    requires var at, n := layout.ntHeaderOffset + 24, OptionalSize(layout.format); Slice(a, at, n) == Slice(b, at, n)
    requires forall i :: 0 <= i < |a| && !InSlot(slots, layout.format.PointerSize(), i) && !InOptional(layout, i) ==>
      a[i] == b[i]
    ensures a == b
  {
    var w, at := layout.format.PointerSize(), layout.ntHeaderOffset + 24;
    forall i | 0 <= i < |a| ensures a[i] == b[i] {
      if InSlot(slots, w, i) {
        var k :| 0 <= k < |slots| && slots[k].raw <= i < slots[k].raw + w;
        assert a[i] == Slice(a, slots[k].raw, w)[i - slots[k].raw];
        assert b[i] == Slice(b, slots[k].raw, w)[i - slots[k].raw];
      } else if InOptional(layout, i) {
        assert a[i] == Slice(a, at, OptionalSize(layout.format))[i - at];
        assert b[i] == Slice(b, at, OptionalSize(layout.format))[i - at];
      }
    }
  }

  lemma RelocatedTwice(source: Bytes, layout: Layout, layout': Layout, slots: seq<Slot>, b: U64, c: U64)
    requires SlotsFit(slots, |source|, layout.format.PointerSize())
    requires Fits(source, layout.ntHeaderOffset, NtSize(layout.format))
    requires Separate(source, layout, slots)
    requires SameAddresses(layout, layout') && layout'.preferredImageBase == b
    requires layout.format.AddressFits(b) && layout.format.AddressFits(c)
    ensures Relocated(Relocated(source, layout, slots, b), layout', slots, c) == Relocated(source, layout, slots, c)
  {
    hide Relocated, Placed, Slice, Moved, InSlot, EqualOrDisjoint, DirectoryRange;
    var between := Relocated(source, layout, slots, b);
    var twice := Relocated(between, layout', slots, c);
    var once := Relocated(source, layout, slots, c);
    var a, w := layout.preferredImageBase, layout.format.PointerSize();
    var at, n := layout.ntHeaderOffset + 24, OptionalSize(layout.format);
    assert forall i :: InHeader(layout', i) == InHeader(layout, i);
    forall k | 0 <= k < |slots| ensures Slice(twice, slots[k].raw, w) == Slice(once, slots[k].raw, w) {
      RelocatedAtSlot(source, layout, slots, b, k);
      RelocatedAtSlot(between, layout', slots, c, k);
      RelocatedAtSlot(source, layout, slots, c, k);
      MovedAgain(source, between, layout.format, slots[k], b - a, c - b);
    }
    RelocatedHeader(source, layout, slots, b);
    RelocatedHeader(between, layout', slots, c);
    RelocatedHeader(source, layout, slots, c);
    PlacedTwice(layout.format, Slice(source, at, n), b, c);
    forall i | 0 <= i < |source| && !InSlot(slots, w, i) && !InOptional(layout, i)
      ensures twice[i] == once[i]
    {
      RelocatedElsewhere(source, layout, slots, b, i);
      RelocatedElsewhere(between, layout', slots, c, i);
      RelocatedElsewhere(source, layout, slots, c, i);
    }
    SameEverywhere(twice, once, layout, slots);
  }

  /** Rebasing composes: a file moved to `b` and then to `c` is byte for byte
      the file moved to `c` directly. */
  lemma RebasingComposes(source: Bytes, layout: Layout, layout': Layout, b: U64, c: U64)
    requires Outcome(source, layout, b).Ok?
    requires Separate(source, layout, Blocks(source, layout, 0).value)
    requires SameAddresses(layout, layout') && layout'.preferredImageBase == b
    requires c != 0 && c % 0x1_0000 == 0 && layout.format.AddressFits(c)
    ensures Outcome(source, layout, c).Ok?
    ensures var between := Outcome(source, layout, b).value.bytes;
            Outcome(between, layout', c).Ok?
            && Outcome(between, layout', c).value.bytes == Outcome(source, layout, c).value.bytes
  {
    hide Blocks, Relocated, Separate, SlotsFit, Evidence;
    var slots := Blocks(source, layout, 0).value;
    BlocksFit(source, layout, 0);
    var between := Relocated(source, layout, slots, b);
    RelocatedKeepsDirectory(source, layout, slots, b);
    BlocksSame(source, between, layout, layout', 0);
    RelocatedTwice(source, layout, layout', slots, b, c);
  }

  /** Going back to the original base restores every byte except that the
      placement fields of the optional header are set for that base. */
  lemma RebasingReturns(source: Bytes, layout: Layout, layout': Layout, b: U64)
    requires Outcome(source, layout, b).Ok?
    requires Separate(source, layout, Blocks(source, layout, 0).value)
    requires SameAddresses(layout, layout') && layout'.preferredImageBase == b
    requires layout.preferredImageBase % 0x1_0000 == 0
    ensures var between := Outcome(source, layout, b).value.bytes;
            var at, n := layout.ntHeaderOffset + 24, OptionalSize(layout.format);
            Outcome(between, layout', layout.preferredImageBase).Ok?
            && Outcome(between, layout', layout.preferredImageBase).value.bytes
               == Patch(source, at, Placed(layout.format, Slice(source, at, n), layout.preferredImageBase))
  {
    hide Blocks, Relocated, Evidence, Slice, Placed, InSlot, EqualOrDisjoint, DirectoryRange;
    var a, w := layout.preferredImageBase, layout.format.PointerSize();
    var at, n := layout.ntHeaderOffset + 24, OptionalSize(layout.format);
    var slots := Blocks(source, layout, 0).value;
    BlocksFit(source, layout, 0);
    RebasingComposes(source, layout, layout', b, a);
    var back := Relocated(source, layout, slots, a);
    var header := Placed(layout.format, Slice(source, at, n), a);
    var expected := Patch(source, at, header);
    RelocatedHeader(source, layout, slots, a);
    PatchRead(source, at, header);
    forall k | 0 <= k < |slots| ensures Slice(back, slots[k].raw, w) == Slice(expected, slots[k].raw, w) {
      RelocatedAtSlot(source, layout, slots, a, k);
      MovedByNothing(source, layout.format, slots[k]);
      SlotAvoidsHeader(layout, slots, k);
      PatchElsewhere(source, at, header, slots[k].raw, w);
    }
    forall i | 0 <= i < |source| && !InSlot(slots, w, i) && !InOptional(layout, i)
      ensures back[i] == expected[i]
    {
      RelocatedElsewhere(source, layout, slots, a, i);
    }
    SameEverywhere(back, expected, layout, slots);
  }
}
