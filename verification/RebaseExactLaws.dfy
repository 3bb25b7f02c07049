/** Rebasing in numbers: which directory entries the walk accepts, and every
    byte of the rebased file. */
module RebaseExactLaws {
  import opened Bytes
  import opened Structs
  import opened PeFormat
  import opened PeFileRebaser
  import opened PeOffsetLaws
  import Alignment

  // ---- addresses ----

  ghost predicate InRaw(s: Section, rva: int, n: nat) {
    s.virtualAddress <= rva && rva + n <= s.virtualAddress + s.rawSize
  }

  /** The `n` bytes at an address lie at file offset `raw`: in the headers, or in
      the first section whose raw data holds them. */
  ghost predicate RawAt(layout: Layout, rva: int, n: nat, raw: int) {
    if rva < layout.sizeOfHeaders then rva + n <= layout.sizeOfHeaders && raw == rva
    else
      exists k :: 0 <= k < |layout.sections| && InRaw(layout.sections[k], rva, n)
                  && raw == layout.sections[k].rawOffset + (rva - layout.sections[k].virtualAddress)
                  && forall j :: 0 <= j < k ==> !InRaw(layout.sections[j], rva, n)
  }

  ghost predicate RawOf(sections: seq<Section>, rva: int, n: nat, raw: int) {
    exists k :: 0 <= k < |sections| && InRaw(sections[k], rva, n)
                && raw == sections[k].rawOffset + (rva - sections[k].virtualAddress)
                && forall j :: 0 <= j < k ==> !InRaw(sections[j], rva, n)
  }

  lemma {:induction false} RawInIs(sections: seq<Section>, rva: U32, n: nat, raw: int)
    ensures RawIn(sections, rva, n).Some? && RawIn(sections, rva, n).value == raw <==> RawOf(sections, rva, n, raw)
  {
    if sections != [] && !InRaw(sections[0], rva, n) {
      var rest := sections[1..];
      RawInIs(rest, rva, n, raw);
      assert forall k :: 0 < k < |sections| ==> sections[k] == rest[k - 1];
      hide InRaw;
      if RawOf(rest, rva, n, raw) {
        var k :| 0 <= k < |rest| && InRaw(rest[k], rva, n) && raw == rest[k].rawOffset + (rva - rest[k].virtualAddress)
                 && forall j :: 0 <= j < k ==> !InRaw(rest[j], rva, n);
        assert sections[k + 1] == rest[k];
        forall j | 0 <= j < k + 1 ensures !InRaw(sections[j], rva, n) {
          assert j > 0 ==> sections[j] == rest[j - 1];
        }
      }
      if RawOf(sections, rva, n, raw) {
        var k :| 0 <= k < |sections| && InRaw(sections[k], rva, n) && raw == sections[k].rawOffset + (rva - sections[k].virtualAddress)
                 && forall j :: 0 <= j < k ==> !InRaw(sections[j], rva, n);
        assert rest[k - 1] == sections[k];
        assert forall j :: 0 <= j < k - 1 ==> rest[j] == sections[j + 1];
      }
    }
  }

  lemma RawIs(layout: Layout, rva: U32, n: nat, raw: int)
    ensures RvaToRaw(layout, rva, n).Some? && RvaToRaw(layout, rva, n).value == raw <==> RawAt(layout, rva, n, raw)
  {
    hide RawIn;
    RawInIs(layout.sections, rva, n, raw);
  }

  // ---- the walk over the directory ----

  ghost function PointerWidth(layout: Layout): nat {
    if layout.format.Pe32? then 4 else 8
  }

  /** The address of byte `k` of the directory, which wraps at 32 bits. */
  ghost function EntryAddress(layout: Layout, k: nat): nat {
    (layout.directories[5].address + k) % 0x1_0000_0000
  }

  /** The directory word at byte `k` adds the slots `found`: none for type 0,
      one for the type of the format (3 or 10); no other type is accepted. */
  ghost predicate EntryIs(source: Bytes, layout: Layout, page: int, k: nat, found: seq<Slot>) {
    exists raw :: RawAt(layout, EntryAddress(layout, k), 2, raw) && Fits(source, raw, 2)
                  && WordIs(source, layout, page, ReadAt(source, raw, 2), found)
  }

  ghost predicate WordIs(source: Bytes, layout: Layout, page: int, word: nat, found: seq<Slot>) {
    (word / 0x1000 == 0 && found == [])
    || (word / 0x1000 == (if layout.format.Pe32? then 3 else 10) && |found| == 1
        && found[0].rva == page + word % 0x1000 && RawAt(layout, found[0].rva, PointerWidth(layout), found[0].raw)
        && Fits(source, found[0].raw, PointerWidth(layout)))
  }

  ghost predicate EntriesAre(source: Bytes, layout: Layout, page: int, first: nat, count: nat, slots: seq<Slot>)
    decreases count
  {
    if count == 0 then slots == []
    else
      (EntryIs(source, layout, page, first, []) && EntriesAre(source, layout, page, first + 2, count - 1, slots))
      || (slots != [] && EntryIs(source, layout, page, first, [slots[0]])
          && EntriesAre(source, layout, page, first + 2, count - 1, slots[1..]))
  }

  /** The block at byte `consumed`: its page and its size, which is even and fits. */
  ghost predicate BlockAt(source: Bytes, layout: Layout, consumed: nat, page: U32, size: nat) {
    8 <= size <= layout.directories[5].size - consumed && size % 2 == 0
    && exists raw :: RawAt(layout, EntryAddress(layout, consumed), 8, raw) && Fits(source, raw, 8)
                     && page == ReadAt(source, raw, 4) && size == ReadAt(source, raw + 4, 4)
  }

  /** The blocks from byte `consumed` to the end of the directory name the slots. */
  ghost predicate WalkIs(source: Bytes, layout: Layout, consumed: nat, slots: seq<Slot>)
    decreases layout.directories[5].size - consumed
  {
    if consumed >= layout.directories[5].size then slots == []
    else
      exists page: U32, size: nat, n: nat :: BlockAt(source, layout, consumed, page, size) && n <= |slots|
        && EntriesAre(source, layout, page, consumed + 8, (size - 8) / 2, slots[..n])
        && WalkIs(source, layout, consumed + size, slots[n..])
  }

  lemma AddressIs(layout: Layout, k: nat)
    ensures DirectoryRva(layout, k) == EntryAddress(layout, k) && RelocationDirectory(layout) == layout.directories[5]
  {
  }

  lemma EntryExact(source: Bytes, layout: Layout, page: U32, k: nat, found: seq<Slot>)
    ensures var e := Entry(source, layout, page, DirectoryRva(layout, k));
            e.Ok? && Optional(e.value) == found <==> EntryIs(source, layout, page, k, found)
  {
    hide ReadAt, RvaToRaw, RawAt;
    AddressIs(layout, k);
    var rva := DirectoryRva(layout, k);
    var at := RvaToRaw(layout, rva, 2);
    forall raw ensures at.Some? && at.value == raw <==> RawAt(layout, rva, 2, raw) {
      RawIs(layout, rva, 2, raw);
    }
    if at.Some? && Fits(source, at.value, 2) {
      WordExact(source, layout, page, ReadAt(source, at.value, 2), found);
      EntryOfWord(source, layout, page, rva);
    }
  }

  /** What one directory word gives. */
  ghost function WordSlot(source: Bytes, layout: Layout, page: U32, word: nat): Result<Option<Slot>, RebaseError> {
    if word / 0x1000 == 0 then Ok(None)
    else if word / 0x1000 != layout.format.RelocationType() then Err(UnsupportedRelocationType)
    else if page + word % 0x1000 > U32_MAX then Err(InvalidRelocationDirectory)
    else
      var raw := RvaToRaw(layout, page + word % 0x1000, layout.format.PointerSize());
      if raw.Some? && Fits(source, raw.value, layout.format.PointerSize()) then Ok(Some(Slot(page + word % 0x1000, raw.value)))
      else Err(InvalidRelocationDirectory)
  }

  lemma EntryOfWord(source: Bytes, layout: Layout, page: U32, rva: U32)
    requires RvaToRaw(layout, rva, 2).Some? && Fits(source, RvaToRaw(layout, rva, 2).value, 2)
    ensures Entry(source, layout, page, rva) == WordSlot(source, layout, page, ReadAt(source, RvaToRaw(layout, rva, 2).value, 2))
  {
    hide ReadAt, RvaToRaw;
  }

  lemma WordExact(source: Bytes, layout: Layout, page: U32, word: nat, found: seq<Slot>)
    ensures var e := WordSlot(source, layout, page, word);
            e.Ok? && Optional(e.value) == found <==> WordIs(source, layout, page, word, found)
  {
    hide RvaToRaw, RawAt;
    var a: int, w := page + word % 0x1000, PointerWidth(layout);
    if a <= U32_MAX {
      forall raw ensures RvaToRaw(layout, a, w).Some? && RvaToRaw(layout, a, w).value == raw <==> RawAt(layout, a, w, raw) {
        RawIs(layout, a, w, raw);
      }
      if |found| == 1 {
        assert found == [Slot(found[0].rva, found[0].raw)];
      }
    }
  }

  lemma EntriesStep(source: Bytes, layout: Layout, page: U32, first: nat, index: nat, count: nat, slots: seq<Slot>)
    requires index < count
    ensures var e := Entry(source, layout, page, DirectoryRva(layout, first + 2 * index));
            Entries(source, layout, page, first, index, count) == Ok(slots)
            <==> (e == Ok(None) && Entries(source, layout, page, first, index + 1, count) == Ok(slots))
                 || (slots != [] && e == Ok(Some(slots[0])) && Entries(source, layout, page, first, index + 1,
                                                                       count) == Ok(slots[1..]))
  {
    hide Entry, DirectoryRva;
    var e := Entry(source, layout, page, DirectoryRva(layout, first + 2 * index));
    var rest := Entries(source, layout, page, first, index + 1, count);
    if e.Ok? && rest.Ok? {
      assert [] + rest.value == rest.value;
      if e.value.Some? {
        assert ([e.value.value] + rest.value)[1..] == rest.value;
        if slots != [] {
          assert slots == [slots[0]] + slots[1..];
        }
      }
    }
  }

  lemma NoEntries(source: Bytes, layout: Layout, page: U32, first: nat, count: nat)
    ensures Entries(source, layout, page, first, count, count) == Ok([])
  {
  }

  lemma NoBlocks(source: Bytes, layout: Layout, consumed: nat)
    requires consumed >= layout.directories[5].size
    ensures Blocks(source, layout, consumed) == Ok([])
  {
  }

  lemma OptionalCases(e: Option<Slot>, found: seq<Slot>)
    ensures found == [] ==> (Optional(e) == found <==> e == None)
    ensures |found| == 1 ==> (Optional(e) == found <==> e == Some(found[0]))
  {
  }

  lemma {:induction false} EntriesExact(source: Bytes, layout: Layout, page: U32, first: nat, index: nat, count: nat, slots: seq<Slot>)
    requires index <= count
    ensures Entries(source, layout, page, first, index, count) == Ok(slots)
            <==> EntriesAre(source, layout, page, first + 2 * index, count - index, slots)
    decreases count - index
  {
    hide Entry, EntryIs, DirectoryRva, Entries, Optional;
    if index == count {
      NoEntries(source, layout, page, first, count);
    } else {
      EntriesStep(source, layout, page, first, index, count, slots);
      var e := Entry(source, layout, page, DirectoryRva(layout, first + 2 * index));
      EntryExact(source, layout, page, first + 2 * index, []);
      EntriesExact(source, layout, page, first, index + 1, count, slots);
      if e.Ok? {
        OptionalCases(e.value, []);
      }
      if slots != [] {
        EntryExact(source, layout, page, first + 2 * index, [slots[0]]);
        EntriesExact(source, layout, page, first, index + 1, count, slots[1..]);
        if e.Ok? {
          OptionalCases(e.value, [slots[0]]);
        }
      }
    }
  }

  lemma BlockExact(source: Bytes, layout: Layout, consumed: nat, page: U32, size: nat)
    ensures size <= U32_MAX && BlockHeader(source, layout, consumed) == Some(BlockHead(page, size))
            <==> BlockAt(source, layout, consumed, page, size)
  {
    hide ReadAt, RvaToRaw, RawAt, Pow256;
    Powers();
    AddressIs(layout, consumed);
    var rva := DirectoryRva(layout, consumed);
    forall raw ensures RvaToRaw(layout, rva, 8).Some? && RvaToRaw(layout, rva, 8).value == raw <==> RawAt(layout, rva, 8, raw) {
      RawIs(layout, rva, 8, raw);
    }
  }

  lemma BlocksStep(source: Bytes, layout: Layout, consumed: nat, slots: seq<Slot>)
    requires consumed < layout.directories[5].size
    ensures Blocks(source, layout, consumed) == Ok(slots)
            <==> exists page: U32, size: U32, n: nat ::
                   8 <= size && BlockHeader(source, layout, consumed) == Some(BlockHead(page, size)) && n <= |slots|
                   && Entries(source, layout, page, consumed + 8, 0, (size - 8) / 2) == Ok(slots[..n])
                   && size <= layout.directories[5].size - consumed && Blocks(source, layout, consumed + size) == Ok(slots[n..])
  {
    hide BlockHeader, Entries;
    AddressIs(layout, consumed);
    var head := BlockHeader(source, layout, consumed);
    if head.Some? {
      var page, size := head.value.page, head.value.size;
      var here, rest := Entries(source, layout, page, consumed + 8, 0, (size - 8) / 2), Blocks(source, layout, consumed + size);
      if here.Ok? && rest.Ok? {
        var n, all := |here.value|, here.value + rest.value;
        assert all[..n] == here.value && all[n..] == rest.value;
        assert head == Some(BlockHead(page, size));
        if n: nat :| n <= |slots| && here.value == slots[..n] && rest.value == slots[n..] {
          assert slots == slots[..n] + slots[n..];
        }
      }
    }
  }

  lemma {:induction false} WalkFound(source: Bytes, layout: Layout, consumed: nat, slots: seq<Slot>)
    requires Blocks(source, layout, consumed) == Ok(slots)
    ensures WalkIs(source, layout, consumed, slots)
    decreases layout.directories[5].size - consumed
  {
    hide BlockHeader, BlockAt, Entries, EntriesAre, Blocks;
    if consumed >= layout.directories[5].size {
      NoBlocks(source, layout, consumed);
    } else {
      BlocksStep(source, layout, consumed, slots);
      var page: U32, size: U32, n: nat :|
        8 <= size && BlockHeader(source, layout, consumed) == Some(BlockHead(page, size)) && n <= |slots|
        && Entries(source, layout, page, consumed + 8, 0, (size - 8) / 2) == Ok(slots[..n])
        && size <= layout.directories[5].size - consumed && Blocks(source, layout, consumed + size) == Ok(slots[n..]);
      BlockExact(source, layout, consumed, page, size);
      EntriesExact(source, layout, page, consumed + 8, 0, (size - 8) / 2, slots[..n]);
      WalkFound(source, layout, consumed + size, slots[n..]);
    }
  }

  lemma {:induction false} WalkListed(source: Bytes, layout: Layout, consumed: nat, slots: seq<Slot>)
    requires WalkIs(source, layout, consumed, slots)
    ensures Blocks(source, layout, consumed) == Ok(slots)
    decreases layout.directories[5].size - consumed
  {
    hide BlockHeader, BlockAt, Entries, EntriesAre, Blocks;
    if consumed >= layout.directories[5].size {
      NoBlocks(source, layout, consumed);
    } else {
      BlockBounds(source, layout, consumed);
      var page: U32, size: nat, n: nat :| 8 <= size && BlockAt(source, layout, consumed, page, size) && n <= |slots|
        && EntriesAre(source, layout, page, consumed + 8, (size - 8) / 2, slots[..n])
        && WalkIs(source, layout, consumed + size, slots[n..]);
      BlockExact(source, layout, consumed, page, size);
      EntriesExact(source, layout, page, consumed + 8, 0, (size - 8) / 2, slots[..n]);
      WalkListed(source, layout, consumed + size, slots[n..]);
      BlocksStep(source, layout, consumed, slots);
    }
  }

  /** The walk collects the slots exactly when the blocks name them. */
  lemma WalkExact(source: Bytes, layout: Layout, slots: seq<Slot>)
    ensures Blocks(source, layout, 0) == Ok(slots) <==> WalkIs(source, layout, 0, slots)
  {
    hide Blocks, WalkIs;
    if Blocks(source, layout, 0) == Ok(slots) {
      WalkFound(source, layout, 0, slots);
    }
    if WalkIs(source, layout, 0, slots) {
      WalkListed(source, layout, 0, slots);
    }
  }

  lemma BlockBounds(source: Bytes, layout: Layout, consumed: nat)
    ensures forall page: U32, size: nat :: BlockAt(source, layout, consumed, page, size) ==>
              8 <= size <= layout.directories[5].size - consumed
  {
  }

  // ---- the bytes ----

  /** Slot `k` is the last one that covers byte `i`. */
  ghost predicate LastOver(slots: seq<Slot>, width: nat, i: int, k: nat) {
    k < |slots| && slots[k].raw <= i < slots[k].raw + width
    && forall j :: k < j < |slots| ==> !(slots[j].raw <= i < slots[j].raw + width)
  }

  ghost predicate Covered(slots: seq<Slot>, width: nat, i: int) {
    exists k :: 0 <= k < |slots| && slots[k].raw <= i < slots[k].raw + width
  }

  /** The pointer of the source at `raw`, moved by the distance of the bases. */
  ghost function MovedValue(source: Bytes, layout: Layout, base: int, raw: nat): nat
    requires Fits(source, raw, PointerWidth(layout))
  {
    (ReadAt(source, raw, PointerWidth(layout)) + base - layout.preferredImageBase)
    % (if layout.format.Pe32? then 0x1_0000_0000 else 0x1_0000_0000_0000_0000)
  }

  /** Byte `i` of the adjusted file: that of the source, or of the last slot's moved pointer. */
  ghost predicate ByteIs(source: Bytes, layout: Layout, base: int, slots: seq<Slot>, m: Bytes, i: int)
    requires 0 <= i < |source| == |m|
  {
    (!Covered(slots, PointerWidth(layout), i) ==> m[i] == source[i])
    && forall k: nat :: LastOver(slots, PointerWidth(layout), i, k) ==>
         Fits(source, slots[k].raw, PointerWidth(layout))
         && m[i] == MovedValue(source, layout, base, slots[k].raw) / Pow256(i - slots[k].raw) % 256
  }

  ghost predicate AdjustedIs(source: Bytes, layout: Layout, base: int, slots: seq<Slot>, m: Bytes) {
    |m| == |source| && forall i :: 0 <= i < |source| ==> ByteIs(source, layout, base, slots, m, i)
  }

  lemma {:induction false} LittleEndianByte(v: nat, width: nat, i: nat)
    requires i < width
    ensures LittleEndian(v, width)[i] == v / Pow256(i) % 256
    decreases width
  {
    if i > 0 {
      LittleEndianByte(v / 256, width - 1, i - 1);
      QuotientTwice(v, 256, Pow256(i - 1));
    }
  }

  lemma QuotientTwice(v: nat, a: nat, b: nat)
    requires a > 0 && b > 0
    ensures a * b > 0 && v / a / b == v / (a * b)
  {
    var q := v / a / b;
    assert v == a * (v / a) + v % a && v / a == b * q + v / a % b;
    assert a * (v / a) == a * b * q + a * (v / a % b);
    Product(a, b, v / a % b, v % a);
    UniqueQuotient(v, a * b, q, a * (v / a % b) + v % a);
  }

  lemma Product(a: nat, b: nat, r: nat, s: nat)
    requires r < b && s < a
    ensures a * r + s < a * b
  {
    assert a * r <= a * (b - 1);
  }

  lemma UniqueQuotient(x: nat, m: nat, q: nat, r: nat)
    requires m > 0 && x == m * q + r && r < m
    ensures x / m == q
  {
    Alignment.UniqueRemainder(x, m, q, r);
  }

  lemma MovedIs(source: Bytes, layout: Layout, base: U64, slot: Slot, i: nat)
    requires slot.raw + layout.format.PointerSize() <= |source| && i < PointerWidth(layout)
    ensures Moved(source, layout.format, slot, base - layout.preferredImageBase)[i]
            == MovedValue(source, layout, base, slot.raw) / Pow256(i) % 256
  {
    hide ReadAt, LittleEndian, Pow256;
    LittleEndianByte(MovedValue(source, layout, base, slot.raw), PointerWidth(layout), i);
  }

  lemma LastCovers(slots: seq<Slot>, width: nat, i: int)
    requires slots != []
    ensures var n, rest := |slots| - 1, slots[..|slots| - 1];
            if slots[n].raw <= i < slots[n].raw + width
            then Covered(slots, width, i) && forall k: nat :: LastOver(slots, width, i, k) ==> k == n
            else (Covered(slots, width, i) <==> Covered(rest, width, i))
                 && forall k: nat :: LastOver(slots, width, i, k) ==> k < n && LastOver(rest, width, i, k)
  {
    var n, rest := |slots| - 1, slots[..|slots| - 1];
    assert forall k :: 0 <= k < n ==> rest[k] == slots[k];
    if Covered(rest, width, i) {
      var k :| 0 <= k < n && rest[k].raw <= i < rest[k].raw + width;
      assert slots[k] == rest[k];
    }
  }

  /** One more slot: its own bytes are the moved pointer, all others stay. */
  lemma ByteStep(source: Bytes, layout: Layout, base: U64, slots: seq<Slot>, before: Bytes, i: nat)
    requires slots != [] && |before| == |source| && i < |source|
    requires var last := slots[|slots| - 1]; Fits(before, last.raw, layout.format.PointerSize())
    requires ByteIs(source, layout, base, slots[..|slots| - 1], before, i)
    ensures var last := slots[|slots| - 1];
            ByteIs(source, layout, base, slots,
                   Patch(before, last.raw, Moved(source, layout.format, last, base - layout.preferredImageBase)), i)
  {
    hide Moved, MovedValue, Pow256, Covered, LastOver, ReadAt, Slice;
    var last := slots[|slots| - 1];
    LastCovers(slots, PointerWidth(layout), i);
    if last.raw <= i < last.raw + PointerWidth(layout) {
      MovedIs(source, layout, base, last, i - last.raw);
    }
  }

  lemma {:induction false} ApplyIs(source: Bytes, layout: Layout, base: U64, slots: seq<Slot>, i: nat)
    requires SlotsFit(slots, |source|, layout.format.PointerSize()) && i < |source|
    ensures ByteIs(source, layout, base, slots, Apply(source, layout.format, slots, base - layout.preferredImageBase), i)
  {
    hide Moved, ByteIs;
    if slots == [] {
      NoSlotOver(source, layout, base, i);
    } else {
      var rest := slots[..|slots| - 1];
      assert forall k :: 0 <= k < |rest| ==> rest[k] == slots[k];
      ApplyIs(source, layout, base, rest, i);
      ByteStep(source, layout, base, slots, Apply(source, layout.format, rest, base - layout.preferredImageBase), i);
    }
  }

  lemma NoSlotOver(source: Bytes, layout: Layout, base: U64, i: nat)
    requires i < |source|
    ensures ByteIs(source, layout, base, [], source, i)
  {
  }

  // ---- the header ----

  /** The file with its preferred base set, its loader placement cleared and no checksum. */
  ghost predicate PlacedIs(m: Bytes, layout: Layout, base: int, r: Bytes) {
    var nt := layout.ntHeaderOffset;
    var at, w := nt + (if layout.format.Pe32? then 52 else 48), PointerWidth(layout);
    |r| == |m| && Fits(m, nt, 96)
    && ReadAt(r, at, w) == base && ReadAt(r, nt + 88, 4) == 0
    && ReadAt(r, nt + 94, 2) == ReadAt(m, nt + 94, 2) / 0x80 * 0x80 + ReadAt(m, nt + 94, 2) % 0x20
    && forall i :: 0 <= i < |m| && !(at <= i < at + w) && !(nt + 88 <= i < nt + 92) && !(nt + 94 <= i < nt + 96) ==> r[i] == m[i]
  }

  lemma {:induction false} PackUpdate(widths: seq<nat>, fields: seq<nat>, k: nat, v: nat)
    requires |widths| == |fields| && k < |fields|
    ensures Size(widths[..k]) + widths[k] <= Size(widths)
    ensures Pack(widths, fields[k := v]) == Patch(Pack(widths, fields), Size(widths[..k]), LittleEndian(v, widths[k]))
  {
    hide LittleEndian;
    var head, tail := LittleEndian(fields[0], widths[0]), Pack(widths[1..], fields[1..]);
    if k == 0 {
      assert fields[0 := v][1..] == fields[1..] && widths[..0] == [];
      assert Pack(widths, fields[0 := v]) == LittleEndian(v, widths[0]) + tail;
    } else {
      PackUpdate(widths[1..], fields[1..], k - 1, v);
      FirstSize(widths, k);
      assert fields[k := v][1..] == fields[1..][k - 1 := v];
      assert Pack(widths, fields[k := v]) == head + Pack(widths[1..], fields[1..][k - 1 := v]);
    }
  }

  lemma PlacementBits(d: nat)
    ensures ClearPlacement(d) == d / 0x80 * 0x80 + d % 0x20
  {
    hide Has, Clear, ClearPlacement;
    var high, mid, low := d / 64, d / 32 % 2, d % 32;
    BitParts(d);
    ClearedDynamicBase(d, high, 32 * mid + low);
    var once := high - high % 2;
    ClearedHighEntropy(64 * once + 32 * mid + low, 2 * once + mid, low);
    ClearUnfold(d);
    assert d / 0x80 == high / 2;
  }

  lemma PlacedPatches(format: Format, header: Bytes, base: U64)
    requires |header| == OptionalSize(format)
    ensures Size(OptionalWidths(format)) == |header|
    ensures var at := if format.Pe32? then 28 else 24;
            at + format.PointerSize() <= |header| && 72 <= |header|
            && Placed(format, header, base)
               == Patch(Patch(Patch(header, at, LittleEndian(base, format.PointerSize())),
                              70, LittleEndian(ClearPlacement(Unpack(OptionalWidths(format), header)[23]), 2)), 64, LittleEndian(0, 4))
  {
    hide Pack, Unpack, LittleEndian, Size, OptionalWidths, ClearPlacement;
    HeaderSizes(format);
    var w := OptionalWidths(format);
    var f := Unpack(w, header);
    PackOfUnpack(w, header);
    OptionalWidthsAre(format, 9);
    OptionalWidthsAre(format, 21);
    OptionalWidthsAre(format, 23);
    OptionalOffsets(format, 9);
    OptionalOffsets(format, 21);
    OptionalOffsets(format, 23);
    var d := ClearPlacement(f[23]);
    PackUpdate(w, f, 9, base);
    PackUpdate(w, f[9 := base], 23, d);
    PackUpdate(w, f[9 := base][23 := d], 21, 0);
  }

  /** The three fields in the header, and everything else as it was. */
  ghost predicate ThreeFields(header: Bytes, at: nat, base: Bytes, flags: Bytes, sum: Bytes, placed: Bytes) {
    |placed| == |header|
    && forall i :: 0 <= i < |header| ==>
         placed[i] == if at <= i < at + |base| then base[i - at] else if 70 <= i < 70 + |flags| then flags[i - 70]
                      else if 64 <= i < 64 + |sum| then sum[i - 64] else header[i]
  }

  lemma PlacedFields(format: Format, header: Bytes, base: U64)
    requires |header| == OptionalSize(format)
    ensures Size(OptionalWidths(format)) == |header|
    ensures ThreeFields(header, if format.Pe32? then 28 else 24, LittleEndian(base, format.PointerSize()),
                        LittleEndian(ClearPlacement(Unpack(OptionalWidths(format), header)[23]), 2), LittleEndian(0, 4),
                        Placed(format, header, base))
  {
    hide Placed, LittleEndian, OptionalWidths, Unpack, Size, ClearPlacement;
    PlacedPatches(format, header, base);
  }

  lemma PlacedExact(m: Bytes, layout: Layout, base: U64)
    requires Fits(m, layout.ntHeaderOffset, NtSize(layout.format)) && layout.format.AddressFits(base)
    ensures var at, n := layout.ntHeaderOffset + 24, OptionalSize(layout.format);
            PlacedIs(m, layout, base, Patch(m, at, Placed(layout.format, Slice(m, at, n), base)))
  {
    hide Placed, LittleEndian, Pow256, ClearPlacement, Unsigned, OptionalWidths, Unpack, Size, ReadAt, Patch;
    var format, nt: int := layout.format, layout.ntHeaderOffset;
    var at, n := nt + 24, OptionalSize(format);
    var header := Slice(m, at, n);
    PlacedFields(format, header, base);
    OptionalRead(m, nt, format, 23);
    Powers();
    PointerRange(format);
    var d := ClearPlacement(Unpack(OptionalWidths(format), header)[23]);
    PlacementBits(ReadAt(m, nt + 94, 2));
    var r := Patch(m, at, Placed(format, header, base));
    assert forall i :: 0 <= i < n ==> r[at + i] == Placed(format, header, base)[i];
    StoredAt(r, at + (if format.Pe32? then 28 else 24), base, format.PointerSize());
    StoredAt(r, at + 70, d, 2);
    StoredAt(r, at + 64, 0, 4);
  }

  lemma StoredAt(r: Bytes, at: nat, v: nat, width: nat)
    requires Fits(r, at, width) && v < Pow256(width)
    requires forall i :: 0 <= i < width ==> r[at + i] == LittleEndian(v, width)[i]
    ensures ReadAt(r, at, width) == v
  {
    hide LittleEndian, Unsigned;
    assert Slice(r, at, width) == LittleEndian(v, width);
    UnsignedOfLittleEndian(v, width);
  }

  // ---- the outcome ----

  /** What the source demands before it looks at the directory. */
  ghost predicate Movable(source: Bytes, layout: Layout, base: U64) {
    source != [] && base != 0 && base % 0x1_0000 == 0 && layout.preferredImageBase != 0
    && (layout.format.Pe32? ==> base < 0x1_0000_0000 && layout.preferredImageBase < 0x1_0000_0000)
    && layout.ntHeaderOffset + 24 + (if layout.format.Pe32? then 224 else 240) <= |source|
  }

  /** The in-image target that the source pointer at a slot had, if any. */
  ghost predicate EvidenceIs(source: Bytes, layout: Layout, slot: Slot, e: SourceSlot) {
    e.location == slot.rva && Fits(source, slot.raw, PointerWidth(layout))
    && var v := ReadAt(source, slot.raw, PointerWidth(layout));
       e.imageTarget.Some? == (layout.preferredImageBase <= v < layout.preferredImageBase + layout.sizeOfImage)
       && (e.imageTarget.Some? ==> e.imageTarget.value == v - layout.preferredImageBase)
  }

  /** The rebased file: pointers moved slot by slot, header placed, one record per slot. */
  ghost predicate RebasedIs(source: Bytes, layout: Layout, base: U64, slots: seq<Slot>, r: RebasedImage) {
    r.requiredBase == base && |r.sourceSlots| == |slots|
    && (forall k :: 0 <= k < |slots| ==> EvidenceIs(source, layout, slots[k], r.sourceSlots[k]))
    && exists m :: AdjustedIs(source, layout, base, slots, m) && PlacedIs(m, layout, base, r.bytes)
  }

  lemma MovableIs(source: Bytes, layout: Layout, base: U64)
    ensures Admissible(source, layout, base) <==> Movable(source, layout, base)
  {
  }

  lemma EvidenceExact(source: Bytes, layout: Layout, slot: Slot)
    requires slot.raw + layout.format.PointerSize() <= |source|
    ensures EvidenceIs(source, layout, slot, Evidence(source, layout, slot))
  {
    hide ReadAt;
  }

  lemma RelocatedExact(source: Bytes, layout: Layout, slots: seq<Slot>, base: U64)
    requires Admissible(source, layout, base) && SlotsFit(slots, |source|, layout.format.PointerSize())
    ensures exists m :: AdjustedIs(source, layout, base, slots, m) && PlacedIs(m, layout, base, Relocated(source, layout, slots, base))
  {
    hide Placed, PlacedIs, ByteIs, Apply, SlotsFit;
    var m := Apply(source, layout.format, slots, base - layout.preferredImageBase);
    forall i | 0 <= i < |source| ensures ByteIs(source, layout, base, slots, m, i) {
      ApplyIs(source, layout, base, slots, i);
    }
    PlacedExact(m, layout, base);
    assert AdjustedIs(source, layout, base, slots, m);
  }

  /** Rebasing succeeds exactly for a movable file whose directory names slots,
      and what it returns is the moved file, byte by byte. */
  lemma RebasingIsExact(source: Bytes, layout: Layout, base: U64)
    ensures var r := Outcome(source, layout, base); var d := layout.directories[5];
            (r.Ok? <==> Movable(source, layout, base) && d.address != 0 && d.size >= 8
                        && exists slots :: WalkIs(source, layout, 0, slots))
            && (r.Ok? ==> exists slots :: WalkIs(source, layout, 0, slots) && RebasedIs(source, layout, base, slots, r.value))
            && (r == Err(InvalidInput) <==> !Movable(source, layout, base))
            && (r == Err(MissingRelocations) <==> Movable(source, layout, base) && (d.address == 0 || d.size < 8))
  {
    hide Blocks, WalkIs, Relocated, Evidence, AdjustedIs, PlacedIs, Admissible, Movable, EvidenceIs;
    MovableIs(source, layout, base);
    forall slots ensures Blocks(source, layout, 0) == Ok(slots) <==> WalkIs(source, layout, 0, slots) {
      WalkExact(source, layout, slots);
    }
    WalkErrors(source, layout, 0);
    OutcomeParts(source, layout, base);
    assert Blocks(source, layout, 0).Ok? ==> WalkIs(source, layout, 0, Blocks(source, layout, 0).value);
    var r := Outcome(source, layout, base);
    if r.Ok? {
      var slots := Blocks(source, layout, 0).value;
      BlocksFit(source, layout, 0);
      RelocatedExact(source, layout, slots, base);
      forall k | 0 <= k < |slots| ensures EvidenceIs(source, layout, slots[k], r.value.sourceSlots[k]) {
        EvidenceExact(source, layout, slots[k]);
      }
      assert RebasedIs(source, layout, base, slots, r.value);
    }
  }

  lemma OutcomeParts(source: Bytes, layout: Layout, base: U64)
    ensures var r, slots := Outcome(source, layout, base), Blocks(source, layout, 0); var d := layout.directories[5];
            if !Admissible(source, layout, base) then r == Err(InvalidInput)
            else if d.address == 0 || d.size < 8 then r == Err(MissingRelocations)
            else if slots.Err? then r == Err(slots.error)
            else
              r.Ok? && r.value.requiredBase == base && SlotsFit(slots.value, |source|, layout.format.PointerSize())
              && Fits(source, layout.ntHeaderOffset, NtSize(layout.format))
              && r.value.bytes == Relocated(source, layout, slots.value, base) && |r.value.sourceSlots| == |slots.value|
              && forall k :: 0 <= k < |slots.value| ==> r.value.sourceSlots[k] == Evidence(source, layout, slots.value[k])
  {
    hide Blocks, Relocated, Evidence;
    BlocksFit(source, layout, 0);
  }

  lemma {:induction false} EntryErrors(source: Bytes, layout: Layout, page: U32, first: nat, index: nat, count: nat)
    ensures var r := Entries(source, layout, page, first, index, count);
            r.Err? ==> r.error == InvalidRelocationDirectory || r.error == UnsupportedRelocationType
    decreases count - index
  {
    hide ReadAt, RvaToRaw;
    if index < count {
      EntryErrors(source, layout, page, first, index + 1, count);
    }
  }

  lemma {:induction false} WalkErrors(source: Bytes, layout: Layout, consumed: nat)
    ensures var r := Blocks(source, layout, consumed);
            r.Err? ==> r.error == InvalidRelocationDirectory || r.error == UnsupportedRelocationType
    decreases layout.directories[5].size - consumed
  {
    hide Entries, BlockHeader;
    var head := BlockHeader(source, layout, consumed);
    if consumed < layout.directories[5].size && head.Some? {
      AddressIs(layout, consumed);
      EntryErrors(source, layout, head.value.page, consumed + 8, 0, (head.value.size - 8) / 2);
      WalkErrors(source, layout, consumed + head.value.size);
    }
  }
}
