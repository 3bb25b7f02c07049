/** When the final checks accept a rebuilt file, in offsets of its bytes. */
module ImportValidityLaws {
  import opened Bytes
  import opened Structs
  import opened PeFormat
  import opened ImportTableValidator
  import Offsets = PeOffsetLaws
  import Final = RebuiltPeImageValidator
  import Parser = PeParser
  import Rebaser = PeFileRebaser

  // ---- where addresses lie ----

  ghost predicate Spans(s: Section, rva: int, size: int) {
    s.virtualAddress <= rva
    && (rva + size <= s.virtualAddress + s.virtualSize || rva + size <= s.virtualAddress + s.rawSize)
  }

  /** The file offset of a range by the first section that spans it. */
  ghost predicate Lies(sections: seq<Section>, rva: int, size: int, raw: int) {
    exists k :: 0 <= k < |sections| && Spans(sections[k], rva, size)
                && (forall j :: 0 <= j < k ==> !Spans(sections[j], rva, size))
                && raw == sections[k].rawOffset + (rva - sections[k].virtualAddress)
  }

  ghost predicate Spanned(layout: Layout, rva: int, size: int) {
    exists k :: 0 <= k < |layout.sections| && Spans(layout.sections[k], rva, size)
  }

  /** The headers lie at their own addresses. */
  ghost predicate Stored(layout: Layout, rva: int, size: int, raw: int) {
    if rva < layout.sizeOfHeaders then raw == rva else Lies(layout.sections, rva, size, raw)
  }

  /** A NUL-terminated string. */
  ghost predicate Text(image: Bytes, layout: Layout, rva: int) {
    exists raw :: Stored(layout, rva, 1, raw) && 0 <= raw && exists j :: raw <= j < |image| && image[j] == 0
  }

  /** The number of a width that the file holds for an address. */
  ghost predicate Holds(image: Bytes, layout: Layout, rva: int, size: nat, value: nat) {
    exists raw :: Stored(layout, rva, size, raw) && 0 <= raw && raw + size <= |image| && ReadAt(image, raw, size) == value
  }

  // ---- the import table ----

  /** The address of entry i of a list of pointers. */
  ghost function Entry(layout: Layout, rva: int, i: int): int {
    rva + if layout.format == Pe64 then 8 * i else 4 * i
  }

  ghost function Width(layout: Layout): nat {
    if layout.format == Pe64 then 8 else 4
  }

  /** By ordinal where the top bit is set, else a hint and a name in a section. */
  ghost predicate Imports(image: Bytes, layout: Layout, value: nat) {
    (if layout.format == Pe64 then value / 0x8000_0000_0000_0000 % 2 == 1 else value / 0x8000_0000 % 2 == 1)
    || (var rva := value % 0x1_0000_0000;
        Spanned(layout, rva, 3) && Text(image, layout, (rva + 2) % 0x1_0000_0000))
  }

  /** Entry i imports something into address slot i. */
  ghost predicate Bound(image: Bytes, layout: Layout, lookup: int, slots: int, i: int) {
    Entry(layout, lookup, i) < 0x1_0000_0000 && Entry(layout, slots, i) < 0x1_0000_0000
    && Spanned(layout, Entry(layout, slots, i), Width(layout))
    && exists value :: Holds(image, layout, Entry(layout, lookup, i), Width(layout), value) && value > 0
                       && Imports(image, layout, value)
  }

  ghost predicate Ends(image: Bytes, layout: Layout, lookup: int, n: int) {
    Entry(layout, lookup, n) < 0x1_0000_0000 && Holds(image, layout, Entry(layout, lookup, n), Width(layout), 0)
  }

  /** The list from entry `from` on ends before 65536 entries, and each entry before the end is bound. */
  ghost predicate Listed(image: Bytes, layout: Layout, lookup: int, slots: int, from: nat) {
    exists n :: from <= n < 65536 && Ends(image, layout, lookup, n)
      && forall i :: from <= i < n ==> Bound(image, layout, lookup, slots, i)
  }

  // ---- the model's words: sections ----

  lemma SpansIs(s: Section, rva: U32, size: nat)
    ensures Spans(s, rva, size) <==> rva >= s.virtualAddress && size <= s.Extent() && rva - s.virtualAddress <= s.Extent() - size
  {
  }

  lemma {:induction false} RawIs(sections: seq<Section>, rva: U32, size: nat, raw: int)
    ensures Lies(sections, rva, size, raw) <==> raw >= 0 && SectionRaw(sections, rva, size) == Some(raw as nat)
    ensures SectionRaw(sections, rva, size).Some? <==> exists k :: 0 <= k < |sections| && Spans(sections[k], rva, size)
  {
    hide Spans;
    if sections != [] {
      SpansIs(sections[0], rva, size);
      RawIs(sections[1..], rva, size, raw);
      if !Spans(sections[0], rva, size) {
        LiesRest(sections, rva, size, raw);
        if k: nat :| k < |sections| && Spans(sections[k], rva, size) {
          assert sections[1..][k - 1] == sections[k];
        }
        if k: nat :| k < |sections[1..]| && Spans(sections[1..][k], rva, size) {
          assert sections[k + 1] == sections[1..][k];
        }
      } else {
        LiesFirst(sections, rva, size, raw);
      }
    }
  }

  lemma LiesFirst(sections: seq<Section>, rva: U32, size: nat, raw: int)
    requires sections != [] && Spans(sections[0], rva, size)
    ensures Lies(sections, rva, size, raw) <==> raw == sections[0].rawOffset + (rva - sections[0].virtualAddress)
  {
    hide Spans;
  }

  lemma LiesRest(sections: seq<Section>, rva: U32, size: nat, raw: int)
    requires sections != [] && !Spans(sections[0], rva, size)
    ensures Lies(sections, rva, size, raw) <==> Lies(sections[1..], rva, size, raw)
  {
    hide Spans;
    var rest := sections[1..];
    if Lies(sections, rva, size, raw) {
      var k :| 0 <= k < |sections| && Spans(sections[k], rva, size)
               && (forall j :: 0 <= j < k ==> !Spans(sections[j], rva, size))
               && raw == sections[k].rawOffset + (rva - sections[k].virtualAddress);
      assert k > 0 && rest[k - 1] == sections[k];
      forall j | 0 <= j < k - 1 ensures !Spans(rest[j], rva, size) {
        assert rest[j] == sections[j + 1];
      }
    }
    if Lies(rest, rva, size, raw) {
      var k :| 0 <= k < |rest| && Spans(rest[k], rva, size) && (forall j :: 0 <= j < k ==> !Spans(rest[j], rva, size))
               && raw == rest[k].rawOffset + (rva - rest[k].virtualAddress);
      assert sections[k + 1] == rest[k];
      forall j | 0 <= j < k + 1 ensures !Spans(sections[j], rva, size) {
        if j > 0 {
          assert rest[j - 1] == sections[j];
        }
      }
    }
  }

  lemma StoredIs(layout: Layout, rva: U32, size: nat, raw: int)
    ensures Stored(layout, rva, size, raw) <==> raw >= 0 && ToRaw(layout, rva, size) == Some(raw as nat)
  {
    hide Lies, SectionRaw;
    RawIs(layout.sections, rva, size, raw);
  }

  lemma SpannedIs(layout: Layout, rva: U32, size: nat)
    ensures Spanned(layout, rva, size) <==> InSection(layout, rva, size)
  {
    hide Lies, SectionRaw, Spans;
    RawIs(layout.sections, rva, size, 0);
  }

  lemma TextIs(image: Bytes, layout: Layout, rva: U32)
    ensures Text(image, layout, rva) <==> StringAt(image, layout, rva)
  {
    hide Stored, ToRaw;
    var raw := ToRaw(layout, rva, 1);
    if raw.Some? {
      StoredIs(layout, rva, 1, raw.value);
    }
    forall r | Stored(layout, rva, 1, r) ensures r >= 0 && raw == Some(r as nat) {
      StoredIs(layout, rva, 1, r);
    }
  }

  lemma HoldsIs(image: Bytes, layout: Layout, rva: U32, size: nat, value: nat)
    ensures Holds(image, layout, rva, size, value)
            <==> var raw := ToRaw(layout, rva, size);
                 raw.Some? && Fits(image, raw.value, size) && ReadAt(image, raw.value, size) == value
  {
    hide Stored, ToRaw, ReadAt;
    var raw := ToRaw(layout, rva, size);
    if raw.Some? {
      StoredIs(layout, rva, size, raw.value);
    }
    forall r | Stored(layout, rva, size, r) ensures r >= 0 && raw == Some(r as nat) {
      StoredIs(layout, rva, size, r);
    }
  }

  // ---- the model's words: entries ----

  lemma ThunkIs(image: Bytes, layout: Layout, rva: U32, value: nat)
    ensures Holds(image, layout, rva, Width(layout), value)
            <==> ReadThunk(image, layout, rva).Some? && ReadThunk(image, layout, rva).value == value
  {
    hide Holds, ToRaw, ReadAt;
    HoldsIs(image, layout, rva, Width(layout), value);
  }

  lemma ImportsIs(image: Bytes, layout: Layout, value: U64)
    ensures Imports(image, layout, value) <==> ThunkValid(image, layout, value)
  {
    hide Spanned, Text, InSection, StringAt;
    SpannedIs(layout, value % 0x1_0000_0000, 3);
    TextIs(image, layout, (value % 0x1_0000_0000 + 2) % 0x1_0000_0000);
  }

  lemma EntryFits(layout: Layout, rva: U32, i: nat)
    ensures IndexFits(layout.format, rva, i) <==> Entry(layout, rva, i) < 0x1_0000_0000
    ensures IndexFits(layout.format, rva, i) ==> Wrap32(rva + i * layout.format.PointerSize()) == Entry(layout, rva, i)
  {
  }

  lemma EntryPositive(layout: Layout, rva: U32, i: nat)
    ensures Entry(layout, rva, i) >= 0
  {
  }

  lemma {:induction false} ListIs(image: Bytes, layout: Layout, lookup: U32, slots: U32, i: nat)
    ensures Listed(image, layout, lookup, slots, i) <==> ThunksValid(image, layout, lookup, slots, i)
    decreases 65536 - i
  {
    hide Ends, Bound, ReadThunk, ThunkValid, InSection, IndexFits;
    if i < 65536 {
      ListStep(image, layout, lookup, slots, i);
      ListIs(image, layout, lookup, slots, i + 1);
      EntryFits(layout, lookup, i);
      EntryFits(layout, slots, i);
      if IndexFits(layout.format, lookup, i) {
        BoundIs(image, layout, lookup, slots, i);
      } else {
        NoEntry(image, layout, lookup, slots, i);
      }
    }
  }

  lemma NoEntry(image: Bytes, layout: Layout, lookup: U32, slots: U32, i: nat)
    requires Entry(layout, lookup, i) >= 0x1_0000_0000
    ensures !Ends(image, layout, lookup, i) && !Bound(image, layout, lookup, slots, i)
  {
  }

  /** One entry decides, or is bound and the rest decides. */
  lemma ListStep(image: Bytes, layout: Layout, lookup: U32, slots: U32, i: nat)
    requires i < 65536
    ensures Listed(image, layout, lookup, slots, i)
            <==> Ends(image, layout, lookup, i)
                 || (Bound(image, layout, lookup, slots, i) && Listed(image, layout, lookup, slots, i + 1))
  {
    hide Ends, Bound;
    if Listed(image, layout, lookup, slots, i + 1) && Bound(image, layout, lookup, slots, i) {
      var n :| i + 1 <= n < 65536 && Ends(image, layout, lookup, n)
               && forall j :: i + 1 <= j < n ==> Bound(image, layout, lookup, slots, j);
      assert forall j :: i <= j < n ==> Bound(image, layout, lookup, slots, j);
    }
  }

  lemma BoundIs(image: Bytes, layout: Layout, lookup: U32, slots: U32, i: nat)
    requires Entry(layout, lookup, i) < 0x1_0000_0000
    ensures var thunk := ReadThunk(image, layout, Entry(layout, lookup, i));
            (Ends(image, layout, lookup, i) <==> thunk == Some(0))
            && (Bound(image, layout, lookup, slots, i)
                <==> thunk.Some? && thunk.value != 0 && ThunkValid(image, layout, thunk.value)
                     && IndexFits(layout.format, slots, i)
                     && InSection(layout, Wrap32(slots + i * layout.format.PointerSize()), layout.format.PointerSize()))
  {
    hide Holds, ReadThunk, Imports, ThunkValid, Spanned, InSection, IndexFits, Entry;
    EntryPositive(layout, lookup, i);
    var rva: U32 := Entry(layout, lookup, i);
    var thunk := ReadThunk(image, layout, rva);
    EntryFits(layout, slots, i);
    ThunkIs(image, layout, rva, 0);
    if thunk.Some? {
      ThunkIs(image, layout, rva, thunk.value);
      ImportsIs(image, layout, thunk.value);
    }
    forall value: nat | Holds(image, layout, rva, Width(layout), value) ensures thunk.Some? && thunk.value == value {
      ThunkIs(image, layout, rva, value);
    }
    if IndexFits(layout.format, slots, i) {
      SpannedIs(layout, Entry(layout, slots, i), Width(layout));
    }
  }

  // ---- descriptors ----

  /** Descriptor n of the directory: its lookup list, name and address list. */
  ghost predicate Describes(image: Bytes, layout: Layout, n: nat, lookup: nat, name: nat, slots: nat) {
    exists raw ::
      Stored(layout, (layout.directories[1].address + 20 * n) % 0x1_0000_0000, 20, raw) && 0 <= raw && raw + 20 <= |image|
      && ReadAt(image, raw, 4) == lookup && ReadAt(image, raw + 12, 4) == name && ReadAt(image, raw + 16, 4) == slots
  }

  /** A name in a section and bound lists; the address list serves where there is no lookup list. */
  ghost predicate Loadable(image: Bytes, layout: Layout, lookup: nat, name: nat, slots: nat) {
    var list := if lookup == 0 then slots else lookup;
    name != 0 && slots != 0 && Spanned(layout, name, 1) && Text(image, layout, name)
    && Spanned(layout, slots, Width(layout)) && Spanned(layout, list, Width(layout)) && Listed(image, layout, list, slots, 0)
  }

  /** Descriptor n imports a module. */
  ghost predicate Module(image: Bytes, layout: Layout, n: nat) {
    20 * n + 20 <= layout.directories[1].size
    && exists lookup, name, slots ::
         Describes(image, layout, n, lookup, name, slots) && Loadable(image, layout, lookup, name, slots)
  }

  ghost predicate Last(image: Bytes, layout: Layout, n: nat) {
    20 * n + 20 <= layout.directories[1].size && Describes(image, layout, n, 0, 0, 0)
  }

  /** From descriptor `from` on: modules, and then an empty descriptor inside the directory. */
  ghost predicate Table(image: Bytes, layout: Layout, from: nat) {
    exists n :: from <= n && Last(image, layout, n) && forall i :: from <= i < n ==> Module(image, layout, i)
  }

  lemma TableStep(image: Bytes, layout: Layout, n: nat)
    ensures Table(image, layout, n) <==> Last(image, layout, n) || (Module(image, layout, n) && Table(image, layout, n + 1))
  {
    hide Last, Module;
    if Table(image, layout, n + 1) && Module(image, layout, n) {
      var m :| n + 1 <= m && Last(image, layout, m) && forall i :: n + 1 <= i < m ==> Module(image, layout, i);
      assert forall i :: n <= i < m ==> Module(image, layout, i);
    }
  }

  lemma TableEnds(image: Bytes, layout: Layout, n: nat)
    requires 20 * n + 20 > layout.directories[1].size
    ensures !Last(image, layout, n) && !Module(image, layout, n)
  {
  }

  lemma DescriptorFields(image: Bytes, raw: nat)
    requires Fits(image, raw, 20)
    ensures |Slice(image, raw, 20)| == Size(DESCRIPTOR_WIDTHS)
    ensures var f := Unpack(DESCRIPTOR_WIDTHS, Slice(image, raw, 20));
            f[0] == ReadAt(image, raw, 4) && f[3] == ReadAt(image, raw + 12, 4) && f[4] == ReadAt(image, raw + 16, 4)
  {
    hide Unpack, ReadAt, Slice;
    DescriptorSize();
    forall k: nat | k < 5 ensures Size(DESCRIPTOR_WIDTHS[..k]) == 4 * k {
      FourEach(k);
    }
    Offsets.FieldRead(image, raw, DESCRIPTOR_WIDTHS, 0, 0);
    Offsets.FieldRead(image, raw, DESCRIPTOR_WIDTHS, 12, 3);
    Offsets.FieldRead(image, raw, DESCRIPTOR_WIDTHS, 16, 4);
  }

  lemma FourEach(k: nat)
    requires k < 5
    ensures Size(DESCRIPTOR_WIDTHS[..k]) == 4 * k
  {
    assert DESCRIPTOR_WIDTHS[..k] == seq(k, _ => 4);
    SizeUniform(k, 4);
  }

  lemma DescribesIs(image: Bytes, layout: Layout, n: nat, lookup: nat, name: nat, slots: nat)
    ensures Describes(image, layout, n, lookup, name, slots)
            <==> var d := ReadDescriptor(image, layout, Wrap32(layout.directories[1].address + n * DESCRIPTOR_SIZE));
                 d.Some? && d.value.originalFirstThunk == lookup && d.value.name == name && d.value.firstThunk == slots
  {
    hide Stored, ToRaw, Unpack, ReadAt, Size;
    DescriptorSize();
    var rva: U32 := (layout.directories[1].address + 20 * n) % 0x1_0000_0000;
    var raw := ToRaw(layout, rva, 20);
    if raw.Some? {
      StoredIs(layout, rva, 20, raw.value);
      if Fits(image, raw.value, 20) {
        DescriptorFields(image, raw.value);
      }
    }
    forall r | Stored(layout, rva, 20, r) ensures r >= 0 && raw == Some(r as nat) {
      StoredIs(layout, rva, 20, r);
    }
  }

  lemma LoadableIs(image: Bytes, layout: Layout, d: Descriptor)
    ensures Loadable(image, layout, d.originalFirstThunk, d.name, d.firstThunk) <==> DescriptorValid(image, layout, d)
  {
    hide Spanned, Text, Listed, InSection, StringAt, ThunksValid;
    var list := LookupOf(d);
    SpannedIs(layout, d.name, 1);
    SpannedIs(layout, d.firstThunk, Width(layout));
    SpannedIs(layout, list, Width(layout));
    TextIs(image, layout, d.name);
    ListIs(image, layout, list, d.firstThunk, 0);
  }

  lemma ModuleIs(image: Bytes, layout: Layout, n: nat)
    requires 20 * n + 20 <= layout.directories[1].size
    ensures var d := ReadDescriptor(image, layout, Wrap32(layout.directories[1].address + n * DESCRIPTOR_SIZE));
            (Last(image, layout, n) <==> d == Some(Descriptor(0, 0, 0)))
            && (Module(image, layout, n) <==> d.Some? && DescriptorValid(image, layout, d.value))
  {
    hide Describes, Loadable, DescriptorValid, ReadDescriptor;
    var d := ReadDescriptor(image, layout, Wrap32(layout.directories[1].address + n * DESCRIPTOR_SIZE));
    DescribesIs(image, layout, n, 0, 0, 0);
    if d.Some? {
      DescribesIs(image, layout, n, d.value.originalFirstThunk, d.value.name, d.value.firstThunk);
      LoadableIs(image, layout, d.value);
    }
    forall lookup: nat, name: nat, slots: nat | Describes(image, layout, n, lookup, name, slots)
      ensures d.Some? && d.value.originalFirstThunk == lookup && d.value.name == name && d.value.firstThunk == slots
    {
      DescribesIs(image, layout, n, lookup, name, slots);
    }
  }

  lemma {:induction false} TableIs(image: Bytes, layout: Layout, n: nat)
    requires 20 * n <= layout.directories[1].size
    ensures Table(image, layout, n)
            <==> DescriptorsValid(image, layout, layout.directories[IMPORT_DIRECTORY], n * DESCRIPTOR_SIZE)
    decreases layout.directories[1].size - 20 * n
  {
    hide Table, Last, Module, ReadDescriptor, DescriptorValid;
    TableStep(image, layout, n);
    if 20 * n + 20 <= layout.directories[1].size {
      ModuleIs(image, layout, n);
      EmptyLoadsNothing(image, layout);
      TableIs(image, layout, n + 1);
    } else {
      TableEnds(image, layout, n);
    }
  }

  lemma EmptyLoadsNothing(image: Bytes, layout: Layout)
    ensures !DescriptorValid(image, layout, Descriptor(0, 0, 0))
  {
  }

  /** No delayed and no bound imports; without an import table no address directory;
      otherwise the directory lies in a section and holds modules up to an empty descriptor,
      and an address directory lies in a section. */
  ghost predicate Walkable(image: Bytes, layout: Layout) {
    var d := layout.directories;
    d[13].address == d[13].size == 0 && d[11].address == d[11].size == 0
    && if d[1].address == 0 || d[1].size == 0 then d[12].address == d[12].size == 0
       else
         d[1].size >= 20 && Spanned(layout, d[1].address, d[1].size) && Table(image, layout, 0)
         && (d[12].address == d[12].size == 0 || Spanned(layout, d[12].address, d[12].size))
  }

  /** The import check accepts exactly the files whose import table can be walked. */
  lemma ValidIsExact(image: Bytes, layout: Layout)
    ensures Valid(image, layout) <==> Walkable(image, layout)
  {
    hide Table, Spanned, InSection, DescriptorsValid;
    TableIs(image, layout, 0);
    SpannedIs(layout, layout.directories[1].address, layout.directories[1].size);
    SpannedIs(layout, layout.directories[12].address, layout.directories[12].size);
  }

  // ---- the final verdict ----

  /** Fixed at the source's base: bit 0 of the file characteristics is set, bits 5 and 6
      of the DLL characteristics are clear, and there is no relocation directory. */
  ghost predicate FixedAs(p: Layout, source: Layout) {
    p.preferredImageBase == source.preferredImageBase && p.directories[5].address == p.directories[5].size == 0
    && p.characteristics % 2 == 1 && p.dllCharacteristics / 32 % 2 == 0 && p.dllCharacteristics / 64 % 2 == 0
  }

  /** Linked at the output base, and a probe rebasing moves the expected number of slots. */
  ghost predicate Movable(request: Final.Request, p: Layout) {
    p.preferredImageBase == request.outputBase && p.directories[5].address != 0
    && request.expectedRelocationCount.Some?
    && var probe := Rebaser.Outcome(request.image, p, request.relocationValidationBase);
       probe.Ok? && |probe.value.sourceSlots| == request.expectedRelocationCount.value
  }

  /** A rebuilt file is accepted exactly when it parses in the source's format, its import
      table can be walked, and it is fixed or movable as intended; the error names the first
      demand that fails. */
  lemma VerdictIsExact(request: Final.Request)
    ensures var parsed, verdict := Parser.Outcome(request.image), Final.Outcome(request);
            var right := parsed.Ok? && parsed.value.format == request.sourceLayout.format;
            (verdict == Err(Final.InvalidImage) <==> !right)
            && (verdict == Err(Final.InvalidImports) <==> right && !Walkable(request.image, parsed.value))
            && (verdict == Err(Final.InvalidFixedPlacement)
                <==> right && Walkable(request.image, parsed.value) && !request.expectRebuiltRelocations
                     && !FixedAs(parsed.value, request.sourceLayout))
            && (verdict == Err(Final.InvalidRelocations)
                <==> right && Walkable(request.image, parsed.value) && request.expectRebuiltRelocations
                     && !Movable(request, parsed.value))
            && (verdict.Ok? ==> verdict.value == parsed.value)
  {
    hide Parser.Outcome, Rebaser.Outcome, Valid, Walkable;
    if Parser.Outcome(request.image).Ok? {
      ValidIsExact(request.image, Parser.Outcome(request.image).value);
    }
  }
}
