/** From inferred relocations to a rebased file: the rebuilt file, moved to any
    base, holds that base plus the inferred target at every slot. */
module EndToEndLaws {
  import opened Bytes
  import opened Alignment
  import opened PeFormat
  import opened ImportTypes
  import opened PeImageFixer
  import opened AssemblyLaws
  import opened FixerLaws
  import opened RebuiltFileLaws
  import opened RebuiltContentLaws
  import opened RebuildLaws
  import Sections = SectionLayoutRebuilder
  import Relocations = RelocationReconstructor
  import Walk = RelocationLaws
  import Rebaser = PeFileRebaser
  import Rebasing = RebasingLaws
  import Reparse = RebasedFileLaws
  import Parser = PeParser

  // ---- the normalised image ----

  ghost predicate InPlanSlot(slots: seq<Relocations.RelocationSlot>, width: nat, i: int) {
    exists k :: 0 <= k < |slots| && slots[k].location <= i < slots[k].location + width
  }

  lemma {:induction false} NormalisedElsewhere(layout: Layout, image: Bytes, base: U64,
                                               slots: seq<Relocations.RelocationSlot>, n: nat, i: nat)
    requires n <= |slots| && layout.sizeOfImage <= |image| && Normalised(layout, image, base, slots, n).Some?
    requires i < |image| && !InPlanSlot(slots, layout.format.PointerSize(), i)
    ensures Normalised(layout, image, base, slots, n).value[i] == image[i]
  {
    if n > 0 {
      NormalisedElsewhere(layout, image, base, slots, n - 1, i);
    }
  }

  lemma {:induction false} NormalisedAtSlot(layout: Layout, image: Bytes, base: U64,
                                            slots: seq<Relocations.RelocationSlot>, n: nat, k: nat)
    requires n <= |slots| && layout.sizeOfImage <= |image| && Normalised(layout, image, base, slots, n).Some?
    requires k < n && Relocations.Apart(slots, layout.format.PointerSize())
    ensures SlotValid(layout, base, slots[k])
    ensures Slice(Normalised(layout, image, base, slots, n).value, slots[k].location, layout.format.PointerSize())
            == LittleEndian(base + slots[k].imageTarget, layout.format.PointerSize())
  {
    hide Slice, LittleEndian, Patch;
    var width, last := layout.format.PointerSize(), slots[n - 1];
    var before := Normalised(layout, image, base, slots, n - 1).value;
    var s := LittleEndian(base + last.imageTarget, width);
    if k == n - 1 {
      PatchRead(before, last.location, s);
    } else {
      NormalisedAtSlot(layout, image, base, slots, n - 1, k);
      PatchElsewhere(before, last.location, s, slots[k].location, width);
    }
  }

  // ---- slots in the file ----

  /** Rebuilt section that holds all bytes of the slot. */
  ghost predicate SlotInSection(sections: seq<Sections.RebuiltSection>, width: nat, slot: Relocations.RelocationSlot) {
    exists j :: 0 <= j < |sections| && RebuiltContentLaws.SectionHolds(sections[j], slot.location, width)
  }

  /** No byte of the slot belongs to a patched IAT slot. */
  ghost predicate ClearOfIat(format: Format, imports: Option<ImportPlan>, slot: Relocations.RelocationSlot) {
    forall a :: slot.location <= a < slot.location + format.PointerSize() ==> !InIat(format, imports, a)
  }

  /** The plan that the rebuild was given, and where its slots lie. */
  ghost predicate SlotsPlaced(layout: Layout, request: FixRequest, plan: Sections.SectionPlan) {
    request.placement.RelocatedPlacement?
    && var r := request.placement.plan;
       r.slots != [] && r.directoryBytes == Relocations.DirectoryBytes(layout.format, r.slots)
       && Relocations.Apart(r.slots, layout.format.PointerSize())
       && forall k :: 0 <= k < |r.slots| ==>
            SlotInSection(plan.sections, layout.format.PointerSize(), r.slots[k])
            && ClearOfIat(layout.format, request.imports, r.slots[k])
  }

  /** The setting shared by the lemmas below: a presentable rebuild of `image` and the layout parsed from its file. */
  ghost predicate Setting(layout: Layout, image: Bytes, request: FixRequest, plan: Sections.SectionPlan, p: Layout) {
    layout.fileAlignment > 0 && layout.sectionAlignment > 0 && InImage(layout, plan.sections)
    && layout.sizeOfImage <= |image| && Finished(layout, image, request, plan).Ok?
    && Presentable(layout, image, request, plan) && Emitted(layout, request, StagesOf(layout, image, request, plan), p)
    && SlotsPlaced(layout, request, plan)
  }

  /** What the file holds at a slot before rebasing. */
  lemma SlotBytes(layout: Layout, image: Bytes, request: FixRequest, plan: Sections.SectionPlan, p: Layout, k: nat) returns (raw: nat)
    requires Setting(layout, image, request, plan, p) && k < |request.placement.plan.slots|
    ensures var s, f := StagesOf(layout, image, request, plan), FileOf(layout, image, request, plan);
            var slot, width := request.placement.plan.slots[k], layout.format.PointerSize();
            Rebaser.RvaToRaw(p, slot.location, width) == Some(raw) && s.headerSize <= raw
            && Fits(f, raw, width) && Fits(image, slot.location, width)
            && Slice(f, raw, width) == Slice(image, slot.location, width)
            && (exists j :: 0 <= j < |plan.sections| && j < |s.base.headers|
                  && RebuiltContentLaws.SectionHolds(plan.sections[j], slot.location, width)
                  && raw == RawOf(s.base.headers[j], slot.location))
  {
    hide Finished, StagesOf, FileOf, Emitted, Presentable, Rebaser.RvaToRaw, InIat, Relocations.Apart, Relocations.DirectoryBytes;
    var s, f := StagesOf(layout, image, request, plan), FileOf(layout, image, request, plan);
    var slot, width := request.placement.plan.slots[k], layout.format.PointerSize();
    assert SlotInSection(plan.sections, width, slot) && ClearOfIat(layout.format, request.imports, slot);
    var j :| 0 <= j < |plan.sections| && RebuiltContentLaws.SectionHolds(plan.sections[j], slot.location, width);
    SectionAddress(layout, image, request, plan, p, j, slot.location, width);
    raw := RawOf(s.base.headers[j], slot.location);
    SlotByte(layout, image, request, plan, j, slot, width - 1);
    forall i | 0 <= i < width ensures Slice(f, raw, width)[i] == Slice(image, slot.location, width)[i] {
      SlotByte(layout, image, request, plan, j, slot, i);
    }
  }

  lemma SlotByte(layout: Layout, image: Bytes, request: FixRequest, plan: Sections.SectionPlan, j: nat,
                 slot: Relocations.RelocationSlot, i: nat)
    requires layout.fileAlignment > 0 && layout.sectionAlignment > 0 && InImage(layout, plan.sections)
    requires layout.sizeOfImage <= |image| && Finished(layout, image, request, plan).Ok?
    requires Presentable(layout, image, request, plan) && j < |plan.sections| && i < layout.format.PointerSize()
    requires RebuiltContentLaws.SectionHolds(plan.sections[j], slot.location, layout.format.PointerSize())
    requires ClearOfIat(layout.format, request.imports, slot)
    ensures var s, f := StagesOf(layout, image, request, plan), FileOf(layout, image, request, plan);
            j < |s.base.headers| && 0 <= RawOf(s.base.headers[j], slot.location)
            && RawOf(s.base.headers[j], slot.location) + i < |f| && slot.location + i < |image|
            && f[RawOf(s.base.headers[j], slot.location) + i] == image[slot.location + i]
  {
    hide Finished, StagesOf, FileOf, Presentable, InIat;
    var a := slot.location as int + i;
    SectionAtMost(layout, image, request, plan, j);
    SectionByte(layout, image, request, plan, j, a);
    SectionByte(layout, image, request, plan, j, slot.location);
  }

  lemma SectionAtMost(layout: Layout, image: Bytes, request: FixRequest, plan: Sections.SectionPlan, j: nat)
    requires layout.fileAlignment > 0 && layout.sectionAlignment > 0 && InImage(layout, plan.sections)
    requires layout.sizeOfImage <= |image| && Finished(layout, image, request, plan).Ok?
    requires Presentable(layout, image, request, plan) && j < |plan.sections|
    ensures plan.sections[j].virtualAddress + plan.sections[j].virtualSize <= layout.sizeOfImage
  {
    hide Finished, StagesOf, HeaderAgrees, Parser.Parsed, TablesOf;
  }

  // ---- the directory in the file ----

  lemma RelocationSection(layout: Layout, image: Bytes, request: FixRequest, plan: Sections.SectionPlan, p: Layout) returns (k: nat)
    requires Setting(layout, image, request, plan, p)
    ensures var f, d := FileOf(layout, image, request, plan), request.placement.plan.directoryBytes;
            |plan.sections| <= k < |p.sections| && Stacked(p.sections)
            && p.directories[BASE_RELOCATION_DIRECTORY] == Directory(p.sections[k].virtualAddress, |d|)
            && 0 < p.sizeOfHeaders <= p.sections[k].virtualAddress
            && p.sections[k].virtualAddress + p.sections[k].rawSize <= LIMIT && |d| <= p.sections[k].rawSize
            && p.sizeOfHeaders <= p.sections[k].rawOffset
            && Fits(f, p.sections[k].rawOffset, |d|) && Slice(f, p.sections[k].rawOffset, |d|) == d
  {
    hide Finished, StagesOf, FileOf, Good, IsPowerOfTwo, TablesOf, PatchedBase, Copied, Has, Stacked, HeaderAgrees, Parser.Parsed,
      Contains, Slice, PlanOrdered, SlotsPlaced;
    PlacedIsRelocated(layout, request, plan);
    var s, f, d := StagesOf(layout, image, request, plan), FileOf(layout, image, request, plan), request.placement.plan.directoryBytes;
    PlacedFacts(layout, image, request, plan);
    var a := s.placed.assembly;
    k := |s.imported.assembly.headers|;
    EntryInside(layout, image, request, plan);
    BaseEndIsPositive(layout, image, request, plan);
    GoodSize(layout, a, s.headerSize);
    HeaderSettled(layout, a, s.headerSize, k);
    AfterHeaders(layout, a, s.headerSize, k);
    FileBody(layout, image, request, plan, 0);
    var h := a.headers[k];
    forall i | h.rawOffset <= i < |a.bytes| ensures i < |f| && f[i] == a.bytes[i] {
      FileBody(layout, image, request, plan, i);
    }
    FilePrefix(f, a.bytes, h, d);
  }

  lemma PlacedIsRelocated(layout: Layout, request: FixRequest, plan: Sections.SectionPlan)
    requires SlotsPlaced(layout, request, plan)
    ensures request.placement.RelocatedPlacement?
  {
  }

  lemma FilePrefix(f: Bytes, b: Bytes, s: Section, content: Bytes)
    requires Contains(b, s, content) && |b| <= |f|
    requires forall i :: s.rawOffset <= i < |b| ==> f[i] == b[i]
    ensures |content| <= s.rawSize && Fits(f, s.rawOffset, |content|) && Slice(f, s.rawOffset, |content|) == content
  {
    forall i | 0 <= i < |content| ensures Slice(f, s.rawOffset, |content|)[i] == content[i] {
      assert f[s.rawOffset + i] == Slice(b, s.rawOffset, s.rawSize)[i];
    }
  }

  lemma AfterHeaders(layout: Layout, a: Assembly, headerSize: nat, k: nat)
    requires Good(layout, a, headerSize) && k < |a.headers| && headerSize <= a.headers[0].virtualAddress
    ensures headerSize <= a.headers[k].virtualAddress && a.end <= LIMIT
  {
    hide IsPowerOfTwo, Settled;
    assert k > 0 ==> a.headers[0].virtualAddress + a.headers[0].rawSize <= a.headers[k].virtualAddress;
  }

  lemma BaseEndIsPositive(layout: Layout, image: Bytes, request: FixRequest, plan: Sections.SectionPlan)
    requires layout.fileAlignment > 0 && layout.sectionAlignment > 0 && InImage(layout, plan.sections)
    requires layout.sizeOfImage <= |image| && Finished(layout, image, request, plan).Ok?
    requires Presentable(layout, image, request, plan)
    ensures 0 < StagesOf(layout, image, request, plan).headerSize <= plan.sections[0].virtualAddress
    ensures layout.ntHeaderOffset + NtSize(layout.format) <= StagesOf(layout, image, request, plan).headerSize
    ensures plan.sections != []
  {
    hide Finished, StagesOf, FileOf, HeaderAgrees, Parser.Parsed, TablesOf;
    FileBody(layout, image, request, plan, 0);
  }

  lemma DirectoryIsContiguous(p: Layout, k: nat)
    requires k < |p.sections| && Stacked(p.sections)
    requires Rebaser.RelocationDirectory(p).address == p.sections[k].virtualAddress
    requires Rebaser.RelocationDirectory(p).size <= p.sections[k].rawSize
    requires p.sizeOfHeaders <= p.sections[k].virtualAddress
    requires p.sections[k].virtualAddress + p.sections[k].rawSize <= LIMIT
    ensures Walk.Contiguous(p, p.sections[k].rawOffset)
  {
    hide Rebaser.RvaToRaw, Stacked, Rebaser.RawIn;
    forall i: nat, n: nat | 0 < n && i + n <= Rebaser.RelocationDirectory(p).size
      ensures Rebaser.RvaToRaw(p, Rebaser.DirectoryRva(p, i), n) == Some(p.sections[k].rawOffset + i)
    {
      AddressFound(p, k, i, n);
    }
  }

  lemma AddressFound(p: Layout, k: nat, i: nat, n: nat)
    requires k < |p.sections| && Stacked(p.sections) && 0 < n
    requires Rebaser.RelocationDirectory(p).address == p.sections[k].virtualAddress
    requires i + n <= p.sections[k].rawSize
    requires p.sizeOfHeaders <= p.sections[k].virtualAddress
    requires p.sections[k].virtualAddress + p.sections[k].rawSize <= LIMIT
    ensures Rebaser.RvaToRaw(p, Rebaser.DirectoryRva(p, i), n) == Some(p.sections[k].rawOffset + i)
  {
    hide Stacked, Rebaser.RawIn;
    RawFound(p.sections, p.sections[k].virtualAddress + i, n, k);
  }

  /** The rebaser's walk over the rebuilt file visits exactly the plan's slots. */
  lemma WalkFindsThePlan(layout: Layout, image: Bytes, request: FixRequest, plan: Sections.SectionPlan, p: Layout)
    requires Setting(layout, image, request, plan, p)
    ensures var f, slots := FileOf(layout, image, request, plan), request.placement.plan.slots;
            Rebaser.Blocks(f, p, 0) == Ok(Walk.LocatedAll(p, slots))
            && Rebaser.RelocationDirectory(p).address != 0 && Rebaser.RelocationDirectory(p).size >= 8
  {
    hide Finished, StagesOf, FileOf, Emitted, Presentable, Rebaser.RvaToRaw, Stacked, Walk.Contiguous, Walk.Mapped, Slice,
      Walk.LocatedAll, Relocations.Apart, SlotInSection, ClearOfIat, Relocations.DirectoryBytes, Rebaser.Blocks, InImage;
    var f, r := FileOf(layout, image, request, plan), request.placement.plan;
    var k := RelocationSection(layout, image, request, plan, p);
    DirectoryIsContiguous(p, k);
    SameFormat(layout, image, request, plan, p);
    forall i | 0 <= i < |r.slots| ensures Walk.Mapped(f, p, r.slots[i]) {
      SlotIsMapped(layout, image, request, plan, p, i);
    }
    DirectoryNotEmpty(p.format, r.slots);
    Walk.WalkVisitsEncodedSlots(f, p, p.sections[k].rawOffset, 0, r.slots);
  }

  lemma SameFormat(layout: Layout, image: Bytes, request: FixRequest, plan: Sections.SectionPlan, p: Layout)
    requires Setting(layout, image, request, plan, p)
    ensures p.format == layout.format && p.ntHeaderOffset == layout.ntHeaderOffset
    ensures p.preferredImageBase == ImageBase(request.placement)
    ensures p.sizeOfHeaders == StagesOf(layout, image, request, plan).headerSize
  {
    hide Finished, StagesOf, Presentable, Has;
  }

  lemma SlotIsMapped(layout: Layout, image: Bytes, request: FixRequest, plan: Sections.SectionPlan, p: Layout, k: nat)
    requires Setting(layout, image, request, plan, p) && k < |request.placement.plan.slots|
    ensures Walk.Mapped(FileOf(layout, image, request, plan), p, request.placement.plan.slots[k])
  {
    hide Finished, StagesOf, FileOf, Emitted, Presentable, Rebaser.RvaToRaw, SlotsPlaced;
    SameFormat(layout, image, request, plan, p);
    var raw := SlotBytes(layout, image, request, plan, p, k);
  }

  lemma DirectoryNotEmpty(format: Format, slots: seq<Relocations.RelocationSlot>)
    requires slots != []
    ensures |Relocations.DirectoryBytes(format, slots)| >= 8
  {
    hide Relocations.BlockBytes, Relocations.FirstRun;
    var n := Relocations.FirstRun(slots);
    Walk.BlockLength(format, Relocations.PageOf(slots[0].location), slots[..n]);
  }

  // ---- slots do not meet ----

  lemma SlotsDisjoint(layout: Layout, image: Bytes, request: FixRequest, plan: Sections.SectionPlan, p: Layout)
    requires Setting(layout, image, request, plan, p)
    ensures var slots := Walk.LocatedAll(p, request.placement.plan.slots);
            Rebasing.EqualOrDisjoint(slots, p.format.PointerSize())
            && forall i :: Rebasing.InSlot(slots, p.format.PointerSize(), i) ==> !Rebasing.InHeader(p, i)
  {
    hide Finished, StagesOf, FileOf, Emitted, Presentable, Rebaser.RvaToRaw, Relocations.DirectoryBytes, SlotInSection, ClearOfIat,
      Setting;
    SettingMeans(layout, image, request, plan, p);
    var r, width := request.placement.plan, layout.format.PointerSize();
    var slots := Walk.LocatedAll(p, r.slots);
    SameFormat(layout, image, request, plan, p);
    BaseEndIsPositive(layout, image, request, plan);
    forall i | 0 <= i < |slots|
      ensures p.sizeOfHeaders <= slots[i].raw
    {
      var raw := SlotBytes(layout, image, request, plan, p, i);
    }
    forall i, j | 0 <= i < |slots| && 0 <= j < |slots|
      ensures slots[i].raw == slots[j].raw || slots[i].raw + width <= slots[j].raw || slots[j].raw + width <= slots[i].raw
    {
      if i < j {
        PairDisjoint(layout, image, request, plan, p, i, j);
      } else if j < i {
        PairDisjoint(layout, image, request, plan, p, j, i);
      }
    }
  }

  lemma SettingMeans(layout: Layout, image: Bytes, request: FixRequest, plan: Sections.SectionPlan, p: Layout)
    requires Setting(layout, image, request, plan, p)
    ensures layout.fileAlignment > 0 && layout.sectionAlignment > 0 && InImage(layout, plan.sections)
    ensures layout.sizeOfImage <= |image| && Finished(layout, image, request, plan).Ok?
    ensures Presentable(layout, image, request, plan) && request.placement.RelocatedPlacement?
  {
    hide Finished, StagesOf, Presentable, Emitted;
  }

  lemma PairDisjoint(layout: Layout, image: Bytes, request: FixRequest, plan: Sections.SectionPlan, p: Layout, i: nat, j: nat)
    requires Setting(layout, image, request, plan, p) && i < j < |request.placement.plan.slots|
    ensures var slots, width := request.placement.plan.slots, layout.format.PointerSize();
            var x, y := Walk.Located(p, slots[i]).raw, Walk.Located(p, slots[j]).raw;
            x + width <= y || y + width <= x
  {
    hide Finished, StagesOf, FileOf, Emitted, Presentable, Rebaser.RvaToRaw, Relocations.DirectoryBytes, Setting, Slice, Good;
    SameFormat(layout, image, request, plan, p);
    SettingMeans(layout, image, request, plan, p);
    SlotsAreApart(layout, image, request, plan, p, i, j);
    var x := SlotBytes(layout, image, request, plan, p, i);
    var y := SlotBytes(layout, image, request, plan, p, j);
    var slots, width := request.placement.plan.slots, layout.format.PointerSize();
    var h := StagesOf(layout, image, request, plan).base.headers;
    var m :| 0 <= m < |plan.sections| && m < |h| && RebuiltContentLaws.SectionHolds(plan.sections[m], slots[i].location, width)
             && x == RawOf(h[m], slots[i].location);
    var n :| 0 <= n < |plan.sections| && n < |h| && RebuiltContentLaws.SectionHolds(plan.sections[n], slots[j].location, width)
             && y == RawOf(h[n], slots[j].location);
    SectionsApart(layout, image, request, plan, m, n);
  }

  lemma SlotsAreApart(layout: Layout, image: Bytes, request: FixRequest, plan: Sections.SectionPlan, p: Layout, i: nat, j: nat)
    requires Setting(layout, image, request, plan, p) && i < j < |request.placement.plan.slots|
    ensures request.placement.plan.slots[i].location + layout.format.PointerSize() <= request.placement.plan.slots[j].location
  {
    hide Finished, StagesOf, FileOf, Emitted, Presentable, Relocations.DirectoryBytes, SlotInSection, ClearOfIat;
  }

  /** Where two rebuilt sections lie relative to each other in the file. */
  lemma SectionsApart(layout: Layout, image: Bytes, request: FixRequest, plan: Sections.SectionPlan, m: nat, n: nat)
    requires layout.fileAlignment > 0 && layout.sectionAlignment > 0 && InImage(layout, plan.sections)
    requires layout.sizeOfImage <= |image| && Finished(layout, image, request, plan).Ok?
    requires Presentable(layout, image, request, plan) && m < |plan.sections| && n < |plan.sections|
    ensures var h := StagesOf(layout, image, request, plan).base.headers;
            |h| == |plan.sections|
            && h[m].virtualAddress == plan.sections[m].virtualAddress && plan.sections[m].virtualSize <= h[m].rawSize
            && h[n].virtualAddress == plan.sections[n].virtualAddress && plan.sections[n].virtualSize <= h[n].rawSize
            && (m < n ==> h[m].rawOffset + h[m].rawSize <= h[n].rawOffset)
            && (n < m ==> h[n].rawOffset + h[n].rawSize <= h[m].rawOffset)
  {
    hide Finished, StagesOf, FileOf, Presentable, Contains, Good;
    BaseSection(layout, image, request, plan, m);
    BaseSection(layout, image, request, plan, n);
    BaseCount(layout, image, request, plan);
    var s := StagesOf(layout, image, request, plan);
    GoodSize(layout, s.base, s.headerSize);
  }

  lemma BaseCount(layout: Layout, image: Bytes, request: FixRequest, plan: Sections.SectionPlan)
    requires layout.fileAlignment > 0 && layout.sectionAlignment > 0 && InImage(layout, plan.sections)
    requires layout.sizeOfImage <= |image| && Finished(layout, image, request, plan).Ok?
    requires Presentable(layout, image, request, plan)
    ensures |StagesOf(layout, image, request, plan).base.headers| == |plan.sections|
  {
    hide Finished, StagesOf, FileOf, Presentable, Contains, Good;
    BaseFacts(layout, image, request, plan);
  }

  // ---- rebasing the rebuilt file ----

  /** A base that the rebaser accepts for the format. */
  ghost predicate BaseUsable(format: Format, base: U64) {
    base != 0 && base % 0x1_0000 == 0 && format.AddressFits(base)
  }

  lemma RebaseSucceeds(layout: Layout, image: Bytes, request: FixRequest, plan: Sections.SectionPlan, p: Layout, base: U64)
    requires Setting(layout, image, request, plan, p) && BaseUsable(layout.format, base)
    requires ImageBase(request.placement) != 0 && layout.format.AddressFits(ImageBase(request.placement))
    ensures var f, slots := FileOf(layout, image, request, plan), Walk.LocatedAll(p, request.placement.plan.slots);
            Rebaser.SlotsFit(slots, |f|, p.format.PointerSize()) && Fits(f, p.ntHeaderOffset, NtSize(p.format))
            && Rebaser.Outcome(f, p, base).Ok?
            && Rebaser.Outcome(f, p, base).value.bytes == Rebaser.Relocated(f, p, slots, base)
            && |Rebaser.Outcome(f, p, base).value.sourceSlots| == |slots|
  {
    hide Finished, StagesOf, FileOf, Emitted, Presentable, Rebaser.RvaToRaw, Setting, Rebaser.Blocks, Rebaser.Relocated,
      Walk.LocatedAll, Rebaser.Evidence, Rebaser.SlotsFit;
    SettingMeans(layout, image, request, plan, p);
    SameFormat(layout, image, request, plan, p);
    WalkFindsThePlan(layout, image, request, plan, p);
    BaseEndIsPositive(layout, image, request, plan);
    HeadersFitFile(layout, image, request, plan);
    Rebaser.BlocksFit(FileOf(layout, image, request, plan), p, 0);
  }

  lemma HeadersFitFile(layout: Layout, image: Bytes, request: FixRequest, plan: Sections.SectionPlan)
    requires layout.fileAlignment > 0 && layout.sectionAlignment > 0 && InImage(layout, plan.sections)
    requires layout.sizeOfImage <= |image| && Finished(layout, image, request, plan).Ok?
    requires Presentable(layout, image, request, plan)
    ensures 0 < StagesOf(layout, image, request, plan).headerSize <= |FileOf(layout, image, request, plan)|
  {
    hide Finished, StagesOf, FileOf, Presentable, Good;
    PlacedFacts(layout, image, request, plan);
    BaseEndIsPositive(layout, image, request, plan);
    FileBody(layout, image, request, plan, 0);
    GoodSize(layout, StagesOf(layout, image, request, plan).placed.assembly, StagesOf(layout, image, request, plan).headerSize);
  }

  /** Rebased to `base`, the rebuilt file holds `base` plus the target at every slot. */
  lemma RebasedSlot(layout: Layout, image: Bytes, request: FixRequest, plan: Sections.SectionPlan, p: Layout, base: U64, k: nat)
    requires Setting(layout, image, request, plan, p) && BaseUsable(layout.format, base)
    requires ImageBase(request.placement) != 0 && layout.format.AddressFits(ImageBase(request.placement))
    requires k < |request.placement.plan.slots|
    requires var slot, width := request.placement.plan.slots[k], layout.format.PointerSize();
             SlotValid(layout, ImageBase(request.placement), slot)
             && Slice(image, slot.location, width) == LittleEndian(ImageBase(request.placement) + slot.imageTarget, width)
    ensures var slot, width := request.placement.plan.slots[k], layout.format.PointerSize();
            var r := Rebaser.Outcome(FileOf(layout, image, request, plan), p, base);
            r.Ok? && Rebaser.ReadRva(r.value.bytes, p, slot.location, width)
                     == Some((base + slot.imageTarget) % layout.format.Modulus())
  {
    hide Finished, StagesOf, FileOf, Emitted, Presentable, Rebaser.RvaToRaw, Setting, Rebaser.Blocks, Rebaser.Relocated,
      LittleEndian, Unsigned, Slice, Rebaser.Outcome, Rebasing.EqualOrDisjoint, Rebasing.InSlot, Rebaser.SlotsFit;
    SettingMeans(layout, image, request, plan, p);
    var slot, width := request.placement.plan.slots[k], layout.format.PointerSize();
    var f, slots := FileOf(layout, image, request, plan), Walk.LocatedAll(p, request.placement.plan.slots);
    SameFormat(layout, image, request, plan, p);
    RebaseSucceeds(layout, image, request, plan, p, base);
    SlotsDisjoint(layout, image, request, plan, p);
    var raw := SlotBytes(layout, image, request, plan, p, k);
    Rebasing.RelocatedAtSlot(f, p, slots, base, k);
    MovedTarget(f, layout.format, slots[k], ImageBase(request.placement), base, slot.imageTarget);
    SliceRead(Rebaser.Relocated(f, p, slots, base), p, slot.location, raw);
  }

  lemma SliceRead(f: Bytes, p: Layout, rva: U32, raw: nat)
    requires Rebaser.RvaToRaw(p, rva, p.format.PointerSize()) == Some(raw) && Fits(f, raw, p.format.PointerSize())
    ensures Rebaser.ReadRva(f, p, rva, p.format.PointerSize()) == Some(Unsigned(Slice(f, raw, p.format.PointerSize())))
  {
    hide Rebaser.RvaToRaw;
  }

  lemma MovedTarget(f: Bytes, format: Format, slot: Rebaser.Slot, preferred: U64, base: U64, target: U32)
    requires slot.raw + format.PointerSize() <= |f| && preferred + target < format.Modulus()
    requires Slice(f, slot.raw, format.PointerSize()) == LittleEndian(preferred + target, format.PointerSize())
    ensures Unsigned(Rebaser.Moved(f, format, slot, base - preferred)) == (base + target) % format.Modulus()
  {
    hide LittleEndian, Unsigned, Slice;
    PointerRange(format);
    UnsignedOfLittleEndian(preferred + target, format.PointerSize());
    assert preferred + target + (base - preferred) == base + target;
    UnsignedOfLittleEndian((base + target) % format.Modulus(), format.PointerSize());
  }

  /** Rebasing changes no byte of any section outside the plan's slots. */
  lemma RebasedElsewhere(layout: Layout, image: Bytes, request: FixRequest, plan: Sections.SectionPlan, p: Layout, base: U64,
                         j: nat, rva: U32)
    requires Setting(layout, image, request, plan, p) && BaseUsable(layout.format, base)
    requires ImageBase(request.placement) != 0 && layout.format.AddressFits(ImageBase(request.placement))
    requires j < |p.sections|
    requires p.sections[j].virtualAddress <= rva < p.sections[j].virtualAddress + p.sections[j].rawSize
    requires !InPlanSlot(request.placement.plan.slots, layout.format.PointerSize(), rva)
    ensures var f := FileOf(layout, image, request, plan);
            var r := Rebaser.Outcome(f, p, base);
            r.Ok? && Rebaser.ReadRva(r.value.bytes, p, rva, 1) == Rebaser.ReadRva(f, p, rva, 1) != None
  {
    hide Finished, StagesOf, FileOf, Emitted, Presentable, Rebaser.RvaToRaw, Setting, Rebaser.Blocks, Rebaser.Relocated, ReadAt,
      Rebaser.Outcome, Rebasing.EqualOrDisjoint, Rebaser.SlotsFit, Walk.LocatedAll, Stacked, InPlanSlot;
    SettingMeans(layout, image, request, plan, p);
    var f, slots := FileOf(layout, image, request, plan), Walk.LocatedAll(p, request.placement.plan.slots);
    SameFormat(layout, image, request, plan, p);
    RebaseSucceeds(layout, image, request, plan, p, base);
    var raw := ByteAddress(layout, image, request, plan, p, j, rva);
    ByteIsNoSlot(layout, image, request, plan, p, j, rva, raw);
    Rebasing.RelocatedElsewhere(f, p, slots, base, raw);
    var r := Rebaser.Relocated(f, p, slots, base);
    SameRangeRead(r, f, raw, 1);
  }

  lemma ByteAddress(layout: Layout, image: Bytes, request: FixRequest, plan: Sections.SectionPlan, p: Layout, j: nat, rva: U32)
    returns (raw: nat)
    requires Setting(layout, image, request, plan, p) && j < |p.sections|
    requires p.sections[j].virtualAddress <= rva < p.sections[j].virtualAddress + p.sections[j].rawSize
    ensures raw == p.sections[j].rawOffset + (rva - p.sections[j].virtualAddress)
    ensures Rebaser.RvaToRaw(p, rva, 1) == Some(raw) && p.sizeOfHeaders <= raw < |FileOf(layout, image, request, plan)|
    ensures layout.ntHeaderOffset + NtSize(layout.format) <= p.sizeOfHeaders
  {
    hide Finished, StagesOf, FileOf, Presentable, Setting, Stacked, Good, Has, Rebaser.RawIn;
    SettingMeans(layout, image, request, plan, p);
    SettingEmitted(layout, image, request, plan, p);
    var s := StagesOf(layout, image, request, plan);
    BaseEndIsPositive(layout, image, request, plan);
    PlacedFacts(layout, image, request, plan);
    EntryInside(layout, image, request, plan);
    GoodSize(layout, s.placed.assembly, s.headerSize);
    HeaderSettled(layout, s.placed.assembly, s.headerSize, j);
    AfterHeaders(layout, s.placed.assembly, s.headerSize, j);
    FileBody(layout, image, request, plan, 0);
    RawFound(p.sections, rva, 1, j);
    raw := p.sections[j].rawOffset + (rva - p.sections[j].virtualAddress);
  }

  lemma SettingEmitted(layout: Layout, image: Bytes, request: FixRequest, plan: Sections.SectionPlan, p: Layout)
    requires Setting(layout, image, request, plan, p)
    ensures Emitted(layout, request, StagesOf(layout, image, request, plan), p)
  {
    hide Finished, StagesOf, Presentable, Emitted, SlotsPlaced;
  }

  lemma ByteIsNoSlot(layout: Layout, image: Bytes, request: FixRequest, plan: Sections.SectionPlan, p: Layout, j: nat, rva: U32,
                     raw: nat)
    requires Setting(layout, image, request, plan, p) && j < |p.sections|
    requires p.sections[j].virtualAddress <= rva < p.sections[j].virtualAddress + p.sections[j].rawSize
    requires raw == p.sections[j].rawOffset + (rva - p.sections[j].virtualAddress)
    requires !InPlanSlot(request.placement.plan.slots, layout.format.PointerSize(), rva)
    ensures !Rebasing.InSlot(Walk.LocatedAll(p, request.placement.plan.slots), layout.format.PointerSize(), raw)
  {
    hide Finished, StagesOf, FileOf, Emitted, Presentable, Setting, Rebaser.RvaToRaw, Good, Stacked, Slice;
    SettingMeans(layout, image, request, plan, p);
    SameFormat(layout, image, request, plan, p);
    var slots, width := Walk.LocatedAll(p, request.placement.plan.slots), layout.format.PointerSize();
    forall k | 0 <= k < |slots| ensures !(slots[k].raw <= raw < slots[k].raw + width) {
      var slot := request.placement.plan.slots[k];
      var x := SlotBytes(layout, image, request, plan, p, k);
      var h := StagesOf(layout, image, request, plan).base.headers;
      var m :| 0 <= m < |plan.sections| && m < |h| && RebuiltContentLaws.SectionHolds(plan.sections[m], slot.location, width)
               && x == RawOf(h[m], slot.location);
      SectionOfByte(layout, image, request, plan, p, j, m);
      assert x <= raw < x + width ==> slot.location <= rva < slot.location + width;
    }
  }

  /** Output section `j` and rebuilt section `m` are the same or apart in the file. */
  lemma SectionOfByte(layout: Layout, image: Bytes, request: FixRequest, plan: Sections.SectionPlan, p: Layout, j: nat, m: nat)
    requires Setting(layout, image, request, plan, p) && j < |p.sections| && m < |plan.sections|
    ensures layout.fileAlignment > 0 && layout.sectionAlignment > 0 && InImage(layout, plan.sections)
    ensures layout.sizeOfImage <= |image| && Finished(layout, image, request, plan).Ok?
    ensures var h := StagesOf(layout, image, request, plan).base.headers;
            m < |h| && h[m].virtualAddress == plan.sections[m].virtualAddress && plan.sections[m].virtualSize <= h[m].rawSize
            && (j == m ==> p.sections[j] == h[m])
            && (j < m ==> p.sections[j].rawOffset + p.sections[j].rawSize <= h[m].rawOffset)
            && (m < j ==> h[m].rawOffset + h[m].rawSize <= p.sections[j].rawOffset)
  {
    hide Finished, StagesOf, FileOf, Presentable, Setting, Rebaser.RvaToRaw, Good, Has;
    SettingMeans(layout, image, request, plan, p);
    SettingEmitted(layout, image, request, plan, p);
    var s := StagesOf(layout, image, request, plan);
    PlacedFacts(layout, image, request, plan);
    EntryInside(layout, image, request, plan);
    GoodSize(layout, s.placed.assembly, s.headerSize);
    SectionsApart(layout, image, request, plan, m, m);
  }

  // ---- rebasing again ----

  /** The section table of the rebuilt file stands right after its optional header. */
  lemma RebuiltTable(layout: Layout, image: Bytes, request: FixRequest, plan: Sections.SectionPlan, p: Layout)
    requires Setting(layout, image, request, plan, p)
    ensures var f := FileOf(layout, image, request, plan);
            Fits(f, p.ntHeaderOffset, 24) && DOS_HEADER_SIZE <= p.sizeOfHeaders
            && Reparse.TableStart(f, p) + |p.sections| * SECTION_HEADER_SIZE <= p.sizeOfHeaders
            && p.ntHeaderOffset + NtSize(p.format) <= p.sizeOfHeaders
  {
    hide Finished, StagesOf, FileOf, Presentable, Setting, Good, Has, Headers.Outcome, Parser.FileFields, HeaderLaws.StoredOptional;
    SettingMeans(layout, image, request, plan, p);
    SettingEmitted(layout, image, request, plan, p);
    BaseEndIsPositive(layout, image, request, plan);
    FileBody(layout, image, request, plan, 0);
    FileIsWritten(layout, image, request, plan);
    NtAfterDos(layout, image, request, plan);
    HeadersFitFile(layout, image, request, plan);
    var s := StagesOf(layout, image, request, plan);
    HeaderLaws.HeadersReadBack(s.placed.assembly.bytes, layout, s.placed.assembly.headers, s.request);
  }

  lemma NtAfterDos(layout: Layout, image: Bytes, request: FixRequest, plan: Sections.SectionPlan)
    requires layout.fileAlignment > 0 && layout.sectionAlignment > 0 && InImage(layout, plan.sections)
    requires layout.sizeOfImage <= |image| && Finished(layout, image, request, plan).Ok?
    requires Presentable(layout, image, request, plan)
    ensures DOS_HEADER_SIZE <= layout.ntHeaderOffset
  {
    hide Finished, StagesOf, FileOf, TablesOf, HeaderAgrees;
  }

  /** Slots of the rebuilt file lie beyond its headers and in other sections than its directory. */
  lemma RebuiltIsSeparate(layout: Layout, image: Bytes, request: FixRequest, plan: Sections.SectionPlan, p: Layout)
    requires Setting(layout, image, request, plan, p)
    ensures var f, slots := FileOf(layout, image, request, plan), Walk.LocatedAll(p, request.placement.plan.slots);
            Fits(f, p.ntHeaderOffset, 24) && Reparse.SlotsAvoidHeaders(f, p, slots) && Rebasing.Separate(f, p, slots)
  {
    hide Finished, StagesOf, FileOf, Emitted, Presentable, Setting, Rebaser.RvaToRaw, Rebasing.EqualOrDisjoint, Stacked, Slice,
      Walk.LocatedAll, Rebasing.InSlot, Reparse.TableStart, Parser.FileFields;
    SettingMeans(layout, image, request, plan, p);
    var f, slots := FileOf(layout, image, request, plan), Walk.LocatedAll(p, request.placement.plan.slots);
    var width := p.format.PointerSize();
    RebuiltTable(layout, image, request, plan, p);
    SlotsDisjoint(layout, image, request, plan, p);
    SlotsBeyondHeaders(layout, image, request, plan, p);
    var d := RelocationSection(layout, image, request, plan, p);
    forall k: nat, n: nat, raw: nat, i | Rebasing.DirectoryRange(p, k, n, raw) && raw <= i < raw + n && Fits(f, raw, n)
      ensures !Rebasing.InSlot(slots, width, i) && !Rebasing.InHeader(p, i)
    {
      AddressFound(p, d, k, n);
      DirectoryHasNoSlot(layout, image, request, plan, p, d, i);
    }
  }

  lemma SlotsBeyondHeaders(layout: Layout, image: Bytes, request: FixRequest, plan: Sections.SectionPlan, p: Layout)
    requires Setting(layout, image, request, plan, p)
    ensures forall i ::
              Rebasing.InSlot(Walk.LocatedAll(p, request.placement.plan.slots), p.format.PointerSize(), i) ==> p.sizeOfHeaders <= i
  {
    hide Finished, StagesOf, FileOf, Emitted, Presentable, Setting, Rebaser.RvaToRaw, Slice;
    SameFormat(layout, image, request, plan, p);
    SettingMeans(layout, image, request, plan, p);
    var slots := Walk.LocatedAll(p, request.placement.plan.slots);
    forall k | 0 <= k < |slots| ensures p.sizeOfHeaders <= slots[k].raw {
      var raw := SlotBytes(layout, image, request, plan, p, k);
    }
  }

  /** The relocation section comes after the rebuilt ones, so it holds no slot. */
  lemma DirectoryHasNoSlot(layout: Layout, image: Bytes, request: FixRequest, plan: Sections.SectionPlan, p: Layout, d: nat, i: int)
    requires Setting(layout, image, request, plan, p) && |plan.sections| <= d < |p.sections|
    requires p.sections[d].rawOffset <= i < p.sections[d].rawOffset + p.sections[d].rawSize
    ensures !Rebasing.InSlot(Walk.LocatedAll(p, request.placement.plan.slots), p.format.PointerSize(), i)
  {
    hide Finished, StagesOf, FileOf, Emitted, Presentable, Setting, Rebaser.RvaToRaw, Slice, Good;
    SameFormat(layout, image, request, plan, p);
    SettingMeans(layout, image, request, plan, p);
    var slots, width := Walk.LocatedAll(p, request.placement.plan.slots), p.format.PointerSize();
    var h := StagesOf(layout, image, request, plan).base.headers;
    forall k | 0 <= k < |slots| ensures !(slots[k].raw <= i < slots[k].raw + width) {
      var slot := request.placement.plan.slots[k];
      var x := SlotBytes(layout, image, request, plan, p, k);
      var m :| 0 <= m < |plan.sections| && m < |h| && RebuiltContentLaws.SectionHolds(plan.sections[m], slot.location, width)
               && x == RawOf(h[m], slot.location);
      SectionOfByte(layout, image, request, plan, p, d, m);
    }
  }
}
