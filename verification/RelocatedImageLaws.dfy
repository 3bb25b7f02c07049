/** The relocation guarantees of the whole pipeline: infer, rebuild, parse, rebase, validate. */
module RelocatedImageLaws {
  import opened Bytes
  import opened PeFormat
  import opened PeImageFixer
  import opened FixerLaws
  import opened RebuiltFileLaws
  import opened RebuiltContentLaws
  import opened RebuildLaws
  import opened EndToEndLaws
  import Sections = SectionLayoutRebuilder
  import Relocations = RelocationReconstructor
  import Inference = RelocationLaws
  import Rebaser = PeFileRebaser
  import Rebasing = RebasingLaws
  import Reparse = RebasedFileLaws
  import Parser = PeParser
  import Imports = ImportTableValidator
  import Validator = RebuiltPeImageValidator

  /** The rebuilt file in the setting of the relocation lemmas. */
  lemma RebuiltSetting(layout: Layout, dump: CapturedImage, request: FixRequest, discovery: Discovery)
    requires Outcome(layout, dump, request, discovery).Ok? && Loadable(layout, dump, request, discovery)
    requires SlotsPlaced(layout, request, PlanOf(layout, dump, request, discovery))
    ensures Prepared(layout, dump, request).Ok?
    ensures var file := Outcome(layout, dump, request, discovery).value.bytes;
            var image, plan := NormalImage(layout, dump, request), PlanOf(layout, dump, request, discovery);
            Parser.Outcome(file).Ok? && Setting(layout, image, request, plan, Parser.Outcome(file).value)
            && file == FileOf(layout, image, request, plan) && ImageBase(request.placement) != 0
  {
    hide Outcome, Finished, StagesOf, Presentable, Loadable, Prepared, Tiles, Parser.Outcome, Emitted, Parser.Parsed, SlotsPlaced;
    OutcomeSteps(layout, dump, request, discovery);
    LoadableIsPresentable(layout, dump, request, discovery);
    RebuildThenParse(layout, dump, request, discovery);
  }

  /** What the normalised image holds at slot `k`. */
  lemma NormalSlot(layout: Layout, dump: CapturedImage, request: FixRequest, k: nat)
    requires Prepared(layout, dump, request).Ok? && request.placement.RelocatedPlacement?
    requires Relocations.Apart(request.placement.plan.slots, layout.format.PointerSize())
    requires k < |request.placement.plan.slots|
    ensures var base, slot, width := ImageBase(request.placement), request.placement.plan.slots[k], layout.format.PointerSize();
            SlotValid(layout, base, slot)
            && Slice(NormalImage(layout, dump, request), slot.location, width) == LittleEndian(base + slot.imageTarget, width)
  {
    hide Normalised, Slice, LittleEndian;
    var slots := request.placement.plan.slots;
    NormalisedAtSlot(layout, dump.bytes, ImageBase(request.placement), slots, |slots|, k);
  }

  lemma BaseFits(layout: Layout, base: U64, slot: Relocations.RelocationSlot)
    requires SlotValid(layout, base, slot)
    ensures layout.format.AddressFits(base)
  {
  }

  lemma PlacedSlots(layout: Layout, request: FixRequest, plan: Sections.SectionPlan)
    requires SlotsPlaced(layout, request, plan)
    ensures request.placement.RelocatedPlacement? && request.placement.plan.slots != []
    ensures Relocations.Apart(request.placement.plan.slots, layout.format.PointerSize())
  {
    hide Relocations.DirectoryBytes, SlotInSection, ClearOfIat;
  }

  /** Rebuild, parse and rebase: every slot holds the new base plus its target. */
  lemma RebuiltThenRebased(layout: Layout, dump: CapturedImage, request: FixRequest, discovery: Discovery, base: U64, k: nat)
    requires Outcome(layout, dump, request, discovery).Ok? && Loadable(layout, dump, request, discovery)
    requires SlotsPlaced(layout, request, PlanOf(layout, dump, request, discovery)) && BaseUsable(layout.format, base)
    requires k < |request.placement.plan.slots|
    ensures var file, slots := Outcome(layout, dump, request, discovery).value.bytes, request.placement.plan.slots;
            Parser.Outcome(file).Ok?
            && var p := Parser.Outcome(file).value;
               var r := Rebaser.Outcome(file, p, base);
               r.Ok? && |r.value.sourceSlots| == |slots|
               && Rebaser.ReadRva(r.value.bytes, p, slots[k].location, layout.format.PointerSize())
                  == Some((base + slots[k].imageTarget) % layout.format.Modulus())
  {
    hide Outcome, Finished, Presentable, Loadable, Prepared, Parser.Outcome, Setting, SlotsPlaced, Rebaser.Outcome, Rebaser.ReadRva,
      Slice, LittleEndian, SlotValid, Relocations.Apart, Rebaser.SlotsFit, Rebaser.Relocated;
    RebuiltSetting(layout, dump, request, discovery);
    var image, plan := NormalImage(layout, dump, request), PlanOf(layout, dump, request, discovery);
    var p := Parser.Outcome(Outcome(layout, dump, request, discovery).value.bytes).value;
    PlacedSlots(layout, request, plan);
    NormalSlot(layout, dump, request, k);
    BaseFits(layout, ImageBase(request.placement), request.placement.plan.slots[k]);
    SettingMeans(layout, image, request, plan, p);
    RebaseSucceeds(layout, image, request, plan, p, base);
    RebasedSlot(layout, image, request, plan, p, base, k);
  }

  /** Rebasing leaves every section byte outside the slots as it was. */
  lemma RebasedKeepsTheRest(layout: Layout, dump: CapturedImage, request: FixRequest, discovery: Discovery, base: U64,
                            j: nat, rva: U32)
    requires Outcome(layout, dump, request, discovery).Ok? && Loadable(layout, dump, request, discovery)
    requires SlotsPlaced(layout, request, PlanOf(layout, dump, request, discovery)) && BaseUsable(layout.format, base)
    requires !InPlanSlot(request.placement.plan.slots, layout.format.PointerSize(), rva)
    requires var parsed := Parser.Outcome(Outcome(layout, dump, request, discovery).value.bytes);
             parsed.Ok? && j < |parsed.value.sections|
             && parsed.value.sections[j].virtualAddress <= rva
                < parsed.value.sections[j].virtualAddress + parsed.value.sections[j].rawSize
    ensures var file := Outcome(layout, dump, request, discovery).value.bytes;
            var p := Parser.Outcome(file).value;
            var r := Rebaser.Outcome(file, p, base);
            r.Ok? && Rebaser.ReadRva(r.value.bytes, p, rva, 1) == Rebaser.ReadRva(file, p, rva, 1) != None
  {
    hide Outcome, Finished, Presentable, Loadable, Prepared, Parser.Outcome, Setting, SlotsPlaced, Rebaser.Outcome, Rebaser.ReadRva,
      Slice, LittleEndian, SlotValid, Relocations.Apart, InPlanSlot;
    RebuiltSetting(layout, dump, request, discovery);
    var image, plan := NormalImage(layout, dump, request), PlanOf(layout, dump, request, discovery);
    PlacedSlots(layout, request, plan);
    NormalSlot(layout, dump, request, 0);
    BaseFits(layout, ImageBase(request.placement), request.placement.plan.slots[0]);
    RebasedElsewhere(layout, image, request, plan, Parser.Outcome(Outcome(layout, dump, request, discovery).value.bytes).value,
                     base, j, rva);
  }

  /** Rebuild, parse and rebase to `b`; then parse and rebase to `c`: the second
      parse sees the same layout placed at `b`, and the result is byte for byte
      the rebuilt file rebased to `c` once. */
  lemma RebuiltRebasingComposes(layout: Layout, dump: CapturedImage, request: FixRequest, discovery: Discovery, b: U64, c: U64)
    requires Outcome(layout, dump, request, discovery).Ok? && Loadable(layout, dump, request, discovery)
    requires SlotsPlaced(layout, request, PlanOf(layout, dump, request, discovery))
    requires BaseUsable(layout.format, b) && BaseUsable(layout.format, c)
    ensures var file := Outcome(layout, dump, request, discovery).value.bytes;
            Parser.Outcome(file).Ok?
            && var p := Parser.Outcome(file).value;
               Rebaser.Outcome(file, p, b).Ok? && Rebaser.Outcome(file, p, c).Ok?
               && var between := Rebaser.Outcome(file, p, b).value.bytes;
                  Parser.Outcome(between) == Ok(Reparse.PlacedLayout(p, b))
                  && var again := Rebaser.Outcome(between, Parser.Outcome(between).value, c);
                     again.Ok? && again.value.bytes == Rebaser.Outcome(file, p, c).value.bytes
  {
    hide Outcome, Finished, Presentable, Loadable, Prepared, Parser.Outcome, Setting, SlotsPlaced, Rebaser.Outcome, SlotValid,
      Slice, LittleEndian, Relocations.Apart, Rebaser.Blocks, Reparse.SlotsAvoidHeaders, Rebasing.Separate, Reparse.PlacedLayout,
      Inference.LocatedAll;
    RebuiltSetting(layout, dump, request, discovery);
    var image, plan := NormalImage(layout, dump, request), PlanOf(layout, dump, request, discovery);
    var file := Outcome(layout, dump, request, discovery).value.bytes;
    var p := Parser.Outcome(file).value;
    PlacedSlots(layout, request, plan);
    NormalSlot(layout, dump, request, 0);
    BaseFits(layout, ImageBase(request.placement), request.placement.plan.slots[0]);
    SettingMeans(layout, image, request, plan, p);
    SameFormat(layout, image, request, plan, p);
    RebaseSucceeds(layout, image, request, plan, p, b);
    WalkFindsThePlan(layout, image, request, plan, p);
    RebuiltIsSeparate(layout, image, request, plan, p);
    Reparse.ReparsedRebasingComposes(file, p, b, c);
  }

  // ---- with an inferred plan ----

  /** Every slot of an inferred plan lies in one rebuilt section, clear of the patched IAT. */
  ghost predicate InferredSlotsPlaced(layout: Layout, request: FixRequest, plan: Sections.SectionPlan)
    requires request.placement.RelocatedPlacement?
  {
    forall k :: 0 <= k < |request.placement.plan.slots| ==>
      SlotInSection(plan.sections, layout.format.PointerSize(), request.placement.plan.slots[k])
      && ClearOfIat(layout.format, request.imports, request.placement.plan.slots[k])
  }

  lemma InferredPlan(snapshots: seq<Relocations.Snapshot>, sourceSlots: seq<Rebaser.SourceSlot>, layout: Layout, preferred: U64,
                     request: FixRequest, plan: Sections.SectionPlan)
    requires request.placement.RelocatedPlacement?
    requires Relocations.Outcome(snapshots, sourceSlots, layout, preferred) == Ok(request.placement.plan)
    requires InferredSlotsPlaced(layout, request, plan)
    ensures SlotsPlaced(layout, request, plan)
    ensures Inference.Accepted(snapshots, layout, preferred)
    ensures forall s :: s in request.placement.plan.slots ==> Relocations.Qualifies(snapshots, sourceSlots, layout, s)
  {
    hide Relocations.Outcome, Relocations.Scan, Relocations.DirectoryBytes, Relocations.Qualifies, SlotInSection, ClearOfIat,
      Inference.Accepted;
    Inference.AcceptedIffNoInputError(snapshots, sourceSlots, layout, preferred);
    Inference.InferenceIsExact(snapshots, sourceSlots, layout, preferred);
    FoundPlan(snapshots, sourceSlots, layout, preferred);
  }

  lemma FoundPlan(snapshots: seq<Relocations.Snapshot>, sourceSlots: seq<Rebaser.SourceSlot>, layout: Layout, preferred: U64)
    requires Inference.Accepted(snapshots, layout, preferred)
    requires Relocations.Found(snapshots, sourceSlots, layout, preferred).Ok?
    ensures var r := Relocations.Found(snapshots, sourceSlots, layout, preferred).value;
            r.directoryBytes == Relocations.DirectoryBytes(layout.format, r.slots)
  {
    hide Relocations.Scan, Relocations.DirectoryBytes, Relocations.NeighboursApart;
  }

  /** Moved to the base at which snapshot `i` was captured, every slot of the
      rebuilt file holds what that snapshot held. */
  lemma CapturedBaseIsReproduced(snapshots: seq<Relocations.Snapshot>, sourceSlots: seq<Rebaser.SourceSlot>, layout: Layout,
                                 preferred: U64, dump: CapturedImage, request: FixRequest, discovery: Discovery, i: nat, k: nat)
    requires request.placement.RelocatedPlacement?
    requires Relocations.Outcome(snapshots, sourceSlots, layout, preferred) == Ok(request.placement.plan)
    requires Outcome(layout, dump, request, discovery).Ok? && Loadable(layout, dump, request, discovery)
    requires InferredSlotsPlaced(layout, request, PlanOf(layout, dump, request, discovery))
    requires i < |snapshots| && snapshots[i].loadedBase % 0x1_0000 == 0 && k < |request.placement.plan.slots|
    ensures var file, slot, width := Outcome(layout, dump, request, discovery).value.bytes, request.placement.plan.slots[k],
                                     layout.format.PointerSize();
            Parser.Outcome(file).Ok? && Fits(snapshots[i].bytes, slot.location, width)
            && var p := Parser.Outcome(file).value;
               var r := Rebaser.Outcome(file, p, snapshots[i].loadedBase);
               r.Ok? && Rebaser.ReadRva(r.value.bytes, p, slot.location, width)
                        == Some(ReadAt(snapshots[i].bytes, slot.location, width))
  {
    hide Outcome, Finished, Presentable, Loadable, Prepared, Parser.Outcome, Setting, SlotsPlaced, Rebaser.Outcome, Rebaser.ReadRva,
      Relocations.Outcome, Relocations.Qualifies, InferredSlotsPlaced, ReadAt, Inference.Accepted;
    var slot, base := request.placement.plan.slots[k], snapshots[i].loadedBase;
    InferredPlan(snapshots, sourceSlots, layout, preferred, request, PlanOf(layout, dump, request, discovery));
    assert slot in request.placement.plan.slots;
    AcceptedBase(snapshots, layout, preferred, i);
    SnapshotValue(snapshots, sourceSlots, layout, slot, i);
    RebuiltThenRebased(layout, dump, request, discovery, base, k);
  }

  lemma AcceptedBase(snapshots: seq<Relocations.Snapshot>, layout: Layout, preferred: U64, i: nat)
    requires Inference.Accepted(snapshots, layout, preferred) && i < |snapshots|
    requires snapshots[i].loadedBase % 0x1_0000 == 0
    ensures BaseUsable(layout.format, snapshots[i].loadedBase) && Relocations.Readable(snapshots, layout)
  {
  }

  lemma SnapshotValue(snapshots: seq<Relocations.Snapshot>, sourceSlots: seq<Rebaser.SourceSlot>, layout: Layout,
                      slot: Relocations.RelocationSlot, i: nat)
    requires Relocations.Readable(snapshots, layout) && i < |snapshots|
    requires Relocations.Qualifies(snapshots, sourceSlots, layout, slot)
    ensures Fits(snapshots[i].bytes, slot.location, layout.format.PointerSize())
    ensures var v := ReadAt(snapshots[i].bytes, slot.location, layout.format.PointerSize());
            v == snapshots[i].loadedBase + slot.imageTarget
            && (snapshots[i].loadedBase + slot.imageTarget) % layout.format.Modulus() == v
  {
    hide Unsigned, Slice, Relocations.IsPackedResidue;
    PointerRange(layout.format);
  }

  // ---- the final validation ----

  ghost function ValidationOf(layout: Layout, file: Bytes, request: FixRequest, validationBase: U64): Validator.Request {
    Validator.Request(file, layout, ImageBase(request.placement), validationBase, request.placement.RelocatedPlacement?,
                      if request.placement.RelocatedPlacement? then Some(|request.placement.plan.slots|) else None)
  }

  /** The final validator accepts a relocated rebuild exactly when its imports
      are accepted and the probe base is usable. */
  lemma RelocatedRebuildIsAccepted(layout: Layout, dump: CapturedImage, request: FixRequest, discovery: Discovery, base: U64)
    requires Outcome(layout, dump, request, discovery).Ok? && Loadable(layout, dump, request, discovery)
    requires SlotsPlaced(layout, request, PlanOf(layout, dump, request, discovery))
    ensures var file := Outcome(layout, dump, request, discovery).value.bytes;
            Parser.Outcome(file).Ok?
            && (Validator.Outcome(ValidationOf(layout, file, request, base)).Ok?
                <==> Imports.Valid(file, Parser.Outcome(file).value) && BaseUsable(layout.format, base))
  {
    hide Outcome, Finished, Presentable, Loadable, Prepared, Parser.Outcome, SlotsPlaced, Rebaser.Relocated, Imports.Valid,
      Slice, LittleEndian, SlotValid, Relocations.Apart, Setting, Rebaser.Outcome, Rebaser.SlotsFit;
    RebuiltSetting(layout, dump, request, discovery);
    var image, plan := NormalImage(layout, dump, request), PlanOf(layout, dump, request, discovery);
    var file := Outcome(layout, dump, request, discovery).value.bytes;
    var p := Parser.Outcome(file).value;
    PlacedSlots(layout, request, plan);
    SettingMeans(layout, image, request, plan, p);
    SameFormat(layout, image, request, plan, p);
    WalkFindsThePlan(layout, image, request, plan, p);
    NormalSlot(layout, dump, request, 0);
    BaseFits(layout, ImageBase(request.placement), request.placement.plan.slots[0]);
    if BaseUsable(layout.format, base) {
      RebaseSucceeds(layout, image, request, plan, p, base);
    } else {
      UnusableBase(file, p, base);
    }
  }

  lemma UnusableBase(file: Bytes, p: Layout, base: U64)
    requires !BaseUsable(p.format, base)
    ensures Rebaser.Outcome(file, p, base).Err?
  {
    hide Rebaser.Blocks;
  }

  /** The final validator accepts a fixed rebuild exactly when its imports are
      accepted and it keeps the source's preferred base. */
  lemma FixedRebuildIsAccepted(layout: Layout, dump: CapturedImage, request: FixRequest, discovery: Discovery, base: U64)
    requires Outcome(layout, dump, request, discovery).Ok? && Loadable(layout, dump, request, discovery)
    requires request.placement.FixedPlacement?
    ensures var file := Outcome(layout, dump, request, discovery).value.bytes;
            Parser.Outcome(file).Ok?
            && (Validator.Outcome(ValidationOf(layout, file, request, base)).Ok?
                <==> Imports.Valid(file, Parser.Outcome(file).value)
                     && ImageBase(request.placement) == layout.preferredImageBase)
  {
    hide Outcome, Finished, Presentable, Loadable, Prepared, Parser.Outcome, Imports.Valid, StagesOf, Has, Parser.Parsed, Tiles;
    RebuildThenParse(layout, dump, request, discovery);
    NoDirectory(layout, dump, request, discovery);
  }

  lemma NoDirectory(layout: Layout, dump: CapturedImage, request: FixRequest, discovery: Discovery)
    requires Outcome(layout, dump, request, discovery).Ok? && Loadable(layout, dump, request, discovery)
    requires request.placement.FixedPlacement?
    ensures Rebuilt(layout, dump, request, discovery).placed.directory == None
  {
    hide Outcome, Finished, Presentable, Loadable, Prepared, StagesOf;
    OutcomeSteps(layout, dump, request, discovery);
    LoadableIsPresentable(layout, dump, request, discovery);
    PlacedFacts(layout, NormalImage(layout, dump, request), request, PlanOf(layout, dump, request, discovery));
  }

  /** Slots beyond the headers leave the captured header as it is, so a dump that
      agrees with the layout still does after normalisation. */
  lemma HeaderSurvivesNormalising(layout: Layout, dump: CapturedImage, request: FixRequest)
    requires Prepared(layout, dump, request).Ok? && HeaderAgrees(layout, dump.bytes)
    requires forall k :: 0 <= k < |SlotsOf(request.placement)| ==>
      layout.sizeOfHeaders <= SlotsOf(request.placement)[k].location
    ensures HeaderAgrees(layout, NormalImage(layout, dump, request))
  {
    hide Normalised, Parser.OptionalFields, ReadAt;
    var image, slots := NormalImage(layout, dump, request), SlotsOf(request.placement);
    forall i | 0 <= i < layout.sizeOfHeaders ensures image[i] == dump.bytes[i] {
      NormalisedElsewhere(layout, dump.bytes, ImageBase(request.placement), slots, |slots|, i);
    }
    SameRangeRead(image, dump.bytes, 0, 2);
    SameRangeRead(image, dump.bytes, 60, 4);
    NtHeaderSame(image, dump.bytes, layout.ntHeaderOffset, layout.format);
  }
}
