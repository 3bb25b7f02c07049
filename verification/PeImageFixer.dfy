/** Writes a captured image back as a PE file: rebuilt sections, a new import
    table, a new relocation directory and consistent headers. */
module PeImageFixer {
  import opened Bytes
  import opened Alignment
  import opened PeFormat
  import opened ImportTypes
  import opened ImportTableBuilder
  import Sections = SectionLayoutRebuilder
  import Relocations = RelocationReconstructor
  import Headers = PeHeaderWriter

  datatype CapturedImage = CapturedImage(loadedAddress: U64, bytes: Bytes, regions: seq<Sections.Region>)

  datatype Placement =
    | FixedPlacement(preferredImageBase: U64)
    | RelocatedPlacement(plan: Relocations.RebuildPlan)

  datatype FixRequest = FixRequest(oep: U32, imports: Option<ImportPlan>, placement: Placement)

  datatype Quality = Partial | Complete

  datatype FixedImage = FixedImage(bytes: Bytes, quality: Quality, warnings: seq<string>)

  /** What the export, code and TLS scanners found in the image; they are not modelled. */
  datatype Discovery = Discovery(exportsReadable: bool, evidence: Sections.CodeEvidence)

  /** The file under construction. */
  datatype Assembly = Assembly(bytes: Bytes, headers: seq<Section>, nextRaw: U32, end: U32)

  // ---- placement and slot values ----

  function ImageBase(placement: Placement): U64 {
    match placement
    case FixedPlacement(base) => base
    case RelocatedPlacement(plan) => plan.preferredImageBase
  }

  predicate PlacementValid(dump: CapturedImage, placement: Placement) {
    match placement
    case FixedPlacement(base) => base != 0 && dump.loadedAddress == base
    case RelocatedPlacement(plan) => plan.preferredImageBase != 0 && plan.slots != [] && plan.directoryBytes != []
  }

  predicate SlotValid(layout: Layout, base: U64, slot: Relocations.RelocationSlot) {
    slot.location < layout.sizeOfImage
    && layout.format.PointerSize() <= layout.sizeOfImage - slot.location
    && slot.imageTarget < layout.sizeOfImage
    && base + slot.imageTarget <= U64_MAX && base + slot.imageTarget < layout.format.Modulus()
  }

  /** The image after pointing the first `n` slots at the output base. */
  function Normalised(layout: Layout, image: Bytes, base: U64, slots: seq<Relocations.RelocationSlot>, n: nat)
    : (r: Option<Bytes>)
    requires n <= |slots| && layout.sizeOfImage <= |image|
    ensures r.Some? ==> |r.value| == |image|
  {
    if n == 0 then Some(image)
    else
      var before := Normalised(layout, image, base, slots, n - 1);
      var slot := slots[n - 1];
      if before.None? || !SlotValid(layout, base, slot) then None
      else Some(Patch(before.value, slot.location, LittleEndian(base + slot.imageTarget, layout.format.PointerSize())))
  }

  function SlotsOf(placement: Placement): seq<Relocations.RelocationSlot> {
    if placement.RelocatedPlacement? then placement.plan.slots else []
  }

  // ---- sections ----

  /** Appends a section's header and its padded content. */
  function AddSection(layout: Layout, a: Assembly, name: SectionName, va: U32, size: U32, content: Bytes, flags: U32)
    : Option<Assembly>
    requires layout.fileAlignment > 0
  {
    var raw := AlignUp(Wrap32(|content|), layout.fileAlignment);
    if raw.None? || raw.value < |content| then None
    else
      Some(Assembly(
        Patch(Resize(a.bytes, a.nextRaw + raw.value), a.nextRaw, content),
        a.headers + [Section(name, va, size, a.nextRaw, raw.value, flags)],
        Wrap32(a.nextRaw + raw.value), a.end))
  }

  function SectionContent(layout: Layout, image: Bytes, s: Sections.RebuiltSection): Bytes
    requires s.virtualAddress <= layout.sizeOfImage <= |image|
  {
    image[s.virtualAddress..s.virtualAddress + Min(s.virtualSize, layout.sizeOfImage - s.virtualAddress)]
  }

  /** One rebuilt section; None where a 32-bit alignment overflows. */
  function Place(layout: Layout, image: Bytes, a: Assembly, s: Sections.RebuiltSection): Option<Assembly>
    requires layout.fileAlignment > 0 && layout.sectionAlignment > 0
    requires s.virtualAddress <= layout.sizeOfImage <= |image|
  {
    var added := AddSection(layout, a, s.name, s.virtualAddress, s.virtualSize, SectionContent(layout, image, s),
                            s.characteristics);
    var end := AlignUp(Wrap32(s.virtualAddress + s.virtualSize), layout.sectionAlignment);
    if added.None? || end.None? then None else Some(added.value.(end := Max(a.end, end.value)))
  }

  ghost predicate InImage(layout: Layout, sections: seq<Sections.RebuiltSection>) {
    forall k :: 0 <= k < |sections| ==> sections[k].virtualAddress <= layout.sizeOfImage
  }

  function PlaceAll(layout: Layout, image: Bytes, start: Assembly, sections: seq<Sections.RebuiltSection>, n: nat)
    : Option<Assembly>
    requires layout.fileAlignment > 0 && layout.sectionAlignment > 0
    requires n <= |sections| && InImage(layout, sections) && layout.sizeOfImage <= |image|
  {
    if n == 0 then Some(start)
    else
      var before := PlaceAll(layout, image, start, sections, n - 1);
      if before.None? then None else Place(layout, image, before.value, sections[n - 1])
  }

  function HeaderSize(layout: Layout, count: nat): Option<U32>
    requires layout.fileAlignment > 0
  {
    var table := Wrap32(layout.ntHeaderOffset + NtSize(layout.format));
    AlignUp(Wrap32(table + count * SECTION_HEADER_SIZE), layout.fileAlignment)
  }

  function StartAssembly(layout: Layout, image: Bytes, headerSize: U32): Assembly
    requires layout.sizeOfHeaders <= |image|
  {
    var n := Min(layout.sizeOfHeaders, headerSize);
    Assembly(image[..n] + Zeros(headerSize - n), [], headerSize, 0)
  }

  /** Headers space and rebuilt sections. */
  function Assembled(layout: Layout, image: Bytes, sections: seq<Sections.RebuiltSection>, count: nat): Option<Assembly>
    requires layout.fileAlignment > 0 && layout.sectionAlignment > 0
    requires InImage(layout, sections) && layout.sizeOfImage <= |image| && layout.sizeOfHeaders <= |image|
  {
    var headerSize := HeaderSize(layout, count);
    if headerSize.None? then None
    else PlaceAll(layout, image, StartAssembly(layout, image, headerSize.value), sections, |sections|)
  }

  // ---- the import section ----

  /** `.idata`, or the first free `.iNNN` name. */
  function ImportName(suffix: nat): SectionName
    requires suffix < 1000
  {
    if suffix == 0 then [0x2e, 0x69, 0x64, 0x61, 0x74, 0x61, 0, 0]
    else [0x2e, 0x69, 0x30 + suffix / 100, 0x30 + suffix / 10 % 10, 0x30 + suffix % 10, 0, 0, 0]
  }

  predicate NameTaken(layout: Layout, name: SectionName) {
    exists k :: 0 <= k < |layout.sections| && layout.sections[k].name == name
  }

  function FreeName(layout: Layout, suffix: nat): Option<SectionName>
    requires suffix <= 1000
    decreases 1000 - suffix
  {
    if suffix == 1000 then None
    else if !NameTaken(layout, ImportName(suffix)) then Some(ImportName(suffix))
    else FreeName(layout, suffix + 1)
  }

  predicate HasImports(imports: Option<ImportPlan>) {
    imports.Some? && imports.value.modules != []
  }

  datatype Imported = Imported(assembly: Assembly, directories: Option<Headers.ImportDirectories>)

  function ImportContext(layout: Layout, a: Assembly, importRva: U32): Context {
    Context(layout.format, layout.sizeOfImage, importRva, a.headers)
  }

  const IMPORT_FLAGS: U32 := CNT_INITIALIZED_DATA + MEM_READ
  const RELOCATION_FLAGS: U32 := CNT_INITIALIZED_DATA + MEM_READ + MEM_DISCARDABLE

  /** Places the finished tables as a section after all others. */
  function PlaceImports(layout: Layout, a: Assembly, plan: ImportPlan, importRva: U32, p: Progress): Result<Imported, FixError>
    requires layout.fileAlignment > 0 && layout.sectionAlignment > 0
  {
    var name := FreeName(layout, 0);
    if name.None? then Err(SectionLayoutInvalid)
    else
      var size := Wrap32(|p.tables.importBytes|);
      var added := AddSection(layout, a.(bytes := p.tables.image), name.value, importRva, size, p.tables.importBytes,
                              IMPORT_FLAGS);
      var end := AlignUp(Wrap32(importRva + size), layout.sectionAlignment);
      if added.None? || end.None? then Err(UnexpectedFailure)
      else
        var descriptors := Directory(importRva, Wrap32((|plan.modules| + 1) * DESCRIPTOR_SIZE));
        var iat := Directory(p.iatStart, Wrap32(p.iatEnd - p.iatStart));
        Ok(Imported(added.value.(end := end.value), Some(Headers.ImportDirectories(descriptors, iat))))
  }

  function WithImports(layout: Layout, a: Assembly, imports: Option<ImportPlan>): Result<Imported, FixError>
    requires layout.fileAlignment > 0 && layout.sectionAlignment > 0
  {
    if !HasImports(imports) then Ok(Imported(a, None))
    else
      var plan := imports.value;
      var importRva := AlignUp(a.end, layout.sectionAlignment);
      if importRva.None? then Err(UnexpectedFailure)
      else
        var p := AddModules(ImportContext(layout, a, importRva.value), plan, a.bytes, |plan.modules|);
        if p.Err? then Err(p.error) else PlaceImports(layout, a, plan, importRva.value, p.value)
  }

  // ---- the relocation section ----

  datatype WithDirectory = WithDirectory(assembly: Assembly, directory: Option<Directory>)

  function RelocName(): SectionName {
    [0x2e, 0x72, 0x65, 0x6c, 0x6f, 0x63, 0, 0]
  }

  function WithRelocations(layout: Layout, a: Assembly, placement: Placement): Option<WithDirectory>
    requires layout.fileAlignment > 0 && layout.sectionAlignment > 0
  {
    if placement.FixedPlacement? then Some(WithDirectory(a, None))
    else
      var bytes := placement.plan.directoryBytes;
      var size := Wrap32(|bytes|);
      var va := AlignUp(a.end, layout.sectionAlignment);
      if va.None? then None
      else
        var added := AddSection(layout, a, RelocName(), va.value, size, bytes, RELOCATION_FLAGS);
        var end := AlignUp(Wrap32(va.value + size), layout.sectionAlignment);
        if added.None? || end.None? then None
        else Some(WithDirectory(added.value.(end := end.value), Some(Directory(va.value, size))))
  }

  // ---- the whole ----

  function SectionInput(dump: CapturedImage, image: Bytes, request: FixRequest, discovery: Discovery): Sections.Input {
    Sections.Input(image, request.oep, request.imports, discovery.evidence, dump.regions)
  }

  function HeaderRequestOf(layout: Layout, request: FixRequest, headerSize: U32, imageSize: U32,
                           imports: Option<Headers.ImportDirectories>, relocations: Option<Directory>,
                           tlsDirectory: Option<Directory>): Headers.HeaderRequest
  {
    var relocated := request.placement.RelocatedPlacement?;
    Headers.HeaderRequest(headerSize, imageSize, request.oep, ImageBase(request.placement), imports, relocations,
                          relocated && request.placement.plan.enableDynamicBase,
                          relocated && request.placement.plan.enableHighEntropyVa, tlsDirectory)
  }

  function QualityOf(imports: Option<ImportPlan>): Quality {
    if imports.Some? then Complete else Partial
  }

  function WarningsOf(imports: Option<ImportPlan>): seq<string> {
    if imports.Some? then [] else ["ImportsNotRebuilt"]
  }

  /** Number of sections of the output. */
  function SectionCount(sections: nat, request: FixRequest): nat {
    sections + (if HasImports(request.imports) then 1 else 0)
    + (if request.placement.RelocatedPlacement? then 1 else 0)
  }

  predicate RequestValid(layout: Layout, dump: CapturedImage, request: FixRequest) {
    request.oep < layout.sizeOfImage && layout.sizeOfImage <= |dump.bytes| && layout.sections != []
  }

  /** The normalised image, when the request and all slots are valid. */
  function Prepared(layout: Layout, dump: CapturedImage, request: FixRequest): (r: Result<Bytes, FixError>)
    ensures r.Ok? ==> |r.value| == |dump.bytes| && layout.sizeOfImage <= |dump.bytes|
  {
    if !RequestValid(layout, dump, request) then Err(EntryPointOutOfRange)
    else if !PlacementValid(dump, request.placement) then Err(ImagePlacementInvalid)
    else
      var slots := SlotsOf(request.placement);
      var image := Normalised(layout, dump.bytes, ImageBase(request.placement), slots, |slots|);
      if image.None? then Err(RelocationSlotInvalid) else Ok(image.value)
  }

  lemma PlannedInImage(layout: Layout, input: Sections.Input)
    requires Sections.Outcome(layout, input).Ok?
    ensures layout.fileAlignment > 0 && layout.sectionAlignment > 0
    ensures InImage(layout, Sections.Outcome(layout, input).value.sections)
  {
    hide Sections.Merge, Sections.MakeName, Sections.RoleCount, Sections.Characteristics;
    var ranges := Sections.GatherRanges(layout, input).value;
    var pages := Sections.AllPages(layout, ranges, layout.sections).value;
    PagesInImage(layout, ranges, layout.sections);
    MergeInImage(layout, pages);
  }

  ghost predicate BeginInImage(layout: Layout, planned: seq<Sections.PlannedRange>) {
    forall k :: 0 <= k < |planned| ==> planned[k].range.begin <= layout.sizeOfImage
  }

  lemma {:induction false} SectionPagesInImage(layout: Layout, ranges: Sections.Ranges, section: Section, cursor: U32)
    requires layout.sectionAlignment > 0
    ensures BeginInImage(layout, Sections.PagesFrom(layout, ranges, section, cursor))
    decreases Sections.SectionEnd(layout, section) - cursor
  {
    hide Sections.Classify;
    if cursor < Sections.SectionEnd(layout, section) {
      SectionPagesInImage(layout, ranges, section,
                          Min(cursor + layout.sectionAlignment as int, Sections.SectionEnd(layout, section)));
    }
  }

  lemma {:induction false} PagesInImage(layout: Layout, ranges: Sections.Ranges, sections: seq<Section>)
    requires layout.sectionAlignment > 0 && Sections.AllPages(layout, ranges, sections).Some?
    ensures BeginInImage(layout, Sections.AllPages(layout, ranges, sections).value)
  {
    hide Sections.PagesFrom;
    if sections != [] {
      var section := sections[|sections| - 1];
      PagesInImage(layout, ranges, sections[..|sections| - 1]);
      SectionPagesInImage(layout, ranges, section, section.virtualAddress);
    }
  }

  lemma {:induction false} MergeInImage(layout: Layout, pages: seq<Sections.PlannedRange>)
    requires BeginInImage(layout, pages)
    ensures BeginInImage(layout, Sections.Merge(pages))
  {
    if pages != [] {
      MergeInImage(layout, pages[..|pages| - 1]);
    }
  }

  /** Everything after the section plan is known. */
  function Finished(layout: Layout, image: Bytes, request: FixRequest, plan: Sections.SectionPlan): Result<FixedImage, FixError>
    requires layout.fileAlignment > 0 && layout.sectionAlignment > 0 && InImage(layout, plan.sections)
    requires layout.sizeOfImage <= |image|
  {
    var count := SectionCount(|plan.sections|, request);
    if count > 96 then Err(SectionLayoutInvalid)
    else if layout.sizeOfHeaders > |image| then Err(UnexpectedFailure)
    else
      var headerSize := HeaderSize(layout, count);
      var base := Assembled(layout, image, plan.sections, count);
      if headerSize.None? || base.None? then Err(UnexpectedFailure)
      else
        var imported := WithImports(layout, base.value, request.imports);
        if imported.Err? then Err(imported.error)
        else
          var placed := WithRelocations(layout, imported.value.assembly, request.placement);
          if placed.None? then Err(UnexpectedFailure)
          else
            var a := placed.value.assembly;
            var headers := HeaderRequestOf(layout, request, headerSize.value, a.end, imported.value.directories,
                                           placed.value.directory, plan.tlsDirectory);
            var written := Headers.Outcome(a.bytes, layout, a.headers, headers);
            if written.None? then Err(HeaderWriteFailed)
            else Ok(FixedImage(written.value, QualityOf(request.imports), WarningsOf(request.imports)))
  }

  function Outcome(layout: Layout, dump: CapturedImage, request: FixRequest, discovery: Discovery): Result<FixedImage, FixError> {
    var image := Prepared(layout, dump, request);
    if image.Err? then Err(image.error)
    else if layout.imageKind.DynamicLibrary? && !discovery.exportsReadable then Err(ExportDirectoryInvalid)
    else
      var input := SectionInput(dump, image.value, request, discovery);
      var plan := Sections.Outcome(layout, input);
      if plan.Err? then Err(SectionLayoutInvalid)
      else
        PlannedInImage(layout, input);
        Finished(layout, image.value, request, plan.value)
  }

  // ---- the program ----

  lemma {:induction false} NormalisedFails(layout: Layout, image: Bytes, base: U64,
                                           slots: seq<Relocations.RelocationSlot>, n: nat, n': nat)
    requires n <= n' <= |slots| && layout.sizeOfImage <= |image|
    requires Normalised(layout, image, base, slots, n).None?
    ensures Normalised(layout, image, base, slots, n').None?
    decreases n' - n
  {
    if n < n' {
      NormalisedFails(layout, image, base, slots, n + 1, n');
    }
  }

  /** The slot loop. */
  method Normalise(layout: Layout, image: Bytes, base: U64, slots: seq<Relocations.RelocationSlot>)
    returns (normalised: Option<Bytes>)
    requires layout.sizeOfImage <= |image|
    ensures normalised == Normalised(layout, image, base, slots, |slots|)
  {
    hide Patch, LittleEndian;
    var bytes := image;
    var pointerSize := layout.format.PointerSize();
    var index := 0;
    while index < |slots|
      invariant 0 <= index <= |slots|
      invariant Normalised(layout, image, base, slots, index) == Some(bytes)
    {
      var slot := slots[index];
      if slot.location >= layout.sizeOfImage || pointerSize > layout.sizeOfImage - slot.location
         || slot.imageTarget >= layout.sizeOfImage || base > U64_MAX - slot.imageTarget {
        NormalisedFails(layout, image, base, slots, index + 1, |slots|);
        return None;
      }
      var value := base as int + slot.imageTarget as int;
      if pointerSize == 4 && value > U32_MAX {
        NormalisedFails(layout, image, base, slots, index + 1, |slots|);
        return None;
      }
      bytes := Patch(bytes, slot.location, LittleEndian(value, pointerSize));
      index := index + 1;
    }
    normalised := Some(bytes);
  }

  lemma {:induction false} PlaceFails(layout: Layout, image: Bytes, start: Assembly,
                                      sections: seq<Sections.RebuiltSection>, n: nat, n': nat)
    requires layout.fileAlignment > 0 && layout.sectionAlignment > 0
    requires n <= n' <= |sections| && InImage(layout, sections) && layout.sizeOfImage <= |image|
    requires PlaceAll(layout, image, start, sections, n).None?
    ensures PlaceAll(layout, image, start, sections, n').None?
    decreases n' - n
  {
    hide Place;
    if n < n' {
      PlaceFails(layout, image, start, sections, n + 1, n');
    }
  }

  /** The section copy loop. */
  method CopySections(layout: Layout, image: Bytes, headerSize: U32, sections: seq<Sections.RebuiltSection>)
    returns (assembly: Option<Assembly>)
    requires layout.fileAlignment > 0 && layout.sectionAlignment > 0
    requires InImage(layout, sections) && layout.sizeOfImage <= |image| && layout.sizeOfHeaders <= |image|
    ensures assembly == PlaceAll(layout, image, StartAssembly(layout, image, headerSize), sections, |sections|)
  {
    hide Place, StartAssembly;
    var a := StartAssembly(layout, image, headerSize);
    ghost var start := a;
    var index := 0;
    while index < |sections|
      invariant 0 <= index <= |sections|
      invariant PlaceAll(layout, image, start, sections, index) == Some(a)
    {
      var placed := Place(layout, image, a, sections[index]);
      if placed.None? {
        PlaceFails(layout, image, start, sections, index + 1, |sections|);
        return None;
      }
      a := placed.value;
      index := index + 1;
    }
    assembly := Some(a);
  }

  /** Searches the first import section name that no source section uses. */
  method FindImportName(layout: Layout) returns (name: Option<SectionName>)
    ensures name == FreeName(layout, 0)
  {
    var suffix := 0;
    while suffix < 1000
      invariant 0 <= suffix <= 1000
      invariant FreeName(layout, 0) == FreeName(layout, suffix)
    {
      var candidate := ImportName(suffix);
      var duplicate := exists k :: 0 <= k < |layout.sections| && layout.sections[k].name == candidate;
      if !duplicate {
        return Some(candidate);
      }
      if suffix == 999 {
        return None;
      }
      suffix := suffix + 1;
    }
    return None;
  }

  /** Adds the import section, if the plan has modules. */
  method AddImports(layout: Layout, a: Assembly, imports: Option<ImportPlan>) returns (r: Result<Imported, FixError>)
    requires layout.fileAlignment > 0 && layout.sectionAlignment > 0
    ensures r == WithImports(layout, a, imports)
  {
    hide AddSection, AddModules;
    if !HasImports(imports) {
      return Ok(Imported(a, None));
    }
    var plan := imports.value;
    var importRva := AlignUp(a.end, layout.sectionAlignment);
    if importRva.None? {
      return Err(UnexpectedFailure);
    }
    var p := BuildImports(ImportContext(layout, a, importRva.value), plan, a.bytes);
    if p.Err? {
      return Err(p.error);
    }
    var tables := p.value.tables;
    var name := FindImportName(layout);
    if name.None? {
      return Err(SectionLayoutInvalid);
    }
    var size := Wrap32(|tables.importBytes|);
    var added := AddSection(layout, a.(bytes := tables.image), name.value, importRva.value, size, tables.importBytes,
                            IMPORT_FLAGS);
    var end := AlignUp(Wrap32(importRva.value as int + size as int), layout.sectionAlignment);
    if added.None? || end.None? {
      return Err(UnexpectedFailure);
    }
    var descriptors := Directory(importRva.value, Wrap32((|plan.modules| + 1) * DESCRIPTOR_SIZE));
    var iat := Directory(p.value.iatStart, Wrap32(p.value.iatEnd as int - p.value.iatStart as int));
    r := Ok(Imported(added.value.(end := end.value), Some(Headers.ImportDirectories(descriptors, iat))));
  }

  /** From the section plan to the file. */
  method Finish(layout: Layout, image: Bytes, request: FixRequest, plan: Sections.SectionPlan)
    returns (result: Result<FixedImage, FixError>)
    requires layout.fileAlignment > 0 && layout.sectionAlignment > 0 && InImage(layout, plan.sections)
    requires layout.sizeOfImage <= |image|
    ensures result == Finished(layout, image, request, plan)
  {
    hide PlaceAll, WithImports, WithRelocations, Headers.Outcome, HeaderRequestOf, HeaderSize, StartAssembly, QualityOf,
      WarningsOf;
    var sectionCount := SectionCount(|plan.sections|, request);
    if sectionCount > 96 {
      return Err(SectionLayoutInvalid);
    }
    if layout.sizeOfHeaders > |image| {
      return Err(UnexpectedFailure);
    }
    var headerSize := HeaderSize(layout, sectionCount);
    if headerSize.None? {
      return Err(UnexpectedFailure);
    }
    var base := CopySections(layout, image, headerSize.value, plan.sections);
    if base.None? {
      return Err(UnexpectedFailure);
    }
    var imported := AddImports(layout, base.value, request.imports);
    if imported.Err? {
      return Err(imported.error);
    }
    var placed := WithRelocations(layout, imported.value.assembly, request.placement);
    if placed.None? {
      return Err(UnexpectedFailure);
    }
    var a := placed.value.assembly;
    var headers := HeaderRequestOf(layout, request, headerSize.value, a.end, imported.value.directories,
                                   placed.value.directory, plan.tlsDirectory);
    var written := Headers.WriteHeaders(a.bytes, layout, a.headers, headers);
    if written.None? {
      return Err(HeaderWriteFailed);
    }
    result := Ok(FixedImage(written.value, QualityOf(request.imports), WarningsOf(request.imports)));
  }

  method Rebuild(layout: Layout, dump: CapturedImage, request: FixRequest, discovery: Discovery)
    returns (result: Result<FixedImage, FixError>)
    ensures result == Outcome(layout, dump, request, discovery)
  {
    hide Normalised, Sections.Outcome, Finished;
    if !RequestValid(layout, dump, request) {
      return Err(EntryPointOutOfRange);
    }
    if !PlacementValid(dump, request.placement) {
      return Err(ImagePlacementInvalid);
    }
    var image := Normalise(layout, dump.bytes, ImageBase(request.placement), SlotsOf(request.placement));
    if image.None? {
      return Err(RelocationSlotInvalid);
    }
    if layout.imageKind.DynamicLibrary? && !discovery.exportsReadable {
      return Err(ExportDirectoryInvalid);
    }
    var input := SectionInput(dump, image.value, request, discovery);
    var plan := Sections.Build(layout, input);
    if plan.Err? {
      return Err(SectionLayoutInvalid);
    }
    PlannedInImage(layout, input);
    result := Finish(layout, image.value, request, plan.value);
  }
}
