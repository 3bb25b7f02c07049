/** The section headers of a rebuilt file: one for each planned section, then the
    import table, then the relocations, each with its name, place and flags. */
module RebuiltSectionLaws {
  import opened Bytes
  import opened Alignment
  import opened PeFormat
  import opened ImportTypes
  import opened PeImageFixer
  import opened AssemblyLaws
  import opened FixerLaws
  import Sections = SectionLayoutRebuilder
  import Builder = ImportTableBuilder
  import Headers = PeHeaderWriter
  import Parser = PeParser

  /** `value` is `least` rounded up to the alignment. */
  ghost predicate RoundedUp(value: int, least: int, alignment: int)
    requires alignment > 0
  {
    value % alignment == 0 && least <= value < least + alignment
  }

  ghost function EndOf(s: Section): nat {
    s.virtualAddress + s.virtualSize
  }

  /** All headers have padded contents; the image ends at the last section's rounded end. */
  ghost predicate Padded(layout: Layout, a: Assembly)
    requires layout.fileAlignment > 0 && layout.sectionAlignment > 0
  {
    (forall k :: 0 <= k < |a.headers| ==> RoundedUp(a.headers[k].rawSize, a.headers[k].virtualSize, layout.fileAlignment))
    && (a.headers != [] ==> RoundedUp(a.end, EndOf(a.headers[|a.headers| - 1]), layout.sectionAlignment))
  }

  lemma AlignedUp(v: U32, alignment: U32)
    requires alignment > 0 && AlignUp(v, alignment).Some?
    ensures RoundedUp(AlignUp(v, alignment).value, v, alignment)
  {
    AlignUpIsLeast(v, alignment);
  }

  /** Appending a section with its content, at a new end. */
  lemma AddPadded(layout: Layout, a: Assembly, name: SectionName, va: U32, content: Bytes, flags: U32, end: U32)
    requires layout.fileAlignment > 0 && layout.sectionAlignment > 0 && Padded(layout, a)
    requires |content| <= LIMIT && va + |content| <= U32_MAX
    requires AddSection(layout, a, name, va, |content|, content, flags).Some?
    requires AlignUp(Wrap32(va + |content|), layout.sectionAlignment) == Some(end)
    ensures var b := AddSection(layout, a, name, va, |content|, content, flags).value.(end := end);
            Padded(layout, b) && b.headers != [] && b.headers[..|b.headers| - 1] == a.headers
            && var s := b.headers[|b.headers| - 1];
               s.name == name && s.virtualAddress == va && s.virtualSize == |content| && s.characteristics == flags
  {
    hide AlignUp, Patch, Resize, Wrap32, RoundedUp;
    WrapSmall(va + |content|);
    var raw := AddedShape(layout, a, name, va, content, flags);
    AlignedUp(|content|, layout.fileAlignment);
    AlignedUp(va + |content|, layout.sectionAlignment);
  }

  lemma {:induction false} PlacedPadded(layout: Layout, image: Bytes, start: Assembly, sections: seq<Sections.RebuiltSection>, n: nat)
    requires layout.fileAlignment > 0 && n <= |sections| && layout.sizeOfImage <= |image| && layout.sizeOfImage <= LIMIT
    requires PlanOrdered(layout, sections) && InImage(layout, sections) && start.headers == [] && start.end == 0
    requires PlaceAll(layout, image, start, sections, n).Some?
    ensures var a := PlaceAll(layout, image, start, sections, n).value;
            Padded(layout, a) && |a.headers| == n && (n < |sections| ==> a.end <= sections[n].virtualAddress)
            && forall k :: 0 <= k < n ==>
                 a.headers[k].name == sections[k].name && a.headers[k].virtualAddress == sections[k].virtualAddress
                 && a.headers[k].virtualSize == sections[k].virtualSize
                 && a.headers[k].characteristics == sections[k].characteristics
  {
    hide AddSection, AlignUp, Padded;
    if n > 0 {
      PlacedPadded(layout, image, start, sections, n - 1);
      PlacePadded(layout, image, PlaceAll(layout, image, start, sections, n - 1).value, sections, n - 1);
    } else {
      StartPadded(layout, start);
    }
  }

  lemma StartPadded(layout: Layout, start: Assembly)
    requires layout.fileAlignment > 0 && layout.sectionAlignment > 0 && start.headers == []
    ensures Padded(layout, start)
  {
  }

  lemma PlacePadded(layout: Layout, image: Bytes, a: Assembly, sections: seq<Sections.RebuiltSection>, n: nat)
    requires layout.fileAlignment > 0 && n < |sections| && layout.sizeOfImage <= |image| && layout.sizeOfImage <= LIMIT
    requires PlanOrdered(layout, sections) && InImage(layout, sections)
    requires Padded(layout, a) && a.end <= sections[n].virtualAddress
    requires Place(layout, image, a, sections[n]).Some?
    ensures var b, s := Place(layout, image, a, sections[n]).value, sections[n];
            Padded(layout, b) && b.headers != [] && b.headers[..|b.headers| - 1] == a.headers
            && (n + 1 < |sections| ==> b.end <= sections[n + 1].virtualAddress)
            && var h := b.headers[|b.headers| - 1];
               h.name == s.name && h.virtualAddress == s.virtualAddress && h.virtualSize == s.virtualSize
               && h.characteristics == s.characteristics
  {
    hide AddSection, AlignUp, Padded;
    var s := sections[n];
    var content := SectionContent(layout, image, s);
    assert |content| == s.virtualSize;
    var end := AlignUp(Wrap32(s.virtualAddress + s.virtualSize), layout.sectionAlignment).value;
    AlignUpIsLeast(s.virtualAddress + s.virtualSize, layout.sectionAlignment);
    assert Place(layout, image, a, s).value.end == end;
    AddPadded(layout, a, s.name, s.virtualAddress, content, s.characteristics, end);
  }

  // ---- the import section ----

  /** `.idata`, or `.i` and three digits. */
  function TableName(n: nat): Bytes
    requires n < 1000
  {
    if n == 0 then ['.' as int, 'i' as int, 'd' as int, 'a' as int, 't' as int, 'a' as int, 0, 0]
    else ['.' as int, 'i' as int, '0' as int + n / 100, '0' as int + n / 10 % 10, '0' as int + n % 10, 0, 0, 0]
  }

  ghost predicate Taken(layout: Layout, name: Bytes) {
    exists k :: 0 <= k < |layout.sections| && layout.sections[k].name == name
  }

  /** The first such name that no source section has. */
  ghost predicate FirstFree(layout: Layout, name: SectionName) {
    exists n :: 0 <= n < 1000 && name == TableName(n) && !Taken(layout, TableName(n))
      && forall j :: 0 <= j < n ==> Taken(layout, TableName(j))
  }

  lemma {:induction false} FreeNameIs(layout: Layout, from: nat)
    requires from <= 1000 && forall j :: 0 <= j < from ==> Taken(layout, TableName(j))
    ensures FreeName(layout, from).Some? ==> FirstFree(layout, FreeName(layout, from).value)
    ensures FreeName(layout, from).None? ==> forall j :: 0 <= j < 1000 ==> Taken(layout, TableName(j))
    decreases 1000 - from
  {
    hide TableName, ImportName, Taken;
    if from < 1000 {
      NameIs(layout, from);
      if NameTaken(layout, ImportName(from)) {
        FreeNameIs(layout, from + 1);
      }
    }
  }

  lemma NameIs(layout: Layout, n: nat)
    requires n < 1000
    ensures ImportName(n) == TableName(n) && (NameTaken(layout, ImportName(n)) <==> Taken(layout, TableName(n)))
  {
  }

  lemma ImportShape(layout: Layout, a: Assembly, imports: Option<ImportPlan>) returns (end: U32)
    requires layout.fileAlignment > 0 && layout.sectionAlignment > 0 && AlignUp(a.end, layout.sectionAlignment) == Some(a.end)
    requires WithImports(layout, a, imports).Ok? && HasImports(imports)
    ensures TablesOf(layout, a, imports.value).Ok? && FreeName(layout, 0).Some?
    ensures var t := TablesOf(layout, a, imports.value).value.tables;
            var size := Wrap32(|t.importBytes|);
            var added := AddSection(layout, a.(bytes := t.image), FreeName(layout, 0).value, a.end, size, t.importBytes, 0x4000_0040);
            AlignUp(Wrap32(a.end + size), layout.sectionAlignment) == Some(end)
            && added.Some? && WithImports(layout, a, imports).value.assembly == added.value.(end := end)
  {
    hide AddSection, AlignUp, FreeName, Builder.AddModules;
    end := WithImports(layout, a, imports).value.assembly.end;
  }

  /** The import section comes next, and is named, placed and flagged so. */
  lemma ImportHeader(layout: Layout, a: Assembly, imports: Option<ImportPlan>)
    requires layout.fileAlignment > 0 && 0 < layout.sectionAlignment <= LIMIT && Padded(layout, a)
    requires a.end % layout.sectionAlignment == 0 && a.end <= LIMIT
    requires WithImports(layout, a, imports).Ok? && HasImports(imports)
    requires TablesOf(layout, a, imports.value).Ok? ==>
      |TablesOf(layout, a, imports.value).value.tables.importBytes| <= LIMIT
    ensures TablesOf(layout, a, imports.value).Ok?
    ensures var b := WithImports(layout, a, imports).value.assembly;
            Padded(layout, b) && b.headers != [] && b.headers[..|b.headers| - 1] == a.headers
            && var s := b.headers[|b.headers| - 1];
               FirstFree(layout, s.name) && s.virtualAddress == a.end && s.characteristics == 0x4000_0040
               && s.virtualSize == |TablesOf(layout, a, imports.value).value.tables.importBytes|
  {
    hide WithImports, TablesOf, AddSection, AlignUp, FreeName, FirstFree, Padded;
    AlignedAlready(a.end, layout.sectionAlignment);
    FreeNameIs(layout, 0);
    var end := ImportShape(layout, a, imports);
    var t := TablesOf(layout, a, imports.value).value.tables;
    WrapSmall(|t.importBytes|);
    SamePadding(layout, a, t.image);
    AddPadded(layout, a.(bytes := t.image), FreeName(layout, 0).value, a.end, t.importBytes, 0x4000_0040, end);
  }

  lemma SamePadding(layout: Layout, a: Assembly, bytes: Bytes)
    requires layout.fileAlignment > 0 && layout.sectionAlignment > 0 && Padded(layout, a)
    ensures Padded(layout, a.(bytes := bytes))
  {
  }

  /** The relocation section comes last. */
  lemma RelocationHeader(layout: Layout, a: Assembly, placement: Placement)
    requires layout.fileAlignment > 0 && 0 < layout.sectionAlignment <= LIMIT && Padded(layout, a)
    requires a.end % layout.sectionAlignment == 0 && a.end <= LIMIT
    requires placement.RelocatedPlacement? && |placement.plan.directoryBytes| <= LIMIT
    requires WithRelocations(layout, a, placement).Some?
    ensures var b := WithRelocations(layout, a, placement).value.assembly;
            Padded(layout, b) && b.headers != [] && b.headers[..|b.headers| - 1] == a.headers
            && var s := b.headers[|b.headers| - 1];
               s.name == ['.' as int, 'r' as int, 'e' as int, 'l' as int, 'o' as int, 'c' as int, 0, 0]
               && s.virtualAddress == a.end && s.virtualSize == |placement.plan.directoryBytes| && s.characteristics == 0x4200_0040
  {
    hide AddSection, AlignUp, Padded;
    var end := RelocationShape(layout, a, placement);
    AddPadded(layout, a, RelocName(), a.end, placement.plan.directoryBytes, RELOCATION_FLAGS, end);
  }

  // ---- all headers ----

  ghost predicate PlannedHeader(h: Section, s: Sections.RebuiltSection) {
    h.name == s.name && h.virtualAddress == s.virtualAddress && h.virtualSize == s.virtualSize
      && h.characteristics == s.characteristics
  }

  /** Section `k` starts at the first aligned address after section `k - 1`. */
  ghost predicate Next(layout: Layout, h: seq<Section>, k: nat)
    requires 0 < k < |h| && layout.sectionAlignment > 0
  {
    RoundedUp(h[k].virtualAddress, EndOf(h[k - 1]), layout.sectionAlignment)
  }

  ghost predicate IsImport(layout: Layout, s: Section) {
    FirstFree(layout, s.name) && s.characteristics == 0x4000_0040
  }

  ghost predicate IsRelocation(s: Section, directory: Bytes) {
    s.name == ['.' as int, 'r' as int, 'e' as int, 'l' as int, 'o' as int, 'c' as int, 0, 0]
    && s.virtualSize == |directory| && s.characteristics == 0x4200_0040
  }

  /** The headers of the planned sections, of the imports if there are any, and
      of the relocations if the image is relocated. */
  ghost predicate HeadersAre(layout: Layout, request: FixRequest, planned: seq<Sections.RebuiltSection>, h: seq<Section>)
    requires layout.fileAlignment > 0 && layout.sectionAlignment > 0
  {
    var n, m := |planned|, |planned| + if HasImports(request.imports) then 1 else 0;
    0 < n && |h| == m + (if request.placement.RelocatedPlacement? then 1 else 0)
    && (forall k :: 0 <= k < n ==> PlannedHeader(h[k], planned[k]))
    && (HasImports(request.imports) ==> IsImport(layout, h[n]) && Next(layout, h, n))
    && (request.placement.RelocatedPlacement? ==> IsRelocation(h[m], request.placement.plan.directoryBytes) && Next(layout, h, m))
    && forall k :: 0 <= k < |h| ==> RoundedUp(h[k].rawSize, h[k].virtualSize, layout.fileAlignment)
  }

  lemma BasePadded(layout: Layout, image: Bytes, request: FixRequest, plan: Sections.SectionPlan)
    requires layout.fileAlignment > 0 && layout.sectionAlignment > 0 && InImage(layout, plan.sections)
    requires layout.sizeOfImage <= |image| && Finished(layout, image, request, plan).Ok?
    requires Presentable(layout, image, request, plan)
    ensures var s := StagesOf(layout, image, request, plan);
            Padded(layout, s.base) && |s.base.headers| == |plan.sections|
            && forall k :: 0 <= k < |plan.sections| ==> PlannedHeader(s.base.headers[k], plan.sections[k])
  {
    hide PlaceAll, WithImports, WithRelocations, Headers.Outcome, IsPowerOfTwo, AlignUp, TablesOf, HeaderRequestOf, StartAssembly,
      Padded;
    var s := StagesOf(layout, image, request, plan);
    StartFacts(layout, image, s.headerSize);
    PlacedPadded(layout, image, StartAssembly(layout, image, s.headerSize), plan.sections, |plan.sections|);
  }

  lemma StageHeaders(layout: Layout, image: Bytes, request: FixRequest, plan: Sections.SectionPlan)
    requires layout.fileAlignment > 0 && layout.sectionAlignment > 0 && InImage(layout, plan.sections)
    requires layout.sizeOfImage <= |image| && Finished(layout, image, request, plan).Ok?
    requires Presentable(layout, image, request, plan)
    ensures var a := StagesOf(layout, image, request, plan).placed.assembly;
            HeadersAre(layout, request, plan.sections, a.headers) && Padded(layout, a)
  {
    hide PlaceAll, WithImports, WithRelocations, Headers.Outcome, IsPowerOfTwo, AlignUp, TablesOf, HeaderRequestOf, StartAssembly,
      Padded, Assembled, HeaderSize, Good, Copied, IsImport, IsRelocation, PlannedHeader, RoundedUp, Parser.Parsed, HeaderAgrees,
      Extends, PatchedBase;
    var s := StagesOf(layout, image, request, plan);
    BaseFacts(layout, image, request, plan);
    BasePadded(layout, image, request, plan);
    ImportedFacts(layout, image, request, plan);
    GoodEnd(layout, s.base, s.headerSize);
    GoodEnd(layout, s.imported.assembly, s.headerSize);
    PaddedSteps(layout, s.base, s.imported.assembly, s.placed.assembly, request, plan.sections);
  }

  lemma PaddedSteps(layout: Layout, base: Assembly, imported: Assembly, placed: Assembly, request: FixRequest,
                    planned: seq<Sections.RebuiltSection>)
    requires layout.fileAlignment > 0 && 0 < layout.sectionAlignment <= LIMIT && Padded(layout, base)
    requires 0 < |base.headers| == |planned| && forall k :: 0 <= k < |planned| ==> PlannedHeader(base.headers[k], planned[k])
    requires base.end % layout.sectionAlignment == 0 && base.end <= LIMIT
    requires imported.end % layout.sectionAlignment == 0 && imported.end <= LIMIT
    requires WithImports(layout, base, request.imports).Ok?
    requires imported == WithImports(layout, base, request.imports).value.assembly
    requires HasImports(request.imports) && TablesOf(layout, base, request.imports.value).Ok? ==>
      |TablesOf(layout, base, request.imports.value).value.tables.importBytes| <= LIMIT
    requires request.placement.RelocatedPlacement? ==> |request.placement.plan.directoryBytes| <= LIMIT
    requires WithRelocations(layout, imported, request.placement).Some?
    requires placed == WithRelocations(layout, imported, request.placement).value.assembly
    ensures HeadersAre(layout, request, planned, placed.headers) && Padded(layout, placed)
  {
    hide AlignUp, TablesOf, FirstFree, PlannedHeader, WithImports, WithRelocations;
    if HasImports(request.imports) {
      ImportHeader(layout, base, request.imports);
    } else {
      NoImportStep(layout, base, request.imports);
    }
    if request.placement.RelocatedPlacement? {
      RelocationHeader(layout, imported, request.placement);
    } else {
      NoRelocationStep(layout, imported, request.placement);
    }
  }

  lemma NoRelocationStep(layout: Layout, a: Assembly, placement: Placement)
    requires layout.fileAlignment > 0 && layout.sectionAlignment > 0 && placement.FixedPlacement?
    ensures WithRelocations(layout, a, placement) == Some(WithDirectory(a, None))
  {
  }
}
