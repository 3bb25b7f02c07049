/** The rebuilt file holds the normalised image: raw ranges tile the file, and
    every section address reads as its image byte except patched IAT slots. */
module RebuiltContentLaws {
  import opened Bytes
  import opened Alignment
  import opened PeFormat
  import opened ImportTypes
  import opened PeImageFixer
  import opened AssemblyLaws
  import opened FixerLaws
  import opened RebuiltFileLaws
  import Sections = SectionLayoutRebuilder
  import Builder = ImportTableBuilder
  import Tables = ImportTableLaws
  import Headers = PeHeaderWriter
  import Parser = PeParser
  import Rebaser = PeFileRebaser

  // ---- addresses ----

  /** An address range inside one section is found there. */
  lemma {:induction false} RawFound(headers: seq<Section>, rva: U32, size: nat, k: nat)
    requires Stacked(headers) && k < |headers| && 0 < size
    requires headers[k].virtualAddress <= rva && rva + size <= headers[k].virtualAddress + headers[k].rawSize
    ensures Rebaser.RawIn(headers, rva, size) == Some(headers[k].rawOffset + (rva - headers[k].virtualAddress))
    decreases k
  {
    if k > 0 {
      assert headers[0].virtualAddress + headers[0].rawSize <= headers[k].virtualAddress;
      StackedTail(headers);
      RawFound(headers[1..], rva, size, k - 1);
    }
  }

  lemma StackedTail(headers: seq<Section>)
    requires Stacked(headers) && headers != []
    ensures Stacked(headers[1..])
  {
  }

  /** The raw ranges of the sections tile the bytes `from..to`. */
  ghost predicate Tiles(headers: seq<Section>, from: int, to: int) {
    headers != [] && headers[0].rawOffset == from
    && (forall i :: 0 <= i < |headers| - 1 ==> headers[i + 1].rawOffset == headers[i].rawOffset + headers[i].rawSize)
    && headers[|headers| - 1].rawOffset + headers[|headers| - 1].rawSize == to
  }

  ghost predicate InIat(format: Format, imports: Option<ImportPlan>, rva: int) {
    imports.Some? && exists i :: 0 <= i < |imports.value.modules| && InModuleIat(format, imports.value.modules[i], rva)
  }

  ghost predicate InModuleIat(format: Format, m: ImportModule, rva: int) {
    m.firstThunk <= rva < m.firstThunk + |m.symbols| * format.PointerSize()
  }

  /** Only addresses of IAT slots lie in patched file bytes. */
  lemma PatchedIsIat(layout: Layout, a: Assembly, headerSize: nat, plan: ImportPlan, k: nat, rva: nat)
    requires Good(layout, a, headerSize) && k < |a.headers| && TablesOf(layout, a, plan).Ok?
    requires a.headers[k].virtualAddress <= rva < a.headers[k].virtualAddress + a.headers[k].rawSize
    requires Tables.PlanCovers(ImportContext(layout, a, a.end), plan, |plan.modules|,
                               a.headers[k].rawOffset + (rva - a.headers[k].virtualAddress))
    ensures InIat(layout.format, Some(plan), rva)
  {
    hide Good, IsPowerOfTwo, Builder.AddModules, Builder.IatOffset, Builder.SlotRva, Tables.WellPlaced, Builder.ModuleShapeValid;
    var ctx := ImportContext(layout, a, a.end);
    var p := a.headers[k].rawOffset + (rva - a.headers[k].virtualAddress);
    GoodIsWellPlaced(layout, a, headerSize);
    ModulesAreValid(layout, a, plan, |plan.modules|);
    var i :| 0 <= i < |plan.modules| && Tables.ModuleCovers(ctx, plan.modules[i], |plan.modules[i].symbols|, p);
    var m := plan.modules[i];
    var n :| 0 <= n < |m.symbols| && Tables.SlotCovers(ctx, Builder.SlotRva(ctx, m, n), p);
    Tables.RvasInRange(ctx, m, n);
    SlotAddress(a.headers, Builder.SlotRva(ctx, m, n), layout.format.PointerSize(), k, rva);
    assert InModuleIat(layout.format, m, rva);
  }

  lemma SlotAddress(headers: seq<Section>, slot: U32, size: nat, k: nat, rva: nat)
    requires Tables.WellPlaced(headers) && k < |headers|
    requires headers[k].virtualAddress <= rva < headers[k].virtualAddress + headers[k].rawSize
    requires Builder.IatOffset(headers, slot, size).Some?
    requires var p, o := headers[k].rawOffset + (rva - headers[k].virtualAddress), Builder.IatOffset(headers, slot, size).value;
             o <= p < o + size
    ensures slot <= rva < slot + size
  {
    var j := Tables.SlotSection(headers, slot, size);
    FileOrder(headers, j, k);
  }

  lemma FileOrder(headers: seq<Section>, j: nat, k: nat)
    requires Tables.WellPlaced(headers) && j < |headers| && k < |headers|
    ensures j < k ==> headers[j].rawOffset + headers[j].rawSize <= headers[k].rawOffset
    ensures k < j ==> headers[k].rawOffset + headers[k].rawSize <= headers[j].rawOffset
  {
  }

  lemma {:induction false} ModulesAreValid(layout: Layout, a: Assembly, plan: ImportPlan, n: nat)
    requires n <= |plan.modules| && Builder.AddModules(ImportContext(layout, a, a.end), plan, a.bytes, n).Ok?
    ensures forall i :: 0 <= i < n ==> Builder.ModuleShapeValid(ImportContext(layout, a, a.end), plan.modules[i])
  {
    hide Builder.AddModule, Builder.ModuleShapeValid;
    if n > 0 {
      var ctx := ImportContext(layout, a, a.end);
      ModulesAreValid(layout, a, plan, n - 1);
      Tables.AddModuleRanges(ctx, Builder.AddModules(ctx, plan, a.bytes, n - 1).value, n - 1, plan.modules[n - 1]);
    }
  }

  // ---- bytes of the file ----

  /** File bytes of the rebuilt sections, after IAT patching. */
  lemma FileByte(layout: Layout, image: Bytes, request: FixRequest, plan: Sections.SectionPlan, i: nat)
    requires layout.fileAlignment > 0 && layout.sectionAlignment > 0 && InImage(layout, plan.sections)
    requires layout.sizeOfImage <= |image| && Finished(layout, image, request, plan).Ok?
    requires Presentable(layout, image, request, plan)
    requires var s := StagesOf(layout, image, request, plan); s.headerSize <= i < |s.base.bytes|
    ensures var s, f := StagesOf(layout, image, request, plan), FileOf(layout, image, request, plan);
            var patched := PatchedBase(layout, s.base, request.imports);
            |patched| == |s.base.bytes| <= |f| && f[i] == patched[i]
  {
    hide PlaceAll, WithImports, Headers.Outcome, WithRelocations, HeaderRequestOf, StartAssembly, Good, IsPowerOfTwo, AlignUp,
      Extends, Assembled, TablesOf, Copied, AddSection, PatchedBase, HeaderSize, PlanOrdered;
    var s := StagesOf(layout, image, request, plan);
    ImportedFacts(layout, image, request, plan);
    PlacedFacts(layout, image, request, plan);
    FileBody(layout, image, request, plan, i);
    PrefixByte(s.imported.assembly.bytes, PatchedBase(layout, s.base, request.imports), |s.base.bytes|, i);
    PrefixByte(s.placed.assembly.bytes, s.imported.assembly.bytes, |s.imported.assembly.bytes|, i);
  }

  ghost predicate SectionHolds(s: Sections.RebuiltSection, rva: int, size: nat) {
    s.virtualAddress <= rva && rva + size <= s.virtualAddress + s.virtualSize
  }

  /** Where the file keeps an address of rebuilt section `k`. */
  ghost function RawOf(h: Section, rva: U32): int {
    h.rawOffset + (rva - h.virtualAddress)
  }

  lemma BaseSection(layout: Layout, image: Bytes, request: FixRequest, plan: Sections.SectionPlan, k: nat)
    requires layout.fileAlignment > 0 && layout.sectionAlignment > 0 && InImage(layout, plan.sections)
    requires layout.sizeOfImage <= |image| && Finished(layout, image, request, plan).Ok?
    requires Presentable(layout, image, request, plan) && k < |plan.sections|
    ensures var s, r := StagesOf(layout, image, request, plan), plan.sections[k];
            k < |s.base.headers| && Good(layout, s.base, s.headerSize)
            && Settled(layout, s.base.headers[k], s.headerSize, |s.base.bytes|, s.base.end)
            && Copied(layout, image, s.base.bytes, s.base.headers[k], r)
            && s.headerSize <= r.virtualAddress
  {
    hide PlaceAll, WithImports, Headers.Outcome, WithRelocations, HeaderRequestOf, StartAssembly, Good, IsPowerOfTwo, AlignUp,
      Extends, Assembled, TablesOf, AddSection, PatchedBase, HeaderSize, Settled, Copied;
    BaseFacts(layout, image, request, plan);
    var s := StagesOf(layout, image, request, plan);
    HeaderSettled(layout, s.base, s.headerSize, k);
    assert k > 0 ==> plan.sections[0].virtualAddress + plan.sections[0].virtualSize <= plan.sections[k].virtualAddress;
  }

  lemma CopiedByte(layout: Layout, image: Bytes, bytes: Bytes, h: Section, s: Sections.RebuiltSection, rva: U32)
    requires layout.sizeOfImage <= |image| && Copied(layout, image, bytes, h, s) && SectionHolds(s, rva, 1)
    ensures h.virtualAddress == s.virtualAddress && s.virtualSize <= h.rawSize
    ensures 0 <= RawOf(h, rva) < |bytes| && bytes[RawOf(h, rva)] == image[rva]
  {
    var content := image[s.virtualAddress..s.virtualAddress + s.virtualSize];
    var at := rva - s.virtualAddress;
    assert bytes[RawOf(h, rva)] == Slice(bytes, h.rawOffset, h.rawSize)[at];
    assert (content + Zeros(h.rawSize - |content|))[at] == content[at];
  }

  /** Every address of a rebuilt section that is not an IAT slot reads as the
      normalised image byte through the parsed file. */
  lemma SectionByte(layout: Layout, image: Bytes, request: FixRequest, plan: Sections.SectionPlan, k: nat, rva: U32)
    requires layout.fileAlignment > 0 && layout.sectionAlignment > 0 && InImage(layout, plan.sections)
    requires layout.sizeOfImage <= |image| && Finished(layout, image, request, plan).Ok?
    requires Presentable(layout, image, request, plan)
    requires k < |plan.sections| && SectionHolds(plan.sections[k], rva, 1)
    requires !InIat(layout.format, request.imports, rva)
    ensures var s, f := StagesOf(layout, image, request, plan), FileOf(layout, image, request, plan);
            k < |s.base.headers| && s.headerSize <= RawOf(s.base.headers[k], rva) < |f|
            && f[RawOf(s.base.headers[k], rva)] == image[rva]
  {
    hide Finished, StagesOf, FileOf, Good, IsPowerOfTwo, TablesOf, PatchedBase, Copied, InIat;
    var s := StagesOf(layout, image, request, plan);
    BaseSection(layout, image, request, plan, k);
    var h := s.base.headers[k];
    CopiedByte(layout, image, s.base.bytes, h, plan.sections[k], rva);
    var p := RawOf(h, rva);
    FileByte(layout, image, request, plan, p);
    if HasImports(request.imports) {
      ImportedFacts(layout, image, request, plan);
      var ctx := ImportContext(layout, s.base, s.base.end);
      if Tables.PlanCovers(ctx, request.imports.value, |request.imports.value.modules|, p) {
        PatchedIsIat(layout, s.base, s.headerSize, request.imports.value, k, rva);
        assert false;
      }
    }
    PatchedOutsideIat(layout, s.base, request.imports, p);
  }

  /** The parsed file finds a range of rebuilt section `k` where the section was written. */
  lemma SectionAddress(layout: Layout, image: Bytes, request: FixRequest, plan: Sections.SectionPlan, p: Layout,
                       k: nat, rva: U32, size: nat)
    requires layout.fileAlignment > 0 && layout.sectionAlignment > 0 && InImage(layout, plan.sections)
    requires layout.sizeOfImage <= |image| && Finished(layout, image, request, plan).Ok?
    requires Presentable(layout, image, request, plan)
    requires Emitted(layout, request, StagesOf(layout, image, request, plan), p)
    requires k < |plan.sections| && SectionHolds(plan.sections[k], rva, size) && size > 0
    ensures var s := StagesOf(layout, image, request, plan);
            k < |s.base.headers| && Rebaser.RvaToRaw(p, rva, size) == Some(RawOf(s.base.headers[k], rva))
            && s.headerSize <= RawOf(s.base.headers[k], rva)
            && RawOf(s.base.headers[k], rva) + size <= |s.base.bytes|
  {
    hide Finished, StagesOf, FileOf, Good, IsPowerOfTwo, TablesOf, PatchedBase, Copied, Presentable, Has, Stacked, Parser.OrderedFrom;
    var s := StagesOf(layout, image, request, plan);
    BaseSection(layout, image, request, plan, k);
    PlacedFacts(layout, image, request, plan);
    EntryInside(layout, image, request, plan);
    GoodSize(layout, s.placed.assembly, s.headerSize);
    CopiedByte(layout, image, s.base.bytes, s.base.headers[k], plan.sections[k], rva);
    RawFound(p.sections, rva, size, k);
  }

  /** Raw ranges tile the file after the headers. */
  lemma SectionsTileTheFile(layout: Layout, image: Bytes, request: FixRequest, plan: Sections.SectionPlan)
    requires layout.fileAlignment > 0 && layout.sectionAlignment > 0 && InImage(layout, plan.sections)
    requires layout.sizeOfImage <= |image| && Finished(layout, image, request, plan).Ok?
    requires Presentable(layout, image, request, plan)
    ensures var s, f := StagesOf(layout, image, request, plan), FileOf(layout, image, request, plan);
            Tiles(s.placed.assembly.headers, s.headerSize, |f|)
  {
    hide Finished, StagesOf, FileOf, Good, IsPowerOfTwo, TablesOf, PatchedBase, Copied, Extends, Tiles;
    var s := StagesOf(layout, image, request, plan);
    PlacedFacts(layout, image, request, plan);
    FileBody(layout, image, request, plan, 0);
    GoodTiles(layout, s.placed.assembly, s.headerSize);
  }

  lemma GoodTiles(layout: Layout, a: Assembly, headerSize: nat)
    requires Good(layout, a, headerSize) && a.headers != []
    ensures Tiles(a.headers, headerSize, |a.bytes|)
  {
    hide IsPowerOfTwo, Settled;
  }
}
