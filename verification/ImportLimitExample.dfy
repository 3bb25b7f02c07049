/** A plan that imports 65,536 symbols from one module: the fixer rebuilds the
    image, and the final import check refuses the file. */
module ImportLimitExample {
  import opened Bytes
  import opened Structs
  import opened Alignment
  import opened PeFormat
  import opened ImportTypes
  import opened PeImageFixer
  import opened AssemblyLaws
  import opened FixerLaws
  import opened RebuildLaws
  import Sections = SectionLayoutRebuilder
  import Builder = ImportTableBuilder
  import PlanLaws = ImportPlanLaws
  import Headers = PeHeaderWriter
  import HeaderLaws
  import Parser = PeParser
  import Validator = ImportTableValidator
  import RoundTrip = ImportRoundTrip
  import Imported = RebuiltImportLaws

  // ---- the capture ----

  const BASE: U64 := 0x40_0000
  const PAGE: U32 := 0x10_0000
  const IAT_SIZE: U32 := 0x4_0000
  const IMAGE_SIZE: U32 := 0x14_0000
  const SYMBOLS: nat := 0x1_0000

  /** One section, as long as the IAT. */
  function SourceSection(): Section {
    Section(Zeros(8), PAGE, IAT_SIZE, 0, 0, MEM_READ)
  }

  function Source(): Layout {
    Layout(Pe32, Executable, SourceLoadPolicy(BASE, false, false, false), 0x14c, 64, BASE, 0, IMAGE_SIZE, 0x200, PAGE, 0x200,
           EXECUTABLE_IMAGE, 0, seq(16, _ => NO_DIRECTORY), [SourceSection()])
  }

  function FileFields(): (h: seq<nat>)
    ensures |h| == 7
  {
    seq(7, _ => 0)
  }

  function OptionalFields(): (f: seq<nat>)
    ensures |f| == 62
  {
    seq(62, k requires 0 <= k < 62 => if k == SECTION_ALIGNMENT then PAGE else if k == FILE_ALIGNMENT then 0x200 else 0)
  }

  function DosHeader(): (b: Bytes)
    ensures |b| == DOS_HEADER_SIZE
  {
    [0x4d, 0x5a] + Zeros(58) + [64, 0, 0, 0]
  }

  function CapturedBytes(): (b: Bytes)
    ensures |b| == IMAGE_SIZE
  {
    DosHeader() + Headers.NtBytes(Pe32, FileFields(), OptionalFields()) + Zeros(IMAGE_SIZE - 312)
  }

  function Capture(): CapturedImage {
    CapturedImage(BASE, CapturedBytes(), [])
  }

  function Crowded(): ImportModule {
    ImportModule([0x61], PAGE, seq(SYMBOLS, _ => ImportSymbol(None, Some(1), 0)))
  }

  function Imports(): ImportPlan {
    ImportPlan([Crowded()])
  }

  function Request(): FixRequest {
    FixRequest(0, Some(Imports()), FixedPlacement(BASE))
  }

  function Found(): Discovery {
    Discovery(true, Sections.CodeEvidence([Sections.AddressRange(PAGE, PAGE + 1)], [], None))
  }

  // ---- the captured header ----

  lemma FieldsAreSmall()
    ensures FieldsFit(FILE_WIDTHS, FileFields()) && FieldsFit(OptionalWidths(Pe32), OptionalFields())
  {
    hide OptionalWidths;
    Parser.OptionalWidthList(Pe32);
    Powers();
  }

  lemma DosHeaderReads(b: Bytes)
    requires 64 <= |b| && b[..64] == DosHeader()
    ensures ReadAt(b, 0, 2) == DOS_SIGNATURE && ReadAt(b, 60, 4) == 64
  {
    var d := DosHeader();
    assert b[0] == d[0] && b[1] == d[1] && b[60] == d[60] && b[61] == d[61] && b[62] == d[62] && b[63] == d[63];
    assert Slice(b, 0, 2) == [0x4d, 0x5a] == LittleEndian(DOS_SIGNATURE, 2);
    assert Slice(b, 60, 4) == [64, 0, 0, 0] == LittleEndian(64, 4);
    Powers();
    UnsignedOfLittleEndian(DOS_SIGNATURE, 2);
    UnsignedOfLittleEndian(64, 4);
  }

  lemma HeaderIsCaptured()
    ensures HeaderAgrees(Source(), CapturedBytes())
  {
    hide Headers.NtBytes, ReadAt, OptionalWidths, FieldsFit, DosHeader, Parser.OptionalFields;
    var b, nt := CapturedBytes(), Headers.NtBytes(Pe32, FileFields(), OptionalFields());
    assert b[..64] == DosHeader();
    DosHeaderReads(b);
    assert Slice(b, 64, 248) == nt;
    FieldsAreSmall();
    HeaderLaws.NtBytesUnpack(b, 64, Pe32, FileFields(), OptionalFields());
  }

  lemma PageIsPower()
    ensures IsPowerOfTwo(PAGE) && IsPowerOfTwo(0x200)
  {
    assert IsPowerOfTwo(2) && IsPowerOfTwo(16);
    PowerProduct(16, 16);
    PowerProduct(256, 256);
    PowerProduct(16, 0x1_0000);
    PowerProduct(2, 256);
  }

  lemma SourceIsParsed()
    ensures Parser.Parsed(Source())
  {
    hide IsPowerOfTwo;
    PageIsPower();
  }

  // ---- the section plan ----

  function Only(): Sections.RebuiltSection {
    Sections.RebuiltSection(Sections.MakeName(Sections.Text, 0), PAGE, IAT_SIZE, Sections.Characteristics(Sections.Text))
  }

  lemma NothingToNormalise()
    ensures Prepared(Source(), Capture(), Request()) == Ok(CapturedBytes())
  {
    hide CapturedBytes;
  }

  function Input(): Sections.Input {
    SectionInput(Capture(), CapturedBytes(), Request(), Found())
  }

  lemma RangesAre()
    ensures Sections.GatherRanges(Source(), Input())
            == Some(Sections.Ranges([Sections.AddressRange(PAGE, PAGE + 1)], [], [],
                                    [Sections.AddressRange(PAGE, IMAGE_SIZE)]))
  {
    hide CapturedBytes;
    var modules, range := Imports().modules, Sections.AddressRange(PAGE, IMAGE_SIZE);
    assert modules[1..] == [] && Sections.IatRanges(Source(), modules[1..]) == Some([]);
    assert |Crowded().symbols| == SYMBOLS;
    assert [range] + [] == [range];
    assert Sections.IatRanges(Source(), modules) == Some([range]);
  }

  lemma OnePage(ranges: Sections.Ranges)
    requires ranges.code == [Sections.AddressRange(PAGE, PAGE + 1)] && ranges.writable == []
    requires ranges.executableWritable == []
    ensures Sections.AllPages(Source(), ranges, [SourceSection()])
            == Some([Sections.PlannedRange(Sections.AddressRange(PAGE, IMAGE_SIZE), Sections.Text)])
  {
    var page := Sections.AddressRange(PAGE, IMAGE_SIZE);
    assert Sections.Overlaps(page, ranges.code[0]);
    assert Sections.PagesFrom(Source(), ranges, SourceSection(), IMAGE_SIZE) == [];
    assert Sections.PagesFrom(Source(), ranges, SourceSection(), PAGE) == [Sections.PlannedRange(page, Sections.Text)];
    var sections := [SourceSection()];
    assert sections[..0] == [] && Sections.AllPages(Source(), ranges, sections[..0]) == Some([]);
    assert Sections.SectionUsable(Source(), sections[0]);
    assert [] + [Sections.PlannedRange(page, Sections.Text)] == [Sections.PlannedRange(page, Sections.Text)];
    assert Sections.AllPages(Source(), ranges, sections).Some?;
  }

  lemma SectionsAre()
    ensures Sections.Outcome(Source(), Input()) == Ok(Sections.SectionPlan([Only()], None))
  {
    hide CapturedBytes, Sections.GatherRanges, Sections.AllPages, IsPowerOfTwo, Sections.MakeName;
    PageIsPower();
    RangesAre();
    var ranges := Sections.GatherRanges(Source(), Input()).value;
    OnePage(ranges);
    var pages := Sections.AllPages(Source(), ranges, Source().sections).value;
    assert pages[..0] == [];
    assert Sections.Merge(pages[..0]) == [];
    assert Sections.Merge(pages) == pages;
    assert Sections.RoleCount(pages[..0], Sections.Text) == 0;
    assert Sections.Planned(Source(), Input()) == Some(pages);
    assert Sections.SectionOf(pages, 0) == Only();
    assert seq(1, k requires 0 <= k < 1 => Sections.SectionOf(pages, k)) == [Only()];
  }

  // ---- the assembled sections ----

  function OnlyHeader(): Section {
    Section(Only().name, PAGE, IAT_SIZE, 0x200, IAT_SIZE, Only().characteristics)
  }

  /** The header area and the one rebuilt section. */
  ghost predicate IsBase(a: Assembly) {
    a.headers == [OnlyHeader()] && |a.bytes| == a.nextRaw == 0x4_0200 && a.end == 0x20_0000
  }

  lemma HeaderAreaSize()
    ensures HeaderSize(Source(), 2) == Some(0x200)
  {
  }

  lemma Rounded()
    ensures AlignUp(IAT_SIZE, 0x200) == Some(IAT_SIZE) && AlignUp(IMAGE_SIZE, PAGE) == Some(0x20_0000)
    ensures AlignUp(0x20_0000, PAGE) == Some(0x20_0000)
    ensures AlignUp(262190, 0x200) == Some(0x4_0200) && AlignUp(0x20_0000 + 262190, PAGE) == Some(0x30_0000)
  {
  }

  lemma BaseIs()
    ensures InImage(Source(), [Only()])
    ensures Assembled(Source(), CapturedBytes(), [Only()], 2).Some?
    ensures IsBase(Assembled(Source(), CapturedBytes(), [Only()], 2).value)
  {
    hide CapturedBytes, HeaderSize, AlignUp, Sections.MakeName, Patch, Resize;
    HeaderAreaSize();
    Rounded();
    var image, start := CapturedBytes(), StartAssembly(Source(), CapturedBytes(), 0x200);
    assert PlaceAll(Source(), image, start, [Only()], 0) == Some(start);
    assert |SectionContent(Source(), image, Only())| == IAT_SIZE;
    assert [] + [OnlyHeader()] == [OnlyHeader()];
    assert Place(Source(), image, start, Only()).Some?;
  }

  // ---- the import table ----

  lemma OrdinalAddsNothing(ctx: Builder.Context, t: Builder.Tables, at: nat, rva: U32, symbol: ImportSymbol)
    requires Builder.AddSymbol(ctx, t, at, rva, symbol).Ok? && symbol.name.None?
    ensures |Builder.AddSymbol(ctx, t, at, rva, symbol).value.importBytes| == |t.importBytes|
  {
    hide Builder.SymbolThunk, Builder.PatchIat;
  }

  lemma {:induction false} OrdinalsAddNothing(ctx: Builder.Context, t: Builder.Tables, intOffset: nat, m: ImportModule, n: nat)
    requires n <= |m.symbols| && Builder.AddSymbols(ctx, t, intOffset, m, n).Ok?
    requires forall k :: 0 <= k < |m.symbols| ==> m.symbols[k].name.None?
    ensures |Builder.AddSymbols(ctx, t, intOffset, m, n).value.importBytes| == |t.importBytes|
  {
    hide Builder.AddSymbol, Builder.EntryOffset, Builder.SlotRva;
    if n > 0 {
      OrdinalsAddNothing(ctx, t, intOffset, m, n - 1);
      OrdinalAddsNothing(ctx, Builder.AddSymbols(ctx, t, intOffset, m, n - 1).value,
                         Builder.EntryOffset(ctx, intOffset, n - 1), Builder.SlotRva(ctx, m, n - 1), m.symbols[n - 1]);
    }
  }

  function Where(): Builder.Context {
    Builder.Context(Pe32, IMAGE_SIZE, 0x20_0000, [OnlyHeader()])
  }

  lemma SlotIsInOnlySection(rva: U32)
    ensures Builder.IatOffset([OnlyHeader()], rva, 4)
            == if PAGE <= rva && rva + 4 <= IMAGE_SIZE then Some(0x200 + rva - PAGE) else None
  {
    var headers := [OnlyHeader()];
    assert headers[1..] == [];
  }

  lemma CrowdedIsAcceptable()
    ensures PlanLaws.ModuleAcceptable(Where(), Crowded())
  {
    hide Builder.IatOffset;
    var m := Crowded();
    assert Builder.ModuleShapeValid(Where(), m);
    forall k | 0 <= k < |m.symbols| ensures PlanLaws.SymbolAcceptable(Where(), m, k) {
      SlotIsInOnlySection(Builder.SlotRva(Where(), m, k));
    }
  }

  lemma PlanIsAcceptable()
    ensures PlanLaws.Acceptable(Where(), Imports(), 1)
  {
    hide PlanLaws.ModuleAcceptable, PlanLaws.Overlap, Crowded;
    CrowdedIsAcceptable();
  }

  lemma TableIsBuilt(image: Bytes)
    requires |image| == 0x4_0200
    ensures Builder.AddModules(Where(), Imports(), image, 1).Ok?
    ensures |Builder.AddModules(Where(), Imports(), image, 1).value.tables.importBytes| == 262190
    ensures |Builder.AddModules(Where(), Imports(), image, 1).value.tables.image| == 0x4_0200
  {
    hide Builder.AddModule, PlanLaws.Acceptable, Crowded;
    forall rva: U32 | Builder.IatOffset(Where().headers, rva, 4).Some?
      ensures Builder.IatOffset(Where().headers, rva, 4).value + 4 <= |image|
    {
      SlotIsInOnlySection(rva);
    }
    assert PlanLaws.SectionsFiled(Where(), |image|);
    PlanIsAcceptable();
    PlanLaws.PlanAcceptedIff(Where(), Imports(), image, 1);
    PlanLaws.RangesAre(Where(), Imports(), image, 1);
    Builder.NoModules(Where(), Imports(), image);
    TableSize(Builder.Start(1, image));
  }

  lemma TableSize(p: Builder.Progress)
    requires |p.tables.importBytes| == 40 && Builder.AddModule(Where(), p, 0, Crowded()).Ok?
    ensures |Builder.AddModule(Where(), p, 0, Crowded()).value.tables.importBytes| == 262190
  {
    hide Builder.AddSymbols, Builder.Meets, Builder.DescriptorBytes, Builder.ModuleShapeValid, Patch;
    var m, b := Crowded(), p.tables.importBytes;
    var named := Builder.WithLookup(Where(), b, m) + (m.moduleName + [0]);
    assert |named| == 262190;
    OrdinalsAddNothing(Where(), Builder.Tables(named, p.tables.image), Wrap32(|Builder.PadTo(b, 4)|), m, |m.symbols|);
  }

  lemma ImportsPlaced(a: Assembly)
    requires IsBase(a)
    ensures WithImports(Source(), a, Some(Imports())).Ok?
    ensures var after := WithImports(Source(), a, Some(Imports())).value.assembly;
            |after.headers| == 2 && after.headers[0] == OnlyHeader() && after.headers[1].rawSize == 0x4_0200
            && |after.bytes| == 0x8_0400 && after.end == 0x30_0000
    ensures TablesOf(Source(), a, Imports()).Ok?
    ensures |TablesOf(Source(), a, Imports()).value.tables.importBytes| == 262190
  {
    hide Builder.AddModules, Sections.MakeName, Patch, Resize, AlignUp, Crowded;
    Rounded();
    TableIsBuilt(a.bytes);
    assert ImportContext(Source(), a, 0x20_0000) == Where();
    assert FreeName(Source(), 0).Some? by {
      assert SourceSection().name[0] != ImportName(0)[0];
    }
  }

  // ---- the rebuild ----

  lemma HeadersWritten(a: Assembly, r: Headers.HeaderRequest)
    requires |a.headers| == 2 && a.headers[0].rawSize == IAT_SIZE && a.headers[1].rawSize == 0x4_0200
    requires |a.bytes| == 0x8_0400 && r.imageBase == BASE
    ensures Headers.Outcome(a.bytes, Source(), a.headers, r).Some?
  {
    hide Has, Headers.NewOptionalFields, Headers.NewFileFields, Headers.NtBytes, Headers.SectionTable, Patch;
    Headers.TotalsOfNothing(Pe32);
    assert a.headers[..0] == [] && a.headers[..2] == a.headers;
    Headers.TotalsStep(Pe32, a.headers, 0);
    Headers.TotalsStep(Pe32, a.headers, 1);
  }

  function Plan(): Sections.SectionPlan {
    Sections.SectionPlan([Only()], None)
  }

  lemma RestFinishes()
    ensures InImage(Source(), Plan().sections) && Finished(Source(), CapturedBytes(), Request(), Plan()).Ok?
    ensures var s := StagesOf(Source(), CapturedBytes(), Request(), Plan());
            s.headerSize == 0x200 && IsBase(s.base) && s.placed.assembly.end == 0x30_0000
  {
    hide CapturedBytes, Crowded, Only, Assembled, WithImports, Headers.Outcome, HeaderSize, IsBase, FreeName;
    HeaderAreaSize();
    BaseIs();
    assert SectionCount(|Plan().sections|, Request()) == 2;
    var base := Assembled(Source(), CapturedBytes(), Plan().sections, 2).value;
    ImportsPlaced(base);
    var imported := WithImports(Source(), base, Request().imports).value;
    assert WithRelocations(Source(), imported.assembly, Request().placement) == Some(WithDirectory(imported.assembly, None));
    HeadersWritten(imported.assembly, HeaderRequestOf(Source(), Request(), 0x200, 0x30_0000, imported.directories, None, None));
  }

  lemma RebuildSucceeds()
    ensures InImage(Source(), Plan().sections) && Finished(Source(), CapturedBytes(), Request(), Plan()).Ok?
    ensures Outcome(Source(), Capture(), Request(), Found()) == Finished(Source(), CapturedBytes(), Request(), Plan())
  {
    hide CapturedBytes, Crowded, Only, Prepared, Sections.Outcome, Finished, InImage;
    NothingToNormalise();
    SectionsAre();
    RestFinishes();
  }

  lemma PlanIs()
    ensures Outcome(Source(), Capture(), Request(), Found()).Ok? && Prepared(Source(), Capture(), Request()).Ok?
    ensures NormalImage(Source(), Capture(), Request()) == CapturedBytes()
    ensures PlanOf(Source(), Capture(), Request(), Found()) == Plan()
    ensures InImage(Source(), Plan().sections) && Finished(Source(), CapturedBytes(), Request(), Plan()).Ok?
    ensures Rebuilt(Source(), Capture(), Request(), Found()) == StagesOf(Source(), CapturedBytes(), Request(), Plan())
  {
    hide Source, CapturedBytes, Imports, Outcome, Prepared, Sections.Outcome, Finished, InImage, StagesOf;
    RebuildSucceeds();
    NothingToNormalise();
    SectionsAre();
    OutcomeSteps(Source(), Capture(), Request(), Found());
  }

  lemma RebuildIsLoadable()
    ensures Outcome(Source(), Capture(), Request(), Found()).Ok? && Loadable(Source(), Capture(), Request(), Found())
  {
    hide Source, Capture, Found, CapturedBytes, Imports, Outcome, Prepared, Sections.Outcome, Finished, StagesOf, HeaderAgrees,
      Parser.Parsed, TablesOf, PlanOf, NormalImage, Rebuilt, InImage, IsBase, Sections.MakeName;
    PlanIs();
    RestFinishes();
    SourceIsParsed();
    HeaderIsCaptured();
    ImportsPlaced(Rebuilt(Source(), Capture(), Request(), Found()).base);
  }

  /** The rebuilt file parses, and its import table is refused. */
  lemma CrowdedModuleIsRefused()
    ensures Outcome(Source(), Capture(), Request(), Found()).Ok?
    ensures Loadable(Source(), Capture(), Request(), Found())
    ensures var file := Outcome(Source(), Capture(), Request(), Found()).value.bytes;
            Parser.Outcome(file).Ok? && !Validator.Valid(file, Parser.Outcome(file).value)
  {
    hide Outcome, Loadable, Parser.Outcome, Validator.Valid, Imported.IatInOneSection, Source, CapturedBytes, Found;
    RebuildIsLoadable();
    Imported.RebuiltImportsAccepted(Source(), Capture(), Request(), Found());
    assert !RoundTrip.Short(Imports().modules[0]);
  }
}
