/** The header of a rebuilt file, in numbers: what it keeps of the captured
    header, what it drops, and what it says about the rebuilt sections. */
module RebuiltHeaderLaws {
  import opened Bytes
  import opened Structs
  import opened Alignment
  import opened PeFormat
  import opened ImportTypes
  import opened PeImageFixer
  import opened AssemblyLaws
  import opened FixerLaws
  import opened RebuiltFileLaws
  import opened RebuildLaws
  import opened PeOffsetLaws
  import opened RebuiltSectionLaws
  import Sections = SectionLayoutRebuilder
  import Builder = ImportTableBuilder
  import Headers = PeHeaderWriter
  import HeaderLaws
  import Parser = PeParser
  import Exact = PeParserLaws
  import Imported = RebuiltImportLaws

  // ---- the stored fields ----

  lemma StoredFields(layout: Layout, image: Bytes, a: Assembly, r: Headers.HeaderRequest, f: Bytes)
    requires Written(layout, image, a, r, f) && HeaderAgrees(layout, image) && Parser.Parsed(layout)
    ensures Headers.TotalsOf(layout.format, a.headers).Some? && Fits(f, layout.ntHeaderOffset, NtSize(layout.format))
    ensures Parser.FileFields(f, layout.ntHeaderOffset) == FileHeader(layout, image, a, r)
    ensures Parser.OptionalFields(f, layout.ntHeaderOffset, layout.format) == OptionalHeader(layout, image, a, r)
  {
    hide Good, Headers.Outcome, Headers.TotalsOf, Headers.NewOptionalFields, Headers.NewFileFields, Parser.OptionalFields,
      Parser.FileFields, OptionalWidths, FieldsFit, ReadAt, IsPowerOfTwo, Parser.OrderedFrom, HeaderLaws.StoredOptional,
      HeaderLaws.StoredFile;
    WrittenBytes(layout, image, a, r, f);
    HeaderLaws.HeadersReadBack(a.bytes, layout, a.headers, r);
    HeaderLaws.WriterNeeds(a.bytes, layout, a.headers, r);
    StoredSame(layout, image, a, r);
  }

  /** Optional-header fields that stay as captured: linker, alignments,
      versions, subsystem, stack and heap sizes and loader flags. */
  predicate Kept(k: nat) {
    k == 1 || k == 2 || 10 <= k <= 18 || k == 22 || 24 <= k <= 28
  }

  ghost predicate SameField(a: Bytes, b: Bytes, at: nat, width: nat) {
    Fits(a, at, width) && Fits(b, at, width) && ReadAt(a, at, width) == ReadAt(b, at, width)
  }

  lemma KeptFields(layout: Layout, image: Bytes, a: Assembly, r: Headers.HeaderRequest, f: Bytes, k: nat)
    requires Written(layout, image, a, r, f) && HeaderAgrees(layout, image) && Parser.Parsed(layout) && k < 62 && Kept(k)
    ensures SameField(f, image, layout.ntHeaderOffset + OptionalOffset(layout.format, k), OptionalWidth(layout.format, k))
  {
    hide Written, HeaderAgrees, Parser.Parsed, Parser.OptionalFields, OptionalOffset, OptionalWidth, Headers.TotalsOf,
      Headers.NewDirectory, Headers.NewDllCharacteristics, ReadAt;
    StoredFields(layout, image, a, r, f);
    ImageFits(layout, image);
    OptionalRead(f, layout.ntHeaderOffset, layout.format, k);
    OptionalRead(image, layout.ntHeaderOffset, layout.format, k);
  }

  lemma ImageFits(layout: Layout, image: Bytes)
    requires HeaderAgrees(layout, image)
    ensures Fits(image, layout.ntHeaderOffset, NtSize(layout.format))
  {
  }

  // ---- the data directories ----

  /** The DataDirectory entry that the capture's header holds. */
  function CapturedDirectory(layout: Layout, image: Bytes, i: nat): Directory
    requires i < 16 && Fits(image, layout.ntHeaderOffset, NtSize(layout.format))
  {
    DirectoryAt(image, layout.ntHeaderOffset + (if layout.format.Pe32? then 120 else 136) + 8 * i)
  }

  /** Security (4), load configuration (10), bound (11) and delayed (13)
      imports are dropped; base relocations (5), thread-local storage (9),
      imports (1) and the IAT (12) are those of the rebuild; all others stay. */
  ghost predicate DirectoryIs(found: Directory, i: nat, captured: Directory, imports: Option<Headers.ImportDirectories>,
                              relocations: Option<Directory>, tls: Option<Directory>)
  {
    (i in {4, 10, 11, 13} ==> found == Directory(0, 0))
    && (i == 1 ==> found == if imports.Some? then imports.value.descriptors else Directory(0, 0))
    && (i == 12 ==> found == if imports.Some? then imports.value.iat else Directory(0, 0))
    && (i == 5 ==> found == if relocations.Some? then relocations.value else Directory(0, 0))
    && (i == 9 ==> found == if tls.Some? then tls.value else Directory(0, 0))
    && (i !in {1, 4, 5, 9, 10, 11, 12, 13} ==> found == captured)
  }

  lemma DirectoryStored(layout: Layout, image: Bytes, a: Assembly, r: Headers.HeaderRequest, f: Bytes, i: nat)
    requires Written(layout, image, a, r, f) && HeaderAgrees(layout, image) && Parser.Parsed(layout) && i < 16
    ensures Parser.Outcome(f).Ok? && Fits(image, layout.ntHeaderOffset, NtSize(layout.format))
    ensures DirectoryIs(Parser.Outcome(f).value.directories[i], i, CapturedDirectory(layout, image, i), r.imports, r.relocations,
                        r.tlsDirectory)
  {
    hide Written, HeaderAgrees, Parser.Parsed, Parser.OptionalFields, Parser.FileFields, Headers.TotalsOf, Parser.Outcome, ReadAt,
      OptionalWidths, FieldsFit, Parser.DirectoriesOf, HeaderLaws.StoredOptional, HeaderLaws.StoredFile;
    ImageFits(layout, image);
    WrittenFileParses(layout, image, a, r, f);
    NewDirectoryRead(layout, image, a, r, i);
    Exact.DirectoryFields(image, layout.ntHeaderOffset, layout.format, i);
  }

  // ---- flags ----

  lemma FlagsStored(layout: Layout, image: Bytes, a: Assembly, r: Headers.HeaderRequest, f: Bytes)
    requires Written(layout, image, a, r, f) && HeaderAgrees(layout, image) && Parser.Parsed(layout)
    ensures Parser.Outcome(f).Ok? && Fits(image, layout.ntHeaderOffset, NtSize(layout.format))
    ensures var p, d := Parser.Outcome(f).value, ReadAt(image, layout.ntHeaderOffset + 94, 2);
            var moves := r.relocations.Some? && r.enableDynamicBase;
            p.characteristics == layout.characteristics / 2 * 2 + (if r.relocations.Some? then 0 else 1)
            && p.dllCharacteristics / 0x80 == d / 0x80 && p.dllCharacteristics % 0x20 == d % 0x20
            && (p.dllCharacteristics / 0x40 % 2 == 1 <==> moves)
            && (p.dllCharacteristics / 0x20 % 2 == 1 <==> moves && layout.format.Pe64? && r.enableHighEntropyVa)
  {
    hide Written, HeaderAgrees, Parser.Parsed, Parser.OptionalFields, Parser.FileFields, Headers.TotalsOf, Parser.Outcome, ReadAt,
      OptionalWidths, FieldsFit, Parser.DirectoriesOf, Headers.NewDllCharacteristics, Headers.NewDirectory, Has, Set, Clear;
    ImageFits(layout, image);
    WrittenFileParses(layout, image, a, r, f);
    Exact.FieldsOf(image, layout.ntHeaderOffset, layout.format);
    Powers();
    NewDllBits(layout.format, ReadAt(image, layout.ntHeaderOffset + 94, 2), r);
    NewFileBits(layout.characteristics);
  }

  lemma NewFileBits(c: U16)
    ensures Set(c, RELOCS_STRIPPED) == c / 2 * 2 + 1 && Clear(c, RELOCS_STRIPPED) == c / 2 * 2
  {
  }

  lemma SetBit(flags: nat, weight: nat, high: nat, bit: nat, low: nat)
    requires weight > 0 && bit < 2 && low < weight && flags == (2 * high + bit) * weight + low
    ensures Set(flags, weight) == (2 * high + 1) * weight + low
    ensures Clear(flags, weight) == 2 * high * weight + low
  {
    UniqueRemainder(flags, weight, 2 * high + bit, low);
  }

  lemma NewDllBits(format: Format, d: U16, r: Headers.HeaderRequest)
    ensures var n, moves := Headers.NewDllCharacteristics(format, d, r), r.relocations.Some? && r.enableDynamicBase;
            n / 0x80 == d / 0x80 && n % 0x20 == d % 0x20 && (n / 0x40 % 2 == 1 <==> moves)
            && (n / 0x20 % 2 == 1 <==> moves && format.Pe64? && r.enableHighEntropyVa)
  {
    hide Set, Clear, Has, Word;
    var high, six, five, low := d / 0x80, d / 0x40 % 2, d / 0x20 % 2, d % 0x20;
    WordIs(d);
    assert d == Word(high, six, five, low);
    SetHigh(high, six, five, low);
    SetLow(high, 1, five, low);
    SetLow(high, 0, five, low);
    WordParts(high, 1, 1, low);
    WordParts(high, 1, 0, low);
    WordParts(high, 0, 0, low);
  }

  /** A flag word by its bits 6 and 5 and the rest. */
  function Word(high: nat, six: nat, five: nat, low: nat): nat {
    128 * high + 64 * six + 32 * five + low
  }

  lemma WordIs(d: nat)
    ensures d == Word(d / 0x80, d / 0x40 % 2, d / 0x20 % 2, d % 0x20)
  {
    BitParts(d);
    HalfTwice(d, 64);
  }

  lemma HalfTwice(d: nat, m: nat)
    requires m > 0
    ensures d / m == 2 * (d / (2 * m)) + d / m % 2
  {
    var q := d / m;
    assert d == m * q + d % m && q == 2 * (q / 2) + q % 2;
    UniqueRemainder(d, 2 * m, q / 2, m * (q % 2) + d % m);
  }

  lemma WordParts(high: nat, six: nat, five: nat, low: nat)
    requires six < 2 && five < 2 && low < 32
    ensures var n := Word(high, six, five, low);
            n / 0x80 == high && n / 0x40 % 2 == six && n / 0x20 % 2 == five && n % 0x20 == low
  {
    WordBits(high, six, five, low);
    assert Word(high, six, five, low) / 0x80 == high by {
      UniqueRemainder(Word(high, six, five, low), 0x80, high, 64 * six + 32 * five + low);
    }
    assert Word(high, six, five, low) % 0x20 == low by {
      UniqueRemainder(Word(high, six, five, low), 0x20, 4 * high + 2 * six + five, low);
    }
  }

  lemma QuotientBit(n: nat, m: nat, q: nat, bit: nat, low: nat)
    requires m > 0 && bit < 2 && low < m && n == m * (2 * q + bit) + low
    ensures n / m % 2 == bit
  {
    UniqueRemainder(n, m, 2 * q + bit, low);
    UniqueRemainder(2 * q + bit, 2, q, bit);
  }

  lemma WordBits(high: nat, six: nat, five: nat, low: nat)
    requires six < 2 && five < 2 && low < 32
    ensures Word(high, six, five, low) / 0x40 % 2 == six && Word(high, six, five, low) / 0x20 % 2 == five
  {
    QuotientBit(Word(high, six, five, low), 0x40, high, six, 32 * five + low);
    QuotientBit(Word(high, six, five, low), 0x20, 2 * high + six, five, low);
  }

  lemma SetHigh(high: nat, six: nat, five: nat, low: nat)
    requires six < 2 && five < 2 && low < 32
    ensures Set(Word(high, six, five, low), 0x40) == Word(high, 1, five, low)
    ensures Clear(Word(high, six, five, low), 0x40) == Word(high, 0, five, low)
  {
    SetBit(Word(high, six, five, low), 0x40, high, six, 32 * five + low);
  }

  lemma SetLow(high: nat, six: nat, five: nat, low: nat)
    requires six < 2 && five < 2 && low < 32
    ensures Set(Word(high, six, five, low), 0x20) == Word(high, six, 1, low)
    ensures Clear(Word(high, six, five, low), 0x20) == Word(high, six, 0, low)
  {
    SetBit(Word(high, six, five, low), 0x20, 2 * high + six, five, low);
  }

  // ---- totals ----

  ghost predicate HasBit(s: Section, bit: nat)
    requires bit > 0
  {
    s.characteristics / bit % 2 == 1
  }

  /** The raw size of all sections with the flag. */
  ghost function RawTotal(sections: seq<Section>, bit: nat): nat
    requires bit > 0
  {
    if sections == [] then 0
    else
      var n := |sections| - 1;
      RawTotal(sections[..n], bit) + if HasBit(sections[n], bit) then sections[n].rawSize else 0
  }

  /** The lowest address of a section with the flag, or 0 if none has it. */
  ghost predicate IsLowest(base: int, sections: seq<Section>, bit: nat)
    requires bit > 0
  {
    (base == 0 && NoneHas(sections, bit))
    || ((exists k :: 0 <= k < |sections| && HasBit(sections[k], bit) && sections[k].virtualAddress == base)
        && forall k :: 0 <= k < |sections| && HasBit(sections[k], bit) ==> base <= sections[k].virtualAddress)
  }

  ghost predicate NoneHas(sections: seq<Section>, bit: nat)
    requires bit > 0
  {
    forall k :: 0 <= k < |sections| ==> !HasBit(sections[k], bit)
  }

  ghost predicate Above(sections: seq<Section>) {
    forall k :: 0 <= k < |sections| ==> sections[k].virtualAddress > 0
  }

  lemma LowestStep(base: U32, sections: seq<Section>, bit: nat)
    requires bit > 0 && sections != [] && Above(sections) && IsLowest(base, sections[..|sections| - 1], bit)
    ensures var s := sections[|sections| - 1];
            IsLowest(if HasBit(s, bit) then Headers.LowestBase(base, s.virtualAddress) else base, sections, bit)
  {
    hide HasBit;
    var before, n := sections[..|sections| - 1], |sections| - 1;
    assert forall k :: 0 <= k < n ==> before[k] == sections[k];
    if k :| 0 <= k < |before| && HasBit(before[k], bit) && before[k].virtualAddress == base {
      assert HasBit(sections[k], bit) && sections[k].virtualAddress == base;
    }
  }

  lemma {:induction false} TotalsAre(format: Format, sections: seq<Section>)
    requires Above(sections)
    ensures Headers.TotalsOf(format, sections).Some?
            <==> RawTotal(sections, 0x20) <= U32_MAX && RawTotal(sections, 0x40) <= U32_MAX && RawTotal(sections, 0x80) <= U32_MAX
    ensures Headers.TotalsOf(format, sections).Some? ==>
      var t := Headers.TotalsOf(format, sections).value;
      t.code == RawTotal(sections, 0x20) && t.initialized == RawTotal(sections, 0x40) && t.uninitialized == RawTotal(sections, 0x80)
      && IsLowest(t.baseOfCode, sections, 0x20)
      && (if format.Pe32? then IsLowest(t.baseOfData, sections, 0x40) else t.baseOfData == 0)
  {
    hide IsLowest, HasBit, Headers.LowestBase;
    if sections == [] {
      NoneIsLowest();
    } else {
      var s, before := sections[|sections| - 1], sections[..|sections| - 1];
      TotalsAre(format, before);
      BitsAre(s);
      if Headers.TotalsOf(format, before).Some? {
        var t := Headers.TotalsOf(format, before).value;
        LowestStep(t.baseOfCode, sections, 0x20);
        if format.Pe32? {
          LowestStep(t.baseOfData, sections, 0x40);
        }
      }
    }
  }

  lemma NoneIsLowest()
    ensures forall bit: nat :: bit > 0 ==> IsLowest(0, [], bit)
  {
  }

  lemma BitsAre(s: Section)
    ensures Has(s.characteristics, CNT_CODE) <==> HasBit(s, 0x20)
    ensures Has(s.characteristics, CNT_INITIALIZED_DATA) <==> HasBit(s, 0x40)
    ensures Has(s.characteristics, CNT_UNINITIALIZED_DATA) <==> HasBit(s, 0x80)
  {
  }

  /** The written numbers that depend on the sections, the constants, and the kept fields of the file header. */
  ghost predicate NumbersAre(format: Format, nt: int, image: Bytes, h: seq<Section>, f: Bytes)
    requires Fits(f, nt, NtSize(format)) && Fits(image, nt, NtSize(format))
  {
    ReadAt(f, nt + 28, 4) == RawTotal(h, 0x20) && ReadAt(f, nt + 32, 4) == RawTotal(h, 0x40)
    && ReadAt(f, nt + 36, 4) == RawTotal(h, 0x80) && IsLowest(ReadAt(f, nt + 44, 4), h, 0x20)
    && (format.Pe32? ==> IsLowest(ReadAt(f, nt + 48, 4), h, 0x40))
    && ReadAt(f, nt + 88, 4) == 0 && ReadAt(f, nt + if format.Pe32? then 116 else 132, 4) == 16
    && SameField(f, image, nt + 8, 4) && SameField(f, image, nt + 12, 4) && SameField(f, image, nt + 16, 4)
    && ReadAt(f, nt + 20, 2) == if format.Pe32? then 224 else 240
  }

  lemma NumbersStored(layout: Layout, image: Bytes, a: Assembly, r: Headers.HeaderRequest, f: Bytes)
    requires Written(layout, image, a, r, f) && HeaderAgrees(layout, image) && Parser.Parsed(layout) && Above(a.headers)
    ensures var nt := layout.ntHeaderOffset;
            Fits(f, nt, NtSize(layout.format)) && Fits(image, nt, NtSize(layout.format))
            && NumbersAre(layout.format, nt, image, a.headers, f)
  {
    hide Written, HeaderAgrees, Parser.Parsed, Parser.OptionalFields, Parser.FileFields, Headers.TotalsOf, Above, IsLowest, RawTotal,
      Headers.NewDllCharacteristics, Headers.NewDirectory, ReadAt, Set, Clear;
    StoredFields(layout, image, a, r, f);
    ImageFits(layout, image);
    TotalsAre(layout.format, a.headers);
    var nt, format := layout.ntHeaderOffset, layout.format;
    OptionalRead(f, nt, format, SIZE_OF_CODE);
    OptionalRead(f, nt, format, SIZE_OF_INITIALIZED_DATA);
    OptionalRead(f, nt, format, SIZE_OF_UNINITIALIZED_DATA);
    OptionalRead(f, nt, format, BASE_OF_CODE);
    OptionalRead(f, nt, format, BASE_OF_DATA);
    OptionalRead(f, nt, format, CHECK_SUM);
    OptionalRead(f, nt, format, DIRECTORY_ENTRIES);
    FileRest(f, nt);
    FileRest(image, nt);
    FileRead(f, nt);
  }

  // ---- the rebuilt file ----

  /** The directory spans the IAT ranges of all modules, tightly. */
  ghost predicate SpansIat(d: Directory, format: Format, modules: seq<ImportModule>) {
    (forall i :: 0 <= i < |modules| ==> d.address <= modules[i].firstThunk && IatEnd(format, modules[i]) <= d.address + d.size)
    && (exists i :: 0 <= i < |modules| && modules[i].firstThunk == d.address)
    && exists i :: 0 <= i < |modules| && IatEnd(format, modules[i]) == d.address + d.size
  }

  ghost function IatEnd(format: Format, m: ImportModule): int {
    m.firstThunk + |m.symbols| * if format.Pe32? then 4 else 8
  }

  /** What data directory `i` of the rebuilt file says, where `n` sections were planned. */
  ghost predicate DirectoryExact(i: nat, p: Layout, n: nat, captured: Directory, request: FixRequest, tls: Option<Directory>)
    requires i < 16
  {
    var d := p.directories[i];
    if i == 1 || i == 12 then
      if !HasImports(request.imports) then d == Directory(0, 0)
      else if i == 12 then SpansIat(d, p.format, request.imports.value.modules)
      else n < |p.sections| && d.address == p.sections[n].virtualAddress && d.size == 20 * (|request.imports.value.modules| + 1)
    else if i == 5 then
      if request.placement.FixedPlacement? then d == Directory(0, 0)
      else p.sections != [] && d == Directory(p.sections[|p.sections| - 1].virtualAddress, p.sections[|p.sections| - 1].virtualSize)
    else if i == 9 then d == (if tls.Some? then tls.value else Directory(0, 0))
    else if i in {4, 10, 11, 13} then d == Directory(0, 0)
    else d == captured
  }

  /** The fields that no section decides. */
  ghost predicate FieldsExact(layout: Layout, image: Bytes, file: Bytes, p: Layout, request: FixRequest) {
    var nt, d := layout.ntHeaderOffset, if Fits(image, layout.ntHeaderOffset + 94, 2) then ReadAt(image, layout.ntHeaderOffset + 94, 2) else 0;
    var relocated := request.placement.RelocatedPlacement?;
    var moves := relocated && request.placement.plan.enableDynamicBase;
    p.format == layout.format && p.ntHeaderOffset == nt && Fits(image, nt, 96)
    && (forall k :: 0 <= k < 62 && Kept(k) ==>
          SameField(file, image, nt + OptionalOffset(layout.format, k), OptionalWidth(layout.format, k)))
    && SameField(file, image, nt + 8, 4) && SameField(file, image, nt + 12, 4) && SameField(file, image, nt + 16, 4)
    && p.entryPoint == request.oep && p.preferredImageBase == ImageBase(request.placement)
    && p.characteristics == layout.characteristics / 2 * 2 + (if relocated then 0 else 1)
    && p.dllCharacteristics / 0x80 == d / 0x80 && p.dllCharacteristics % 0x20 == d % 0x20
    && (p.dllCharacteristics / 0x40 % 2 == 1 <==> moves)
    && (p.dllCharacteristics / 0x20 % 2 == 1 <==> moves && layout.format.Pe64? && request.placement.plan.enableHighEntropyVa)
  }

  /** The fields that add up the sections. */
  ghost predicate TotalsExact(layout: Layout, file: Bytes, p: Layout)
    requires layout.fileAlignment > 0 && layout.sectionAlignment > 0
  {
    var nt, h := layout.ntHeaderOffset, p.sections;
    Fits(file, nt, 24 + if layout.format.Pe32? then 224 else 240) && h != []
    && ReadAt(file, nt + 28, 4) == RawTotal(h, 0x20) && ReadAt(file, nt + 32, 4) == RawTotal(h, 0x40)
    && ReadAt(file, nt + 36, 4) == RawTotal(h, 0x80) && IsLowest(ReadAt(file, nt + 44, 4), h, 0x20)
    && (layout.format.Pe32? ==> IsLowest(ReadAt(file, nt + 48, 4), h, 0x40))
    && ReadAt(file, nt + 88, 4) == 0 && ReadAt(file, nt + if layout.format.Pe32? then 116 else 132, 4) == 16
    && RoundedUp(p.sizeOfHeaders, nt + 24 + (if layout.format.Pe32? then 224 else 240) + 40 * |h|, layout.fileAlignment)
    && RoundedUp(p.sizeOfImage, h[|h| - 1].virtualAddress + h[|h| - 1].virtualSize, layout.sectionAlignment)
  }

  lemma HeadersRounded(layout: Layout, image: Bytes, request: FixRequest, plan: Sections.SectionPlan)
    requires layout.fileAlignment > 0 && layout.sectionAlignment > 0 && InImage(layout, plan.sections)
    requires layout.sizeOfImage <= |image| && Finished(layout, image, request, plan).Ok?
    requires Presentable(layout, image, request, plan)
    ensures RoundedUp(StagesOf(layout, image, request, plan).headerSize,
                      layout.ntHeaderOffset + NtSize(layout.format) + 40 * SectionCount(|plan.sections|,
                                                                                        request), layout.fileAlignment)
    ensures HeaderAgrees(layout, image) && Parser.Parsed(layout)
  {
    hide PlaceAll, WithImports, WithRelocations, Headers.Outcome, IsPowerOfTwo, AlignUp, TablesOf, HeaderRequestOf, StartAssembly,
      Assembled;
    FileIsWritten(layout, image, request, plan);
    AlignedUp(layout.ntHeaderOffset + NtSize(layout.format) + 40 * SectionCount(|plan.sections|, request), layout.fileAlignment);
  }

  lemma SectionsAbove(layout: Layout, a: Assembly, headerSize: nat)
    requires Good(layout, a, headerSize) && headerSize > 0 && a.headers != [] && headerSize <= a.headers[0].virtualAddress
    ensures Above(a.headers)
  {
    hide IsPowerOfTwo;
  }

  lemma RequestOf(layout: Layout, image: Bytes, request: FixRequest, plan: Sections.SectionPlan)
    requires layout.fileAlignment > 0 && layout.sectionAlignment > 0 && InImage(layout, plan.sections)
    requires layout.sizeOfImage <= |image| && Finished(layout, image, request, plan).Ok?
    ensures var r := StagesOf(layout, image, request, plan).request;
            r.tlsDirectory == plan.tlsDirectory
            && (r.enableDynamicBase <==> request.placement.RelocatedPlacement? && request.placement.plan.enableDynamicBase)
            && (r.enableHighEntropyVa <==> request.placement.RelocatedPlacement? && request.placement.plan.enableHighEntropyVa)
  {
    hide PlaceAll, WithImports, WithRelocations, Headers.Outcome, IsPowerOfTwo, AlignUp, StartAssembly, Assembled, HeaderSize;
  }

  lemma SpanIs(ctx: Builder.Context, plan: ImportPlan, from: U32, to: U32)
    requires plan.modules != [] && Imported.Spans(ctx, plan, |plan.modules|, from, to) && from < to
    ensures SpansIat(Directory(from, to - from), ctx.format, plan.modules)
  {
    hide Builder.ModuleShapeValid, Imported.SymbolsShaped;
    forall i | 0 <= i < |plan.modules|
      ensures from <= plan.modules[i].firstThunk && IatEnd(ctx.format, plan.modules[i]) <= to
    {
      RangeIs(ctx, plan.modules[i]);
    }
    var i :| 0 <= i < |plan.modules| && Builder.ModuleShapeValid(ctx, plan.modules[i])
             && from == Builder.RangeOf(ctx, plan.modules[i]).begin;
    RangeIs(ctx, plan.modules[i]);
    var j :| 0 <= j < |plan.modules| && Builder.ModuleShapeValid(ctx, plan.modules[j])
             && to == Builder.RangeOf(ctx, plan.modules[j]).end;
    RangeIs(ctx, plan.modules[j]);
  }

  lemma RangeIs(ctx: Builder.Context, m: ImportModule)
    requires Builder.ModuleShapeValid(ctx, m)
    ensures Builder.RangeOf(ctx, m).begin == m.firstThunk && Builder.RangeOf(ctx, m).end == IatEnd(ctx.format, m)
  {
  }

  /** The import directories of a rebuild with imports. */
  lemma ImportDirectoriesExact(layout: Layout, image: Bytes, request: FixRequest, plan: Sections.SectionPlan, p: Layout)
    requires layout.fileAlignment > 0 && layout.sectionAlignment > 0 && InImage(layout, plan.sections)
    requires layout.sizeOfImage <= |image| && Finished(layout, image, request, plan).Ok?
    requires Presentable(layout, image, request, plan) && HasImports(request.imports)
    requires Emitted(layout, request, StagesOf(layout, image, request, plan), p)
    ensures DirectoryExact(12, p, |plan.sections|, Directory(0, 0), request, None)
    ensures DirectoryExact(1, p, |plan.sections|, Directory(0, 0), request, None)
  {
    hide Finished, StagesOf, Presentable, Good, Has, Builder.AddModules, Parser.Parsed, PatchedBase, SpansIat,
         Imported.Spans, Contains,
      FileOf;
    var s, imports := StagesOf(layout, image, request, plan), request.imports.value;
    var ctx := ImportContext(layout, s.base, s.base.end);
    ImportedFacts(layout, image, request, plan);
    PlacedFacts(layout, image, request, plan);
    Imported.PlanIsInFile(layout, image, request, plan, p);
    Imported.TablesGrow(ctx, imports, s.base.bytes, |imports.modules|);
    Imported.BaseCovers(layout, image, request, plan);
    BoundedTables(layout, image, request, plan);
    WrapSmall((|imports.modules| + 1) * DESCRIPTOR_SIZE);
    var done := TablesOf(layout, s.base, imports).value;
    SpanIs(ctx, imports, done.iatStart, done.iatEnd);
    var h, n := s.imported.assembly.headers, |plan.sections|;
    assert p.sections[..|h|] == h && h[n].virtualAddress == s.base.end && p.sections[n] == p.sections[..|h|][n];
  }

  lemma BoundedTables(layout: Layout, image: Bytes, request: FixRequest, plan: Sections.SectionPlan)
    requires layout.fileAlignment > 0 && layout.sectionAlignment > 0 && InImage(layout, plan.sections)
    requires layout.sizeOfImage <= |image| && Finished(layout, image, request, plan).Ok?
    requires Presentable(layout, image, request, plan) && HasImports(request.imports)
    requires TablesOf(layout, StagesOf(layout, image, request, plan).base, request.imports.value).Ok?
    ensures |TablesOf(layout, StagesOf(layout, image, request, plan).base, request.imports.value).value.tables.importBytes| <= LIMIT
  {
    hide Finished, StagesOf, TablesOf, Parser.Parsed, HeaderAgrees;
  }

  lemma DirectoriesExact(layout: Layout, image: Bytes, request: FixRequest, plan: Sections.SectionPlan, p: Layout, i: nat)
    requires layout.fileAlignment > 0 && layout.sectionAlignment > 0 && InImage(layout, plan.sections)
    requires layout.sizeOfImage <= |image| && Finished(layout, image, request, plan).Ok?
    requires Presentable(layout, image, request, plan) && ImageBase(request.placement) != 0 && i < 16
    requires Emitted(layout, request, StagesOf(layout, image, request, plan), p)
    requires Parser.Outcome(FileOf(layout, image, request, plan)) == Ok(p)
    ensures Fits(image, layout.ntHeaderOffset, NtSize(layout.format))
    ensures DirectoryExact(i, p, |plan.sections|, CapturedDirectory(layout, image, i), request, plan.tlsDirectory)
  {
    hide Finished, StagesOf, Presentable, Good, Has, Parser.Parsed, PatchedBase, SpansIat, FileOf, CapturedDirectory, Written,
      Parser.Outcome, HeaderAgrees, TablesOf, Contains;
    var s, f := StagesOf(layout, image, request, plan), FileOf(layout, image, request, plan);
    FinishedIsWritten(layout, image, request, plan);
    HeadersRounded(layout, image, request, plan);
    RequestOf(layout, image, request, plan);
    DirectoryStored(layout, image, s.placed.assembly, s.request, f, i);
    PlacedFacts(layout, image, request, plan);
    if !HasImports(request.imports) {
      Imported.NoImportDirectories(layout, image, request, plan);
    } else if i == 1 || i == 12 {
      ImportDirectoriesExact(layout, image, request, plan, p);
    }
  }

  lemma FieldsAreExact(layout: Layout, image: Bytes, request: FixRequest, plan: Sections.SectionPlan, p: Layout)
    requires layout.fileAlignment > 0 && layout.sectionAlignment > 0 && InImage(layout, plan.sections)
    requires layout.sizeOfImage <= |image| && Finished(layout, image, request, plan).Ok?
    requires Presentable(layout, image, request, plan) && ImageBase(request.placement) != 0
    requires Emitted(layout, request, StagesOf(layout, image, request, plan), p)
    requires Parser.Outcome(FileOf(layout, image, request, plan)) == Ok(p)
    ensures FieldsExact(layout, image, FileOf(layout, image, request, plan), p, request)
    ensures TotalsExact(layout, FileOf(layout, image, request, plan), p)
    ensures HeadersAre(layout, request, plan.sections, p.sections)
  {
    hide Finished, StagesOf, Presentable, Good, Has, Parser.Parsed, PatchedBase, FileOf, Written, Parser.Outcome,
         HeaderAgrees, TablesOf,
      Contains, ReadAt, SameField, RawTotal, IsLowest, HeadersAre, OptionalOffset, OptionalWidth, Above, Kept;
    var s, f := StagesOf(layout, image, request, plan), FileOf(layout, image, request, plan);
    FinishedIsWritten(layout, image, request, plan);
    HeadersRounded(layout, image, request, plan);
    RequestOf(layout, image, request, plan);
    PlacedFacts(layout, image, request, plan);
    StageHeaders(layout, image, request, plan);
    FileBody(layout, image, request, plan, 0);
    FirstAbove(layout, image, request, plan);
    FlagsStored(layout, image, s.placed.assembly, s.request, f);
    NumbersStored(layout, image, s.placed.assembly, s.request, f);
    forall k | 0 <= k < 62 && Kept(k)
      ensures SameField(f, image, layout.ntHeaderOffset + OptionalOffset(layout.format, k), OptionalWidth(layout.format, k))
    {
      KeptFields(layout, image, s.placed.assembly, s.request, f, k);
    }
  }

  lemma FirstAbove(layout: Layout, image: Bytes, request: FixRequest, plan: Sections.SectionPlan)
    requires layout.fileAlignment > 0 && layout.sectionAlignment > 0 && InImage(layout, plan.sections)
    requires layout.sizeOfImage <= |image| && Finished(layout, image, request, plan).Ok?
    requires Presentable(layout, image, request, plan) && ImageBase(request.placement) != 0
    ensures StagesOf(layout, image, request, plan).placed.assembly.headers != []
    ensures Above(StagesOf(layout, image, request, plan).placed.assembly.headers)
  {
    hide Finished, StagesOf, Good, HeaderAgrees, TablesOf, Parser.Parsed, PlanOrdered, RoundedUp;
    var s := StagesOf(layout, image, request, plan);
    PlacedFacts(layout, image, request, plan);
    EntryInside(layout, image, request, plan);
    HeaderSizePositive(layout, image, request, plan);
    SectionsAbove(layout, s.placed.assembly, s.headerSize);
  }

  lemma HeaderSizePositive(layout: Layout, image: Bytes, request: FixRequest, plan: Sections.SectionPlan)
    requires layout.fileAlignment > 0 && layout.sectionAlignment > 0 && InImage(layout, plan.sections)
    requires layout.sizeOfImage <= |image| && Finished(layout, image, request, plan).Ok?
    requires Presentable(layout, image, request, plan)
    ensures StagesOf(layout, image, request, plan).headerSize > 0
  {
    hide Finished, StagesOf, Presentable;
    HeadersRounded(layout, image, request, plan);
  }

  lemma PlannedTls(layout: Layout, input: Sections.Input)
    requires Sections.Outcome(layout, input).Ok?
    ensures Sections.Outcome(layout, input).value.tlsDirectory == input.evidence.tlsDirectory
  {
    hide Sections.Planned, Sections.SectionOf;
  }

  /** Everything the header of a rebuilt file says: fields kept from the capture,
      fields set by the request, data directories, section headers and totals. */
  lemma RebuiltHeaderIsExact(layout: Layout, dump: CapturedImage, request: FixRequest, discovery: Discovery)
    requires Outcome(layout, dump, request, discovery).Ok? && Loadable(layout, dump, request, discovery)
    ensures layout.fileAlignment > 0 && layout.sectionAlignment > 0
    ensures var file, image := Outcome(layout, dump, request, discovery).value.bytes, NormalImage(layout, dump, request);
            var plan := PlanOf(layout, dump, request, discovery);
            Parser.Outcome(file).Ok? && Fits(image, layout.ntHeaderOffset, NtSize(layout.format))
            && var p := Parser.Outcome(file).value;
               FieldsExact(layout, image, file, p, request)
               && (forall i :: 0 <= i < 16 ==>
                     DirectoryExact(i, p, |plan.sections|, CapturedDirectory(layout, image, i), request,
                                    discovery.evidence.tlsDirectory))
               && HeadersAre(layout, request, plan.sections, p.sections) && TotalsExact(layout, file, p)
  {
    hide Outcome, Finished, StagesOf, Presentable, Loadable, Prepared, Parser.Outcome, Sections.Outcome, Emitted, FieldsExact,
      TotalsExact, HeadersAre, DirectoryExact, CapturedDirectory;
    OutcomeSteps(layout, dump, request, discovery);
    LoadableIsPresentable(layout, dump, request, discovery);
    var image, plan := NormalImage(layout, dump, request), PlanOf(layout, dump, request, discovery);
    RebuiltFileParses(layout, image, request, plan);
    PlannedTls(layout, SectionInput(dump, image, request, discovery));
    var p := Parser.Outcome(FileOf(layout, image, request, plan)).value;
    FieldsAreExact(layout, image, request, plan, p);
    forall i | 0 <= i < 16
      ensures Fits(image, layout.ntHeaderOffset, NtSize(layout.format))
      ensures DirectoryExact(i, p, |plan.sections|, CapturedDirectory(layout, image, i), request, plan.tlsDirectory)
    {
      DirectoriesExact(layout, image, request, plan, p, i);
    }
    DirectoriesExact(layout, image, request, plan, p, 0);
  }
}
