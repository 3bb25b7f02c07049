/** Rewrites the NT headers and the section table of an assembled image. */
module PeHeaderWriter {
  import opened Bytes
  import opened Structs
  import opened PeFormat
  import Parser = PeParser

  datatype ImportDirectories = ImportDirectories(descriptors: Directory, iat: Directory)

  /** Everything the headers must say about the rebuilt image. */
  datatype HeaderRequest = HeaderRequest(
    headerSize: U32, imageSize: U32, oep: U32, imageBase: U64,
    imports: Option<ImportDirectories>, relocations: Option<Directory>,
    enableDynamicBase: bool, enableHighEntropyVa: bool, tlsDirectory: Option<Directory>)

  // ---- section totals ----

  datatype Totals = Totals(code: U32, initialized: U32, uninitialized: U32, baseOfCode: U32, baseOfData: U32)

  function LowestBase(base: U32, address: U32): U32 {
    if base == 0 || address < base then address else base
  }

  /** One section added to the totals; None on 32-bit overflow. */
  function AddSection(format: Format, t: Totals, s: Section): Option<Totals> {
    var isCode, isData := Has(s.characteristics, CNT_CODE), Has(s.characteristics, CNT_INITIALIZED_DATA);
    var isBss := Has(s.characteristics, CNT_UNINITIALIZED_DATA);
    if (isCode && s.rawSize > U32_MAX - t.code) || (isData && s.rawSize > U32_MAX - t.initialized)
       || (isBss && s.rawSize > U32_MAX - t.uninitialized) then None
    else
      Some(Totals(
        if isCode then t.code + s.rawSize else t.code,
        if isData then t.initialized + s.rawSize else t.initialized,
        if isBss then t.uninitialized + s.rawSize else t.uninitialized,
        if isCode then LowestBase(t.baseOfCode, s.virtualAddress) else t.baseOfCode,
        if isData && format.Pe32? then LowestBase(t.baseOfData, s.virtualAddress) else t.baseOfData))
  }

  function TotalsOf(format: Format, sections: seq<Section>): (t: Option<Totals>)
    ensures t.Some? && format.Pe64? ==> t.value.baseOfData == 0
  {
    if sections == [] then Some(Totals(0, 0, 0, 0, 0))
    else
      var before := TotalsOf(format, sections[..|sections| - 1]);
      if before.None? then None else AddSection(format, before.value, sections[|sections| - 1])
  }

  lemma {:induction false} TotalsFail(format: Format, sections: seq<Section>, n: nat)
    requires n <= |sections| && TotalsOf(format, sections[..n]).None?
    ensures TotalsOf(format, sections).None?
    decreases |sections| - n
  {
    if n < |sections| {
      assert sections[..n + 1][..n] == sections[..n];
      TotalsFail(format, sections, n + 1);
    } else {
      assert sections[..n] == sections;
    }
  }

  lemma TotalsOfNothing(format: Format)
    ensures TotalsOf(format, []) == Some(Totals(0, 0, 0, 0, 0))
  {
  }

  lemma TotalsStep(format: Format, sections: seq<Section>, n: nat)
    requires n < |sections| && TotalsOf(format, sections[..n]).Some?
    ensures TotalsOf(format, sections[..n + 1]) == AddSection(format, TotalsOf(format, sections[..n]).value, sections[n])
  {
    hide AddSection;
    assert sections[..n + 1][..n] == sections[..n];
  }

  /** The section loop; sizes that no longer fit in 32 bits fail. */
  method CountSections(format: Format, sections: seq<Section>) returns (totals: Option<Totals>)
    ensures totals == TotalsOf(format, sections)
  {
    hide Has, TotalsOf;
    TotalsOfNothing(format);
    var code: U32, initialized: U32, uninitialized: U32 := 0, 0, 0;
    var baseOfCode: U32, baseOfData: U32 := 0, 0;
    var index := 0;
    while index < |sections|
      invariant 0 <= index <= |sections|
      invariant TotalsOf(format, sections[..index])
                == Some(Totals(code, initialized, uninitialized, baseOfCode, baseOfData))
    {
      var s := sections[index];
      TotalsStep(format, sections, index);
      if Has(s.characteristics, CNT_CODE) {
        if s.rawSize > U32_MAX - code {
          TotalsFail(format, sections, index + 1);
          return None;
        }
        code := code + s.rawSize;
        if baseOfCode == 0 || s.virtualAddress < baseOfCode {
          baseOfCode := s.virtualAddress;
        }
      }
      if Has(s.characteristics, CNT_INITIALIZED_DATA) {
        if s.rawSize > U32_MAX - initialized {
          TotalsFail(format, sections, index + 1);
          return None;
        }
        initialized := initialized + s.rawSize;
        if format.Pe32? && (baseOfData == 0 || s.virtualAddress < baseOfData) {
          baseOfData := s.virtualAddress;
        }
      }
      if Has(s.characteristics, CNT_UNINITIALIZED_DATA) {
        if s.rawSize > U32_MAX - uninitialized {
          TotalsFail(format, sections, index + 1);
          return None;
        }
        uninitialized := uninitialized + s.rawSize;
      }
      index := index + 1;
    }
    assert sections[..|sections|] == sections;
    totals := Some(Totals(code, initialized, uninitialized, baseOfCode, baseOfData));
  }

  // ---- the fields ----

  function NewFileFields(format: Format, characteristics: U16, h: seq<nat>, count: nat, relocated: bool): seq<nat>
    requires |h| == 7
  {
    h[FILE_MACHINE := format.Machine()][FILE_SECTION_COUNT := count][FILE_OPTIONAL_SIZE := OptionalSize(format)]
     [FILE_CHARACTERISTICS := if relocated then Clear(characteristics, RELOCS_STRIPPED)
                              else Set(characteristics, RELOCS_STRIPPED)]
  }

  function NewDllCharacteristics(format: Format, flags: U16, request: HeaderRequest): nat {
    if request.relocations.Some? && request.enableDynamicBase then
      var dynamic := Set(flags, DYNAMIC_BASE);
      if format.Pe64? && request.enableHighEntropyVa then Set(dynamic, HIGH_ENTROPY_VA)
      else Clear(dynamic, HIGH_ENTROPY_VA)
    else
      ClearPlacement(flags)
  }

  /** Data directory `i` after rewriting; stale loader tables are dropped. */
  function NewDirectory(i: nat, current: Directory, request: HeaderRequest): Directory {
    if i == TLS_DIRECTORY && request.tlsDirectory.Some? then request.tlsDirectory.value
    else if i == IMPORT_DIRECTORY && request.imports.Some? then request.imports.value.descriptors
    else if i == IAT_DIRECTORY && request.imports.Some? then request.imports.value.iat
    else if i == BASE_RELOCATION_DIRECTORY && request.relocations.Some? then request.relocations.value
    else if i in {SECURITY_DIRECTORY, BASE_RELOCATION_DIRECTORY, IMPORT_DIRECTORY, IAT_DIRECTORY,
                  DELAY_IMPORT_DIRECTORY, BOUND_IMPORT_DIRECTORY, TLS_DIRECTORY, LOAD_CONFIG_DIRECTORY}
      then NO_DIRECTORY
    else current
  }

  function NewScalars(format: Format, f: seq<nat>, t: Totals, request: HeaderRequest): (g: seq<nat>)
    requires |f| == 62 && f[DLL_CHARACTERISTICS] < 0x1_0000
    ensures |g| == 62
  {
    f[MAGIC := format.OptionalHeaderMagic()][IMAGE_BASE := request.imageBase][ENTRY_POINT := request.oep]
     [SIZE_OF_HEADERS := request.headerSize][SIZE_OF_IMAGE := request.imageSize]
     [SIZE_OF_CODE := t.code][SIZE_OF_INITIALIZED_DATA := t.initialized]
     [SIZE_OF_UNINITIALIZED_DATA := t.uninitialized][BASE_OF_CODE := t.baseOfCode][BASE_OF_DATA := t.baseOfData]
     [CHECK_SUM := 0][DLL_CHARACTERISTICS := NewDllCharacteristics(format, f[DLL_CHARACTERISTICS], request)]
     [DIRECTORY_ENTRIES := DIRECTORY_COUNT]
  }

  function NewOptionalFields(format: Format, f: seq<nat>, t: Totals, request: HeaderRequest): (g: seq<nat>)
    requires |f| == 62 && f[DLL_CHARACTERISTICS] < 0x1_0000
    requires forall k :: FIRST_DIRECTORY <= k < 62 ==> f[k] <= U32_MAX
    ensures |g| == 62
  {
    var scalars := NewScalars(format, f, t, request);
    seq(62, k requires 0 <= k < 62 =>
      if k < FIRST_DIRECTORY then scalars[k]
      else
        var i := (k - FIRST_DIRECTORY) / 2;
        var d := NewDirectory(i, Directory(f[FIRST_DIRECTORY + 2 * i], f[FIRST_DIRECTORY + 2 * i + 1]), request);
        if k % 2 == 0 then d.address else d.size)
  }

  function SectionTable(sections: seq<Section>): (s: Bytes)
    ensures |s| == |sections| * SECTION_HEADER_SIZE
  {
    if sections == [] then []
    else
      SectionHeaderSize();
      SectionTable(sections[..|sections| - 1]) + Pack(SECTION_WIDTHS, SectionFields(sections[|sections| - 1]))
  }

  function NtBytes(format: Format, h: seq<nat>, f: seq<nat>): (s: Bytes)
    requires |h| == 7 && |f| == 62
    ensures |s| == NtSize(format)
  {
    HeaderSizes(format);
    LittleEndian(NT_SIGNATURE, 4) + Pack(FILE_WIDTHS, h) + Pack(OptionalWidths(format), f)
  }

  /** The image with rewritten headers; None where the writer gives up. */
  function Outcome(bytes: Bytes, layout: Layout, sections: seq<Section>, request: HeaderRequest): (r: Option<Bytes>)
    ensures r.Some? ==> |r.value| == |bytes|
  {
    var format, nt := layout.format, layout.ntHeaderOffset;
    if !format.AddressFits(request.imageBase) || !Fits(bytes, nt, NtSize(format))
       || !Fits(bytes, nt + NtSize(format), |sections| * SECTION_HEADER_SIZE) then None
    else
      var totals := TotalsOf(format, sections);
      if totals.None? then None
      else
        var h := Parser.FileFields(bytes, nt);
        var f := Parser.OptionalFields(bytes, nt, format);
        Parser.OptionalFieldRanges(format, f);
        var h' := NewFileFields(format, layout.characteristics, h, |sections|, request.relocations.Some?);
        var f' := NewOptionalFields(format, f, totals.value, request);
        Some(Patch(Patch(bytes, nt, NtBytes(format, h', f')), nt + NtSize(format), SectionTable(sections)))
  }

  // ---- the writer ----

  /** Entry `i` of the DataDirectory array. */
  function DirectoryAt(f: seq<nat>, i: nat): Directory
    requires |f| == 62 && i < DIRECTORY_COUNT && forall k :: FIRST_DIRECTORY <= k < 62 ==> f[k] <= U32_MAX
  {
    Directory(f[FIRST_DIRECTORY + 2 * i], f[FIRST_DIRECTORY + 2 * i + 1])
  }

  /** Assigns one entry of the DataDirectory array. */
  function WithDirectory(f: seq<nat>, i: nat, d: Directory): (g: seq<nat>)
    requires |f| == 62 && i < DIRECTORY_COUNT && forall k :: FIRST_DIRECTORY <= k < 62 ==> f[k] <= U32_MAX
    ensures |g| == 62 && forall k :: FIRST_DIRECTORY <= k < 62 ==> g[k] <= U32_MAX
    ensures forall k :: 0 <= k < FIRST_DIRECTORY ==> g[k] == f[k]
    ensures forall j :: 0 <= j < DIRECTORY_COUNT ==> DirectoryAt(g, j) == if j == i then d else DirectoryAt(f, j)
  {
    f[FIRST_DIRECTORY + 2 * i := d.address][FIRST_DIRECTORY + 2 * i + 1 := d.size]
  }

  method ClearDirectories(f: seq<nat>, request: HeaderRequest) returns (g: seq<nat>)
    requires |f| == 62 && forall k :: FIRST_DIRECTORY <= k < 62 ==> f[k] <= U32_MAX
    ensures |g| == 62 && forall k :: FIRST_DIRECTORY <= k < 62 ==> g[k] <= U32_MAX
    ensures forall k :: 0 <= k < FIRST_DIRECTORY ==> g[k] == f[k]
    ensures forall i :: 0 <= i < DIRECTORY_COUNT ==> DirectoryAt(g, i) == NewDirectory(i, DirectoryAt(f, i), request)
  {
    hide WithDirectory, DirectoryAt;
    g := f;
    g := WithDirectory(g, SECURITY_DIRECTORY, NO_DIRECTORY);
    g := WithDirectory(g, BASE_RELOCATION_DIRECTORY, NO_DIRECTORY);
    g := WithDirectory(g, IMPORT_DIRECTORY, NO_DIRECTORY);
    g := WithDirectory(g, IAT_DIRECTORY, NO_DIRECTORY);
    g := WithDirectory(g, DELAY_IMPORT_DIRECTORY, NO_DIRECTORY);
    g := WithDirectory(g, BOUND_IMPORT_DIRECTORY, NO_DIRECTORY);
    g := WithDirectory(g, TLS_DIRECTORY, NO_DIRECTORY);
    g := WithDirectory(g, LOAD_CONFIG_DIRECTORY, NO_DIRECTORY);
    if request.tlsDirectory.Some? {
      g := WithDirectory(g, TLS_DIRECTORY, request.tlsDirectory.value);
    }
    if request.imports.Some? {
      g := WithDirectory(g, IMPORT_DIRECTORY, request.imports.value.descriptors);
      g := WithDirectory(g, IAT_DIRECTORY, request.imports.value.iat);
    }
    if request.relocations.Some? {
      g := WithDirectory(g, BASE_RELOCATION_DIRECTORY, request.relocations.value);
    }
  }

  method WriteHeaders(bytes: Bytes, layout: Layout, sections: seq<Section>, request: HeaderRequest)
    returns (written: Option<Bytes>)
    ensures written == Outcome(bytes, layout, sections, request)
  {
    hide NtBytes, SectionTable, Patch, TotalsOf, NewDirectory, NewDllCharacteristics, OptionalWidths;
    var format, nt := layout.format, layout.ntHeaderOffset;
    if !format.AddressFits(request.imageBase) || nt > |bytes| || NtSize(format) > |bytes| - nt {
      return None;
    }
    if !Fits(bytes, nt + NtSize(format), |sections| * SECTION_HEADER_SIZE) {
      return None;
    }
    var h := Parser.FileFields(bytes, nt);
    var f := Parser.OptionalFields(bytes, nt, format);
    Parser.OptionalFieldRanges(format, f);
    h := NewFileFields(format, layout.characteristics, h, |sections|, request.relocations.Some?);
    var totals := CountSections(format, sections);
    if totals.None? {
      return None;
    }
    var scalars := NewScalars(format, f, totals.value, request);
    assert forall k :: FIRST_DIRECTORY <= k < 62 ==> scalars[k] == f[k];
    var g := ClearDirectories(scalars, request);
    assert g == NewOptionalFields(format, f, totals.value, request) by {
      SameFields(format, f, totals.value, request, g);
    }
    var nested := Patch(bytes, nt, NtBytes(format, h, g));
    written := Some(Patch(nested, nt + NtSize(format), SectionTable(sections)));
  }

  lemma SameFields(format: Format, f: seq<nat>, t: Totals, request: HeaderRequest, g: seq<nat>)
    requires |f| == 62 && f[DLL_CHARACTERISTICS] < 0x1_0000
    requires forall k :: FIRST_DIRECTORY <= k < 62 ==> f[k] <= U32_MAX
    requires |g| == 62 && forall k :: FIRST_DIRECTORY <= k < 62 ==> g[k] <= U32_MAX
    requires forall k :: 0 <= k < FIRST_DIRECTORY ==> g[k] == NewScalars(format, f, t, request)[k]
    requires forall i :: 0 <= i < DIRECTORY_COUNT ==> DirectoryAt(g, i) == NewDirectory(i, DirectoryAt(f, i), request)
    ensures g == NewOptionalFields(format, f, t, request)
  {
    hide NewScalars, NewDirectory;
    var e := NewOptionalFields(format, f, t, request);
    forall k | 0 <= k < 62 ensures g[k] == e[k] {
      if k >= FIRST_DIRECTORY {
        var i := (k - FIRST_DIRECTORY) / 2;
        assert k == FIRST_DIRECTORY + 2 * i || k == FIRST_DIRECTORY + 2 * i + 1;
        assert (FIRST_DIRECTORY + 2 * i + 1 - FIRST_DIRECTORY) / 2 == i;
        assert DirectoryAt(g, i) == NewDirectory(i, DirectoryAt(f, i), request);
      }
    }
  }
}
