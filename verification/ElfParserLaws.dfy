/** The ELF parser in numbers: which files it accepts, why it refuses the
    others, and what a layout says about its file, at the offsets of the
    System V gABI. */
module ElfParserLaws {
  import opened Bytes
  import opened ElfFormat
  import opened ElfImageTypeClassifier
  import opened ElfParser
  import PowerLaws = PeParserLaws

  // ---- reading the file ----

  /** A stored number, or -1 where the file ends before it. */
  ghost function Num(b: Bytes, at: int, width: nat): int {
    if Fits(b, at, width) then ReadAt(b, at, width) else -1
  }

  ghost predicate Wide(b: Bytes) {
    |b| > 4 && b[4] == 2
  }

  /** A number as wide as an address. */
  ghost function Long(b: Bytes, at: int): int {
    Num(b, at, if Wide(b) then 8 else 4)
  }

  /** e_type, e_machine and e_version lie at the same place in both classes. */
  ghost predicate HeaderReads(b: Bytes, p: Layout) {
    var wide := Wide(b);
    p.imageClass == (if wide then Bits64 else Bits32)
    && p.entryPoint == Long(b, 24)
    && p.programHeaderOffset == Long(b, if wide then 32 else 28)
    && p.sectionHeaderOffset == Long(b, if wide then 40 else 32)
    && p.flags == Num(b, if wide then 48 else 36, 4)
    && p.programHeaderEntrySize == Num(b, if wide then 54 else 42, 2)
    && p.programHeaderCount == Num(b, if wide then 56 else 44, 2)
    && p.sectionHeaderEntrySize == Num(b, if wide then 58 else 46, 2)
    && p.sectionHeaderCount == Num(b, if wide then 60 else 48, 2)
  }

  ghost predicate ProgramReads(b: Bytes, at: int, h: ProgramHeader) {
    var wide := Wide(b);
    h.kind == Num(b, at, 4) && h.flags == Num(b, at + (if wide then 4 else 24), 4)
    && h.fileOffset == Long(b, at + if wide then 8 else 4) && h.virtualAddress == Long(b, at + if wide then 16 else 8)
    && h.physicalAddress == Long(b, at + if wide then 24 else 12) && h.fileSize == Long(b, at + if wide then 32 else 16)
    && h.memorySize == Long(b, at + if wide then 40 else 20) && h.alignment == Long(b, at + if wide then 48 else 28)
  }

  ghost function EntryStart(b: Bytes, table: int, k: nat): int {
    table + if Wide(b) then 56 * k else 32 * k
  }

  /** The layout's numbers are those stored in the file. */
  ghost predicate ReadsFrom(b: Bytes, p: Layout) {
    HeaderReads(b, p) && |p.programHeaders| == p.programHeaderCount
    && forall k :: 0 <= k < |p.programHeaders| ==> ProgramReads(b, EntryStart(b, p.programHeaderOffset, k), p.programHeaders[k])
  }

  // ---- what is demanded ----

  ghost predicate Magic(b: Bytes) {
    |b| >= 4 && b[0] == 0x7f && b[1] == 0x45 && b[2] == 0x4c && b[3] == 0x46
  }

  ghost predicate ProgramTableStands(b: Bytes) {
    var wide := Wide(b);
    var table, count := Long(b, if wide then 32 else 28), Num(b, if wide then 56 else 44, 2);
    Num(b, 20, 4) == 1 && Num(b, if wide then 52 else 40, 2) == (if wide then 64 else 52)
    && Num(b, if wide then 54 else 42, 2) == (if wide then 56 else 32)
    && 1 <= count <= 128 && table + count * (if wide then 56 else 32) <= |b|
    && table + count * (if wide then 56 else 32) <= 0xffff_ffff_ffff_ffff
  }

  ghost predicate SectionTableStands(b: Bytes) {
    var wide := Wide(b);
    var table, count := Long(b, if wide then 40 else 32), Num(b, if wide then 60 else 48, 2);
    count == 0
    || (Num(b, if wide then 58 else 46, 2) == (if wide then 64 else 40) && table + count * (if wide then 64 else 40) <= |b|
        && table + count * (if wide then 64 else 40) <= 0xffff_ffff_ffff_ffff)
  }

  /** No more file than memory, no overflow, and congruent addresses. */
  ghost predicate LoadStands(h: ProgramHeader) {
    h.fileSize <= h.memorySize && h.virtualAddress + h.memorySize <= 0xffff_ffff_ffff_ffff
    && h.fileOffset + h.fileSize <= 0xffff_ffff_ffff_ffff
    && (h.alignment == 0
        || (PowerLaws.Power(h.alignment) && h.virtualAddress % h.alignment == h.fileOffset % h.alignment))
  }

  ghost predicate LoadsStand(headers: seq<ProgramHeader>) {
    (exists k :: 0 <= k < |headers| && headers[k].kind == 1)
    && forall k :: 0 <= k < |headers| && headers[k].kind == 1 ==> LoadStands(headers[k])
  }

  ghost predicate RunsAt(h: ProgramHeader, entry: int) {
    h.kind == 1 && h.flags % 2 == 1 && h.virtualAddress <= entry < h.virtualAddress + h.memorySize
  }

  ghost predicate EntryRuns(headers: seq<ProgramHeader>, entry: int) {
    exists k :: 0 <= k < |headers| && RunsAt(headers[k], entry)
  }

  ghost function TagOf(b: Bytes, h: ProgramHeader, i: nat): int {
    Long(b, h.fileOffset + if Wide(b) then 16 * i else 8 * i)
  }

  /** A readable dynamic table has DT_SONAME before its end. */
  ghost predicate Names(b: Bytes, h: ProgramHeader) {
    var size := if Wide(b) then 16 else 8;
    h.kind == 2 && h.fileSize > 0 && h.fileSize % size == 0 && h.fileOffset + h.fileSize <= |b|
    && exists i :: 0 <= i < h.fileSize / size && TagOf(b, h, i) == 14 && forall j :: 0 <= j < i ==> TagOf(b, h, j) != 0
  }

  ghost predicate HasName(b: Bytes, headers: seq<ProgramHeader>) {
    exists k :: 0 <= k < |headers| && Names(b, headers[k])
  }

  /** The image type by e_type, entry point and, in a complete file, DT_SONAME. */
  ghost predicate KindIs(b: Bytes, whole: bool, p: Layout) {
    var runs := EntryRuns(p.programHeaders, p.entryPoint);
    if Num(b, 16, 2) == 2 then p.entryPoint != 0 && runs && p.imageType == Executable
    else if p.entryPoint == 0 || (whole && HasName(b, p.programHeaders)) then p.imageType == SharedObject
    else runs && p.imageType == PositionIndependentExecutable
  }

  // ---- the model, in numbers ----

  lemma HeaderIs(b: Bytes, c: ElfClass)
    requires |b| >= c.HeaderSize() && |b| > 4 && (c.Bits64? <==> Wide(b))
    ensures var f, wide := HeaderOf(b, c), Wide(b);
            f.kind == Num(b, 16, 2) && f.machine == Num(b, 18, 2) && f.version == Num(b, 20, 4) && f.entry == Long(b, 24)
            && f.programOffset == Long(b, if wide then 32 else 28) && f.sectionOffset == Long(b, if wide then 40 else 32)
            && f.flags == Num(b, if wide then 48 else 36, 4) && f.headerSize == Num(b, if wide then 52 else 40, 2)
            && f.programEntrySize == Num(b, if wide then 54 else 42, 2) && f.programCount == Num(b, if wide then 56 else 44, 2)
            && f.sectionEntrySize == Num(b, if wide then 58 else 46, 2) && f.sectionCount == Num(b, if wide then 60 else 48, 2)
  {
    hide ReadAt;
  }

  lemma ProgramIs(b: Bytes, c: ElfClass, at: nat)
    requires Fits(b, at, c.ProgramHeaderSize()) && |b| > 4 && (c.Bits64? <==> Wide(b))
    ensures forall h :: ProgramReads(b, at, h) <==> h == ProgramHeaderAt(b, c, at)
  {
    hide ReadAt;
  }

  lemma LoadIs(h: ProgramHeader)
    ensures LoadValid(h) <==> LoadStands(h)
  {
    PowerLaws.PowerIs(h.alignment);
    if h.alignment == 1 {
      assert h.virtualAddress % 1 == 0 && h.fileOffset % 1 == 0;
    }
  }

  lemma LoadsAre(headers: seq<ProgramHeader>)
    ensures LoadsValid(headers) && HasLoad(headers) <==> LoadsStand(headers)
  {
    hide LoadValid, LoadStands;
    forall k | 0 <= k < |headers| ensures LoadValid(headers[k]) <==> LoadStands(headers[k]) {
      LoadIs(headers[k]);
    }
  }

  lemma RunsIs(headers: seq<ProgramHeader>, entry: U64)
    ensures EntryExecutable(headers, entry) <==> EntryRuns(headers, entry)
  {
    forall k | 0 <= k < |headers| ensures HoldsEntry(headers[k], entry) <==> RunsAt(headers[k], entry) {
    }
  }

  lemma EntryOffset(b: Bytes, c: ElfClass, i: nat)
    requires c.Bits64? <==> Wide(b)
    ensures i * c.DynamicEntrySize() == (if Wide(b) then 16 * i else 8 * i)
  {
  }

  lemma {:induction false} SonameIs(b: Bytes, c: ElfClass, h: ProgramHeader, n: nat, i: nat)
    requires (c.Bits64? <==> Wide(b)) && h.fileSize == n * c.DynamicEntrySize() && h.fileOffset + h.fileSize <= |b| && i <= n
    ensures SonameFrom(b, c, h, i * c.DynamicEntrySize())
            <==> exists m :: i <= m < n && TagOf(b, h, m) == 14 && forall j :: i <= j < m ==> TagOf(b, h, j) != 0
    decreases n - i
  {
    hide ReadAt, TagOf;
    EntryOffset(b, c, i);
    EntryOffset(b, c, n);
    if i < n {
      EntryOffset(b, c, i + 1);
      TagIs(b, c, h, n, i);
      SonameIs(b, c, h, n, i + 1);
      if m :| i + 1 <= m < n && TagOf(b, h, m) == 14 && forall j :: i + 1 <= j < m ==> TagOf(b, h, j) != 0 {
        assert TagOf(b, h, i) != 0 ==> forall j :: i <= j < m ==> TagOf(b, h, j) != 0;
      }
    }
  }

  lemma TagIs(b: Bytes, c: ElfClass, h: ProgramHeader, n: nat, i: nat)
    requires (c.Bits64? <==> Wide(b)) && h.fileSize == n * c.DynamicEntrySize() && h.fileOffset + h.fileSize <= |b| && i < n
    ensures ReadUnsigned(b, h.fileOffset + i * c.DynamicEntrySize(), c.AddressWidth()) == TagOf(b, h, i)
    ensures i * c.DynamicEntrySize() < h.fileSize
  {
    hide ReadAt;
    EntryOffset(b, c, i);
    EntryOffset(b, c, n);
  }

  lemma NamesIs(b: Bytes, c: ElfClass, h: ProgramHeader)
    requires c.Bits64? <==> Wide(b)
    ensures TableReadable(|b|, c, h) && SonameFrom(b, c, h, 0) <==> Names(b, h)
  {
    hide TagOf, SonameFrom;
    var n := h.fileSize / c.DynamicEntrySize();
    if TableReadable(|b|, c, h) {
      assert h.fileSize == n * c.DynamicEntrySize();
      SonameIs(b, c, h, n, 0);
      assert 0 * c.DynamicEntrySize() == 0;
    }
  }

  lemma HasNameIs(b: Bytes, c: ElfClass, headers: seq<ProgramHeader>)
    requires c.Bits64? <==> Wide(b)
    ensures HasSoname(b, c, headers) <==> HasName(b, headers)
  {
    hide TableReadable, SonameFrom, Names;
    forall k | 0 <= k < |headers|
      ensures TableReadable(|b|, c, headers[k]) && SonameFrom(b, c, headers[k], 0) <==> Names(b, headers[k])
    {
      NamesIs(b, c, headers[k]);
    }
  }

  lemma KindExact(b: Bytes, c: ElfClass, layout: Layout, kind: U16, extent: Extent, p: Layout)
    requires (c.Bits64? <==> Wide(b)) && layout.imageClass == c && kind == Num(b, 16, 2)
    ensures var t := TypeOf(b, layout, kind, extent);
            t.Some? && p == layout.(imageType := t.value)
            <==> p == layout.(imageType := p.imageType) && KindIs(b, extent == CompleteFile, p)
    ensures TypeOf(b, layout, kind, extent).None? <==> forall t :: !KindIs(b, extent == CompleteFile, layout.(imageType := t))
  {
    hide HasSoname, HasName, EntryExecutable, EntryRuns;
    HasNameIs(b, c, layout.programHeaders);
    RunsIs(layout.programHeaders, layout.entryPoint);
    var t := TypeOf(b, layout, kind, extent);
    if t.Some? {
      assert KindIs(b, extent == CompleteFile, layout.(imageType := t.value));
    }
  }

  lemma TablesAre(b: Bytes, c: ElfClass)
    requires |b| >= c.HeaderSize() && |b| > 4 && (c.Bits64? <==> Wide(b))
    ensures TablesFit(b, c, HeaderOf(b, c)) <==> ProgramTableStands(b)
    ensures SectionTableFits(b, c, HeaderOf(b, c)) <==> SectionTableStands(b)
  {
    hide HeaderOf, Num;
    HeaderIs(b, c);
  }

  lemma StartIs(b: Bytes, c: ElfClass, table: nat, k: nat)
    requires c.Bits64? <==> Wide(b)
    ensures ProgramOffset(c, table, k) == EntryStart(b, table, k)
  {
  }

  lemma ProgramsAre(b: Bytes, c: ElfClass, table: nat, n: nat, headers: seq<ProgramHeader>)
    requires Fits(b, table, n * c.ProgramHeaderSize()) && |b| > 4 && (c.Bits64? <==> Wide(b))
    ensures headers == ProgramHeaders(b, c, table, n)
            <==> |headers| == n && forall k :: 0 <= k < n ==> ProgramReads(b, EntryStart(b, table, k), headers[k])
  {
    hide ProgramHeaderAt, ProgramHeaders, ProgramReads, EntryStart;
    forall k, h | 0 <= k < n
      ensures ProgramReads(b, EntryStart(b, table, k), h) <==> h == ProgramHeaders(b, c, table, n)[k]
    {
      ProgramHeadersAt(b, c, table, n, k);
      StartIs(b, c, table, k);
      ProgramIs(b, c, ProgramOffset(c, table, k));
    }
  }

  // ---- the whole parser ----

  ghost function SizeOfHeader(b: Bytes): nat {
    if Wide(b) then 64 else 52
  }

  /** The first demand that fails names the error; a file that meets all of them
      gives the layout stored in it, with the type that suits its entry point. */
  ghost predicate ParsedAs(b: Bytes, extent: Extent, r: Result<Layout, ParseError>) {
    if |b| < 16 then r == Err(Truncated)
    else if !Magic(b) then r == Err(InvalidMagic)
    else if b[4] != 1 && b[4] != 2 then r == Err(UnsupportedClass)
    else if b[5] != 1 then r == Err(UnsupportedEndianness)
    else if |b| < SizeOfHeader(b) then r == Err(Truncated)
    else if Num(b, 18, 2) != (if Wide(b) then 62 else 3) then r == Err(UnsupportedMachine)
    else if Num(b, 16, 2) != 2 && Num(b, 16, 2) != 3 then r == Err(UnsupportedType)
    else if !ProgramTableStands(b) then r == Err(InvalidProgramHeaders)
    else if extent == CompleteFile && !SectionTableStands(b) then r == Err(InvalidSectionHeaders)
    else
      exists p: Layout :: ReadsFrom(b, p)
        && if !LoadsStand(p.programHeaders) then r == Err(InvalidLoadSegment)
           else if forall t :: !KindIs(b, extent == CompleteFile, p.(imageType := t)) then r == Err(InvalidEntryPoint)
           else r == Ok(p) && KindIs(b, extent == CompleteFile, p)
  }

  lemma LayoutReads(b: Bytes, c: ElfClass, kind: ImageType)
    requires |b| >= c.HeaderSize() && |b| > 4 && (c.Bits64? <==> Wide(b))
    requires TablesFit(b, c, HeaderOf(b, c))
    ensures var f := HeaderOf(b, c);
            Fits(b, f.programOffset, f.programCount * c.ProgramHeaderSize())
            && ReadsFrom(b, LayoutOf(c, f, ProgramHeaders(b, c, f.programOffset, f.programCount), kind))
  {
    hide ProgramHeaders, HeaderOf, ProgramReads, Num;
    var f := HeaderOf(b, c);
    TableInBuffer(b, c, f);
    HeaderIs(b, c);
    ProgramsAre(b, c, f.programOffset, f.programCount, ProgramHeaders(b, c, f.programOffset, f.programCount));
  }

  /** The parser's result for every input. */
  lemma ParseIsExact(b: Bytes, extent: Extent)
    ensures ParsedAs(b, extent, Outcome(b, extent))
  {
    hide HeaderOf, ProgramHeaders, LoadsValid, HasLoad, LoadsStand, ReadsFrom, TypeOf, TablesFit, SectionTableFits, ProgramTableStands,
      SectionTableStands, KindIs, Num;
    if |b| >= 16 && Magic(b) && (b[4] == 1 || b[4] == 2) && b[5] == 1 && |b| >= SizeOfHeader(b) {
      assert b[..4] == MAGIC;
      var c := ClassOf(b[4]).value;
      HeaderIs(b, c);
      TablesAre(b, c);
      var f := HeaderOf(b, c);
      if TablesFit(b, c, f) {
        TableInBuffer(b, c, f);
        var layout := LayoutOf(c, f, ProgramHeaders(b, c, f.programOffset, f.programCount), Executable);
        LayoutReads(b, c, Executable);
        LoadsAre(layout.programHeaders);
        var kind := TypeOf(b, layout, f.kind, extent);
        KindExact(b, c, layout, f.kind, extent, if kind.Some? then layout.(imageType := kind.value) else layout);
        if kind.Some? {
          LayoutReads(b, c, kind.value);
        }
      }
    } else if |b| >= 16 {
      assert b[..4] == MAGIC <==> Magic(b);
    }
  }

  /** A layout is read from the file in one way only. */
  lemma ReadsOnce(b: Bytes, p: Layout, q: Layout)
    requires ReadsFrom(b, p) && ReadsFrom(b, q) && p.imageType == q.imageType
    ensures p == q
  {
    hide EntryStart, Num;
    forall k | 0 <= k < |p.programHeaders| ensures p.programHeaders[k] == q.programHeaders[k] {
      assert ProgramReads(b, EntryStart(b, p.programHeaderOffset, k), p.programHeaders[k]);
      assert ProgramReads(b, EntryStart(b, p.programHeaderOffset, k), q.programHeaders[k]);
    }
  }

  /** A file is accepted as a layout exactly when it meets every demand and stores that layout. */
  lemma AcceptedAs(b: Bytes, extent: Extent, p: Layout)
    ensures Outcome(b, extent) == Ok(p)
            <==> |b| >= 16 && Magic(b) && (b[4] == 1 || b[4] == 2) && b[5] == 1 && |b| >= SizeOfHeader(b)
                 && Num(b, 18, 2) == (if Wide(b) then 62 else 3) && (Num(b, 16, 2) == 2 || Num(b, 16, 2) == 3)
                 && ProgramTableStands(b) && (extent == CompleteFile ==> SectionTableStands(b))
                 && ReadsFrom(b, p) && LoadsStand(p.programHeaders) && KindIs(b, extent == CompleteFile, p)
  {
    hide Outcome, LoadsStand, ReadsFrom, ProgramTableStands, SectionTableStands, Num, EntryRuns, HasName;
    ParseIsExact(b, extent);
    var r := Outcome(b, extent);
    if ReadsFrom(b, p) && r.Err? {
      forall q: Layout | ReadsFrom(b, q) ensures q.(imageType := p.imageType) == p && ReadsFrom(b, q.(imageType := p.imageType)) {
        Retyped(b, q, p.imageType);
        ReadsOnce(b, q.(imageType := p.imageType), p);
      }
    }
    if ReadsFrom(b, p) && r.Ok? && ReadsFrom(b, r.value) {
      Retyped(b, r.value, p.imageType);
      ReadsOnce(b, r.value.(imageType := p.imageType), p);
    }
  }

  lemma Retyped(b: Bytes, p: Layout, kind: ImageType)
    requires ReadsFrom(b, p)
    ensures ReadsFrom(b, p.(imageType := kind))
  {
    hide ProgramReads, EntryStart, Num;
  }
}
