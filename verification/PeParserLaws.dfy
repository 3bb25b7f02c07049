/** The parser accepts a file as a layout exactly when the file stores that
    layout, at the offsets of the format, and the layout can be loaded. */
module PeParserLaws {
  import opened Bytes
  import opened Structs
  import opened Alignment
  import opened PeFormat
  import opened PeOffsetLaws
  import Parser = PeParser
  import Rebased = RebasedFileLaws

  function Pow2(k: nat): (p: nat)
    ensures p >= 1
  {
    if k == 0 then 1 else 2 * Pow2(k - 1)
  }

  ghost predicate Power(v: nat) {
    exists k: nat :: v == Pow2(k)
  }

  lemma {:induction false} PowerIs(v: nat)
    ensures IsPowerOfTwo(v) <==> Power(v)
  {
    if v > 1 && v % 2 == 0 {
      PowerIs(v / 2);
      if k: nat :| v / 2 == Pow2(k) {
        assert v == Pow2(k + 1);
      }
      if k: nat :| v == Pow2(k) {
        assert v / 2 == Pow2(k - 1);
      }
    } else if v == 1 {
      assert v == Pow2(0);
    } else {
      forall k: nat ensures v != Pow2(k) {
        PowerShape(k);
      }
    }
  }

  lemma PowerShape(k: nat)
    ensures Pow2(k) == 1 || (Pow2(k) > 1 && Pow2(k) % 2 == 0)
  {
  }

  /** The section's address range in the image. */
  ghost function EndOf(s: Section): nat {
    s.virtualAddress + if s.rawSize > s.virtualSize then s.rawSize else s.virtualSize
  }

  ghost predicate Follows(sections: seq<Section>, k: nat)
    requires 0 < k < |sections|
  {
    EndOf(sections[k - 1]) <= sections[k].virtualAddress
  }

  ghost predicate InOrder(sections: seq<Section>) {
    forall k :: 0 < k < |sections| ==> Follows(sections, k)
  }

  /** The DOS header, the signatures and the numbers that a loadable file has. */
  ghost predicate Loads(bytes: Bytes, p: Layout)
    requires ReadsFrom(bytes, p)
  {
    var nt := p.ntHeaderOffset;
    ReadAt(bytes, 0, 2) == 0x5a4d && 64 <= nt < 0x8000_0000 && ReadAt(bytes, nt, 4) == 0x4550
    && p.machine == (if p.format.Pe32? then 0x14c else 0x8664) && p.characteristics / 2 % 2 == 1
    && ReadAt(bytes, nt + 20, 2) >= (if p.format.Pe32? then 224 else 240)
    && Power(p.fileAlignment) && Power(p.sectionAlignment) && p.fileAlignment <= p.sectionAlignment
    && 0 < p.sizeOfImage <= 0x4000_0000 && p.sizeOfHeaders <= p.sizeOfImage && p.preferredImageBase != 0
    && 1 <= |p.sections| <= 96 && p.entryPoint < p.sizeOfImage && InOrder(p.sections)
    && forall k :: 0 <= k < |p.sections| ==> SectionLoads(bytes, p, p.sections[k])
  }

  ghost predicate SectionLoads(bytes: Bytes, p: Layout, s: Section) {
    EndOf(s) <= p.sizeOfImage && (s.rawSize != 0 ==> s.rawOffset + s.rawSize <= |bytes|)
  }

  // ---- the section loop ----

  /** Section `k` of the list is stored in the table and lies where it may. */
  ghost predicate Stored(bytes: Bytes, table: nat, sizeOfImage: U32, sections: seq<Section>, k: nat)
    requires k < |sections| && Fits(bytes, table, |sections| * SECTION_HEADER_SIZE)
  {
    Parser.SectionAt(bytes, table + k * SECTION_HEADER_SIZE) == sections[k] && EndOf(sections[k]) <= sizeOfImage
    && (sections[k].rawSize != 0 ==> sections[k].rawOffset + sections[k].rawSize <= |bytes|)
  }

  lemma LoopStep(bytes: Bytes, table: nat, sizeOfImage: U32, index: nat, sections: seq<Section>, previousEnd: nat)
    requires index < |sections| && Fits(bytes, table, |sections| * SECTION_HEADER_SIZE)
    ensures Parser.SectionsFrom(bytes, table, sizeOfImage, index, |sections|, previousEnd) == Ok(sections[index..])
            <==> Stored(bytes, table, sizeOfImage, sections, index) && previousEnd <= sections[index].virtualAddress
                 && Parser.SectionsFrom(bytes, table, sizeOfImage, index + 1, |sections|, EndOf(sections[index]))
                    == Ok(sections[index + 1..])
  {
    hide Parser.SectionAt;
    var s := Parser.SectionAt(bytes, table + index * SECTION_HEADER_SIZE);
    var rest := Parser.SectionsFrom(bytes, table, sizeOfImage, index + 1, |sections|, s.virtualAddress + s.Extent());
    assert sections[index..] == [sections[index]] + sections[index + 1..];
    if rest.Ok? {
      assert ([s] + rest.value)[1..] == rest.value && sections[index..][1..] == sections[index + 1..];
    }
  }

  /** The section loop collects the list exactly when it is stored, in order. */
  lemma {:induction false} LoopAccepts(bytes: Bytes, table: nat, sizeOfImage: U32, index: nat, sections: seq<Section>,
                                       previousEnd: nat)
    requires index <= |sections| && Fits(bytes, table, |sections| * SECTION_HEADER_SIZE)
    ensures Parser.SectionsFrom(bytes, table, sizeOfImage, index, |sections|, previousEnd) == Ok(sections[index..])
            <==> (forall k :: index <= k < |sections| ==> Stored(bytes, table, sizeOfImage, sections, k))
                 && (forall k :: index < k < |sections| ==> Follows(sections, k))
                 && (index < |sections| ==> previousEnd <= sections[index].virtualAddress)
    decreases |sections| - index
  {
    hide Parser.SectionsFrom, Stored, EndOf;
    if index < |sections| {
      LoopStep(bytes, table, sizeOfImage, index, sections, previousEnd);
      LoopAccepts(bytes, table, sizeOfImage, index + 1, sections, EndOf(sections[index]));
      if index + 1 < |sections| {
        assert Follows(sections, index + 1) <==> EndOf(sections[index]) <= sections[index + 1].virtualAddress;
      }
    } else {
      LoopEnds(bytes, table, sizeOfImage, sections, previousEnd);
    }
  }

  lemma LoopEnds(bytes: Bytes, table: nat, sizeOfImage: U32, sections: seq<Section>, previousEnd: nat)
    requires Fits(bytes, table, |sections| * SECTION_HEADER_SIZE)
    ensures Parser.SectionsFrom(bytes, table, sizeOfImage, |sections|, |sections|, previousEnd) == Ok(sections[|sections|..])
  {
    assert sections[|sections|..] == [];
  }

  // ---- the whole parser ----

  lemma FieldsOf(bytes: Bytes, nt: nat, format: Format)
    requires Fits(bytes, nt, NtSize(format))
    ensures var f := Parser.OptionalFields(bytes, nt, format);
            f[MAGIC] == ReadAt(bytes, nt + 24, 2) && f[ENTRY_POINT] == ReadAt(bytes, nt + 40, 4)
            && f[IMAGE_BASE] == (if format.Pe32? then ReadAt(bytes, nt + 52, 4) else ReadAt(bytes, nt + 48, 8))
            && f[SECTION_ALIGNMENT] == ReadAt(bytes, nt + 56, 4) && f[FILE_ALIGNMENT] == ReadAt(bytes, nt + 60, 4)
            && f[SIZE_OF_IMAGE] == ReadAt(bytes, nt + 80, 4) && f[SIZE_OF_HEADERS] == ReadAt(bytes, nt + 84, 4)
            && f[DLL_CHARACTERISTICS] == ReadAt(bytes, nt + 94, 2)
            && f[DIRECTORY_ENTRIES] == ReadAt(bytes, nt + if format.Pe32? then 116 else 132, 4)
  {
    hide ReadAt, Parser.OptionalFields;
    OptionalRead(bytes, nt, format, MAGIC);
    OptionalRead(bytes, nt, format, ENTRY_POINT);
    OptionalRead(bytes, nt, format, IMAGE_BASE);
    OptionalRead(bytes, nt, format, SECTION_ALIGNMENT);
    OptionalRead(bytes, nt, format, FILE_ALIGNMENT);
    OptionalRead(bytes, nt, format, SIZE_OF_IMAGE);
    OptionalRead(bytes, nt, format, SIZE_OF_HEADERS);
    OptionalRead(bytes, nt, format, DLL_CHARACTERISTICS);
    OptionalRead(bytes, nt, format, DIRECTORY_ENTRIES);
  }

  lemma DirectoryFields(bytes: Bytes, nt: nat, format: Format, i: nat)
    requires Fits(bytes, nt, NtSize(format)) && i < 16
    ensures var f, at := Parser.OptionalFields(bytes, nt, format), nt + if format.Pe32? then 120 else 136;
            Fits(bytes, at + 8 * i, 8)
            && f[FIRST_DIRECTORY + 2 * i] == ReadAt(bytes, at + 8 * i, 4)
            && f[FIRST_DIRECTORY + 2 * i + 1] == ReadAt(bytes, at + 8 * i + 4, 4)
  {
    hide ReadAt, Parser.OptionalFields;
    OptionalRead(bytes, nt, format, FIRST_DIRECTORY + 2 * i);
    OptionalRead(bytes, nt, format, FIRST_DIRECTORY + 2 * i + 1);
  }

  lemma DirectoriesRead(bytes: Bytes, p: Layout, i: nat)
    requires i < 16 && Rebased.ReadFrom(bytes, p)
    ensures DirectoryReadsFrom(bytes, p, i)
  {
    hide ReadAt, Parser.OptionalFields, Parser.FileFields, Parser.SectionsFrom, Parser.AlignmentValid, Parser.NtOffset, Has;
    var f := Parser.OptionalFields(bytes, p.ntHeaderOffset, p.format);
    Parser.OptionalFieldRanges(p.format, f);
    FieldsOf(bytes, p.ntHeaderOffset, p.format);
    DirectoryFields(bytes, p.ntHeaderOffset, p.format, i);
  }

  /** The layout's fields, without its sections, are those stored. */
  ghost predicate FieldsRead(bytes: Bytes, p: Layout)
    requires Fits(bytes, p.ntHeaderOffset, NtSize(p.format))
  {
    var nt := p.ntHeaderOffset;
    p.machine == ReadAt(bytes, nt + 4, 2) && p.characteristics == ReadAt(bytes, nt + 22, 2)
    && p.imageKind == (if ReadAt(bytes, nt + 22, 2) / 0x2000 % 2 == 1 then DynamicLibrary else Executable)
    && p.entryPoint == ReadAt(bytes, nt + 40, 4)
    && p.preferredImageBase == (if p.format.Pe32? then ReadAt(bytes, nt + 52, 4) else ReadAt(bytes, nt + 48, 8))
    && p.sectionAlignment == ReadAt(bytes, nt + 56, 4) && p.fileAlignment == ReadAt(bytes, nt + 60, 4)
    && p.sizeOfImage == ReadAt(bytes, nt + 80, 4) && p.sizeOfHeaders == ReadAt(bytes, nt + 84, 4)
    && p.dllCharacteristics == ReadAt(bytes, nt + 94, 2)
    && p.sourceLoadPolicy == SourceLoadPolicy(
         p.preferredImageBase, p.dllCharacteristics / 0x40 % 2 == 1, p.dllCharacteristics / 0x20 % 2 == 1,
         p.characteristics % 2 == 0 && p.directories[5].address != 0 && p.directories[5].size != 0)
    && forall i :: 0 <= i < 16 ==> DirectoryReadsFrom(bytes, p, i)
  }

  lemma LayoutOfRead(bytes: Bytes, p: Layout)
    requires Fits(bytes, p.ntHeaderOffset, NtSize(p.format))
    ensures var nt := p.ntHeaderOffset;
            p == Parser.LayoutOf(p.format, nt, Parser.FileFields(bytes, nt), Parser.OptionalFields(bytes, nt, p.format), p.sections)
            <==> FieldsRead(bytes, p)
  {
    hide ReadAt, Parser.OptionalFields, Parser.FileFields, DirectoryReadsFrom, DirectoryAt;
    var nt := p.ntHeaderOffset;
    var h, f := Parser.FileFields(bytes, nt), Parser.OptionalFields(bytes, nt, p.format);
    Parser.OptionalFieldRanges(p.format, f);
    Powers();
    FileRead(bytes, nt);
    FieldsOf(bytes, nt, p.format);
    var directories := Parser.DirectoriesOf(f);
    DirectoriesAre(bytes, p);
    assert p.directories == directories <==> forall i :: 0 <= i < 16 ==> p.directories[i] == directories[i];
  }

  lemma DirectoriesAre(bytes: Bytes, p: Layout)
    requires Fits(bytes, p.ntHeaderOffset, NtSize(p.format))
    ensures var f := Parser.OptionalFields(bytes, p.ntHeaderOffset, p.format);
            (forall k :: FIRST_DIRECTORY <= k < 62 ==> f[k] <= U32_MAX)
            && forall i :: 0 <= i < 16 ==> (DirectoryReadsFrom(bytes, p, i) <==> p.directories[i] == Parser.DirectoriesOf(f)[i])
  {
    hide ReadAt, Parser.OptionalFields;
    var nt := p.ntHeaderOffset;
    var f := Parser.OptionalFields(bytes, nt, p.format);
    Parser.OptionalFieldRanges(p.format, f);
    FieldsOf(bytes, nt, p.format);
    forall i | 0 <= i < 16 ensures DirectoryReadsFrom(bytes, p, i) <==> p.directories[i] == Parser.DirectoriesOf(f)[i] {
      DirectoryFields(bytes, nt, p.format, i);
    }
  }

  lemma FieldsSplit(bytes: Bytes, p: Layout)
    requires Fits(bytes, p.ntHeaderOffset, NtSize(p.format))
    ensures ReadsFrom(bytes, p)
            <==> Fits(bytes, 0, 64) && p.ntHeaderOffset == ReadAt(bytes, 60, 4)
                 && ReadAt(bytes, p.ntHeaderOffset + 24, 2) == (if p.format.Pe32? then 0x10b else 0x20b)
                 && FieldsRead(bytes, p) && |p.sections| == ReadAt(bytes, p.ntHeaderOffset + 6, 2)
                 && Fits(bytes, TableAt(bytes, p.ntHeaderOffset), 40 * |p.sections|)
                 && forall k :: 0 <= k < |p.sections| ==>
                      SectionReadsFrom(bytes, TableAt(bytes, p.ntHeaderOffset) + 40 * k, p.sections[k])
  {
    hide ReadAt, DirectoryReadsFrom, SectionReadsFrom;
  }

  lemma SectionAtIs(bytes: Bytes, at: nat, s: Section)
    requires Fits(bytes, at, 40)
    ensures Parser.SectionAt(bytes, at) == s <==> SectionReadsFrom(bytes, at, s)
  {
    hide ReadAt, Parser.SectionAt;
    SectionRead(bytes, at);
  }

  lemma SectionsRead(bytes: Bytes, p: Layout, table: nat)
    requires Fits(bytes, table, |p.sections| * SECTION_HEADER_SIZE)
    ensures Parser.SectionsFrom(bytes, table, p.sizeOfImage, 0, |p.sections|, 0) == Ok(p.sections)
            <==> (forall k :: 0 <= k < |p.sections| ==> SectionReadsFrom(bytes, table + 40 * k, p.sections[k]))
                 && (forall k :: 0 <= k < |p.sections| ==> SectionLoads(bytes, p, p.sections[k])) && InOrder(p.sections)
  {
    hide Parser.SectionAt, SectionReadsFrom, Parser.SectionsFrom, EndOf;
    assert p.sections[0..] == p.sections;
    LoopAccepts(bytes, table, p.sizeOfImage, 0, p.sections, 0);
    forall k | 0 <= k < |p.sections|
      ensures Stored(bytes, table, p.sizeOfImage, p.sections, k)
              <==> SectionReadsFrom(bytes, table + 40 * k, p.sections[k]) && SectionLoads(bytes, p, p.sections[k])
    {
      SectionAtIs(bytes, table + 40 * k, p.sections[k]);
    }
  }

  /** Reading and accepting: the parser returns `p` exactly when `p` is stored and loadable. */
  lemma ParseIsExact(bytes: Bytes, p: Layout)
    ensures Parser.Outcome(bytes) == Ok(p) <==> ReadsFrom(bytes, p) && Loads(bytes, p)
  {
    hide Parser.Outcome, Rebased.ReadFrom, ReadsFrom, Loads;
    if Parser.Outcome(bytes) == Ok(p) {
      Rebased.ParsedIsReadFrom(bytes);
      ReadFromIs(bytes, p);
    }
    if ReadsFrom(bytes, p) && Loads(bytes, p) {
      ReadFromIs(bytes, p);
      Rebased.ReadFromParses(bytes, p);
    }
  }

  lemma ReadFromIs(bytes: Bytes, p: Layout)
    ensures Rebased.ReadFrom(bytes, p) <==> ReadsFrom(bytes, p) && Loads(bytes, p)
  {
    hide Rebased.ReadFrom, ReadsFrom, Loads;
    if Fits(bytes, p.ntHeaderOffset, NtSize(p.format)) && Fits(bytes, 0, 64)
       && Fits(bytes, TableAt(bytes, p.ntHeaderOffset), |p.sections| * SECTION_HEADER_SIZE) {
      ReadFromParts(bytes, p);
      LoadsParts(bytes, p);
    } else {
      NeedsTable(bytes, p);
    }
  }

  lemma NeedsTable(bytes: Bytes, p: Layout)
    ensures Rebased.ReadFrom(bytes, p) || ReadsFrom(bytes, p) ==>
      Fits(bytes, p.ntHeaderOffset, NtSize(p.format)) && Fits(bytes, 0, 64)
      && Fits(bytes, TableAt(bytes, p.ntHeaderOffset), |p.sections| * SECTION_HEADER_SIZE)
  {
    hide ReadAt, Parser.OptionalFields, Parser.FileFields, DirectoryReadsFrom, SectionReadsFrom, Parser.SectionsFrom,
      Parser.LayoutOf, IsPowerOfTwo, Parser.NtOffset, Has;
    if Rebased.ReadFrom(bytes, p) {
      FileRead(bytes, p.ntHeaderOffset);
    }
  }

  /** The parser's success, in parts. */
  ghost predicate Parts(bytes: Bytes, p: Layout)
    requires Fits(bytes, p.ntHeaderOffset, NtSize(p.format)) && Fits(bytes, 0, 64)
    requires Fits(bytes, TableAt(bytes, p.ntHeaderOffset), |p.sections| * SECTION_HEADER_SIZE)
  {
    var nt, table := p.ntHeaderOffset, TableAt(bytes, p.ntHeaderOffset);
    ReadAt(bytes, 0, 2) == 0x5a4d && ReadAt(bytes, 60, 4) == nt && 64 <= nt < 0x8000_0000 && ReadAt(bytes, nt, 4) == 0x4550
    && ReadAt(bytes, nt + 24, 2) == (if p.format.Pe32? then 0x10b else 0x20b)
    && ReadAt(bytes, nt + 20, 2) >= (if p.format.Pe32? then 224 else 240)
    && FieldsRead(bytes, p) && |p.sections| == ReadAt(bytes, nt + 6, 2) && 1 <= |p.sections| <= 96
    && p.machine == (if p.format.Pe32? then 0x14c else 0x8664) && p.characteristics / 2 % 2 == 1
    && Power(p.fileAlignment) && Power(p.sectionAlignment) && p.fileAlignment <= p.sectionAlignment
    && 0 < p.sizeOfImage <= 0x4000_0000 && p.sizeOfHeaders <= p.sizeOfImage && p.preferredImageBase != 0
    && p.entryPoint < p.sizeOfImage
    && Parser.SectionsFrom(bytes, table, p.sizeOfImage, 0, |p.sections|, 0) == Ok(p.sections)
  }

  lemma ReadFromParts(bytes: Bytes, p: Layout)
    requires Fits(bytes, p.ntHeaderOffset, NtSize(p.format)) && Fits(bytes, 0, 64)
    requires Fits(bytes, TableAt(bytes, p.ntHeaderOffset), |p.sections| * SECTION_HEADER_SIZE)
    ensures Rebased.ReadFrom(bytes, p) <==> Parts(bytes, p)
  {
    hide ReadAt, Parser.OptionalFields, Parser.FileFields, Parser.SectionsFrom, Parser.LayoutOf, IsPowerOfTwo, Power,
      DirectoryReadsFrom;
    LayoutOfRead(bytes, p);
    FieldsOf(bytes, p.ntHeaderOffset, p.format);
    FileRead(bytes, p.ntHeaderOffset);
    PowerIs(p.fileAlignment);
    PowerIs(p.sectionAlignment);
  }

  lemma LoadsParts(bytes: Bytes, p: Layout)
    requires Fits(bytes, p.ntHeaderOffset, NtSize(p.format)) && Fits(bytes, 0, 64)
    requires Fits(bytes, TableAt(bytes, p.ntHeaderOffset), |p.sections| * SECTION_HEADER_SIZE)
    ensures ReadsFrom(bytes, p) && Loads(bytes, p) <==> Parts(bytes, p)
  {
    hide ReadAt, Parser.SectionsFrom, Power, FieldsRead, SectionReadsFrom, SectionLoads, InOrder, ReadsFrom;
    FieldsSplit(bytes, p);
    SectionsRead(bytes, p, TableAt(bytes, p.ntHeaderOffset));
  }
}
