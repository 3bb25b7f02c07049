/** Where the fields of a PE header lie, as byte offsets from its signature, and
    what a parsed layout says about the bytes of its file. */
module PeOffsetLaws {
  import opened Bytes
  import opened Structs
  import opened PeFormat
  import Parser = PeParser

  // ---- fields of packed structures ----

  lemma {:induction false} UnpackedField(widths: seq<nat>, s: Bytes, k: nat)
    requires |s| == Size(widths) && k < |widths|
    ensures Size(widths[..k]) + widths[k] <= |s|
    ensures Unpack(widths, s)[k] == Unsigned(s[Size(widths[..k])..Size(widths[..k]) + widths[k]])
  {
    hide Unsigned;
    if k > 0 {
      var w, rest := widths[0], s[widths[0]..];
      UnpackedField(widths[1..], rest, k - 1);
      FirstSize(widths, k);
      var at := Size(widths[1..][..k - 1]);
      assert rest[at..at + widths[k]] == s[w + at..w + at + widths[k]];
    } else {
      assert widths[..0] == [];
    }
  }

  lemma FirstSize(widths: seq<nat>, k: nat)
    requires 0 < k <= |widths|
    ensures Size(widths[..k]) == widths[0] + Size(widths[1..][..k - 1])
  {
    assert widths[1..][..k - 1] == widths[..k][1..];
  }

  lemma SizeStep(widths: seq<nat>, k: nat)
    requires k < |widths|
    ensures Size(widths[..k + 1]) == Size(widths[..k]) + widths[k]
  {
    assert widths[..k + 1] == widths[..k] + [widths[k]];
    SizeAppend(widths[..k], [widths[k]]);
    assert [widths[k]][1..] == [];
  }

  lemma FieldRead(bytes: Bytes, at: nat, widths: seq<nat>, offset: nat, k: nat)
    requires Fits(bytes, at, Size(widths)) && k < |widths| && Size(widths[..k]) == offset
    ensures Fits(bytes, at + offset, widths[k])
    ensures Unpack(widths, Slice(bytes, at, Size(widths)))[k] == ReadAt(bytes, at + offset, widths[k])
  {
    hide Size, Unpack, Unsigned;
    var s := Slice(bytes, at, Size(widths));
    UnpackedField(widths, s, k);
    SamePart(bytes, at, |s|, offset, widths[k]);
  }

  lemma SamePart(bytes: Bytes, at: nat, size: nat, offset: nat, n: nat)
    requires Fits(bytes, at, size) && offset + n <= size
    ensures Slice(bytes, at, size)[offset..offset + n] == Slice(bytes, at + offset, n)
  {
    var s := Slice(bytes, at, size);
    var part, other := s[offset..offset + n], Slice(bytes, at + offset, n);
    forall i | 0 <= i < n ensures part[i] == other[i] {
      assert part[i] == s[offset + i] == bytes[at + (offset + i)];
    }
  }

  // ---- the optional header ----

  /** Offset of optional-header field `k` from the signature. */
  function OptionalOffset(format: Format, k: nat): nat {
    if k < 3 then [24, 26, 27][k]
    else if k <= 8 then 28 + 4 * (k - 3)
    else if k == 9 then if format.Pe32? then 52 else 48
    else if k <= 12 then 56 + 4 * (k - 10)
    else if k <= 18 then 66 + 2 * (k - 13)
    else if k <= 22 then 80 + 4 * (k - 19)
    else if k == 23 then 94
    else if format.Pe32? then 96 + 4 * (k - 24)
    else if k <= 28 then 96 + 8 * (k - 24)
    else 132 + 4 * (k - 29)
  }

  /** Its size in bytes. */
  function OptionalWidth(format: Format, k: nat): nat {
    if k == 1 || k == 2 then 1
    else if k == 0 || 12 <= k <= 17 || k == 22 || k == 23 then 2
    else if k == 8 then if format.Pe32? then 4 else 0
    else if k == 9 || 24 <= k <= 27 then if format.Pe32? then 4 else 8
    else 4
  }

  lemma OptionalWidthsAre(format: Format, k: nat)
    requires k < 62
    ensures OptionalWidths(format)[k] == OptionalWidth(format, k)
    ensures OptionalOffset(format, k + 1) == OptionalOffset(format, k) + OptionalWidth(format, k)
  {
  }

  lemma {:induction false} OptionalOffsets(format: Format, k: nat)
    requires k <= 62
    ensures Size(OptionalWidths(format)[..k]) + 24 == OptionalOffset(format, k)
  {
    hide OptionalWidths, Size, OptionalOffset, OptionalWidth;
    if k > 0 {
      OptionalOffsets(format, k - 1);
      SizeStep(OptionalWidths(format), k - 1);
      OptionalWidthsAre(format, k - 1);
    } else {
      NoFields(format);
    }
  }

  lemma NoFields(format: Format)
    ensures Size(OptionalWidths(format)[..0]) == 0 && OptionalOffset(format, 0) == 24
  {
    assert OptionalWidths(format)[..0] == [];
  }

  /** Every field of the optional header lies at its offset. */
  lemma OptionalRead(bytes: Bytes, nt: nat, format: Format, k: nat)
    requires Fits(bytes, nt, NtSize(format)) && k < 62
    ensures Fits(bytes, nt + OptionalOffset(format, k), OptionalWidth(format, k))
    ensures Parser.OptionalFields(bytes, nt, format)[k]
            == ReadAt(bytes, nt + OptionalOffset(format, k), OptionalWidth(format, k))
  {
    hide OptionalWidths, ReadAt, Size, Unpack, OptionalOffset, OptionalWidth;
    HeaderSizes(format);
    OptionalOffsets(format, k);
    OptionalWidthsAre(format, k);
    FieldRead(bytes, nt + 24, OptionalWidths(format), OptionalOffset(format, k) - 24, k);
  }

  // ---- the file header and the section headers ----

  lemma FileOffsets(k: nat)
    requires k < 7
    ensures Size(FILE_WIDTHS[..k]) == [0, 2, 4, 8, 12, 16, 18][k]
  {
    assert FILE_WIDTHS[..0] == [];
    SizeStep(FILE_WIDTHS, 0);
    SizeStep(FILE_WIDTHS, 1);
    SizeStep(FILE_WIDTHS, 2);
    SizeStep(FILE_WIDTHS, 3);
    SizeStep(FILE_WIDTHS, 4);
    SizeStep(FILE_WIDTHS, 5);
  }

  /** Machine, NumberOfSections, SizeOfOptionalHeader and Characteristics. */
  lemma FileRead(bytes: Bytes, nt: nat)
    requires Fits(bytes, nt, 24)
    ensures var h := Parser.FileFields(bytes, nt);
            h[FILE_MACHINE] == ReadAt(bytes, nt + 4, 2) && h[FILE_SECTION_COUNT] == ReadAt(bytes, nt + 6, 2)
            && h[FILE_OPTIONAL_SIZE] == ReadAt(bytes, nt + 20, 2) && h[FILE_CHARACTERISTICS] == ReadAt(bytes, nt + 22, 2)
  {
    hide ReadAt, Size, Unpack;
    HeaderSizes(Pe32);
    FileOffsets(0);
    FileOffsets(1);
    FileOffsets(5);
    FileOffsets(6);
    FieldRead(bytes, nt + 4, FILE_WIDTHS, 0, 0);
    FieldRead(bytes, nt + 4, FILE_WIDTHS, 2, 1);
    FieldRead(bytes, nt + 4, FILE_WIDTHS, 16, 5);
    FieldRead(bytes, nt + 4, FILE_WIDTHS, 18, 6);
  }

  /** TimeDateStamp and the COFF symbol table. */
  lemma FileRest(bytes: Bytes, nt: nat)
    requires Fits(bytes, nt, 24)
    ensures var h := Parser.FileFields(bytes, nt);
            h[2] == ReadAt(bytes, nt + 8, 4) && h[3] == ReadAt(bytes, nt + 12, 4) && h[4] == ReadAt(bytes, nt + 16, 4)
  {
    hide ReadAt, Size, Unpack;
    HeaderSizes(Pe32);
    FileOffsets(2);
    FileOffsets(3);
    FileOffsets(4);
    FieldRead(bytes, nt + 4, FILE_WIDTHS, 4, 2);
    FieldRead(bytes, nt + 4, FILE_WIDTHS, 8, 3);
    FieldRead(bytes, nt + 4, FILE_WIDTHS, 12, 4);
  }

  lemma SectionOffsets(k: nat)
    requires k < 10
    ensures Size(SECTION_WIDTHS[..k]) == [0, 8, 12, 16, 20, 24, 28, 32, 34, 36][k]
  {
    assert SECTION_WIDTHS[..0] == [];
    SizeStep(SECTION_WIDTHS, 0);
    SizeStep(SECTION_WIDTHS, 1);
    SizeStep(SECTION_WIDTHS, 2);
    SizeStep(SECTION_WIDTHS, 3);
    SizeStep(SECTION_WIDTHS, 4);
    SizeStep(SECTION_WIDTHS, 5);
    SizeStep(SECTION_WIDTHS, 6);
    SizeStep(SECTION_WIDTHS, 7);
    SizeStep(SECTION_WIDTHS, 8);
  }

  /** Name, VirtualSize, VirtualAddress, SizeOfRawData, PointerToRawData and Characteristics. */
  lemma SectionRead(bytes: Bytes, at: nat)
    requires Fits(bytes, at, 40)
    ensures var s := Parser.SectionAt(bytes, at);
            s.name == bytes[at..at + 8] && s.virtualSize == ReadAt(bytes, at + 8, 4)
            && s.virtualAddress == ReadAt(bytes, at + 12, 4) && s.rawSize == ReadAt(bytes, at + 16, 4)
            && s.rawOffset == ReadAt(bytes, at + 20, 4) && s.characteristics == ReadAt(bytes, at + 36, 4)
  {
    hide Unsigned, Size, Unpack, LittleEndian;
    SectionHeaderSize();
    SectionOffsets(0);
    SectionOffsets(1);
    SectionOffsets(2);
    SectionOffsets(3);
    SectionOffsets(4);
    SectionOffsets(9);
    FieldRead(bytes, at, SECTION_WIDTHS, 0, 0);
    FieldRead(bytes, at, SECTION_WIDTHS, 8, 1);
    FieldRead(bytes, at, SECTION_WIDTHS, 12, 2);
    FieldRead(bytes, at, SECTION_WIDTHS, 16, 3);
    FieldRead(bytes, at, SECTION_WIDTHS, 20, 4);
    FieldRead(bytes, at, SECTION_WIDTHS, 36, 9);
    LittleEndianOfUnsigned(Slice(bytes, at, 8));
  }

  // ---- what a parsed layout says about its file ----

  function TableAt(bytes: Bytes, nt: nat): nat
    requires Fits(bytes, nt, 24)
  {
    nt + 24 + ReadAt(bytes, nt + 20, 2)
  }

  /** The layout's fields are the numbers stored at their offsets. */
  ghost predicate ReadsFrom(bytes: Bytes, p: Layout) {
    var nt := p.ntHeaderOffset;
    Fits(bytes, 0, 64) && nt == ReadAt(bytes, 60, 4) && Fits(bytes, nt, 24 + if p.format.Pe32? then 224 else 240)
    && ReadAt(bytes, nt + 24, 2) == (if p.format.Pe32? then 0x10b else 0x20b)
    && p.machine == ReadAt(bytes, nt + 4, 2) && p.characteristics == ReadAt(bytes, nt + 22, 2)
    && p.imageKind == (if ReadAt(bytes, nt + 22, 2) / 0x2000 % 2 == 1 then DynamicLibrary else Executable)
    && p.entryPoint == ReadAt(bytes, nt + 40, 4)
    && p.preferredImageBase == (if p.format.Pe32? then ReadAt(bytes, nt + 52, 4) else ReadAt(bytes, nt + 48, 8))
    && p.sectionAlignment == ReadAt(bytes, nt + 56, 4) && p.fileAlignment == ReadAt(bytes, nt + 60, 4)
    && p.sizeOfImage == ReadAt(bytes, nt + 80, 4) && p.sizeOfHeaders == ReadAt(bytes, nt + 84, 4)
    && p.dllCharacteristics == ReadAt(bytes, nt + 94, 2)
    && p.sourceLoadPolicy == SourceLoadPolicy(
         p.preferredImageBase, p.dllCharacteristics / 0x40 % 2 == 1, p.dllCharacteristics / 0x20 % 2 == 1,
         p.characteristics % 2 == 0 && p.directories[5].address != 0 && p.directories[5].size != 0)
    && |p.sections| == ReadAt(bytes, nt + 6, 2) && Fits(bytes, TableAt(bytes, nt), 40 * |p.sections|)
    && (forall k :: 0 <= k < |p.sections| ==> SectionReadsFrom(bytes, TableAt(bytes, nt) + 40 * k, p.sections[k]))
    && forall i :: 0 <= i < 16 ==> DirectoryReadsFrom(bytes, p, i)
  }

  ghost predicate SectionReadsFrom(bytes: Bytes, at: nat, s: Section) {
    Fits(bytes, at, 40)
    && s.name == bytes[at..at + 8] && s.virtualSize == ReadAt(bytes, at + 8, 4) && s.virtualAddress == ReadAt(bytes, at + 12, 4)
    && s.rawSize == ReadAt(bytes, at + 16, 4) && s.rawOffset == ReadAt(bytes, at + 20, 4)
    && s.characteristics == ReadAt(bytes, at + 36, 4)
  }

  /** Data directories beyond NumberOfRvaAndSizes count as empty. */
  ghost predicate DirectoryReadsFrom(bytes: Bytes, p: Layout, i: nat)
    requires i < 16 && Fits(bytes, p.ntHeaderOffset, 24 + if p.format.Pe32? then 224 else 240)
  {
    var count, at := p.ntHeaderOffset + (if p.format.Pe32? then 116 else 132), p.ntHeaderOffset + (if p.format.Pe32? then 120 else 136);
    p.directories[i] == if i < ReadAt(bytes, count, 4)
      then DirectoryAt(bytes, at + 8 * i) else Directory(0, 0)
  }

  function DirectoryAt(bytes: Bytes, at: nat): Directory
    requires Fits(bytes, at, 8)
  {
    Powers();
    Directory(ReadAt(bytes, at, 4), ReadAt(bytes, at + 4, 4))
  }
}
