/** The emitted section table describes itself: it decodes to the section list,
    names lead to their own text, and links lead to the right tables. */
module ElfSectionTableLaws {
  import opened Bytes
  import opened ByteFields
  import opened ElfFormat
  import opened ElfSections
  import opened ElfImageRebuilder
  import opened ElfFileLaws
  import Analyzer = ElfDynamicMetadataAnalyzer
  import HeaderLaws = ElfHeaderLaws

  /** A section header as a reader of the file sees it. */
  datatype SectionHeader = SectionHeader(
    name: nat, kind: nat, flags: nat, address: nat, offset: nat, size: nat, link: nat, info: nat, alignment: nat, entrySize: nat)

  function SectionAt(b: Bytes, c: ElfClass, offset: nat): SectionHeader
    requires Fits(b, offset, c.SectionHeaderSize())
  {
    var w := c.AddressWidth();
    SectionHeader(ReadAt(b, offset, 4), ReadAt(b, offset + 4, 4), ReadAt(b, offset + c.SectionFlags(), w),
                  ReadAt(b, offset + c.SectionAddress(), w), ReadAt(b, offset + c.SectionFileOffset(), w),
                  ReadAt(b, offset + c.SectionSize(), w), ReadAt(b, offset + c.SectionLink(), 4),
                  ReadAt(b, offset + c.SectionLink() + 4, 4), ReadAt(b, offset + c.SectionAlignment(), w),
                  ReadAt(b, offset + c.SectionEntrySize(), w))
  }

  /** The table entry of section `s`, whose name starts at `name`. */
  function Entry(sections: seq<Section>, name: nat, s: Section): SectionHeader {
    var linked := IndexOf(sections, s.link, 0);
    SectionHeader(name, s.kind, s.flags, s.address, s.offset, s.size,
                  if s.link == "" || linked.None? then 0 else linked.value,
                  if s.name == ".dynsym" then 1 else 0, s.alignment, s.entrySize)
  }

  lemma SectionAtSame(a: Bytes, b: Bytes, c: ElfClass, offset: nat)
    requires Fits(a, offset, c.SectionHeaderSize()) && Fits(b, offset, c.SectionHeaderSize())
    requires Slice(a, offset, c.SectionHeaderSize()) == Slice(b, offset, c.SectionHeaderSize())
    ensures SectionAt(a, c, offset) == SectionAt(b, c, offset)
  {
    hide ReadAt, Slice;
    var w := c.AddressWidth();
    HeaderLaws.SliceIsRange(a, b, offset, c.SectionHeaderSize());
    SameRangeRead(a, b, offset, 4);
    SameRangeRead(a, b, offset + 4, 4);
    SameRangeRead(a, b, offset + c.SectionFlags(), w);
    SameRangeRead(a, b, offset + c.SectionAddress(), w);
    SameRangeRead(a, b, offset + c.SectionFileOffset(), w);
    SameRangeRead(a, b, offset + c.SectionSize(), w);
    SameRangeRead(a, b, offset + c.SectionLink(), 4);
    SameRangeRead(a, b, offset + c.SectionLink() + 4, 4);
    SameRangeRead(a, b, offset + c.SectionAlignment(), w);
    SameRangeRead(a, b, offset + c.SectionEntrySize(), w);
  }

  ghost predicate Blank(b: Bytes, offset: int, size: int) {
    Fits(b, offset, size) && forall i :: offset <= i < offset + size ==> b[i] == 0
  }

  lemma BlankReads(b: Bytes, offset: int, size: nat)
    requires Blank(b, offset, size)
    ensures ReadAt(b, offset, size) == 0
  {
    UnsignedOfZeros(Slice(b, offset, size));
  }

  /** Positions of the two fields that end every header. */
  lemma LastFields(c: ElfClass, sections: seq<Section>, offset: nat, name: nat, s: Section)
    ensures var f, w := SectionFields(c, sections, offset, name, s), c.AddressWidth();
            |f| >= 8 && f[|f| - 2] == Field(offset + c.SectionAlignment(), w, s.alignment)
            && f[|f| - 1] == Field(offset + c.SectionEntrySize(), w, s.entrySize)
  {
    hide LinkFields, InfoFields;
  }

  /** Reading back the link, or the zero left where none was written. */
  lemma LinkRead(b: Bytes, c: ElfClass, sections: seq<Section>, offset: nat, name: nat, s: Section)
    requires WriteAll(b, SectionFields(c, sections, offset, name, s)).ok && Blank(b, offset, c.SectionHeaderSize())
    requires |sections| <= U32_MAX
    ensures ReadAt(WriteAll(b, SectionFields(c, sections, offset, name, s)).bytes, offset + c.SectionLink(), 4)
            == Entry(sections, name, s).link
  {
    hide WriteAll, ReadAt, Blank, AllApart, IndexOf;
    var fields, at := SectionFields(c, sections, offset, name, s), offset + c.SectionLink();
    SectionFieldsInside(c, sections, offset, name, s);
    if LinkFields(sections, s, at) == [] {
      assert Avoid(fields, at, 4);
      BlankPart(b, offset, c.SectionHeaderSize(), at, 4);
      ReadElsewhere(b, fields, at, 4);
    } else {
      IndexInList(sections, s.link, 0);
      assert fields[6] == LinkFields(sections, s, at)[0];
      ReadField(b, fields, 6);
    }
  }

  lemma InfoRead(b: Bytes, c: ElfClass, sections: seq<Section>, offset: nat, name: nat, s: Section)
    requires WriteAll(b, SectionFields(c, sections, offset, name, s)).ok && Blank(b, offset, c.SectionHeaderSize())
    ensures ReadAt(WriteAll(b, SectionFields(c, sections, offset, name, s)).bytes, offset + c.SectionLink() + 4, 4)
            == Entry(sections, name, s).info
  {
    hide WriteAll, ReadAt, Blank, AllApart, IndexOf, Wrap32;
    var fields, at := SectionFields(c, sections, offset, name, s), offset + c.SectionLink() + 4;
    SectionFieldsInside(c, sections, offset, name, s);
    var links := LinkFields(sections, s, offset + c.SectionLink());
    assert |links| <= 1;
    if s.name != ".dynsym" {
      assert Avoid(fields, at, 4);
      BlankPart(b, offset, c.SectionHeaderSize(), at, 4);
      ReadElsewhere(b, fields, at, 4);
    } else {
      assert fields[6 + |links|] == Field(at, 4, 1);
      ReadField(b, fields, 6 + |links|);
    }
  }

  lemma BlankPart(b: Bytes, offset: nat, size: nat, at: nat, part: nat)
    requires Blank(b, offset, size) && offset <= at && at + part <= offset + size
    ensures Fits(b, at, part) && ReadAt(b, at, part) == 0
  {
    BlankReads(b, at, part);
  }

  lemma IndexInList(sections: seq<Section>, name: string, from: nat)
    requires from <= |sections|
    ensures IndexOf(sections, name, from).Some? ==>
      from <= IndexOf(sections, name, from).value < |sections| && sections[IndexOf(sections, name, from).value].name == name
    ensures IndexOf(sections, name, from).None? ==> forall k :: from <= k < |sections| ==> sections[k].name != name
    decreases |sections| - from
  {
    if from < |sections| && sections[from].name != name {
      IndexInList(sections, name, from + 1);
    }
  }

  /** A written section header reads back. */
  lemma SectionRead(b: Bytes, c: ElfClass, sections: seq<Section>, offset: nat, name: nat, s: Section)
    requires WriteAll(b, SectionFields(c, sections, offset, name, s)).ok && Blank(b, offset, c.SectionHeaderSize())
    requires |sections| <= U32_MAX && name <= U32_MAX
    ensures SectionAt(WriteAll(b, SectionFields(c, sections, offset, name, s)).bytes, c, offset) == Entry(sections, name, s)
  {
    hide WriteAll, ReadAt, Blank, AllApart, LinkFields, InfoFields, IndexOf, Wrap32;
    var fields := SectionFields(c, sections, offset, name, s);
    SectionFieldsInside(c, sections, offset, name, s);
    WrapSmall(name);
    LastFields(c, sections, offset, name, s);
    ReadField(b, fields, 0);
    ReadField(b, fields, 1);
    ReadField(b, fields, 2);
    ReadField(b, fields, 3);
    ReadField(b, fields, 4);
    ReadField(b, fields, 5);
    ReadField(b, fields, |fields| - 2);
    ReadField(b, fields, |fields| - 1);
    LinkRead(b, c, sections, offset, name, s);
    InfoRead(b, c, sections, offset, name, s);
  }

  // ---- names ----

  /** Characters that end no string. */
  ghost predicate Plain(s: string) {
    |s| <= 0x2000 && forall k :: 0 <= k < |s| ==> 0 < s[k] as int < 128
  }

  ghost predicate AllPlain(sections: seq<Section>) {
    forall k :: 0 <= k < |sections| ==> Plain(sections[k].name)
  }

  lemma {:induction false} NamesBounded(sections: seq<Section>, n: nat)
    requires n <= |sections| && AllPlain(sections)
    ensures 1 <= |Names(sections, n)| <= 1 + n * 0x2001
  {
    if n > 1 {
      NamesBounded(sections, n - 1);
      assert Plain(sections[n - 1].name);
    }
  }

  /** The text of section `k`'s name, with its terminator, stands in the table at its offset. */
  lemma {:induction false} NameStands(sections: seq<Section>, n: nat, k: nat)
    requires 1 <= k < n <= |sections|
    ensures var at, text := |Names(sections, k)|, Text(sections[k].name) + [0];
            at + |text| <= |Names(sections, n)| && Names(sections, n)[at..at + |text|] == text
  {
    var at, text := |Names(sections, k)|, Text(sections[k].name) + [0];
    if k == n - 1 {
      assert Names(sections, n) == Names(sections, k) + text;
    } else {
      NameStands(sections, n - 1, k);
      var shorter, longer := Names(sections, n - 1), Names(sections, n);
      assert longer[..|shorter|] == shorter;
      assert longer[at..at + |text|] == longer[..|shorter|][at..at + |text|];
    }
  }

  /** The text of entry `k`'s name; the last entry is the name table itself. */
  function NameOf(sections: seq<Section>, k: nat): string
    requires k <= |sections|
  {
    if k < |sections| then sections[k].name else TABLE_NAME
  }

  lemma NameInTable(sections: seq<Section>, k: nat)
    requires 1 <= k <= |sections|
    ensures var at, text := |Names(sections, k)|, Text(NameOf(sections, k)) + [0];
            at + |text| <= |NameTable(sections)| && NameTable(sections)[at..at + |text|] == text
  {
    hide Names;
    var at, text, all := |Names(sections, k)|, Text(NameOf(sections, k)) + [0], Names(sections, |sections|);
    if k < |sections| {
      NameStands(sections, |sections|, k);
      assert NameTable(sections)[..|all|] == all;
      assert NameTable(sections)[at..at + |text|] == NameTable(sections)[..|all|][at..at + |text|];
    } else {
      assert NameTable(sections) == all + text;
    }
  }

  lemma BaseIsPlain(h: ProgramHeader, ordinal: nat)
    requires ordinal <= 0xffff
    ensures Plain(LoadName(h, ordinal))
  {
    var digits := Decimal(ordinal);
    assert |digits| <= 0x1a00;
    forall k | 0 <= k < |LoadName(h, ordinal)| ensures 0 < LoadName(h, ordinal)[k] as int < 128 {
    }
  }

  lemma {:induction false} LoadsPlain(headers: seq<ProgramHeader>, n: nat)
    requires n <= |headers| && n <= 0xffff
    ensures var l := LoadSections(headers, n); AllPlain(l.sections) && l.text <= n && l.data <= n && l.readOnly <= n
  {
    hide LoadName, Decimal;
    if n > 0 {
      LoadsPlain(headers, n - 1);
      BaseIsPlain(headers[n - 1], LoadSections(headers, n - 1).Ordinal(headers[n - 1]));
    }
  }

  lemma {:induction false} SpecialsPlain(c: ElfClass, headers: seq<ProgramHeader>, n: nat)
    requires n <= |headers|
    ensures AllPlain(SpecialSections(c, headers, n))
  {
    if n > 0 {
      SpecialsPlain(c, headers, n - 1);
    }
  }

  lemma NamesArePlain(image: Bytes, c: ElfClass, headers: seq<ProgramHeader>)
    requires Analyzer.Outcome(image, c, headers).Ok? && |headers| <= 0xffff
    ensures AllPlain(AllSections(c, headers, Analyzer.Outcome(image, c, headers).value.sections))
  {
    hide Analyzer.Outcome, LoadSections, SpecialSections, Plain;
    LoadsPlain(headers, |headers|);
    SpecialsPlain(c, headers, |headers|);
    Analyzer.AnalysisDescribes(image, c, headers);
    var dynamic := Analyzer.Outcome(image, c, headers).value.sections;
    forall k | 0 <= k < |dynamic| ensures Plain(DynamicSections(dynamic)[k].name) {
      DescribedIsPlain(dynamic[k]);
    }
  }

  lemma DescribedIsPlain(s: Analyzer.DynamicSection)
    requires Analyzer.Described(s)
    ensures Plain(s.name)
  {
  }

  // ---- the table ----

  /** Section header `k` reads back after all headers were written. */
  lemma {:induction false} HeadersRead(b: Bytes, c: ElfClass, sections: seq<Section>, t: Tail, n: nat, k: nat)
    requires 1 <= k < n <= |sections| + 1 && HeadersWritten(b, c, sections, t, n).ok
    requires Blank(b, t.tableOffset, (|sections| + 1) * c.SectionHeaderSize())
    requires |sections| <= U32_MAX && |Names(sections, k)| <= U32_MAX
    ensures var offset := SectionOffset(c, t.tableOffset, k);
            Fits(b, offset, c.SectionHeaderSize())
            && SectionAt(HeadersWritten(b, c, sections, t, n).bytes, c, offset)
               == Entry(sections, |Names(sections, k)|, Emitted(sections, t, k))
  {
    hide WriteAll, SectionFields, Names, Emitted, SectionOffset, SectionAt, Entry, Slice;
    var before, last := HeadersWritten(b, c, sections, t, n - 1), SectionOffset(c, t.tableOffset, n - 1);
    var at, size := SectionOffset(c, t.tableOffset, k), c.SectionHeaderSize();
    EntryInside(c, t.tableOffset, |sections| + 1, k);
    if k == n - 1 {
      EntryBlank(b, c, sections, t, k);
      SectionRead(before.bytes, c, sections, at, |Names(sections, k)|, Emitted(sections, t, k));
    } else {
      HeadersRead(b, c, sections, t, n - 1, k);
      EntriesApart(c, t.tableOffset, k, n - 1);
      SectionFieldsInside(c, sections, last, |Names(sections, n - 1)|, Emitted(sections, t, n - 1));
      ReadElsewhere(before.bytes, SectionFields(c, sections, last, |Names(sections, n - 1)|, Emitted(sections, t, n - 1)), at, size);
      SectionAtSame(HeadersWritten(b, c, sections, t, n).bytes, before.bytes, c, at);
    }
  }

  /** An entry that is still to be written is still zero. */
  lemma EntryBlank(b: Bytes, c: ElfClass, sections: seq<Section>, t: Tail, n: nat)
    requires 1 <= n <= |sections| && Blank(b, t.tableOffset, (|sections| + 1) * c.SectionHeaderSize())
    ensures Blank(HeadersWritten(b, c, sections, t, n).bytes, SectionOffset(c, t.tableOffset, n), c.SectionHeaderSize())
  {
    hide HeadersWritten, SectionOffset;
    var at, size := SectionOffset(c, t.tableOffset, n), c.SectionHeaderSize();
    EntryInside(c, t.tableOffset, |sections| + 1, n);
    forall k | 1 <= k < n ensures SectionOffset(c, t.tableOffset, k) + size <= at {
      EntriesApart(c, t.tableOffset, k, n);
    }
    HeadersElsewhere(b, c, sections, t, n, at, size);
    HeaderLaws.SliceIsRange(HeadersWritten(b, c, sections, t, n).bytes, b, at, size);
  }

  lemma TableStartsBlank(b: Bytes, c: ElfClass, sections: seq<Section>, t: Tail)
    requires InOrder(c, |b|, sections, t)
    ensures Blank(Grown(b, t), t.tableOffset, (|sections| + 1) * c.SectionHeaderSize())
  {
  }

  /** Decoding the emitted table yields the section list, then the name table's own section. */
  lemma TableReadsBack(b: Bytes, c: ElfClass, sections: seq<Section>, maximum: U64, k: nat)
    requires |b| <= U64_MAX && c.HeaderSize() <= |b| && Finish(b, c, sections, maximum).Ok? && AllPlain(sections)
    requires 1 <= k <= |sections|
    ensures var out, t := Finish(b, c, sections, maximum).value, TailOf(c, |b|, sections);
            var offset := SectionOffset(c, t.tableOffset, k);
            Fits(out, offset, c.SectionHeaderSize())
            && SectionAt(out, c, offset) == Entry(sections, |Names(sections, k)|, Emitted(sections, t, k))
  {
    hide HeadersWritten, WriteAll, TailOf, Names, Emitted, SectionOffset, SectionAt, Entry, Slice, Grown, TableFields, AllPlain, Blank;
    var out, t := Finish(b, c, sections, maximum).value, TailOf(c, |b|, sections);
    TailInOrder(b, c, sections, maximum);
    TableStartsBlank(b, c, sections, t);
    NamesBounded(sections, k);
    var grown := Grown(b, t);
    HeadersRead(grown, c, sections, t, |sections| + 1, k);
    var headers, at := HeadersWritten(grown, c, sections, t, |sections| + 1).bytes, SectionOffset(c, t.tableOffset, k);
    EntryInside(c, t.tableOffset, |sections| + 1, k);
    TableFieldsInHeader(c, |sections|, t.tableOffset);
    AvoidTable(c, |sections|, t.tableOffset, at, c.SectionHeaderSize());
    ReadElsewhere(headers, TableFields(c, |sections|, t.tableOffset), at, c.SectionHeaderSize());
    SectionAtSame(out, headers, c, at);
  }

  lemma AvoidTable(c: ElfClass, count: nat, table: U64, at: nat, size: nat)
    requires c.HeaderSize() <= at
    ensures Avoid(TableFields(c, count, table), at, size)
  {
    TableFieldsInHeader(c, count, table);
  }

  /** The name of every entry stands in `.shstrtab` where the entry says, and ends there. */
  lemma NamesLeadToText(b: Bytes, c: ElfClass, sections: seq<Section>, maximum: U64, k: nat)
    requires |b| <= U64_MAX && c.HeaderSize() <= |b| && Finish(b, c, sections, maximum).Ok? && AllPlain(sections)
    requires 1 <= k <= |sections|
    ensures var out, t := Finish(b, c, sections, maximum).value, TailOf(c, |b|, sections);
            var at, text := t.namesOffset + |Names(sections, k)|, Text(NameOf(sections, k));
            Fits(out, at, |text| + 1) && Slice(out, at, |text| + 1) == text + [0] && 0 !in text
  {
    hide Finish, TailOf, Names, NameTable, NameOf, Slice, Grown, AllPlain, Text;
    var t := TailOf(c, |b|, sections);
    TailInOrder(b, c, sections, maximum);
    NameInTable(sections, k);
    var text := Text(NameOf(sections, k)) + [0];
    assert |text| == |Text(NameOf(sections, k))| + 1;
    NamesSurvive(b, c, sections, maximum, |Names(sections, k)|, |text|);
    GrownNames(b, t, |Names(sections, k)|, |text|);
    TextHasNoEnd(sections, k);
  }

  /** Writing the section table and the header fields leaves the name table as appended. */
  lemma NamesSurvive(b: Bytes, c: ElfClass, sections: seq<Section>, maximum: U64, at: nat, size: nat)
    requires |b| <= U64_MAX && c.HeaderSize() <= |b| && Finish(b, c, sections, maximum).Ok?
    requires at + size <= |TailOf(c, |b|, sections).names|
    ensures var out, t := Finish(b, c, sections, maximum).value, TailOf(c, |b|, sections);
            Fits(out, t.namesOffset + at, size)
            && Slice(out, t.namesOffset + at, size) == Slice(Grown(b, t), t.namesOffset + at, size)
  {
    hide HeadersWritten, WriteAll, TailOf, SectionOffset, TableFields, Slice;
    var t := TailOf(c, |b|, sections);
    TailInOrder(b, c, sections, maximum);
    var from := t.namesOffset + at;
    forall i | 1 <= i < |sections| + 1 ensures from + size <= SectionOffset(c, t.tableOffset, i) {
      EntryInside(c, t.tableOffset, |sections| + 1, i);
    }
    var grown := Grown(b, t);
    AvoidTable(c, |sections|, t.tableOffset, from, size);
    HeadersElsewhere(grown, c, sections, t, |sections| + 1, from, size);
    ReadElsewhere(HeadersWritten(grown, c, sections, t, |sections| + 1).bytes, TableFields(c, |sections|, t.tableOffset), from, size);
  }

  lemma GrownNames(b: Bytes, t: Tail, at: nat, size: nat)
    requires t.namesOffset + |t.names| <= t.finalSize && at + size <= |t.names|
    ensures Slice(Grown(b, t), t.namesOffset + at, size) == t.names[at..at + size]
  {
    assert Slice(Grown(b, t), t.namesOffset + at, size) == t.names[at..at + size];
  }

  lemma TextHasNoEnd(sections: seq<Section>, k: nat)
    requires k <= |sections| && AllPlain(sections)
    ensures 0 !in Text(NameOf(sections, k))
  {
    assert k < |sections| ==> Plain(sections[k].name);
  }

  // ---- links ----

  /** A section of the linked name and kind. */
  ghost predicate Resolves(sections: seq<Section>, link: string) {
    var j := IndexOf(sections, link, 0);
    j.Some? && 1 <= j.value < |sections| && sections[j.value].name == link
    && (link == ".dynstr" ==> sections[j.value].kind == STRING_TABLE)
    && (link == ".dynsym" ==> sections[j.value].kind == Analyzer.SHT_DYNSYM)
  }

  ghost predicate LoadNamed(s: Section) {
    s.link == "" && s.name != ".dynstr" && s.name != ".dynsym"
  }

  lemma NamesOfLoads(h: ProgramHeader, ordinal: nat)
    ensures LoadName(h, ordinal) != ".dynstr" && LoadName(h, ordinal) != ".dynsym"
  {
    hide Decimal;
    assert LoadName(h, ordinal)[1] != 'd' || LoadName(h, ordinal)[2] != 'y';
  }

  lemma {:induction false} LoadsUnlinked(headers: seq<ProgramHeader>, n: nat)
    requires n <= |headers|
    ensures forall k :: 0 <= k < |LoadSections(headers, n).sections| ==> LoadNamed(LoadSections(headers, n).sections[k])
  {
    hide LoadName, LoadFlags;
    if n > 0 {
      LoadsUnlinked(headers, n - 1);
      NamesOfLoads(headers[n - 1], LoadSections(headers, n - 1).Ordinal(headers[n - 1]));
    }
  }

  lemma {:induction false} SpecialsLinked(c: ElfClass, headers: seq<ProgramHeader>, n: nat)
    requires n <= |headers|
    ensures forall k :: 0 <= k < |SpecialSections(c, headers, n)| ==>
      var s := SpecialSections(c, headers, n)[k];
      s.name != ".dynstr" && s.name != ".dynsym"
      && (s.link == "" || (s.link == ".dynstr" && exists i :: 0 <= i < |headers| && headers[i].kind == PT_DYNAMIC))
  {
    if n > 0 {
      SpecialsLinked(c, headers, n - 1);
      var h := headers[n - 1];
      assert h.kind == PT_DYNAMIC ==> exists i :: 0 <= i < |headers| && headers[i].kind == PT_DYNAMIC;
    }
  }

  lemma DynamicFound(headers: seq<ProgramHeader>)
    ensures Analyzer.FirstDynamic(headers).Some? <==> exists i :: 0 <= i < |headers| && headers[i].kind == PT_DYNAMIC
  {
    if headers != [] && headers[0].kind != PT_DYNAMIC {
      DynamicFound(headers[1..]);
      assert forall i :: 1 <= i < |headers| ==> headers[i] == headers[1..][i - 1];
    }
  }

  /** Where the first occurrence of a name is known, the search finds it. */
  lemma IndexIs(sections: seq<Section>, name: string, from: nat, at: nat)
    requires from <= at < |sections| && sections[at].name == name
    requires forall k :: from <= k < at ==> sections[k].name != name
    ensures IndexOf(sections, name, from) == Some(at)
    decreases at - from
  {
    if from < at {
      IndexIs(sections, name, from + 1, at);
    }
  }

  /** Every link of the section list resolves to a section of that name and kind. */
  lemma LinksResolve(image: Bytes, c: ElfClass, headers: seq<ProgramHeader>, k: nat)
    requires Analyzer.Outcome(image, c, headers).Ok?
    requires var sections := AllSections(c, headers, Analyzer.Outcome(image, c, headers).value.sections);
             k < |sections| && sections[k].link != ""
    ensures var sections := AllSections(c, headers, Analyzer.Outcome(image, c, headers).value.sections);
            Resolves(sections, sections[k].link)
  {
    hide Analyzer.Outcome, LoadSections, SpecialSections;
    LoadsUnlinked(headers, |headers|);
    SpecialsLinked(c, headers, |headers|);
    DynamicFound(headers);
    Analyzer.AnalysisDescribes(image, c, headers);
    var dynamic := Analyzer.Outcome(image, c, headers).value.sections;
    var loads, specials := LoadSections(headers, |headers|).sections, SpecialSections(c, headers, |headers|);
    ListStarts(c, headers, dynamic);
    LoadsStart(headers, |headers|);
    TablesResolve(loads, specials, dynamic, k);
  }

  lemma TablesResolve(loads: seq<Section>, specials: seq<Section>, dynamic: seq<Analyzer.DynamicSection>, k: nat)
    requires loads != [] && forall i :: 0 <= i < |loads| ==> LoadNamed(loads[i])
    requires forall i :: 0 <= i < |specials| ==>
      specials[i].name != ".dynstr" && specials[i].name != ".dynsym"
      && (specials[i].link != "" ==> specials[i].link == ".dynstr" && dynamic != [])
    requires forall i :: 0 <= i < |dynamic| ==> Analyzer.Described(dynamic[i])
    requires dynamic != [] ==> |dynamic| >= 2 && dynamic[0].name == ".dynstr" && dynamic[1].name == ".dynsym"
    requires k < |loads + specials + DynamicSections(dynamic)|
    requires (loads + specials + DynamicSections(dynamic))[k].link != ""
    ensures var sections := loads + specials + DynamicSections(dynamic); Resolves(sections, sections[k].link)
  {
    var sections, first := loads + specials + DynamicSections(dynamic), |loads| + |specials|;
    var s := sections[k];
    assert s in loads || s in specials || s in DynamicSections(dynamic);
    assert sections[first] == FromDynamic(dynamic[0]) && sections[first + 1] == FromDynamic(dynamic[1]);
    assert forall i :: 0 <= i < first ==> sections[i].name != ".dynstr" && sections[i].name != ".dynsym";
    IndexIs(sections, ".dynstr", 0, first);
    IndexIs(sections, ".dynsym", 0, first + 1);
    assert sections[k].link == ".dynstr" || sections[k].link == ".dynsym" by {
      if k >= first {
        assert sections[k] == FromDynamic(dynamic[k - first]);
      }
    }
  }
}
