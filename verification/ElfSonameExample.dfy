/** A position-independent executable with DT_SONAME: its rebuild succeeds and
    parses as a shared object. */
module ElfSonameExample {
  import opened Bytes
  import opened ByteFields
  import opened ElfFormat
  import opened ElfSections
  import opened ElfImageRebuilder
  import opened ElfFileLaws
  import opened ElfRebuildLaws
  import Parser = ElfParser
  import Classifier = ElfImageTypeClassifier
  import Writer = ElfHeaderWriter
  import Analyzer = ElfDynamicMetadataAnalyzer
  import HeaderLaws = ElfHeaderLaws
  import Words = NormalizationLaws

  // ---- the capture ----

  const LOAD := ProgramHeader(PT_LOAD, 5, 0, 0, 0, 181, 181, 1)
  const TABLE := ProgramHeader(PT_DYNAMIC, 6, 116, 116, 116, 48, 48, 4)

  function Headers(): seq<ProgramHeader> {
    [LOAD, TABLE]
  }

  function NamedExecutable(): Layout {
    Layout(Bits32, PositionIndependentExecutable, 52, 52, 32, 2, 0, 0, 0, 0, Headers())
  }

  /** DT_SONAME 1, DT_STRTAB 180, DT_SYMTAB 164, DT_STRSZ 1, DT_SYMENT 16, DT_NULL. */
  function EntryByte(i: nat): Byte {
    if i == 0 then 14 else if i == 4 then 1
    else if i == 8 then 5 else if i == 12 then 180
    else if i == 16 then 6 else if i == 20 then 164
    else if i == 24 then 10 else if i == 28 then 1
    else if i == 32 then 11 else if i == 36 then 16
    else 0
  }

  function DynamicTable(): (b: Bytes)
    ensures |b| == 48 && forall i :: 0 <= i < 48 ==> b[i] == EntryByte(i)
  {
    seq(48, i requires 0 <= i < 48 => EntryByte(i))
  }

  function Identification(): (b: Bytes)
    ensures |b| == 16
  {
    [0x7f, 0x45, 0x4c, 0x46, 1, 1, 1, 0, 0, 0, 0, 0, 0, 0, 0, 0]
  }

  function Content(): (b: Bytes)
    ensures |b| == 181
  {
    Identification() + Zeros(100) + DynamicTable() + Zeros(17)
  }

  function NamedCapture(): CapturedImage {
    CapturedImage(NamedExecutable(), 0x40_0000, [CapturedSegment(0, Content())])
  }

  // ---- the flat image ----

  lemma FlatIsContent()
    ensures Flat(NamedCapture(), 0x1000, [0]) == Ok(Content())
  {
    var headers, segments := Headers(), NamedCapture().segments;
    assert SegmentOf(segments, 0) == Some(Content());
    assert CapturedSize(headers, segments, 0) == Some(0);
    assert CapturedSize(headers, segments, 1) == Some(181);
    assert CapturedSize(headers, segments, 2) == Some(181);
    assert CopyAll(Zeros(181), headers, segments, [0], 0) == Some(Zeros(181));
    assert CopyAll(Zeros(181), headers, segments, [0], 1) == Some(Patch(Zeros(181), 0, Content()));
    assert Patch(Zeros(181), 0, Content()) == Content();
  }

  lemma ContentIsIdentified()
    ensures Identified(Content(), Bits32)
  {
    var b := Content();
    assert forall i :: 0 <= i < 16 ==> b[i] == Identification()[i];
    assert b[..4] == Parser.MAGIC;
  }

  // ---- the headers ----

  lemma {:induction false} AllWritable(b: Bytes, fields: seq<Field>)
    requires forall k :: 0 <= k < |fields| ==> Writable(|b|, fields[k])
    ensures WriteAll(b, fields).ok
  {
    hide Writable, PatchField;
    if fields != [] {
      AllWritable(b, fields[..|fields| - 1]);
    }
  }

  lemma HeadersFit()
    ensures Writer.Outcome(Content(), NamedExecutable()).ok
  {
    hide WriteAll;
    Powers();
    var b, layout := Content(), NamedExecutable();
    AllWritable(b, Writer.HeaderFields(layout));
    var first := Writer.Programs(b, layout, 0);
    AllWritable(first.bytes, Writer.ProgramFields(Bits32, 52, LOAD));
    var second := Writer.Programs(b, layout, 1);
    assert second == WriteAll(first.bytes, Writer.ProgramFields(Bits32, 52, LOAD));
    AllWritable(second.bytes, Writer.ProgramFields(Bits32, 84, TABLE));
    assert Writer.Programs(b, layout, 2) == WriteAll(second.bytes, Writer.ProgramFields(Bits32, 84, TABLE));
  }

  /** Writing the headers leaves the dynamic table as captured. */
  lemma TableStays(headed: Bytes)
    requires Writer.Outcome(Content(), NamedExecutable()) == Written(headed, true)
    ensures |headed| == 181 && Slice(headed, 116, 48) == DynamicTable()
  {
    hide Writer.Programs, Slice;
    var layout := NamedExecutable();
    assert ClearOfHeaders(layout, 116, 48);
    ClearIsUntouched(layout, 0, 0, 116, 48);
    HeaderLaws.ProgramsElsewhere(Content(), layout, 2, 116, 48);
    ContentTable();
  }

  lemma ContentTable()
    ensures Slice(Content(), 116, 48) == DynamicTable()
  {
  }

  // ---- the dynamic table ----

  lemma TableByte(headed: Bytes, i: nat)
    requires |headed| == 181 && Slice(headed, 116, 48) == DynamicTable() && i < 48
    ensures headed[116 + i] == DynamicTable()[i]
  {
    hide DynamicTable;
    assert headed[116 + i] == Slice(headed, 116, 48)[i];
  }

  lemma WordRead(headed: Bytes, at: nat)
    requires |headed| == 181 && Slice(headed, 116, 48) == DynamicTable() && at + 4 <= 48
    ensures var b := DynamicTable();
            ReadUnsigned(headed, 116 + at, 4) == Words.FromDigits(b[at], b[at + 1], b[at + 2], b[at + 3])
  {
    hide ReadUnsigned, DynamicTable, Slice, Words.FromDigits;
    TableByte(headed, at);
    TableByte(headed, at + 1);
    TableByte(headed, at + 2);
    TableByte(headed, at + 3);
    Words.WordOf(headed, 116 + at);
  }

  const TAGS: map<nat, U64> := map[14 := 1, 5 := 180, 6 := 164, 10 := 1, 11 := 16]

  predicate EntryIs(b: Bytes, at: nat, tag: nat, value: nat)
    requires at + 8 <= |b|
  {
    b[at] == tag && b[at + 1] == 0 && b[at + 2] == 0 && b[at + 3] == 0
    && b[at + 4] == value && b[at + 5] == 0 && b[at + 6] == 0 && b[at + 7] == 0
  }

  lemma EntryRead(headed: Bytes, at: nat, tag: nat, value: nat)
    requires |headed| == 181 && Slice(headed, 116, 48) == DynamicTable() && at + 8 <= 48 && tag < 256 && value < 256
    requires EntryIs(DynamicTable(), at, tag, value)
    ensures Analyzer.TagAt(headed, Bits32, 116 + at) == tag && Analyzer.TagAt(headed, Bits32, 116 + at + 4) == value
  {
    hide ReadUnsigned, DynamicTable, Slice;
    WordRead(headed, at);
    WordRead(headed, at + 4);
  }

  lemma TableEntries()
    ensures var b := DynamicTable();
            EntryIs(b, 0, 14, 1) && EntryIs(b, 8, 5, 180) && EntryIs(b, 16, 6, 164) && EntryIs(b, 24, 10, 1)
            && EntryIs(b, 32, 11, 16) && EntryIs(b, 40, 0, 0)
  {
  }

  lemma TagsRead(headed: Bytes)
    requires |headed| == 181 && Slice(headed, 116, 48) == DynamicTable()
    ensures Analyzer.Tags(headed, Bits32, TABLE, 0, map[]) == Some(TAGS)
    ensures Classifier.HasSoname(headed, Bits32, Headers())
  {
    hide ReadUnsigned, Slice, Analyzer.TagAt, EntryIs, EntryByte, DynamicTable, Analyzer.Tags, Classifier.HasSoname;
    TableEntries();
    EntryRead(headed, 0, 14, 1);
    EntryRead(headed, 8, 5, 180);
    EntryRead(headed, 16, 6, 164);
    EntryRead(headed, 24, 10, 1);
    EntryRead(headed, 32, 11, 16);
    EntryRead(headed, 40, 0, 0);
    TagsFound(headed);
    SonameFound(headed);
  }

  lemma TagsFound(headed: Bytes)
    requires Analyzer.TagAt(headed, Bits32, 116) == 14 && Analyzer.TagAt(headed, Bits32, 120) == 1
    requires Analyzer.TagAt(headed, Bits32, 124) == 5 && Analyzer.TagAt(headed, Bits32, 128) == 180
    requires Analyzer.TagAt(headed, Bits32, 132) == 6 && Analyzer.TagAt(headed, Bits32, 136) == 164
    requires Analyzer.TagAt(headed, Bits32, 140) == 10 && Analyzer.TagAt(headed, Bits32, 144) == 1
    requires Analyzer.TagAt(headed, Bits32, 148) == 11 && Analyzer.TagAt(headed, Bits32, 152) == 16
    requires Analyzer.TagAt(headed, Bits32, 156) == 0
    ensures Analyzer.Tags(headed, Bits32, TABLE, 0, map[]) == Some(TAGS)
  {
    hide Analyzer.TagAt;
    var t1: Analyzer.TagMap := map[14 := 1];
    var t2: Analyzer.TagMap := t1[5 := 180];
    var t3: Analyzer.TagMap := t2[6 := 164];
    var t4: Analyzer.TagMap := t3[10 := 1];
    var t5: Analyzer.TagMap := t4[11 := 16];
    assert Analyzer.Tags(headed, Bits32, TABLE, 40, t5) == Some(t5);
    assert Analyzer.Tags(headed, Bits32, TABLE, 32, t4) == Some(t5);
    assert Analyzer.Tags(headed, Bits32, TABLE, 24, t3) == Some(t5);
    assert Analyzer.Tags(headed, Bits32, TABLE, 16, t2) == Some(t5);
    assert Analyzer.Tags(headed, Bits32, TABLE, 8, t1) == Some(t5);
    assert t5 == TAGS;
  }

  lemma SonameFound(headed: Bytes)
    requires |headed| == 181 && Analyzer.TagAt(headed, Bits32, 116) == 14
    ensures Classifier.HasSoname(headed, Bits32, Headers())
  {
    assert Classifier.SonameFrom(headed, Bits32, TABLE, 0);
    assert Headers()[1] == TABLE && Classifier.TableReadable(|headed|, Bits32, TABLE);
  }

  function Described(): seq<Analyzer.DynamicSection> {
    [Analyzer.DynamicSection(".dynstr", 3, 180, 180, 1, 1, 0, ""),
     Analyzer.DynamicSection(".dynsym", 11, 164, 164, 16, 4, 16, ".dynstr")]
  }

  lemma TableAnalysed(headed: Bytes)
    requires |headed| == 181 && Slice(headed, 116, 48) == DynamicTable()
    ensures Analyzer.Outcome(headed, Bits32, Headers()) == Ok(Analyzer.Metadata(true, Described()))
  {
    hide Analyzer.Tags, Slice;
    TagsRead(headed);
    var headers := Headers();
    assert headers[1..] == [TABLE];
    assert Analyzer.FirstDynamic(headers) == Analyzer.FirstDynamic([TABLE]) == Some(TABLE);
    assert Analyzer.FileOffsetFor(headers, 180, 1) == Some(180) && Analyzer.FileOffsetFor(headers, 164, 16) == Some(164);
    assert [] + [Described()[0]] == [Described()[0]] && [Described()[0]] + [Described()[1]] == Described();
    assert Analyzer.StringSection(TAGS).(fileOffset := 180) == Described()[0];
    assert Analyzer.SymbolSection(Bits32, TAGS).(fileOffset := 164) == Described()[1];
    assert Analyzer.Add(181, headers, [], Analyzer.StringSection(TAGS)) == Some([Described()[0]]);
    assert Analyzer.Add(181, headers, [Described()[0]], Analyzer.SymbolSection(Bits32, TAGS)) == Some(Described());
    assert Analyzer.SectionsOf(181, headers, Bits32, TAGS) == Ok(Described());
  }

  // ---- the section table ----

  function Sections(): seq<Section> {
    [NULL_SECTION, FileSection(LOAD, 0), SpecialSection(Bits32, TABLE).value, FromDynamic(Described()[0]), FromDynamic(Described()[1])]
  }

  lemma SectionsAre()
    ensures AllSections(Bits32, Headers(), Described()) == Sections()
  {
    hide LoadName;
    var headers := Headers();
    assert LoadSections(headers, 0) == Loads([NULL_SECTION], 0, 0, 0);
    assert LoadSections(headers, 1) == Loads([NULL_SECTION, FileSection(LOAD, 0)], 1, 0, 0);
    assert LoadSections(headers, 2) == LoadSections(headers, 1);
    assert SpecialSections(Bits32, headers, 0) == [] && SpecialSections(Bits32, headers, 1) == [];
    assert SpecialSections(Bits32, headers, 2) == [SpecialSection(Bits32, TABLE).value];
    assert DynamicSections(Described()) == [FromDynamic(Described()[0]), FromDynamic(Described()[1])];
  }

  /** Every value of the section fits the 32-bit class. */
  predicate Fits32(s: Section) {
    s.flags <= U32_MAX && s.address <= U32_MAX && s.offset <= U32_MAX && s.size <= U32_MAX && s.alignment <= U32_MAX
    && s.entrySize <= U32_MAX
  }

  lemma FieldsWritable(sections: seq<Section>, offset: nat, name: nat, s: Section, size: nat)
    requires Fits32(s) && offset + 40 <= size
    ensures forall k :: 0 <= k < |SectionFields(Bits32, sections, offset, name, s)| ==>
      Writable(size, SectionFields(Bits32, sections, offset, name, s)[k])
  {
    hide IndexOf;
    Powers();
  }

  lemma {:induction false} HeadersSucceed(b: Bytes, sections: seq<Section>, t: Tail, n: nat)
    requires n <= |sections| + 1 && t.tableOffset + n * 40 <= |b|
    requires (forall k :: 0 <= k < |sections| ==> Fits32(sections[k])) && Fits32(NamesSection(t))
    ensures HeadersWritten(b, Bits32, sections, t, n).ok
  {
    hide SectionFields, Fits32;
    if n > 1 {
      HeadersSucceed(b, sections, t, n - 1);
      var before := HeadersWritten(b, Bits32, sections, t, n - 1);
      var offset := SectionOffset(Bits32, t.tableOffset, n - 1);
      var s := ElfImageRebuilder.Emitted(sections, t, n - 1);
      FieldsWritable(sections, offset, |Names(sections, n - 1)|, s, |b|);
      AllWritable(before.bytes, SectionFields(Bits32, sections, offset, |Names(sections, n - 1)|, s));
    }
  }

  lemma NameLengths()
    ensures |NameTable(Sections())| == 42
  {
    var s := Sections();
    assert |Names(s, 1)| == 1;
    assert s[1].name == ".text" && |Names(s, 2)| == 7;
    assert s[2].name == ".dynamic" && |Names(s, 3)| == 16;
    assert s[3].name == ".dynstr" && |Names(s, 4)| == 24;
    assert s[4].name == ".dynsym" && |Names(s, 5)| == 32;
  }

  lemma FinishSucceeds(headed: Bytes)
    requires |headed| == 181
    ensures Finish(headed, Bits32, Sections(), 0x1000).Ok?
  {
    hide NameTable, HeadersWritten, WriteAll;
    NameLengths();
    Powers();
    var sections := Sections();
    var t := TailOf(Bits32, 181, sections);
    assert t.namesOffset == 184 && t.tableOffset == 228 && t.finalSize == 468;
    HeadersSucceed(Grown(headed, t), sections, t, 6);
    AllWritable(HeadersWritten(Grown(headed, t), Bits32, sections, t, 6).bytes, TableFields(Bits32, 5, 228));
  }

  // ---- the rebuild ----

  /** The rebuild of the capture succeeds, and its file parses as a shared object. */
  lemma SonameMakesSharedObject()
    ensures Outcome(NamedCapture(), 0x1000, [0]).Ok? && Capturable(NamedCapture(), [0])
    ensures WellFormed(NamedExecutable()) && Clear(NamedExecutable(), 181) && TablesClear(NamedExecutable())
    ensures Flat(NamedCapture(), 0x1000, [0]) == Ok(Content()) && Identified(Content(), Bits32)
    ensures NamedExecutable().imageType == PositionIndependentExecutable
    ensures var parsed := Parser.Outcome(Outcome(NamedCapture(), 0x1000, [0]).value, Classifier.CompleteFile);
            parsed.Ok? && parsed.value.imageType == SharedObject
  {
    hide Finish, Analyzer.Outcome, Writer.Outcome, Flat, AllSections, Sections, Classifier.HasSoname, Parser.Outcome, Slice, TailOf;
    FlatIsContent();
    ContentIsIdentified();
    HeadersFit();
    var headed := Writer.Outcome(Content(), NamedExecutable()).bytes;
    TableStays(headed);
    TableAnalysed(headed);
    TagsRead(headed);
    SectionsAre();
    FinishSucceeds(headed);
    CaptureIsWhole();
    var out := Outcome(NamedCapture(), 0x1000, [0]).value;
    OutParses(NamedCapture(), 0x1000, Content(), headed, Sections(), out);
  }

  lemma CaptureIsWhole()
    ensures Capturable(NamedCapture(), [0])
    ensures WellFormed(NamedExecutable()) && Clear(NamedExecutable(), 181) && TablesClear(NamedExecutable())
  {
    assert Headers()[0] == LOAD;
  }
}
