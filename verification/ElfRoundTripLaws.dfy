/** The whole ELF rebuild: the result is accepted by the validator, describes its
    own sections, and a faithful capture of a file parses like that file. */
module ElfRoundTripLaws {
  import opened Bytes
  import opened ByteFields
  import opened ElfFormat
  import opened ElfSections
  import opened ElfImageRebuilder
  import opened ElfFileLaws
  import opened ElfRebuildLaws
  import opened ElfSectionTableLaws
  import Parser = ElfParser
  import Classifier = ElfImageTypeClassifier
  import Writer = ElfHeaderWriter
  import Analyzer = ElfDynamicMetadataAnalyzer
  import HeaderLaws = ElfHeaderLaws
  import Validator = ElfImageValidator

  // ---- acceptance ----

  lemma LoadsInsideFlat(captured: CapturedImage, maximum: U64, order: seq<nat>)
    requires Flat(captured, maximum, order).Ok?
    ensures Validator.SegmentsInside(captured.layout.programHeaders, |Flat(captured, maximum, order).value|)
  {
    hide CopyAll, CapturedSize;
    var headers := captured.layout.programHeaders;
    forall k | 0 <= k < |headers| && headers[k].kind == PT_LOAD && headers[k].fileSize != 0
      ensures headers[k].fileOffset + headers[k].fileSize <= |Flat(captured, maximum, order).value|
    {
      SizeCovers(headers, captured.segments, |headers|, k);
    }
  }

  /** The dynamic section analysis of the output is the one that was made. */
  lemma OutAnalysis(captured: CapturedImage, maximum: U64, flat: Bytes, headed: Bytes, sections: seq<Section>, out: Bytes)
    requires Stages(captured, maximum, flat, headed, sections, out) && Clear(captured.layout, |flat|)
    ensures var c, headers := captured.layout.imageClass, captured.layout.programHeaders;
            Analyzer.Outcome(out, c, headers) == Analyzer.Outcome(headed, c, headers)
  {
    hide Finish, AllSections, Analyzer.Outcome, Writer.Outcome, TailOf, TableFields, Slice, Analyzer.FirstDynamic;
    var layout := captured.layout;
    OutIsLonger(captured, maximum, flat, headed, sections, out);
    Analyzer.FirstDynamicKind(layout.programHeaders);
    if Analyzer.FirstDynamic(layout.programHeaders).Some? {
      var h := Analyzer.FirstDynamic(layout.programHeaders).value;
      var k :| 0 <= k < |layout.programHeaders| && layout.programHeaders[k] == h;
      AfterHeader(layout.imageClass, |sections|, TailOf(layout.imageClass, |headed|, sections).tableOffset, h.fileOffset, h.fileSize);
      FinishKeeps(headed, layout.imageClass, sections, maximum, h.fileOffset, h.fileSize);
      HeaderLaws.SliceIsRange(headed, out, h.fileOffset, h.fileSize);
    }
    Analyzer.AnalysisSurvives(headed, out, layout.imageClass, layout.programHeaders);
  }

  lemma OutSections(captured: CapturedImage, maximum: U64, flat: Bytes, headed: Bytes, sections: seq<Section>, out: Bytes)
    requires Stages(captured, maximum, flat, headed, sections, out) && |sections| < 0xffff
    ensures Validator.SectionsInside(out, ParsedBack(captured.layout, |sections|,
                                                     TailOf(captured.layout.imageClass, |headed|, sections).tableOffset))
  {
    hide Finish, AllSections, Analyzer.Outcome, Writer.Outcome, TailOf, ReadAt;
    var c := captured.layout.imageClass;
    TailInOrder(headed, c, sections, maximum);
    TableFieldRead(headed, c, sections, maximum, 3);
  }

  lemma SectionsIgnoreType(out: Bytes, layout: Layout)
    ensures forall t :: Validator.SectionsInside(out, layout.(imageType := t)) == Validator.SectionsInside(out, layout)
  {
  }

  /** A capture whose rebuild has headers that the program can read again. */
  ghost predicate Presentable(captured: CapturedImage, flat: Bytes) {
    WellFormed(captured.layout) && Clear(captured.layout, |flat|) && Identified(flat, captured.layout.imageClass)
  }

  /** The validator accepts a successful rebuild of a presentable capture exactly
      when its entry point suits some image type. */
  lemma RebuiltIsAccepted(captured: CapturedImage, maximum: U64, order: seq<nat>)
    requires Outcome(captured, maximum, order).Ok? && Flat(captured, maximum, order).Ok?
    requires Presentable(captured, Flat(captured, maximum, order).value)
    ensures Validator.Outcome(Outcome(captured, maximum, order).value) == Validator.Valid
            <==> TypeBack(Flat(captured, maximum, order).value, captured.layout).Some?
  {
    hide Outcome, Flat, WellFormed, Clear, Identified, TypeBack, Parser.Outcome, TailOf, Stages, Validator.SectionsInside,
         Analyzer.Outcome;
    var flat, headed, sections := StagesOf(captured, maximum, order);
    var out := Outcome(captured, maximum, order).value;
    OutParses(captured, maximum, flat, headed, sections, out);
    OutIsLonger(captured, maximum, flat, headed, sections, out);
    LoadsInsideFlat(captured, maximum, order);
    OutAnalysis(captured, maximum, flat, headed, sections, out);
    OutSections(captured, maximum, flat, headed, sections, out);
    var table := TailOf(captured.layout.imageClass, |headed|, sections).tableOffset;
    SectionsIgnoreType(out, ParsedBack(captured.layout, |sections|, table));
    AnalysisSucceeded(captured, maximum, flat, headed, sections, out);
  }

  lemma AnalysisSucceeded(captured: CapturedImage, maximum: U64, flat: Bytes, headed: Bytes, sections: seq<Section>, out: Bytes)
    requires Stages(captured, maximum, flat, headed, sections, out)
    ensures Analyzer.Outcome(headed, captured.layout.imageClass, captured.layout.programHeaders).Ok?
  {
    hide Finish, AllSections, Analyzer.Outcome, Writer.Outcome;
  }

  // ---- self-description ----

  /** The emitted sections: the built list, and the section of the names. */
  ghost function AllEmitted(sections: seq<Section>, t: Tail): seq<Section> {
    sections + [NamesSection(t)]
  }

  /** What a reader finds at entry `k` of the section table at `table`, taking
      names from the `size` bytes at `names`. */
  ghost predicate Describes(out: Bytes, c: ElfClass, table: nat, names: nat, size: nat, all: seq<Section>, k: nat)
    requires k < |all|
  {
    var offset, s := SectionOffset(c, table, k), all[k];
    Fits(out, offset, c.SectionHeaderSize())
    && var e, text := SectionAt(out, c, offset), Text(s.name);
       e.kind == s.kind && e.flags == s.flags && e.address == s.address && e.offset == s.offset && e.size == s.size
       && e.alignment == s.alignment && e.entrySize == s.entrySize && e.info == (if s.name == ".dynsym" then 1 else 0)
       && e.name + |text| + 1 <= size && Fits(out, names + e.name, |text| + 1)
       && Slice(out, names + e.name, |text| + 1) == text + [0] && 0 !in text
       && (s.link == "" ==> e.link == 0) && (s.link != "" ==> LinkedTo(all, e.link, s.link))
  }

  /** The index is that of a section of the linked name and of its kind. */
  ghost predicate LinkedTo(all: seq<Section>, index: nat, link: string) {
    1 <= index < |all| && all[index].name == link
    && (link == ".dynstr" ==> all[index].kind == STRING_TABLE)
    && (link == ".dynsym" ==> all[index].kind == Analyzer.SHT_DYNSYM)
  }

  /** A reader that follows e_shoff, e_shnum and e_shstrndx of the file finds
      every section of the list, with its own name and link. */
  ghost predicate SelfDescribing(out: Bytes, c: ElfClass, all: seq<Section>) {
    c.HeaderSize() <= |out|
    && var h, strings := Parser.HeaderOf(out, c), ReadAt(out, c.SectionCountOffset() + 2, 2);
       h.sectionCount == |all| && h.sectionEntrySize == c.SectionHeaderSize() && 1 <= strings < |all|
       && all[strings].name == TABLE_NAME && all[strings].kind == STRING_TABLE
       && Fits(out, SectionOffset(c, h.sectionOffset, strings), c.SectionHeaderSize())
       && var names := SectionAt(out, c, SectionOffset(c, h.sectionOffset, strings));
          names.offset + names.size <= |out|
          && forall k :: 1 <= k < |all| ==> Describes(out, c, h.sectionOffset, names.offset, names.size, all, k)
  }

  /** The rebuilt file describes its own sections. */
  lemma SectionTableIsConsistent(captured: CapturedImage, maximum: U64, order: seq<nat>)
    returns (flat: Bytes, headed: Bytes, sections: seq<Section>)
    requires Outcome(captured, maximum, order).Ok?
    requires captured.layout.imageClass.HeaderSize() <= captured.layout.programHeaderOffset
    ensures Flat(captured, maximum, order) == Ok(flat)
    ensures Stages(captured, maximum, flat, headed, sections, Outcome(captured, maximum, order).value)
    ensures |headed| <= U64_MAX
    ensures SelfDescribing(Outcome(captured, maximum, order).value, captured.layout.imageClass,
                           AllEmitted(sections, TailOf(captured.layout.imageClass, |headed|, sections)))
  {
    hide Outcome, Stages, TailOf, Parser.HeaderOf, Describes, ReadAt, SectionAt, SectionOffset;
    flat, headed, sections := StagesOf(captured, maximum, order);
    var out, c := Outcome(captured, maximum, order).value, captured.layout.imageClass;
    OutHeader(captured, maximum, flat, headed, sections, out);
    OutIsLonger(captured, maximum, flat, headed, sections, out);
    OutStrings(captured, maximum, flat, headed, sections, out);
    var t, n := TailOf(c, |headed|, sections), |sections|;
    NamesDescribed(captured, maximum, flat, headed, sections, out);
    forall k | 1 <= k <= n
      ensures Describes(out, c, Parser.HeaderOf(out, c).sectionOffset, t.namesOffset, |t.names|, AllEmitted(sections, t), k)
    {
      EntryDescribes(captured, maximum, flat, headed, sections, out, k);
    }
  }

  /** e_shstrndx is the last section, and there is one besides the null section. */
  lemma OutStrings(captured: CapturedImage, maximum: U64, flat: Bytes, headed: Bytes, sections: seq<Section>, out: Bytes)
    requires Stages(captured, maximum, flat, headed, sections, out)
    ensures captured.layout.imageClass.HeaderSize() <= |out| && 1 <= |sections|
    ensures ReadAt(out, captured.layout.imageClass.SectionCountOffset() + 2, 2) == |sections|
  {
    hide Finish, Analyzer.Outcome, Writer.Outcome, TailOf, ReadAt, AllSections;
    ListStarts(captured.layout.imageClass, captured.layout.programHeaders,
               Analyzer.Outcome(headed, captured.layout.imageClass, captured.layout.programHeaders).value.sections);
    TailInOrder(headed, captured.layout.imageClass, sections, maximum);
    TableFieldRead(headed, captured.layout.imageClass, sections, maximum, 3);
  }

  /** The entry of the name table says where the names are. */
  lemma NamesDescribed(captured: CapturedImage, maximum: U64, flat: Bytes, headed: Bytes, sections: seq<Section>, out: Bytes)
    requires Stages(captured, maximum, flat, headed, sections, out)
    ensures var c := captured.layout.imageClass;
            1 <= |sections| && |headed| <= U64_MAX
            && var t := TailOf(c, |headed|, sections);
               var offset := SectionOffset(c, t.tableOffset, |sections|);
               Fits(out, offset, c.SectionHeaderSize()) && SectionAt(out, c, offset).offset == t.namesOffset
               && SectionAt(out, c, offset).size == |t.names| && t.namesOffset + |t.names| <= |out|
  {
    hide Finish, AllSections, Analyzer.Outcome, Writer.Programs, TailOf, SectionAt, SectionOffset, AllPlain, NameTable;
    var layout, c := captured.layout, captured.layout.imageClass;
    OutStrings(captured, maximum, flat, headed, sections, out);
    NamesArePlain(headed, c, layout.programHeaders);
    TailInOrder(headed, c, sections, maximum);
    TableReadsBack(headed, c, sections, maximum, |sections|);
  }

  lemma EntryDescribes(captured: CapturedImage, maximum: U64, flat: Bytes, headed: Bytes, sections: seq<Section>, out: Bytes, k: nat)
    requires Stages(captured, maximum, flat, headed, sections, out) && 1 <= k <= |sections|
    ensures var c := captured.layout.imageClass;
            |headed| <= U64_MAX
            && var t := TailOf(c, |headed|, sections);
               Describes(out, c, t.tableOffset, t.namesOffset, |t.names|, AllEmitted(sections, t), k)
  {
    hide Finish, AllSections, Analyzer.Outcome, Writer.Programs, TailOf, Names, NameTable, SectionAt, SectionOffset, IndexOf, Slice,
      AllPlain;
    var layout, c := captured.layout, captured.layout.imageClass;
    NamesArePlain(headed, c, layout.programHeaders);
    TailInOrder(headed, c, sections, maximum);
    TableReadsBack(headed, c, sections, maximum, k);
    NamesLeadToText(headed, c, sections, maximum, k);
    NameInTable(sections, k);
    if k < |sections| && sections[k].link != "" {
      LinksResolve(headed, c, layout.programHeaders, k);
    }
  }

  // ---- faithful captures ----

  /** The capture holds exactly the file's loads, and the file's headers and
      dynamic tables lie inside loads. */
  ghost predicate Faithful(file: Bytes, captured: CapturedImage) {
    var layout, headers := captured.layout, captured.layout.programHeaders;
    (forall k :: 0 <= k < |headers| && Filed(headers[k]) ==>
       Fits(file, headers[k].fileOffset, headers[k].fileSize)
       && SegmentOf(captured.segments, k) == Some(Slice(file, headers[k].fileOffset, headers[k].fileSize)))
    && (forall k :: 0 <= k < |headers| && headers[k].kind == PT_DYNAMIC ==>
          Loaded(headers, headers[k].fileOffset, headers[k].fileSize))
    && Loaded(headers, 0, layout.imageClass.HeaderSize())
    && Loaded(headers, layout.programHeaderOffset, |headers| * layout.imageClass.ProgramHeaderSize())
  }

  /** One load's file range contains the range. */
  ghost predicate Loaded(headers: seq<ProgramHeader>, at: nat, size: nat) {
    exists k :: 0 <= k < |headers| && Filed(headers[k]) && headers[k].fileOffset <= at
      && at + size <= headers[k].fileOffset + headers[k].fileSize
  }

  /** Inside the loads the image is the file. */
  lemma FlatIsFile(file: Bytes, captured: CapturedImage, maximum: U64, order: seq<nat>, at: nat, size: nat)
    requires Capturable(captured, order) && Flat(captured, maximum, order).Ok? && Faithful(file, captured)
    requires Loaded(captured.layout.programHeaders, at, size)
    ensures SameRange(file, Flat(captured, maximum, order).value, at, size)
  {
    hide Flat, SegmentOf;
    var headers, flat := captured.layout.programHeaders, Flat(captured, maximum, order).value;
    var k :| 0 <= k < |headers| && Filed(headers[k]) && headers[k].fileOffset <= at
             && at + size <= headers[k].fileOffset + headers[k].fileSize;
    FlatHoldsSegments(captured, maximum, order, k);
    HeaderLaws.SliceIsRange(file, flat, headers[k].fileOffset, headers[k].fileSize);
  }

  lemma SonameIsFiles(file: Bytes, captured: CapturedImage, maximum: U64, order: seq<nat>)
    requires Capturable(captured, order) && Flat(captured, maximum, order).Ok? && Faithful(file, captured)
    ensures var c, headers := captured.layout.imageClass, captured.layout.programHeaders;
            Classifier.HasSoname(file, c, headers) == Classifier.HasSoname(Flat(captured, maximum, order).value, c, headers)
  {
    hide Flat, Loaded, Classifier.HasSoname, SegmentOf;
    var headers, flat := captured.layout.programHeaders, Flat(captured, maximum, order).value;
    forall k | 0 <= k < |headers| && headers[k].kind == PT_DYNAMIC
      ensures SameRange(file, flat, headers[k].fileOffset, headers[k].fileSize)
    {
      FlatIsFile(file, captured, maximum, order, headers[k].fileOffset, headers[k].fileSize);
    }
    Classifier.SonameDependsOnTables(file, flat, captured.layout.imageClass, headers);
  }

  /** A faithful image already says what the header writer writes. */
  lemma FlatRestates(file: Bytes, captured: CapturedImage, maximum: U64, order: seq<nat>)
    requires Parser.Outcome(file, Classifier.CompleteFile) == Ok(captured.layout) && Faithful(file, captured)
    requires Capturable(captured, order) && Flat(captured, maximum, order).Ok?
    ensures var flat := Flat(captured, maximum, order).value; Writer.Outcome(flat, captured.layout) == Written(flat, true)
    ensures Identified(Flat(captured, maximum, order).value, captured.layout.imageClass)
  {
    hide Flat, Capturable, Loaded, SegmentOf, Parser.Outcome, Writer.Outcome, HeaderLaws.Restates;
    var layout, flat := captured.layout, Flat(captured, maximum, order).value;
    FlatIsFile(file, captured, maximum, order, 0, layout.imageClass.HeaderSize());
    FlatIsFile(file, captured, maximum, order, layout.programHeaderOffset,
               |layout.programHeaders| * layout.imageClass.ProgramHeaderSize());
    HeaderLaws.ParsedIsRestated(file, Classifier.CompleteFile);
    HeaderLaws.RestatedElsewhere(file, flat, layout);
    HeaderLaws.WriterRestates(flat, layout);
    ParsedIsIdentified(file, Classifier.CompleteFile);
    assert flat[..4] == file[..4];
  }

  /** Byte `i` belongs to the fields of the ELF header that describe the section table. */
  predicate SectionField(c: ElfClass, i: nat) {
    c.SectionTableOffset() <= i < c.SectionTableOffset() + c.AddressWidth()
    || c.SectionEntrySizeOffset() <= i < c.SectionEntrySizeOffset() + 6
  }

  /** Capturing a parsed file's loads and rebuilding reproduces every loaded byte
      of the file, headers included, except where the section table is described. */
  lemma FaithfulRebuildKeepsTheFile(file: Bytes, captured: CapturedImage, maximum: U64, order: seq<nat>, i: nat)
    requires Parser.Outcome(file, Classifier.CompleteFile) == Ok(captured.layout) && Faithful(file, captured)
    requires Capturable(captured, order) && Outcome(captured, maximum, order).Ok?
    requires Flat(captured, maximum, order).Ok?
    requires Loaded(captured.layout.programHeaders, i, 1) && !SectionField(captured.layout.imageClass, i)
    ensures var out := Outcome(captured, maximum, order).value;
            i < |file| && i < |out| && out[i] == file[i]
  {
    hide Outcome, Flat, Capturable, Faithful, Loaded, Parser.Outcome, Finish, AllSections, Analyzer.Outcome, Writer.Outcome, TailOf;
    var flat, headed, sections := StagesOf(captured, maximum, order);
    var out, c := Outcome(captured, maximum, order).value, captured.layout.imageClass;
    FlatRestates(file, captured, maximum, order);
    FlatIsFile(file, captured, maximum, order, i, 1);
    OutIsLonger(captured, maximum, flat, headed, sections, out);
    FinishKeeps(headed, c, sections, maximum, i, 1);
    assert out[i] == Slice(out, i, 1)[0] && flat[i] == Slice(flat, i, 1)[0];
  }

  /** Capturing a parsed file's loads and rebuilding gives a file that parses to
      the same layout, section table aside, and that the validator accepts. */
  lemma FaithfulRebuildParsesAlike(file: Bytes, captured: CapturedImage, maximum: U64, order: seq<nat>)
    requires Parser.Outcome(file, Classifier.CompleteFile) == Ok(captured.layout) && Faithful(file, captured)
    requires Capturable(captured, order) && Outcome(captured, maximum, order).Ok?
    requires Flat(captured, maximum, order).Ok? && Clear(captured.layout, |Flat(captured, maximum, order).value|)
    ensures var out := Outcome(captured, maximum, order).value;
            Validator.Outcome(out) == Validator.Valid
            && Same(Parser.Outcome(out, Classifier.CompleteFile), captured.layout)
  {
    hide Outcome, Flat, Capturable, Faithful, WellFormed, Clear, Parser.ClassOutcome, Parser.EntryExecutable, Classifier.HasSoname,
         Validator.Outcome, Same, Writer.Outcome;
    var flat := Flat(captured, maximum, order).value;
    ParsedIsWellFormed(file, Classifier.CompleteFile);
    SonameIsFiles(file, captured, maximum, order);
    FlatRestates(file, captured, maximum, order);
    assert Presentable(captured, flat);
    RebuiltParsesBack(captured, maximum, order);
    RebuiltIsAccepted(captured, maximum, order);
  }
}
