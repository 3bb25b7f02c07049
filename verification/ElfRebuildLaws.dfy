/** A rebuilt ELF file parses back to the captured layout and keeps every
    captured byte outside the headers. */
module ElfRebuildLaws {
  import opened Bytes
  import opened ByteFields
  import opened ElfFormat
  import opened ElfSections
  import opened ElfImageRebuilder
  import opened ElfFileLaws
  import Parser = ElfParser
  import Classifier = ElfImageTypeClassifier
  import Writer = ElfHeaderWriter
  import Analyzer = ElfDynamicMetadataAnalyzer
  import HeaderLaws = ElfHeaderLaws

  /** What the parser checks of a layout, apart from the entry point. */
  ghost predicate WellFormed(layout: Layout) {
    0 < |layout.programHeaders| <= Parser.MAXIMUM_PROGRAM_HEADERS
    && Parser.LoadsValid(layout.programHeaders) && Parser.HasLoad(layout.programHeaders)
  }

  /** A parsed layout is well formed, and its headers are of the declared number and size. */
  lemma ParsedIsWellFormed(b: Bytes, extent: Classifier.Extent)
    requires Parser.Outcome(b, extent).Ok?
    ensures var layout := Parser.Outcome(b, extent).value;
            WellFormed(layout) && |layout.programHeaders| == layout.programHeaderCount
            && layout.programHeaderEntrySize == layout.imageClass.ProgramHeaderSize()
            && Parser.TypeOf(b, layout, KindOf(layout), extent) == Some(layout.imageType)
  {
    hide Parser.LoadsValid, Parser.HasLoad, Parser.HeaderOf, Classifier.HasSoname;
  }

  function KindOf(layout: Layout): U16 {
    if layout.imageType.Executable? then Parser.EXECUTABLE_TYPE else Parser.DYNAMIC_TYPE
  }

  /** The range holds neither ELF header nor program headers. */
  ghost predicate ClearOfHeaders(layout: Layout, at: int, size: int) {
    layout.imageClass.HeaderSize() <= at
    && (at + size <= layout.programHeaderOffset
        || layout.programHeaderOffset + |layout.programHeaders| * layout.imageClass.ProgramHeaderSize() <= at)
  }

  /** Program headers and dynamic tables, which lie in the image, are clear of the ELF header. */
  ghost predicate Clear(layout: Layout, size: nat) {
    layout.imageClass.HeaderSize() <= layout.programHeaderOffset
    && forall k :: 0 <= k < |layout.programHeaders| && layout.programHeaders[k].kind == PT_DYNAMIC ==>
      var h := layout.programHeaders[k];
      layout.imageClass.HeaderSize() <= h.fileOffset && h.fileOffset + h.fileSize <= size
  }

  /** Dynamic tables are clear of the program headers too. */
  ghost predicate TablesClear(layout: Layout) {
    forall k :: 0 <= k < |layout.programHeaders| && layout.programHeaders[k].kind == PT_DYNAMIC ==>
      ClearOfHeaders(layout, layout.programHeaders[k].fileOffset, layout.programHeaders[k].fileSize)
  }

  /** The flat image with its headers written over it. */
  ghost function Headed(flat: Bytes, layout: Layout): Bytes {
    Writer.Outcome(flat, layout).bytes
  }

  /** The identification bytes that the parser accepts for the class. */
  ghost predicate Identified(b: Bytes, c: ElfClass) {
    |b| >= Parser.IDENT_SIZE && b[..4] == Parser.MAGIC && b[4] == c.Identifier() && b[5] == 1
  }

  /** The intermediate results of a successful rebuild. */
  ghost predicate Stages(captured: CapturedImage, maximum: U64, flat: Bytes, headed: Bytes, sections: seq<Section>, out: Bytes) {
    var c, layout := captured.layout.imageClass, captured.layout;
    var dynamic := Analyzer.Outcome(headed, c, layout.programHeaders);
    c.HeaderSize() <= |flat| <= U64_MAX && Writer.Outcome(flat, layout) == Written(headed, true)
    && dynamic.Ok? && sections == AllSections(c, layout.programHeaders, dynamic.value.sections)
    && Finish(headed, c, sections, maximum) == Ok(out)
  }

  lemma StagesOf(captured: CapturedImage, maximum: U64, order: seq<nat>)
    returns (flat: Bytes, headed: Bytes, sections: seq<Section>)
    requires Outcome(captured, maximum, order).Ok?
    ensures Flat(captured, maximum, order) == Ok(flat)
    ensures Stages(captured, maximum, flat, headed, sections, Outcome(captured, maximum, order).value)
  {
    hide Finish, AllSections, Analyzer.Outcome, Writer.Outcome, CopyAll, CapturedSize;
    flat := Flat(captured, maximum, order).value;
    headed := Writer.Outcome(flat, captured.layout).bytes;
    sections := AllSections(captured.layout.imageClass, captured.layout.programHeaders,
                            Analyzer.Outcome(headed, captured.layout.imageClass, captured.layout.programHeaders).value.sections);
  }

  // ---- bytes ----

  /** Bytes outside the ELF header and the program headers are the captured ones. */
  lemma OutKeeps(captured: CapturedImage, maximum: U64, flat: Bytes, headed: Bytes, sections: seq<Section>, out: Bytes,
                 at: nat, size: nat)
    requires Stages(captured, maximum, flat, headed, sections, out)
    requires Fits(flat, at, size) && HeaderLaws.Untouched(captured.layout, at, size)
    requires Avoid(TableFields(captured.layout.imageClass, |sections|,
                               TailOf(captured.layout.imageClass, |headed|, sections).tableOffset), at, size)
    ensures |flat| <= |out| && Slice(out, at, size) == Slice(flat, at, size)
  {
    hide Finish, AllSections, Analyzer.Outcome, Writer.Programs, TailOf, TableFields, Slice, HeaderLaws.Untouched, Avoid;
    var layout := captured.layout;
    HeaderLaws.ProgramsElsewhere(flat, layout, |layout.programHeaders|, at, size);
    FinishKeeps(headed, layout.imageClass, sections, maximum, at, size);
  }

  lemma ClearIsUntouched(layout: Layout, count: nat, table: U64, at: nat, size: nat)
    requires ClearOfHeaders(layout, at, size)
    ensures HeaderLaws.Untouched(layout, at, size) && Avoid(TableFields(layout.imageClass, count, table), at, size)
  {
    HeaderLaws.HeaderFieldsApart(layout);
    TableFieldsInHeader(layout.imageClass, count, table);
  }

  /** The identification bytes come before every header field. */
  lemma IdentIsUntouched(layout: Layout, count: nat, table: U64)
    requires layout.imageClass.HeaderSize() <= layout.programHeaderOffset
    ensures HeaderLaws.Untouched(layout, 0, Parser.IDENT_SIZE)
    ensures Avoid(TableFields(layout.imageClass, count, table), 0, Parser.IDENT_SIZE)
  {
    HeaderLaws.HeaderFieldsApart(layout);
    TableFieldsInHeader(layout.imageClass, count, table);
  }

  /** Every captured byte of a load is in the rebuilt file, outside the two header ranges. */
  lemma CapturedBytesSurvive(captured: CapturedImage, maximum: U64, order: seq<nat>, k: nat, i: nat)
    requires Outcome(captured, maximum, order).Ok? && Capturable(captured, order)
    requires k < |captured.layout.programHeaders| && Filed(captured.layout.programHeaders[k])
    requires i < captured.layout.programHeaders[k].fileSize
    requires ClearOfHeaders(captured.layout, captured.layout.programHeaders[k].fileOffset + i, 1)
    ensures var out, h := Outcome(captured, maximum, order).value, captured.layout.programHeaders[k];
            SegmentOf(captured.segments, k).Some? && |SegmentOf(captured.segments, k).value| == h.fileSize
            && h.fileOffset + h.fileSize <= |out|
            && out[h.fileOffset + i] == SegmentOf(captured.segments, k).value[i]
  {
    hide Outcome, Finish, AllSections, Analyzer.Outcome, Writer.Outcome, Flat, SegmentOf, TailOf, TableFields, Stages;
    var flat, headed, sections := StagesOf(captured, maximum, order);
    var out, h := Outcome(captured, maximum, order).value, captured.layout.programHeaders[k];
    OutIsLonger(captured, maximum, flat, headed, sections, out);
    FlatHoldsSegments(captured, maximum, order, k);
    var at := h.fileOffset + i;
    ClearIsUntouched(captured.layout, |sections|, TailOf(captured.layout.imageClass, |headed|, sections).tableOffset, at, 1);
    OutKeeps(captured, maximum, flat, headed, sections, out, at, 1);
    assert out[at] == Slice(out, at, 1)[0] && flat[at] == Slice(flat, at, 1)[0];
    assert flat[at] == Slice(flat, h.fileOffset, h.fileSize)[i];
  }

  // ---- headers ----

  lemma HeaderFieldsAvoidTable(layout: Layout, count: nat, table: U64, k: nat)
    requires k < 9
    ensures |Writer.HeaderFields(layout)| == 9
    ensures Avoid(TableFields(layout.imageClass, count, table), Writer.HeaderFields(layout)[k].offset,
                  Writer.HeaderFields(layout)[k].width)
  {
  }

  lemma HeaderFieldKept(captured: CapturedImage, maximum: U64, flat: Bytes, headed: Bytes, sections: seq<Section>, out: Bytes, k: nat)
    requires Stages(captured, maximum, flat, headed, sections, out) && k < 9
    requires captured.layout.imageClass.HeaderSize() <= captured.layout.programHeaderOffset
    ensures var f := Writer.HeaderFields(captured.layout)[k];
            Fits(out, f.offset, f.width) && ReadAt(out, f.offset, f.width) == f.value
  {
    hide Finish, AllSections, Analyzer.Outcome, Writer.Programs, Writer.HeaderFields, TailOf, TableFields, ReadAt, Avoid;
    var layout := captured.layout;
    HeaderLaws.FieldCount(layout);
    var f := Writer.HeaderFields(layout)[k];
    HeaderLaws.HeaderFieldRead(flat, layout, |layout.programHeaders|, k);
    HeaderFieldsAvoidTable(layout, |sections|, TailOf(layout.imageClass, |headed|, sections).tableOffset, k);
    FinishKeeps(headed, layout.imageClass, sections, maximum, f.offset, f.width);
  }

  lemma TableFieldRead(b: Bytes, c: ElfClass, sections: seq<Section>, maximum: U64, k: nat)
    requires |b| <= U64_MAX && Finish(b, c, sections, maximum).Ok? && k < 4
    ensures var out, f := Finish(b, c, sections, maximum).value, TableFields(c, |sections|, TailOf(c, |b|, sections).tableOffset)[k];
            Fits(out, f.offset, f.width) && ReadAt(out, f.offset, f.width) == f.value
  {
    hide HeadersWritten, WriteAll, TailOf, ReadAt, Grown, AllApart;
    var t := TailOf(c, |b|, sections);
    TableFieldsInHeader(c, |sections|, t.tableOffset);
    ReadField(HeadersWritten(Grown(b, t), c, sections, t, |sections| + 1).bytes, TableFields(c, |sections|, t.tableOffset), k);
  }

  /** The ELF header as the parser reads it from the rebuilt file. */
  lemma OutHeader(captured: CapturedImage, maximum: U64, flat: Bytes, headed: Bytes, sections: seq<Section>, out: Bytes)
    requires Stages(captured, maximum, flat, headed, sections, out)
    requires captured.layout.imageClass.HeaderSize() <= captured.layout.programHeaderOffset
    ensures var layout, c := captured.layout, captured.layout.imageClass;
            c.HeaderSize() <= |out| && |sections| + 1 <= 0xffff
            && Parser.HeaderOf(out, c)
               == Parser.FileHeader(KindOf(layout), c.Machine(), 1, layout.entryPoint, layout.programHeaderOffset,
                                    TailOf(c, |headed|, sections).tableOffset, layout.flags, c.HeaderSize(),
                                    c.ProgramHeaderSize(), layout.programHeaderCount, c.SectionHeaderSize(), |sections| + 1)
  {
    hide Finish, AllSections, Analyzer.Outcome, Writer.Outcome, TailOf, ReadAt;
    var c := captured.layout.imageClass;
    TailInOrder(headed, c, sections, maximum);
    HeaderFieldKept(captured, maximum, flat, headed, sections, out, 0);
    HeaderFieldKept(captured, maximum, flat, headed, sections, out, 1);
    HeaderFieldKept(captured, maximum, flat, headed, sections, out, 2);
    HeaderFieldKept(captured, maximum, flat, headed, sections, out, 3);
    HeaderFieldKept(captured, maximum, flat, headed, sections, out, 4);
    HeaderFieldKept(captured, maximum, flat, headed, sections, out, 5);
    HeaderFieldKept(captured, maximum, flat, headed, sections, out, 6);
    HeaderFieldKept(captured, maximum, flat, headed, sections, out, 7);
    HeaderFieldKept(captured, maximum, flat, headed, sections, out, 8);
    TableFieldRead(headed, c, sections, maximum, 0);
    TableFieldRead(headed, c, sections, maximum, 1);
    TableFieldRead(headed, c, sections, maximum, 2);
  }

  /** The program headers as the parser reads them from the rebuilt file. */
  lemma OutPrograms(captured: CapturedImage, maximum: U64, flat: Bytes, headed: Bytes, sections: seq<Section>, out: Bytes)
    requires Stages(captured, maximum, flat, headed, sections, out)
    requires captured.layout.imageClass.HeaderSize() <= captured.layout.programHeaderOffset
    ensures var layout, c := captured.layout, captured.layout.imageClass;
            Fits(out, layout.programHeaderOffset, |layout.programHeaders| * c.ProgramHeaderSize())
            && Parser.ProgramHeaders(out, c, layout.programHeaderOffset, |layout.programHeaders|) == layout.programHeaders
  {
    hide Finish, AllSections, Analyzer.Outcome, Writer.Programs, Parser.ProgramHeaderAt, TailOf, TableFields, Slice,
         Parser.ProgramOffset;
    var layout, c, n := captured.layout, captured.layout.imageClass, |captured.layout.programHeaders|;
    TailInOrder(headed, c, sections, maximum);
    var table := layout.programHeaderOffset;
    forall k | 0 <= k < n
      ensures Fits(out, Parser.ProgramOffset(c, table, k), c.ProgramHeaderSize())
      ensures Parser.ProgramHeaderAt(out, c, Parser.ProgramOffset(c, table, k)) == layout.programHeaders[k]
    {
      var at := Parser.ProgramOffset(c, table, k);
      HeaderLaws.ProgramsRead(flat, layout, n, k);
      HeaderLaws.OffsetsInTable(layout, k);
      AfterHeader(c, |sections|, TailOf(c, |headed|, sections).tableOffset, at, c.ProgramHeaderSize());
      FinishKeeps(headed, c, sections, maximum, at, c.ProgramHeaderSize());
      HeaderLaws.ProgramHeaderSame(headed, out, c, at);
    }
    HeaderLaws.TableRead(out, layout, n);
    assert layout.programHeaders[..n] == layout.programHeaders;
  }

  lemma AfterHeader(c: ElfClass, count: nat, table: U64, at: nat, size: nat)
    requires c.HeaderSize() <= at
    ensures Avoid(TableFields(c, count, table), at, size)
  {
    TableFieldsInHeader(c, count, table);
  }

  // ---- the round trip ----

  /** Appending the section table changes no dynamic table that the classifier reads. */
  lemma OutSoname(captured: CapturedImage, maximum: U64, flat: Bytes, headed: Bytes, sections: seq<Section>, out: Bytes)
    requires Stages(captured, maximum, flat, headed, sections, out) && Clear(captured.layout, |flat|)
    ensures Classifier.HasSoname(out, captured.layout.imageClass, captured.layout.programHeaders)
            == Classifier.HasSoname(headed, captured.layout.imageClass, captured.layout.programHeaders)
  {
    hide AllSections, Analyzer.Outcome, Writer.Outcome, Finish, TailOf, TableFields, Slice, Classifier.HasSoname;
    var layout, headers := captured.layout, captured.layout.programHeaders;
    OutIsLonger(captured, maximum, flat, headed, sections, out);
    forall k | 0 <= k < |headers| && Classifier.TableReadable(|headed|, layout.imageClass, headers[k])
      ensures SameRange(headed, out, headers[k].fileOffset, headers[k].fileSize)
    {
      var h := headers[k];
      AfterHeader(layout.imageClass, |sections|, TailOf(layout.imageClass, |headed|, sections).tableOffset, h.fileOffset, h.fileSize);
      FinishKeeps(headed, layout.imageClass, sections, maximum, h.fileOffset, h.fileSize);
      HeaderLaws.SliceIsRange(headed, out, h.fileOffset, h.fileSize);
    }
    Classifier.SonameDependsOnTables(headed, out, layout.imageClass, headers);
  }

  lemma OutIsLonger(captured: CapturedImage, maximum: U64, flat: Bytes, headed: Bytes, sections: seq<Section>, out: Bytes)
    requires Stages(captured, maximum, flat, headed, sections, out)
    ensures captured.layout.imageClass.HeaderSize() <= |flat| == |headed| <= |out| && |headed| <= U64_MAX
  {
    hide Finish, AllSections, Analyzer.Outcome, Writer.Programs, TailOf;
    TailInOrder(headed, captured.layout.imageClass, sections, maximum);
  }

  /** The layout that parsing the rebuilt file gives. */
  ghost function ParsedBack(layout: Layout, sections: nat, table: U64): Layout
    requires sections < 0xffff
  {
    layout.(sectionHeaderOffset := table, sectionHeaderEntrySize := layout.imageClass.SectionHeaderSize(),
            sectionHeaderCount := sections + 1)
  }

  lemma StagesHeaded(captured: CapturedImage, maximum: U64, flat: Bytes, headed: Bytes, sections: seq<Section>, out: Bytes)
    requires Stages(captured, maximum, flat, headed, sections, out)
    ensures headed == Headed(flat, captured.layout)
  {
    hide Finish, AllSections, Analyzer.Outcome, Writer.Outcome;
  }

  /** The type that the parser gives to the image rebuilt from `flat`, if any. */
  ghost function TypeBack(flat: Bytes, layout: Layout): Option<ImageType> {
    Parser.TypeOf(Headed(flat, layout), layout, KindOf(layout), Classifier.CompleteFile)
  }

  lemma OutParses(captured: CapturedImage, maximum: U64, flat: Bytes, headed: Bytes, sections: seq<Section>, out: Bytes)
    requires Stages(captured, maximum, flat, headed, sections, out)
    requires WellFormed(captured.layout) && Clear(captured.layout, |flat|)
    requires Identified(flat, captured.layout.imageClass)
    ensures |sections| < 0xffff
    ensures var kind, table := TypeBack(flat, captured.layout), TailOf(captured.layout.imageClass, |headed|, sections).tableOffset;
            Parser.Outcome(out, Classifier.CompleteFile)
            == if kind.None? then Err(Parser.InvalidEntryPoint)
               else Ok(ParsedBack(captured.layout.(imageType := kind.value), |sections|, table))
  {
    hide Stages, TailOf, Parser.HeaderOf, Parser.ProgramHeaders, Parser.LoadsValid, Parser.HasLoad, Parser.EntryExecutable,
         Classifier.HasSoname, Headed;
    var layout, c := captured.layout, captured.layout.imageClass;
    assert headed == Headed(flat, layout) by { StagesHeaded(captured, maximum, flat, headed, sections, out); }
    OutHeader(captured, maximum, flat, headed, sections, out);
    OutPrograms(captured, maximum, flat, headed, sections, out);
    OutSoname(captured, maximum, flat, headed, sections, out);
    OutIdentified(captured, maximum, flat, headed, sections, out);
    TablesInside(captured, maximum, flat, headed, sections, out);
  }

  lemma OutIdentified(captured: CapturedImage, maximum: U64, flat: Bytes, headed: Bytes, sections: seq<Section>, out: Bytes)
    requires Stages(captured, maximum, flat, headed, sections, out)
    requires captured.layout.imageClass.HeaderSize() <= captured.layout.programHeaderOffset
    ensures Identified(out, captured.layout.imageClass) <==> Identified(flat, captured.layout.imageClass)
  {
    hide Stages, TailOf, TableFields, HeaderLaws.Untouched, Avoid;
    OutIsLonger(captured, maximum, flat, headed, sections, out);
    IdentIsUntouched(captured.layout, |sections|, TailOf(captured.layout.imageClass, |headed|, sections).tableOffset);
    OutKeeps(captured, maximum, flat, headed, sections, out, 0, Parser.IDENT_SIZE);
    var a, b := Slice(out, 0, Parser.IDENT_SIZE), Slice(flat, 0, Parser.IDENT_SIZE);
    assert out[..4] == a[..4] && flat[..4] == b[..4];
    assert out[4] == a[4] && out[5] == a[5] && flat[4] == b[4] && flat[5] == b[5];
  }

  lemma TablesInside(captured: CapturedImage, maximum: U64, flat: Bytes, headed: Bytes, sections: seq<Section>, out: Bytes)
    requires Stages(captured, maximum, flat, headed, sections, out)
    ensures var layout, c := captured.layout, captured.layout.imageClass;
            |layout.programHeaders| == layout.programHeaderCount && layout.programHeaderEntrySize == c.ProgramHeaderSize()
            && layout.programHeaderOffset + c.ProgramHeaderSize() * layout.programHeaderCount <= Min(U64_MAX, |out|)
            && TailOf(c, |headed|, sections).tableOffset + c.SectionHeaderSize() * (|sections| + 1) <= Min(U64_MAX, |out|)
  {
    hide Finish, AllSections, Analyzer.Outcome, Writer.Programs, TailOf;
    TailInOrder(headed, captured.layout.imageClass, sections, maximum);
  }

  lemma ParsedIsIdentified(b: Bytes, extent: Classifier.Extent)
    requires Parser.Outcome(b, extent).Ok?
    ensures Identified(b, Parser.Outcome(b, extent).value.imageClass)
  {
    hide Parser.HeaderOf, Parser.ProgramHeaders, Parser.TypeOf, Parser.LoadsValid, Parser.HasLoad;
  }

  /** The parsed layout is `layout`, whatever its section table is. */
  ghost predicate Same(parsed: Result<Layout, Parser.ParseError>, layout: Layout) {
    parsed.Ok? && parsed.value.(sectionHeaderOffset := layout.sectionHeaderOffset,
                                sectionHeaderEntrySize := layout.sectionHeaderEntrySize,
                                sectionHeaderCount := layout.sectionHeaderCount) == layout
  }

  /** Rebuild then parse: the layout comes back, except for its section table,
      exactly when the captured bytes identify the class and give the type. */
  lemma RebuiltParsesBack(captured: CapturedImage, maximum: U64, order: seq<nat>)
    requires Outcome(captured, maximum, order).Ok? && Flat(captured, maximum, order).Ok?
    requires WellFormed(captured.layout) && Clear(captured.layout, |Flat(captured, maximum, order).value|)
    ensures var flat := Flat(captured, maximum, order).value;
            Same(Parser.Outcome(Outcome(captured, maximum, order).value, Classifier.CompleteFile), captured.layout)
            <==> Identified(flat, captured.layout.imageClass) && TypeBack(flat, captured.layout) == Some(captured.layout.imageType)
  {
    hide Outcome, Flat, Stages, WellFormed, Identified, TypeBack, Parser.Outcome, TailOf;
    var flat, headed, sections := StagesOf(captured, maximum, order);
    var out := Outcome(captured, maximum, order).value;
    if Identified(flat, captured.layout.imageClass) {
      OutParses(captured, maximum, flat, headed, sections, out);
    } else {
      OutIdentified(captured, maximum, flat, headed, sections, out);
      if Parser.Outcome(out, Classifier.CompleteFile).Ok? {
        ParsedIsIdentified(out, Classifier.CompleteFile);
      }
    }
  }

  /** The rebuilt image keeps the type that a parser once gave its layout. */
  ghost predicate TypeKept(layout: Layout, headed: Bytes) {
    match layout.imageType
    case Executable => true
    case PositionIndependentExecutable => !Classifier.HasSoname(headed, layout.imageClass, layout.programHeaders)
    case SharedObject =>
      layout.entryPoint == 0 || Classifier.HasSoname(headed, layout.imageClass, layout.programHeaders)
  }

  lemma ParsedTypeKept(source: Bytes, extent: Classifier.Extent, layout: Layout, flat: Bytes)
    requires Parser.Outcome(source, extent) == Ok(layout)
    ensures TypeBack(flat, layout) == Some(layout.imageType) <==> TypeKept(layout, Headed(flat, layout))
  {
    hide Parser.Outcome, Parser.EntryExecutable, Classifier.HasSoname, WellFormed, Headed;
    ParsedIsWellFormed(source, extent);
  }

  /** A layout parsed from any file or memory image comes back from the rebuilt
      file exactly when the captured bytes carry the identification and no
      DT_SONAME turns a position-independent executable into a library. */
  lemma ParsedLayoutComesBack(source: Bytes, extent: Classifier.Extent, captured: CapturedImage, maximum: U64, order: seq<nat>)
    requires Parser.Outcome(source, extent) == Ok(captured.layout)
    requires Outcome(captured, maximum, order).Ok? && Flat(captured, maximum, order).Ok?
    requires Clear(captured.layout, |Flat(captured, maximum, order).value|)
    ensures var flat := Flat(captured, maximum, order).value;
            Same(Parser.Outcome(Outcome(captured, maximum, order).value, Classifier.CompleteFile), captured.layout)
            <==> Identified(flat, captured.layout.imageClass) && TypeKept(captured.layout, Headed(flat, captured.layout))
  {
    hide Outcome, Flat, Clear, Headed, Identified, TypeBack, TypeKept, Same, Parser.Outcome, WellFormed, Parser.TypeOf;
    ParsedIsWellFormed(source, extent);
    RebuiltParsesBack(captured, maximum, order);
    ParsedTypeKept(source, extent, captured.layout, Flat(captured, maximum, order).value);
  }

  /** Where dynamic tables are clear of the program headers too, the captured
      bytes alone decide whether the type is kept. */
  lemma TypeOfCaptured(flat: Bytes, layout: Layout)
    requires TablesClear(layout) && Clear(layout, |flat|)
    ensures TypeKept(layout, Headed(flat, layout)) <==> TypeKept(layout, flat)
  {
    hide Slice, Classifier.HasSoname, ClearOfHeaders, Writer.Programs;
    var headers, headed := layout.programHeaders, Headed(flat, layout);
    forall k | 0 <= k < |headers| && Classifier.TableReadable(|flat|, layout.imageClass, headers[k])
      ensures SameRange(flat, headed, headers[k].fileOffset, headers[k].fileSize)
    {
      var h := headers[k];
      ClearIsUntouched(layout, 0, 0, h.fileOffset, h.fileSize);
      HeaderLaws.ProgramsElsewhere(flat, layout, |headers|, h.fileOffset, h.fileSize);
      HeaderLaws.SliceIsRange(flat, headed, h.fileOffset, h.fileSize);
    }
    Classifier.SonameDependsOnTables(flat, headed, layout.imageClass, headers);
  }
}
