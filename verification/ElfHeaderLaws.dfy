/** The parser reads back the headers that the writer wrote, and the writer
    touches nothing else. */
module ElfHeaderLaws {
  import opened Bytes
  import opened ByteFields
  import opened ElfFormat
  import Parser = ElfParser
  import Writer = ElfHeaderWriter
  import Classifier = ElfImageTypeClassifier

  lemma HeaderFieldsApart(layout: Layout)
    ensures AllApart(Writer.HeaderFields(layout))
    ensures forall k :: 0 <= k < |Writer.HeaderFields(layout)| ==>
      var f := Writer.HeaderFields(layout)[k];
      16 <= f.offset && f.offset + f.width <= layout.imageClass.HeaderSize()
  {
  }

  lemma ProgramFieldsApart(c: ElfClass, offset: nat, h: ProgramHeader)
    ensures AllApart(Writer.ProgramFields(c, offset, h))
    ensures forall k :: 0 <= k < |Writer.ProgramFields(c, offset, h)| ==>
      var f := Writer.ProgramFields(c, offset, h)[k];
      offset <= f.offset && f.offset + f.width <= offset + c.ProgramHeaderSize()
  {
  }

  /** The range holds nothing the writer writes: neither the fixed header
      fields nor the program header table. */
  ghost predicate Untouched(layout: Layout, at: int, size: int) {
    Avoid(Writer.HeaderFields(layout), at, size)
    && (at + size <= layout.programHeaderOffset
        || layout.programHeaderOffset + |layout.programHeaders| * layout.imageClass.ProgramHeaderSize() <= at)
  }

  lemma {:induction false} ProgramsElsewhere(b: Bytes, layout: Layout, n: nat, at: int, size: nat)
    requires n <= |layout.programHeaders| && Fits(b, at, size) && Untouched(layout, at, size)
    ensures Slice(Writer.Programs(b, layout, n).bytes, at, size) == Slice(b, at, size)
    ensures ReadAt(Writer.Programs(b, layout, n).bytes, at, size) == ReadAt(b, at, size)
  {
    hide WriteAll, Writer.HeaderFields, Writer.ProgramFields, Slice, Unsigned;
    if n == 0 {
      ReadElsewhere(b, Writer.HeaderFields(layout), at, size);
    } else {
      ProgramsElsewhere(b, layout, n - 1, at, size);
      var before, offset := Writer.Programs(b, layout, n - 1),
                            Parser.ProgramOffset(layout.imageClass, layout.programHeaderOffset, n - 1);
      var h := layout.programHeaders[n - 1];
      ProgramFieldsApart(layout.imageClass, offset, h);
      OffsetsInTable(layout, n - 1);
      ReadElsewhere(before.bytes, Writer.ProgramFields(layout.imageClass, offset, h), at, size);
    }
  }

  lemma OffsetsInTable(layout: Layout, k: nat)
    requires k < |layout.programHeaders|
    ensures var c, table := layout.imageClass, layout.programHeaderOffset;
            table <= Parser.ProgramOffset(c, table, k)
            && Parser.ProgramOffset(c, table, k) + c.ProgramHeaderSize() <= table + |layout.programHeaders| * c.ProgramHeaderSize()
  {
    var size := layout.imageClass.ProgramHeaderSize();
    assert (k + 1) * size <= |layout.programHeaders| * size;
    assert (k + 1) * size == k * size + size;
  }

  lemma OffsetsApart(c: ElfClass, table: nat, i: nat, j: nat)
    requires i < j
    ensures Parser.ProgramOffset(c, table, i) + c.ProgramHeaderSize() <= Parser.ProgramOffset(c, table, j)
  {
    var size := c.ProgramHeaderSize();
    assert (i + 1) * size <= j * size;
    assert (i + 1) * size == i * size + size;
  }

  /** A written program header reads back. */
  lemma ProgramHeaderRead(b: Bytes, c: ElfClass, offset: nat, h: ProgramHeader)
    requires WriteAll(b, Writer.ProgramFields(c, offset, h)).ok
    ensures Fits(b, offset, c.ProgramHeaderSize())
    ensures Parser.ProgramHeaderAt(WriteAll(b, Writer.ProgramFields(c, offset, h)).bytes, c, offset) == h
  {
    hide WriteAll, ReadAt, AllApart, Pow256;
    var fields := Writer.ProgramFields(c, offset, h);
    ProgramFieldsApart(c, offset, h);
    LastFieldFits(b, c, offset, h);
    ReadField(b, fields, 0);
    ReadField(b, fields, 1);
    ReadField(b, fields, 2);
    ReadField(b, fields, 3);
    ReadField(b, fields, 4);
    ReadField(b, fields, 5);
    ReadField(b, fields, 6);
    ReadField(b, fields, 7);
  }

  lemma LastFieldFits(b: Bytes, c: ElfClass, offset: nat, h: ProgramHeader)
    requires WriteAll(b, Writer.ProgramFields(c, offset, h)).ok
    ensures Fits(b, offset, c.ProgramHeaderSize())
  {
    hide WriteAll, AllApart, Pow256;
    var fields := Writer.ProgramFields(c, offset, h);
    ProgramFieldsApart(c, offset, h);
    ReadField(b, fields, 0);
    ReadField(b, fields, 7);
  }

  lemma ProgramHeaderSame(a: Bytes, b: Bytes, c: ElfClass, offset: nat)
    requires Fits(a, offset, c.ProgramHeaderSize()) && Fits(b, offset, c.ProgramHeaderSize())
    requires Slice(a, offset, c.ProgramHeaderSize()) == Slice(b, offset, c.ProgramHeaderSize())
    ensures Parser.ProgramHeaderAt(a, c, offset) == Parser.ProgramHeaderAt(b, c, offset)
  {
    hide ReadAt, Slice;
    SliceIsRange(a, b, offset, c.ProgramHeaderSize());
    SameRangeRead(a, b, offset, 4);
    SameRangeRead(a, b, offset + c.ProgramFlags(), 4);
    SameRangeRead(a, b, offset + c.ProgramFileOffset(), c.AddressWidth());
    SameRangeRead(a, b, offset + c.ProgramVirtualAddress(), c.AddressWidth());
    SameRangeRead(a, b, offset + c.ProgramPhysicalAddress(), c.AddressWidth());
    SameRangeRead(a, b, offset + c.ProgramFileSize(), c.AddressWidth());
    SameRangeRead(a, b, offset + c.ProgramMemorySize(), c.AddressWidth());
    SameRangeRead(a, b, offset + c.ProgramAlignment(), c.AddressWidth());
  }

  lemma SliceIsRange(a: Bytes, b: Bytes, at: nat, size: nat)
    requires Fits(a, at, size) && Fits(b, at, size) && Slice(a, at, size) == Slice(b, at, size)
    ensures SameRange(a, b, at, size)
  {
    forall i | at <= i < at + size ensures a[i] == b[i] {
      assert a[i] == Slice(a, at, size)[i - at];
    }
  }

  /** Program header `k` reads back after all headers were written. */
  lemma {:induction false} ProgramsRead(b: Bytes, layout: Layout, n: nat, k: nat)
    requires k < n <= |layout.programHeaders| && Writer.Programs(b, layout, n).ok
    ensures var offset := Parser.ProgramOffset(layout.imageClass, layout.programHeaderOffset, k);
            Fits(b, offset, layout.imageClass.ProgramHeaderSize())
            && Parser.ProgramHeaderAt(Writer.Programs(b, layout, n).bytes, layout.imageClass, offset) == layout.programHeaders[k]
  {
    hide WriteAll, Writer.HeaderFields, Writer.ProgramFields, Slice, Parser.ProgramHeaderAt, Parser.ProgramOffset;
    var c, table := layout.imageClass, layout.programHeaderOffset;
    var before, offset := Writer.Programs(b, layout, n - 1), Parser.ProgramOffset(c, table, n - 1);
    if k == n - 1 {
      ProgramHeaderRead(before.bytes, c, offset, layout.programHeaders[n - 1]);
    } else {
      ProgramsRead(b, layout, n - 1, k);
      OffsetsApart(c, table, k, n - 1);
      ProgramFieldsApart(c, offset, layout.programHeaders[n - 1]);
      var at := Parser.ProgramOffset(c, table, k);
      ReadElsewhere(before.bytes, Writer.ProgramFields(c, offset, layout.programHeaders[n - 1]), at, c.ProgramHeaderSize());
      ProgramHeaderSame(before.bytes, Writer.Programs(b, layout, n).bytes, c, at);
    }
  }

  /** Field `k` of the ELF header survives the program headers written after it. */
  lemma {:induction false} HeaderFieldRead(b: Bytes, layout: Layout, n: nat, k: nat)
    requires n <= |layout.programHeaders| && Writer.Programs(b, layout, n).ok && k < 9
    requires layout.imageClass.HeaderSize() <= layout.programHeaderOffset
    ensures var f := Writer.HeaderFields(layout)[k];
            Fits(b, f.offset, f.width) && ReadAt(Writer.Programs(b, layout, n).bytes, f.offset, f.width) == f.value
  {
    hide WriteAll, Writer.HeaderFields, Writer.ProgramFields, ReadAt;
    HeaderFieldsApart(layout);
    FieldCount(layout);
    var f := Writer.HeaderFields(layout)[k];
    if n == 0 {
      ReadField(b, Writer.HeaderFields(layout), k);
    } else {
      HeaderFieldRead(b, layout, n - 1, k);
      var before, offset := Writer.Programs(b, layout, n - 1),
                            Parser.ProgramOffset(layout.imageClass, layout.programHeaderOffset, n - 1);
      OffsetsInTable(layout, n - 1);
      ProgramFieldsApart(layout.imageClass, offset, layout.programHeaders[n - 1]);
      ReadElsewhere(before.bytes, Writer.ProgramFields(layout.imageClass, offset, layout.programHeaders[n - 1]), f.offset, f.width);
    }
  }

  lemma FieldCount(layout: Layout)
    ensures |Writer.HeaderFields(layout)| == 9
  {
  }

  /** The whole ELF header as the parser reads it, given where its section fields come from. */
  lemma HeaderRead(b: Bytes, layout: Layout)
    requires Writer.Outcome(b, layout).ok && layout.imageClass.HeaderSize() <= layout.programHeaderOffset
    requires layout.imageClass.HeaderSize() <= |b|
    ensures var c, r, h := layout.imageClass, Writer.Outcome(b, layout).bytes,
                           Parser.HeaderOf(Writer.Outcome(b, layout).bytes, layout.imageClass);
            h.kind == (if layout.imageType.Executable? then Parser.EXECUTABLE_TYPE else Parser.DYNAMIC_TYPE)
            && h.machine == c.Machine() && h.version == 1 && h.entry == layout.entryPoint
            && h.programOffset == layout.programHeaderOffset && h.flags == layout.flags
            && h.headerSize == c.HeaderSize() && h.programEntrySize == c.ProgramHeaderSize()
            && h.programCount == layout.programHeaderCount
  {
    hide WriteAll, Writer.Programs, ReadAt;
    var n := |layout.programHeaders|;
    HeaderFieldRead(b, layout, n, 0);
    HeaderFieldRead(b, layout, n, 1);
    HeaderFieldRead(b, layout, n, 2);
    HeaderFieldRead(b, layout, n, 3);
    HeaderFieldRead(b, layout, n, 4);
    HeaderFieldRead(b, layout, n, 5);
    HeaderFieldRead(b, layout, n, 6);
    HeaderFieldRead(b, layout, n, 7);
    HeaderFieldRead(b, layout, n, 8);
  }

  /** The program header table as the parser reads it. */
  lemma {:induction false} TableRead(r: Bytes, layout: Layout, n: nat)
    requires n <= |layout.programHeaders|
    requires Fits(r, layout.programHeaderOffset, n * layout.imageClass.ProgramHeaderSize())
    requires forall k :: 0 <= k < n ==>
      Fits(r, Parser.ProgramOffset(layout.imageClass, layout.programHeaderOffset, k), layout.imageClass.ProgramHeaderSize())
      && Parser.ProgramHeaderAt(r, layout.imageClass, Parser.ProgramOffset(layout.imageClass, layout.programHeaderOffset, k))
         == layout.programHeaders[k]
    ensures Parser.ProgramHeaders(r, layout.imageClass, layout.programHeaderOffset, n) == layout.programHeaders[..n]
  {
    hide Parser.ProgramHeaderAt, Parser.ProgramOffset;
    if n > 0 {
      Parser.TableGrows(r, layout.imageClass, layout.programHeaderOffset, n, n - 1);
      TableRead(r, layout, n - 1);
      assert layout.programHeaders[..n] == layout.programHeaders[..n - 1] + [layout.programHeaders[n - 1]];
    }
  }

  // ---- writing a parsed layout over its own file ----

  /** The buffer already holds the header fields and program headers of the layout. */
  ghost predicate Restates(b: Bytes, layout: Layout) {
    var c := layout.imageClass;
    c.HeaderSize() <= |b| && Writer.TableFits(|b|, layout)
    && Fits(b, layout.programHeaderOffset, |layout.programHeaders| * c.ProgramHeaderSize())
    && Parser.ProgramHeaders(b, c, layout.programHeaderOffset, |layout.programHeaders|) == layout.programHeaders
    && var f := Parser.HeaderOf(b, c);
       f.kind == (if layout.imageType.Executable? then Parser.EXECUTABLE_TYPE else Parser.DYNAMIC_TYPE)
       && f.machine == c.Machine() && f.version == 1 && f.entry == layout.entryPoint
       && f.programOffset == layout.programHeaderOffset && f.flags == layout.flags && f.headerSize == c.HeaderSize()
       && f.programEntrySize == c.ProgramHeaderSize() && f.programCount == layout.programHeaderCount
  }

  lemma HeaderFieldsStand(b: Bytes, layout: Layout)
    requires Restates(b, layout)
    ensures Stand(b, Writer.HeaderFields(layout))
  {
    hide ReadAt, Parser.ProgramHeaders;
  }

  lemma ProgramFieldsStand(b: Bytes, c: ElfClass, offset: nat)
    requires Fits(b, offset, c.ProgramHeaderSize())
    ensures Stand(b, Writer.ProgramFields(c, offset, Parser.ProgramHeaderAt(b, c, offset)))
  {
    hide ReadAt;
  }

  lemma {:induction false} TableEntry(b: Bytes, c: ElfClass, table: nat, n: nat, k: nat)
    requires Fits(b, table, n * c.ProgramHeaderSize()) && k < n
    ensures Fits(b, Parser.ProgramOffset(c, table, k), c.ProgramHeaderSize())
    ensures Parser.ProgramHeaders(b, c, table, n)[k] == Parser.ProgramHeaderAt(b, c, Parser.ProgramOffset(c, table, k))
  {
    hide Parser.ProgramHeaderAt;
    Parser.EntryInTable(b, c, table, n, n - 1);
    if k < n - 1 {
      TableEntry(b, c, table, n - 1, k);
    }
  }

  lemma {:induction false} ProgramsRestated(b: Bytes, layout: Layout, n: nat)
    requires Restates(b, layout) && n <= |layout.programHeaders|
    ensures Writer.Programs(b, layout, n) == Written(b, true)
  {
    hide WriteAll, Writer.HeaderFields, Writer.ProgramFields, Stand, Parser.ProgramHeaderAt, Parser.ProgramHeaders, Parser.HeaderOf;
    if n == 0 {
      HeaderFieldsStand(b, layout);
      WriteAgain(b, Writer.HeaderFields(layout));
    } else {
      ProgramsRestated(b, layout, n - 1);
      var c, table := layout.imageClass, layout.programHeaderOffset;
      TableEntry(b, c, table, |layout.programHeaders|, n - 1);
      var offset := Parser.ProgramOffset(c, table, n - 1);
      ProgramFieldsStand(b, c, offset);
      WriteAgain(b, Writer.ProgramFields(c, offset, layout.programHeaders[n - 1]));
    }
  }

  /** Writing over a buffer what the buffer already says changes nothing. */
  lemma WriterRestates(b: Bytes, layout: Layout)
    requires Restates(b, layout)
    ensures Writer.Outcome(b, layout) == Written(b, true)
  {
    hide Writer.Programs, Restates;
    ProgramsRestated(b, layout, |layout.programHeaders|);
    assert Writer.TableFits(|b|, layout) by { RestatesFits(b, layout); }
  }

  lemma RestatesFits(b: Bytes, layout: Layout)
    requires Restates(b, layout)
    ensures Writer.TableFits(|b|, layout)
  {
  }

  /** The parser's layout of a file describes the file's own headers. */
  lemma ParsedIsRestated(b: Bytes, extent: Classifier.Extent)
    requires Parser.Outcome(b, extent).Ok?
    ensures Restates(b, Parser.Outcome(b, extent).value)
  {
    hide Parser.LoadsValid, Parser.HasLoad, Parser.HeaderOf, Parser.ProgramHeaders, Parser.EntryExecutable, Classifier.HasSoname;
  }

  /** Parse, then write: the writer puts back exactly the bytes that were parsed. */
  lemma RewritingIsIdentity(b: Bytes, extent: Classifier.Extent)
    requires Parser.Outcome(b, extent).Ok?
    ensures Writer.Outcome(b, Parser.Outcome(b, extent).value) == Written(b, true)
  {
    hide Parser.Outcome, Writer.Outcome, Restates;
    ParsedIsRestated(b, extent);
    WriterRestates(b, Parser.Outcome(b, extent).value);
  }

  /** A buffer that agrees with another on both header ranges says the same. */
  lemma RestatedElsewhere(a: Bytes, b: Bytes, layout: Layout)
    requires Restates(a, layout)
    requires SameRange(a, b, 0, layout.imageClass.HeaderSize())
    requires SameRange(a, b, layout.programHeaderOffset, |layout.programHeaders| * layout.imageClass.ProgramHeaderSize())
    ensures Restates(b, layout)
  {
    hide Parser.ProgramHeaders, Parser.ProgramHeaderAt, ReadAt;
    var c, n := layout.imageClass, |layout.programHeaders|;
    SameHeader(a, b, c);
    forall k | 0 <= k < n
      ensures Fits(b, Parser.ProgramOffset(c, layout.programHeaderOffset, k), c.ProgramHeaderSize())
      ensures Parser.ProgramHeaderAt(b, c, Parser.ProgramOffset(c, layout.programHeaderOffset, k)) == layout.programHeaders[k]
    {
      TableEntry(a, c, layout.programHeaderOffset, n, k);
      var at := Parser.ProgramOffset(c, layout.programHeaderOffset, k);
      OffsetsInTable(layout, k);
      SameRangeRead(a, b, at, c.ProgramHeaderSize());
      ProgramHeaderSame(a, b, c, at);
    }
    TableRead(b, layout, n);
    assert layout.programHeaders[..n] == layout.programHeaders;
  }

  lemma SameHeader(a: Bytes, b: Bytes, c: ElfClass)
    requires SameRange(a, b, 0, c.HeaderSize())
    ensures Parser.HeaderOf(a, c) == Parser.HeaderOf(b, c)
  {
    hide ReadAt;
    SameRangeRead(a, b, 16, 2);
    SameRangeRead(a, b, 18, 2);
    SameRangeRead(a, b, 20, 4);
    SameRangeRead(a, b, c.EntryOffset(), c.AddressWidth());
    SameRangeRead(a, b, c.ProgramTableOffset(), c.AddressWidth());
    SameRangeRead(a, b, c.SectionTableOffset(), c.AddressWidth());
    SameRangeRead(a, b, c.FlagsOffset(), 4);
    SameRangeRead(a, b, c.HeaderSizeOffset(), 2);
    SameRangeRead(a, b, c.ProgramEntrySizeOffset(), 2);
    SameRangeRead(a, b, c.ProgramCountOffset(), 2);
    SameRangeRead(a, b, c.SectionEntrySizeOffset(), 2);
    SameRangeRead(a, b, c.SectionCountOffset(), 2);
  }
}
