/** Writes a layout's ELF header and program headers over a buffer, in place. */
module ElfHeaderWriter {
  import opened Bytes
  import opened ByteFields
  import opened ElfFormat
  import Parser = ElfParser

  function HeaderFields(layout: Layout): seq<Field> {
    var c := layout.imageClass;
    [Field(16, 2, if layout.imageType.Executable? then Parser.EXECUTABLE_TYPE else Parser.DYNAMIC_TYPE),
     Field(18, 2, c.Machine()), Field(20, 4, 1),
     Field(c.EntryOffset(), c.AddressWidth(), layout.entryPoint),
     Field(c.ProgramTableOffset(), c.AddressWidth(), layout.programHeaderOffset),
     Field(c.FlagsOffset(), 4, layout.flags), Field(c.HeaderSizeOffset(), 2, c.HeaderSize()),
     Field(c.ProgramEntrySizeOffset(), 2, c.ProgramHeaderSize()),
     Field(c.ProgramCountOffset(), 2, layout.programHeaderCount)]
  }

  function ProgramFields(c: ElfClass, offset: nat, h: ProgramHeader): seq<Field> {
    var w := c.AddressWidth();
    [Field(offset, 4, h.kind), Field(offset + c.ProgramFlags(), 4, h.flags),
     Field(offset + c.ProgramFileOffset(), w, h.fileOffset), Field(offset + c.ProgramVirtualAddress(), w, h.virtualAddress),
     Field(offset + c.ProgramPhysicalAddress(), w, h.physicalAddress), Field(offset + c.ProgramFileSize(), w, h.fileSize),
     Field(offset + c.ProgramMemorySize(), w, h.memorySize), Field(offset + c.ProgramAlignment(), w, h.alignment)]
  }

  /** The buffer after the ELF header and the first `n` program headers. */
  function Programs(b: Bytes, layout: Layout, n: nat): (r: Written)
    requires n <= |layout.programHeaders|
    ensures |r.bytes| == |b|
  {
    if n == 0 then WriteAll(b, HeaderFields(layout))
    else
      var before := Programs(b, layout, n - 1);
      if !before.ok then before
      else
        WriteAll(before.bytes, ProgramFields(layout.imageClass,
                                             Parser.ProgramOffset(layout.imageClass, layout.programHeaderOffset, n - 1),
                                             layout.programHeaders[n - 1]))
  }

  predicate TableFits(size: nat, layout: Layout) {
    |layout.programHeaders| == layout.programHeaderCount
    && layout.programHeaderEntrySize == layout.imageClass.ProgramHeaderSize()
    && layout.programHeaderOffset + layout.programHeaderEntrySize * layout.programHeaderCount <= size
  }

  function Outcome(b: Bytes, layout: Layout): (r: Written)
    ensures |r.bytes| == |b|
  {
    if !TableFits(|b|, layout) then Written(b, false) else Programs(b, layout, |layout.programHeaders|)
  }

  method Write(bytes: array<Byte>, layout: Layout) returns (ok: bool)
    modifies bytes
    ensures Written(bytes[..], ok) == Outcome(old(bytes[..]), layout)
  {
    hide WriteAll, HeaderFields, ProgramFields;
    ghost var before := bytes[..];
    if !TableFits(bytes.Length, layout) {
      return false;
    }
    ok := WriteFields(bytes, HeaderFields(layout));
    var index := 0;
    while index < |layout.programHeaders| && ok
      invariant 0 <= index <= |layout.programHeaders|
      invariant Written(bytes[..], ok) == Programs(before, layout, index)
    {
      ok := WriteFields(bytes, ProgramFields(layout.imageClass,
                                             Parser.ProgramOffset(layout.imageClass, layout.programHeaderOffset, index),
                                             layout.programHeaders[index]));
      index := index + 1;
    }
    if !ok {
      ProgramsStop(before, layout, index, |layout.programHeaders|);
    }
  }

  lemma {:induction false} ProgramsStop(b: Bytes, layout: Layout, n: nat, n': nat)
    requires n <= n' <= |layout.programHeaders| && !Programs(b, layout, n).ok
    ensures Programs(b, layout, n') == Programs(b, layout, n)
    decreases n' - n
  {
    hide WriteAll, HeaderFields, ProgramFields;
    if n < n' {
      ProgramsStop(b, layout, n + 1, n');
    }
  }
}
