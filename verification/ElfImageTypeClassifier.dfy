/** Tells executables from shared objects by entry point and DT_SONAME. */
module ElfImageTypeClassifier {
  import opened Bytes
  import opened ElfFormat
  import Alignment

  const SONAME_TAG := 14

  datatype Extent = CompleteFile | LoadedHeaders

  /** The header's dynamic table can be walked in the buffer. */
  predicate TableReadable(size: nat, c: ElfClass, h: ProgramHeader) {
    h.kind == PT_DYNAMIC && h.fileSize >= c.DynamicEntrySize() && h.fileSize % c.DynamicEntrySize() == 0
    && h.fileOffset + h.fileSize <= size
  }

  /** DT_SONAME occurs among the tags from byte `cursor` on, before DT_NULL. */
  predicate SonameFrom(b: Bytes, c: ElfClass, h: ProgramHeader, cursor: nat)
    decreases h.fileSize - cursor
  {
    cursor < h.fileSize
    && var tag := ReadUnsigned(b, h.fileOffset + cursor, c.AddressWidth());
       tag != 0 && (tag == SONAME_TAG || SonameFrom(b, c, h, cursor + c.DynamicEntrySize()))
  }

  predicate HasSoname(b: Bytes, c: ElfClass, headers: seq<ProgramHeader>) {
    exists k :: 0 <= k < |headers| && TableReadable(|b|, c, headers[k]) && SonameFrom(b, c, headers[k], 0)
  }

  function DynamicType(b: Bytes, layout: Layout, entryIsExecutable: bool, extent: Extent): Option<ImageType> {
    if layout.entryPoint == 0
       || (extent == CompleteFile && HasSoname(b, layout.imageClass, layout.programHeaders)) then Some(SharedObject)
    else if entryIsExecutable then Some(PositionIndependentExecutable)
    else None
  }

  method FindSoname(b: Bytes, c: ElfClass, headers: seq<ProgramHeader>) returns (found: bool)
    ensures found == HasSoname(b, c, headers)
  {
    hide ReadUnsigned;
    var k := 0;
    while k < |headers|
      invariant 0 <= k <= |headers|
      invariant forall i :: 0 <= i < k ==> !(TableReadable(|b|, c, headers[i]) && SonameFrom(b, c, headers[i], 0))
    {
      var h := headers[k];
      if TableReadable(|b|, c, h) {
        var cursor: nat := 0;
        var ended := false;
        while cursor < h.fileSize && !ended
          invariant SonameFrom(b, c, h, 0) == (!ended && SonameFrom(b, c, h, cursor))
          decreases h.fileSize - cursor, !ended
        {
          var tag := ReadUnsigned(b, h.fileOffset + cursor, c.AddressWidth());
          if tag == 0 {
            ended := true;
          } else if tag == SONAME_TAG {
            return true;
          } else {
            cursor := cursor + c.DynamicEntrySize();
          }
        }
      }
      k := k + 1;
    }
    return false;
  }

  method ClassifyDynamicImage(b: Bytes, layout: Layout, entryIsExecutable: bool, extent: Extent) returns (kind: Option<ImageType>)
    ensures kind == DynamicType(b, layout, entryIsExecutable, extent)
  {
    hide HasSoname;
    if layout.entryPoint == 0 {
      return Some(SharedObject);
    }
    if extent == CompleteFile {
      var soname := FindSoname(b, layout.imageClass, layout.programHeaders);
      if soname {
        return Some(SharedObject);
      }
    }
    kind := if entryIsExecutable then Some(PositionIndependentExecutable) else None;
  }

  /** Buffers that agree on every readable dynamic table are classified alike. */
  lemma SonameDependsOnTables(a: Bytes, b: Bytes, c: ElfClass, headers: seq<ProgramHeader>)
    requires forall k :: 0 <= k < |headers| ==> (TableReadable(|a|, c, headers[k]) <==> TableReadable(|b|, c, headers[k]))
    requires forall k :: 0 <= k < |headers| && TableReadable(|a|, c, headers[k]) ==>
      SameRange(a, b, headers[k].fileOffset, headers[k].fileSize)
    ensures HasSoname(a, c, headers) == HasSoname(b, c, headers)
  {
    forall k | 0 <= k < |headers| && TableReadable(|a|, c, headers[k])
      ensures SonameFrom(a, c, headers[k], 0) == SonameFrom(b, c, headers[k], 0)
    {
      SonameSame(a, b, c, headers[k], 0);
    }
  }

  lemma {:induction false} SonameSame(a: Bytes, b: Bytes, c: ElfClass, h: ProgramHeader, cursor: nat)
    requires SameRange(a, b, h.fileOffset, h.fileSize) && h.fileSize % c.DynamicEntrySize() == 0
    requires cursor % c.DynamicEntrySize() == 0
    ensures SonameFrom(a, c, h, cursor) == SonameFrom(b, c, h, cursor)
    decreases h.fileSize - cursor
  {
    if cursor < h.fileSize {
      EntryFits(c, h.fileSize, cursor);
      SameRangeRead(a, b, h.fileOffset + cursor, c.AddressWidth());
      SonameSame(a, b, c, h, cursor + c.DynamicEntrySize());
    }
  }

  /** A whole entry starts at every multiple of the entry size below the table size. */
  lemma EntryFits(c: ElfClass, size: nat, cursor: nat)
    requires size % c.DynamicEntrySize() == 0 && cursor % c.DynamicEntrySize() == 0 && cursor < size
    ensures cursor + c.DynamicEntrySize() <= size && (cursor + c.DynamicEntrySize()) % c.DynamicEntrySize() == 0
  {
    Alignment.MultiplesApart(cursor, size, c.DynamicEntrySize());
    Alignment.SumOfMultiples(cursor, c.DynamicEntrySize(), c.DynamicEntrySize());
  }
}
