/** The two ELF classes, the parsed image layout and captured segments. */
module ElfFormat {
  import opened Bytes

  /** Field positions and entry sizes of one class. */
  datatype ElfClass = Bits32 | Bits64 {
    function Identifier(): Byte { if Bits32? then 1 else 2 }
    function Machine(): U16 { if Bits32? then 3 else 62 }
    function AddressWidth(): (n: nat) ensures n == 4 || n == 8 { if Bits32? then 4 else 8 }
    function HeaderSize(): nat { if Bits32? then 52 else 64 }
    function ProgramHeaderSize(): nat { if Bits32? then 32 else 56 }
    function SectionHeaderSize(): nat { if Bits32? then 40 else 64 }
    function EntryOffset(): nat { 24 }
    function ProgramTableOffset(): nat { if Bits32? then 28 else 32 }
    function SectionTableOffset(): nat { if Bits32? then 32 else 40 }
    function FlagsOffset(): nat { if Bits32? then 36 else 48 }
    function HeaderSizeOffset(): nat { if Bits32? then 40 else 52 }
    function ProgramEntrySizeOffset(): nat { if Bits32? then 42 else 54 }
    function ProgramCountOffset(): nat { if Bits32? then 44 else 56 }
    function SectionEntrySizeOffset(): nat { if Bits32? then 46 else 58 }
    function SectionCountOffset(): nat { if Bits32? then 48 else 60 }
    function ProgramFlags(): nat { if Bits32? then 24 else 4 }
    function ProgramFileOffset(): nat { if Bits32? then 4 else 8 }
    function ProgramVirtualAddress(): nat { if Bits32? then 8 else 16 }
    function ProgramPhysicalAddress(): nat { if Bits32? then 12 else 24 }
    function ProgramFileSize(): nat { if Bits32? then 16 else 32 }
    function ProgramMemorySize(): nat { if Bits32? then 20 else 40 }
    function ProgramAlignment(): nat { if Bits32? then 28 else 48 }
    function DynamicEntrySize(): nat { if Bits32? then 8 else 16 }
    function SymbolEntrySize(): nat { if Bits32? then 16 else 24 }
    function RelEntrySize(): nat { if Bits32? then 8 else 16 }
    function RelaEntrySize(): nat { if Bits32? then 12 else 24 }
    function SectionFlags(): nat { 8 }
    function SectionAddress(): nat { if Bits32? then 12 else 16 }
    function SectionFileOffset(): nat { if Bits32? then 16 else 24 }
    function SectionSize(): nat { if Bits32? then 20 else 32 }
    function SectionLink(): nat { if Bits32? then 24 else 40 }
    function SectionAlignment(): nat { if Bits32? then 32 else 48 }
    function SectionEntrySize(): nat { if Bits32? then 36 else 56 }
  }

  datatype ImageType = Executable | PositionIndependentExecutable | SharedObject

  const PT_LOAD: U32 := 1
  const PT_DYNAMIC: U32 := 2
  const PT_INTERP: U32 := 3
  const PT_TLS: U32 := 7

  datatype ProgramHeader = ProgramHeader(
    kind: U32, flags: U32, fileOffset: U64, virtualAddress: U64, physicalAddress: U64,
    fileSize: U64, memorySize: U64, alignment: U64)
  {
    predicate Executable() { flags % 2 == 1 }
    predicate Writable() { flags / 2 % 2 == 1 }
  }

  datatype Layout = Layout(
    imageClass: ElfClass, imageType: ImageType, entryPoint: U64,
    programHeaderOffset: U64, programHeaderEntrySize: U16, programHeaderCount: U16,
    sectionHeaderOffset: U64, sectionHeaderEntrySize: U16, sectionHeaderCount: U16,
    flags: U32, programHeaders: seq<ProgramHeader>)

  datatype CapturedSegment = CapturedSegment(programHeaderIndex: nat, fileBytes: Bytes)

  datatype CapturedImage = CapturedImage(layout: Layout, loadBias: U64, segments: seq<CapturedSegment>)

  lemma AddressRange(c: ElfClass)
    ensures Pow256(c.AddressWidth()) == (if c.Bits32? then U32_MAX as int else U64_MAX as int) + 1
  {
    Powers();
  }

  /** A read that is zero outside the buffer. */
  function ReadUnsigned(b: Bytes, offset: nat, width: nat): nat {
    if Fits(b, offset, width) then ReadAt(b, offset, width) else 0
  }
}
