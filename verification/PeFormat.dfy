/** The two PE formats, the parsed image layout, and the on-disk structures
    shared by the parser, the fixer and the rebaser. */
module PeFormat {
  import opened Bytes
  import opened Structs

  datatype Format = Pe32 | Pe64 {
    function PointerSize(): (n: nat)
      ensures n == 4 || n == 8
    {
      if Pe32? then 4 else 8
    }

    function Modulus(): int {
      if Pe32? then 0x1_0000_0000 else 0x1_0000_0000_0000_0000
    }

    predicate AddressFits(address: U64) {
      address < Modulus()
    }

    function RelocationType(): nat {
      if Pe32? then 3 else 10
    }

    function Machine(): U16 {
      if Pe32? then 0x14c else 0x8664
    }

    function OptionalHeaderMagic(): U16 {
      if Pe32? then 0x10b else 0x20b
    }

    function OrdinalFlag(): U64 {
      if Pe32? then 0x8000_0000 else 0x8000_0000_0000_0000
    }
  }

  lemma PointerRange(format: Format)
    ensures Pow256(format.PointerSize()) == format.Modulus()
  {
    Powers();
  }

  datatype ImageKind = Executable | DynamicLibrary

  datatype SourceLoadPolicy = SourceLoadPolicy(
    preferredImageBase: U64, dynamicBase: bool, highEntropyVa: bool, hasRelocations: bool)

  datatype Directory = Directory(address: U32, size: U32)

  const NO_DIRECTORY := Directory(0, 0)
  const DIRECTORY_COUNT: nat := 16

  type Directories = d: seq<Directory> | |d| == 16 witness seq(16, _ => Directory(0, 0))

  const EXPORT_DIRECTORY := 0
  const IMPORT_DIRECTORY := 1
  const RESOURCE_DIRECTORY := 2
  const EXCEPTION_DIRECTORY := 3
  const SECURITY_DIRECTORY := 4
  const BASE_RELOCATION_DIRECTORY := 5
  const TLS_DIRECTORY := 9
  const LOAD_CONFIG_DIRECTORY := 10
  const BOUND_IMPORT_DIRECTORY := 11
  const IAT_DIRECTORY := 12
  const DELAY_IMPORT_DIRECTORY := 13

  type SectionName = s: Bytes | |s| == 8 witness Zeros(8)

  datatype Section = Section(
    name: SectionName, virtualAddress: U32, virtualSize: U32,
    rawOffset: U32, rawSize: U32, characteristics: U32)
  {
    function Extent(): U32 {
      Max(virtualSize, rawSize)
    }
  }

  datatype Layout = Layout(
    format: Format, imageKind: ImageKind, sourceLoadPolicy: SourceLoadPolicy,
    machine: U16, ntHeaderOffset: U32, preferredImageBase: U64, entryPoint: U32,
    sizeOfImage: U32, sizeOfHeaders: U32, sectionAlignment: U32, fileAlignment: U32,
    characteristics: U16, dllCharacteristics: U16,
    directories: Directories, sections: seq<Section>)

  // ---- flag words ----

  /** Bit `weight` (a power of two) of a flag word. */
  predicate Has(flags: nat, weight: nat)
    requires weight > 0
  {
    flags / weight % 2 == 1
  }

  function Set(flags: nat, weight: nat): nat
    requires weight > 0
  {
    if Has(flags, weight) then flags else flags + weight
  }

  function Clear(flags: nat, weight: nat): (r: nat)
    requires weight > 0
    ensures r <= flags
  {
    if Has(flags, weight) && weight <= flags then flags - weight else flags
  }

  const RELOCS_STRIPPED := 0x0001
  const EXECUTABLE_IMAGE := 0x0002
  const FILE_DLL := 0x2000
  const HIGH_ENTROPY_VA := 0x0020
  const DYNAMIC_BASE := 0x0040
  const CNT_CODE := 0x20
  const CNT_INITIALIZED_DATA := 0x40
  const CNT_UNINITIALIZED_DATA := 0x80
  const MEM_DISCARDABLE := 0x0200_0000
  const MEM_EXECUTE := 0x2000_0000
  const MEM_READ := 0x4000_0000
  const MEM_WRITE := 0x8000_0000

  /** Both loader-placement bits of DllCharacteristics cleared. */
  function ClearPlacement(flags: nat): (r: nat)
    ensures r <= flags
  {
    Clear(Clear(flags, DYNAMIC_BASE), HIGH_ENTROPY_VA)
  }

  lemma ClearedDynamicBase(flags: nat, high: nat, low: nat)
    requires flags == 64 * high + low && low < 64
    ensures Clear(flags, DYNAMIC_BASE) == 64 * (high - high % 2) + low
    ensures Has(flags, DYNAMIC_BASE) <==> high % 2 == 1
  {
    assert flags / 64 == high;
  }

  lemma ClearedHighEntropy(flags: nat, high: nat, low: nat)
    requires flags == 32 * high + low && low < 32
    ensures Clear(flags, HIGH_ENTROPY_VA) == 32 * (high - high % 2) + low
    ensures Has(flags, HIGH_ENTROPY_VA) <==> high % 2 == 1
  {
    assert flags / 32 == high;
  }

  /** The rebased image asks for no loader placement; clearing twice is clearing once. */
  lemma PlacementCleared(flags: nat)
    ensures var r := ClearPlacement(flags);
            !Has(r, DYNAMIC_BASE) && !Has(r, HIGH_ENTROPY_VA) && ClearPlacement(r) == r
  {
    hide Has, Clear, ClearPlacement;
    var high, mid, low := flags / 64, flags / 32 % 2, flags % 32;
    BitParts(flags);
    ClearedDynamicBase(flags, high, 32 * mid + low);
    var once := high - high % 2;
    ClearedHighEntropy(64 * once + 32 * mid + low, 2 * once + mid, low);
    ClearedDynamicBase(64 * once + low, once, low);
    ClearedHighEntropy(64 * once + low, 2 * once, low);
    ClearUnfold(flags);
    ClearUnfold(64 * once + low);
  }

  lemma BitParts(flags: nat)
    ensures flags == 64 * (flags / 64) + 32 * (flags / 32 % 2) + flags % 32
  {
  }

  lemma ClearUnfold(flags: nat)
    ensures ClearPlacement(flags) == Clear(Clear(flags, 64), 32)
  {
  }

  // ---- headers ----

  const DOS_HEADER_SIZE := 64
  const DOS_SIGNATURE := 0x5a4d
  const NT_SIGNATURE := 0x4550

  /** IMAGE_FILE_HEADER. */
  const FILE_WIDTHS: seq<nat> := [2, 2, 4, 4, 4, 2, 2]
  const FILE_MACHINE := 0
  const FILE_SECTION_COUNT := 1
  const FILE_OPTIONAL_SIZE := 5
  const FILE_CHARACTERISTICS := 6

  /** IMAGE_OPTIONAL_HEADER32 and 64 with common field numbers: BaseOfData has
      width 0 in the 64-bit header, where it does not exist. */
  function OptionalWidths(format: Format): (w: seq<nat>)
    ensures |w| == 62
  {
    CODE_WIDTHS + BaseWidths(format) + VERSION_WIDTHS + SIZE_WIDTHS + StackWidths(format)
    + seq(32, _ => 4)
  }

  const CODE_WIDTHS: seq<nat> := [2, 1, 1, 4, 4, 4]
  const VERSION_WIDTHS: seq<nat> := [2, 2, 2, 2, 2, 2]
  const SIZE_WIDTHS: seq<nat> := [4, 4, 4, 4, 2, 2]

  function BaseWidths(format: Format): (w: seq<nat>) {
    [4, 4, if format.Pe32? then 4 else 0, format.PointerSize(), 4, 4]
  }

  function StackWidths(format: Format): (w: seq<nat>) {
    var p := format.PointerSize();
    [p, p, p, p, 4, 4]
  }

  const MAGIC := 0
  const SIZE_OF_CODE := 3
  const SIZE_OF_INITIALIZED_DATA := 4
  const SIZE_OF_UNINITIALIZED_DATA := 5
  const ENTRY_POINT := 6
  const BASE_OF_CODE := 7
  const BASE_OF_DATA := 8
  const IMAGE_BASE := 9
  const SECTION_ALIGNMENT := 10
  const FILE_ALIGNMENT := 11
  const SIZE_OF_IMAGE := 19
  const SIZE_OF_HEADERS := 20
  const CHECK_SUM := 21
  const DLL_CHARACTERISTICS := 23
  const DIRECTORY_ENTRIES := 29
  const FIRST_DIRECTORY := 30

  function OptionalSize(format: Format): nat {
    if format.Pe32? then 224 else 240
  }

  /** Signature, file header and optional header. */
  function NtSize(format: Format): nat {
    24 + OptionalSize(format)
  }

  lemma HeaderSizes(format: Format)
    ensures Size(FILE_WIDTHS) == 20
    ensures Size(OptionalWidths(format)) == OptionalSize(format)
  {
    var p := format.PointerSize();
    var d: nat := if format.Pe32? then 4 else 0;
    var b, s := BaseWidths(format), StackWidths(format);
    SumOfSeven(2, 2, 4, 4, 4, 2, 2);
    assert Size(CODE_WIDTHS) == 16 by { SumOfSix(2, 1, 1, 4, 4, 4); }
    assert Size(b) == 16 + d + p by { SumOfSix(4, 4, d, p, 4, 4); }
    assert Size(VERSION_WIDTHS) == 12 by { SumOfSix(2, 2, 2, 2, 2, 2); }
    assert Size(SIZE_WIDTHS) == 20 by { SumOfSix(4, 4, 4, 4, 2, 2); }
    assert Size(s) == 4 * p + 8 by { SumOfSix(p, p, p, p, 4, 4); }
    SizeUniform(32, 4);
    SizeOfParts(CODE_WIDTHS, b, VERSION_WIDTHS, SIZE_WIDTHS, s, seq(32, _ => 4));
  }

  lemma SizeOfParts(a: seq<nat>, b: seq<nat>, c: seq<nat>, d: seq<nat>, e: seq<nat>, f: seq<nat>)
    ensures Size(a + b + c + d + e + f) == Size(a) + Size(b) + Size(c) + Size(d) + Size(e) + Size(f)
  {
    SizeAppend(a, b);
    SizeAppend(a + b, c);
    SizeAppend(a + b + c, d);
    SizeAppend(a + b + c + d, e);
    SizeAppend(a + b + c + d + e, f);
  }

  lemma SumOfSix(a: nat, b: nat, c: nat, d: nat, e: nat, f: nat)
    ensures Size([a, b, c, d, e, f]) == a + b + c + d + e + f
  {
    assert [a, b, c, d, e, f][1..] == [b, c, d, e, f];
    assert [b, c, d, e, f][1..] == [c, d, e, f];
    assert [c, d, e, f][1..] == [d, e, f];
    assert [d, e, f][1..] == [e, f];
    assert [e, f][1..] == [f];
    assert Size([f]) == f;
    assert Size([e, f]) == e + f;
    assert Size([d, e, f]) == d + e + f;
    assert Size([c, d, e, f]) == c + d + e + f;
    assert Size([b, c, d, e, f]) == b + c + d + e + f;
  }

  lemma SumOfSeven(a: nat, b: nat, c: nat, d: nat, e: nat, f: nat, g: nat)
    ensures Size([a, b, c, d, e, f, g]) == a + b + c + d + e + f + g
  {
    SumOfSix(b, c, d, e, f, g);
    assert [a, b, c, d, e, f, g][1..] == [b, c, d, e, f, g];
  }

  /** IMAGE_SECTION_HEADER. */
  const SECTION_WIDTHS: seq<nat> := [8, 4, 4, 4, 4, 4, 4, 2, 2, 4]
  const SECTION_HEADER_SIZE := 40

  lemma SectionHeaderSize()
    ensures Size(SECTION_WIDTHS) == SECTION_HEADER_SIZE
  {
    SumOfSeven(4, 4, 4, 4, 2, 2, 4);
    var tail: seq<nat> := [4, 4, 4, 4, 2, 2, 4];
    assert SECTION_WIDTHS[1..][1..][1..] == tail;
    assert Size(SECTION_WIDTHS[1..][1..]) == 4 + Size(tail);
    assert Size(SECTION_WIDTHS[1..]) == 4 + Size(SECTION_WIDTHS[1..][1..]);
  }

  function SectionFields(s: Section): (fields: seq<nat>)
    ensures |fields| == |SECTION_WIDTHS|
  {
    [Unsigned(s.name), s.virtualSize, s.virtualAddress, s.rawSize, s.rawOffset, 0, 0, 0, 0,
     s.characteristics]
  }

  /** IMAGE_IMPORT_DESCRIPTOR: OriginalFirstThunk, TimeDateStamp, ForwarderChain, Name, FirstThunk. */
  const DESCRIPTOR_WIDTHS: seq<nat> := [4, 4, 4, 4, 4]
  const DESCRIPTOR_SIZE := 20

  lemma DescriptorSize()
    ensures Size(DESCRIPTOR_WIDTHS) == DESCRIPTOR_SIZE
  {
    SizeUniform(5, 4);
    assert DESCRIPTOR_WIDTHS == seq(5, _ => 4);
  }
}
