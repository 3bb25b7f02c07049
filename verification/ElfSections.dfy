/** The section list that a rebuilt ELF image describes itself with, and its
    name table. */
module ElfSections {
  import opened Bytes
  import opened ElfFormat
  import Analyzer = ElfDynamicMetadataAnalyzer

  const WRITE_SECTION := 1
  const ALLOCATE_SECTION := 2
  const EXECUTE_SECTION := 4
  const PROGRAM_BITS: U32 := 1
  const STRING_TABLE: U32 := 3
  const DYNAMIC: U32 := 6
  const NO_BITS: U32 := 8

  datatype Section = Section(
    name: string, kind: U32, flags: nat, address: U64, offset: U64, size: U64, alignment: nat, entrySize: nat, link: string)

  const NULL_SECTION := Section("", 0, 0, 0, 0, 0, 1, 0, "")

  function Decimal(n: nat): (s: string)
    ensures forall k :: 0 <= k < |s| ==> '0' <= s[k] <= '9'
    ensures |s| <= 1 + n / 10
  {
    if n < 10 then [('0' as int + n) as char] else Decimal(n / 10) + [('0' as int + n % 10) as char]
  }

  function BaseName(h: ProgramHeader): string {
    if h.Executable() then ".text" else if h.Writable() then ".data" else ".rodata"
  }

  function LoadName(h: ProgramHeader, ordinal: nat): string {
    BaseName(h) + if ordinal == 0 then "" else "." + Decimal(ordinal)
  }

  /** Sections of the PT_LOAD headers, with how many names of each kind were used. */
  datatype Loads = Loads(sections: seq<Section>, text: nat, data: nat, readOnly: nat) {
    function Ordinal(h: ProgramHeader): nat {
      if h.Executable() then text else if h.Writable() then data else readOnly
    }

    function Used(h: ProgramHeader): Loads {
      if h.Executable() then this.(text := text + 1)
      else if h.Writable() then this.(data := data + 1)
      else this.(readOnly := readOnly + 1)
    }
  }

  function LoadFlags(h: ProgramHeader): nat {
    ALLOCATE_SECTION + (if h.Executable() then EXECUTE_SECTION else 0) + (if h.Writable() then WRITE_SECTION else 0)
  }

  function FileSection(h: ProgramHeader, ordinal: nat): Section {
    Section(LoadName(h, ordinal), PROGRAM_BITS, LoadFlags(h), h.virtualAddress, h.fileOffset, h.fileSize, Max(1, h.alignment), 0, "")
  }

  function ZeroSection(h: ProgramHeader): Section
    requires h.memorySize > h.fileSize
  {
    Section(".bss", NO_BITS, LoadFlags(h) + (if h.Writable() then 0 else WRITE_SECTION),
            Analyzer.Wrap64(h.virtualAddress + h.fileSize), Analyzer.Wrap64(h.fileOffset + h.fileSize),
            h.memorySize - h.fileSize, Max(1, h.alignment), 0, "")
  }

  function WithLoad(l: Loads, h: ProgramHeader): Loads {
    if h.kind != PT_LOAD then l
    else
      var filed := if h.fileSize == 0 then l else l.Used(h).(sections := l.sections + [FileSection(h, l.Ordinal(h))]);
      if h.memorySize > h.fileSize then filed.(sections := filed.sections + [ZeroSection(h)]) else filed
  }

  function LoadSections(headers: seq<ProgramHeader>, n: nat): Loads
    requires n <= |headers|
  {
    if n == 0 then Loads([NULL_SECTION], 0, 0, 0) else WithLoad(LoadSections(headers, n - 1), headers[n - 1])
  }

  /** The section of a PT_INTERP, PT_DYNAMIC or PT_TLS header. */
  function SpecialSection(c: ElfClass, h: ProgramHeader): Option<Section> {
    if h.fileSize == 0 then None
    else if h.kind == PT_INTERP then
      Some(Section(".interp", PROGRAM_BITS, ALLOCATE_SECTION, h.virtualAddress, h.fileOffset, h.fileSize, 1, 0, ""))
    else if h.kind == PT_DYNAMIC then
      Some(Section(".dynamic", DYNAMIC, ALLOCATE_SECTION + WRITE_SECTION, h.virtualAddress, h.fileOffset, h.fileSize,
                   c.AddressWidth(), c.DynamicEntrySize(), ".dynstr"))
    else if h.kind == PT_TLS then
      Some(Section(".tdata", PROGRAM_BITS, ALLOCATE_SECTION + WRITE_SECTION, h.virtualAddress, h.fileOffset, h.fileSize,
                   Max(1, h.alignment), 0, ""))
    else None
  }

  function SpecialSections(c: ElfClass, headers: seq<ProgramHeader>, n: nat): seq<Section>
    requires n <= |headers|
  {
    if n == 0 then []
    else
      var s := SpecialSection(c, headers[n - 1]);
      SpecialSections(c, headers, n - 1) + if s.Some? then [s.value] else []
  }

  function FromDynamic(s: Analyzer.DynamicSection): Section {
    Section(s.name, s.kind, ALLOCATE_SECTION, s.address, s.fileOffset, s.size, s.alignment, s.entrySize, s.link)
  }

  function DynamicSections(sections: seq<Analyzer.DynamicSection>): (r: seq<Section>)
    ensures |r| == |sections|
  {
    seq(|sections|, k requires 0 <= k < |sections| => FromDynamic(sections[k]))
  }

  /** The whole list, except the name table's own section. */
  function AllSections(c: ElfClass, headers: seq<ProgramHeader>, dynamic: seq<Analyzer.DynamicSection>): seq<Section> {
    LoadSections(headers, |headers|).sections + SpecialSections(c, headers, |headers|) + DynamicSections(dynamic)
  }

  // ---- names ----

  /** The bytes of a section name. */
  function Text(s: string): (b: Bytes)
    ensures |b| == |s|
  {
    seq(|s|, k requires 0 <= k < |s| => s[k] as int % 256)
  }

  const TABLE_NAME := ".shstrtab"

  /** The name table before the name of section `n`. */
  function Names(sections: seq<Section>, n: nat): Bytes
    requires n <= |sections|
  {
    if n <= 1 then [0] else Names(sections, n - 1) + Text(sections[n - 1].name) + [0]
  }

  function NameTable(sections: seq<Section>): Bytes {
    Names(sections, |sections|) + Text(TABLE_NAME) + [0]
  }

  /** The first section of that name. */
  function IndexOf(sections: seq<Section>, name: string, from: nat): Option<nat>
    requires from <= |sections|
    decreases |sections| - from
  {
    if from == |sections| then None
    else if sections[from].name == name then Some(from)
    else IndexOf(sections, name, from + 1)
  }

  method FindSection(sections: seq<Section>, name: string) returns (found: Option<nat>)
    ensures found == IndexOf(sections, name, 0)
  {
    var k := 0;
    while k < |sections|
      invariant 0 <= k <= |sections| && IndexOf(sections, name, 0) == IndexOf(sections, name, k)
    {
      if sections[k].name == name {
        return Some(k);
      }
      k := k + 1;
    }
    return None;
  }

  /** The section list, built as the two header loops build it. */
  method BuildSections(c: ElfClass, headers: seq<ProgramHeader>, dynamic: seq<Analyzer.DynamicSection>)
    returns (sections: seq<Section>)
    ensures sections == AllSections(c, headers, dynamic)
  {
    hide Decimal, LoadFlags, Analyzer.Wrap64;
    var loads := Loads([NULL_SECTION], 0, 0, 0);
    var index := 0;
    while index < |headers|
      invariant 0 <= index <= |headers| && loads == LoadSections(headers, index)
    {
      var h := headers[index];
      if h.kind == PT_LOAD {
        var list := loads.sections;
        if h.fileSize != 0 {
          list := list + [FileSection(h, loads.Ordinal(h))];
          loads := loads.Used(h);
        }
        if h.memorySize > h.fileSize {
          list := list + [ZeroSection(h)];
        }
        loads := loads.(sections := list);
      }
      index := index + 1;
    }
    sections := loads.sections;
    ghost var special: seq<Section> := [];
    index := 0;
    while index < |headers|
      invariant 0 <= index <= |headers| && special == SpecialSections(c, headers, index)
      invariant sections == loads.sections + special
    {
      var s := SpecialSection(c, headers[index]);
      if s.Some? {
        sections := sections + [s.value];
        special := special + [s.value];
      }
      index := index + 1;
    }
    ghost var before := sections;
    index := 0;
    while index < |dynamic|
      invariant 0 <= index <= |dynamic| && sections == before + DynamicSections(dynamic)[..index]
    {
      sections := sections + [FromDynamic(dynamic[index])];
      assert DynamicSections(dynamic)[..index + 1] == DynamicSections(dynamic)[..index] + [DynamicSections(dynamic)[index]];
      index := index + 1;
    }
    assert DynamicSections(dynamic)[..index] == DynamicSections(dynamic);
  }

  lemma FirstName(sections: seq<Section>)
    requires sections != []
    ensures Names(sections, 1) == [0]
  {
  }

  lemma NextName(sections: seq<Section>, n: nat)
    requires 1 <= n < |sections|
    ensures Names(sections, n + 1) == Names(sections, n) + Text(sections[n].name) + [0]
  {
  }

  /** The name table and where each name starts. */
  method BuildNames(sections: seq<Section>) returns (names: Bytes, offsets: seq<nat>)
    requires sections != []
    ensures names == NameTable(sections)
    ensures |offsets| == |sections| + 1
    ensures offsets[0] == 0 && forall k :: 1 <= k <= |sections| ==> offsets[k] == |Names(sections, k)|
  {
    hide Text, Names;
    names := [0];
    offsets := [0];
    FirstName(sections);
    var index := 1;
    while index < |sections|
      invariant 1 <= index <= |sections| && names == Names(sections, index)
      invariant |offsets| == index && offsets[0] == 0
      invariant forall k :: 1 <= k < index ==> offsets[k] == |Names(sections, k)|
    {
      NextName(sections, index);
      offsets := offsets + [|names|];
      names := names + Text(sections[index].name);
      names := names + [0];
      index := index + 1;
    }
    offsets := offsets + [|names|];
    names := names + Text(TABLE_NAME);
    names := names + [0];
  }
}
