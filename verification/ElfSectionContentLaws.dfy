/** What the section table of a rebuilt ELF file says about the program headers,
    read at the byte offsets of the System V gABI. */
module ElfSectionContentLaws {
  import opened Bytes
  import opened ElfFormat
  import opened ElfImageRebuilder
  import opened ElfRebuildLaws
  import opened ElfRoundTripLaws
  import opened ElfSectionTableLaws
  import opened ElfFileLaws
  import ByteFields
  import Lists = ElfSections
  import Writer = ElfHeaderWriter
  import Parser = ElfParser
  import Analyzer = ElfDynamicMetadataAnalyzer

  // ---- reading the file ----

  /** A stored number, or -1 where the file ends before it. */
  ghost function Num(out: Bytes, at: int, width: nat): int {
    if Fits(out, at, width) then ReadAt(out, at, width) else -1
  }

  /** Where entry `k` of the section header table lies. */
  ghost function EntryStart(out: Bytes, wide: bool, k: int): int {
    if wide then Num(out, 40, 8) + k * 64 else Num(out, 32, 4) + k * 40
  }

  ghost function EntryCount(out: Bytes, wide: bool): int {
    Num(out, if wide then 60 else 48, 2)
  }

  /** e_shstrndx */
  ghost function NamesIndex(out: Bytes, wide: bool): int {
    Num(out, if wide then 62 else 50, 2)
  }

  /** What a section header says. */
  datatype Shape = Shape(
    name: string, kind: int, flags: int, address: int, offset: int, size: int, alignment: int, entrySize: int, info: int)

  ghost predicate TextStands(out: Bytes, at: int, name: string) {
    0 <= at && at + |name| < |out| && out[at + |name|] == 0 && forall i :: 0 <= i < |name| ==> CharStands(out, at, name, i)
  }

  ghost predicate CharStands(out: Bytes, at: int, name: string, i: nat)
    requires 0 <= at && at + |name| < |out| && i < |name|
  {
    out[at + i] == name[i] as int
  }

  /** Entry `k` of the file's section header table has the shape. */
  ghost predicate HasEntry(out: Bytes, wide: bool, k: int, s: Shape) {
    var at, w := EntryStart(out, wide, k), if wide then 8 else 4;
    var names := Num(out, EntryStart(out, wide, NamesIndex(out, wide)) + (if wide then 24 else 16), w);
    0 < k < EntryCount(out, wide) && Num(out, at + 4, 4) == s.kind && Num(out, at + 8, w) == s.flags
    && Num(out, at + (if wide then 16 else 12), w) == s.address && Num(out, at + (if wide then 24 else 16), w) == s.offset
    && Num(out, at + (if wide then 32 else 20), w) == s.size && Num(out, at + (if wide then 48 else 32), w) == s.alignment
    && Num(out, at + (if wide then 56 else 36), w) == s.entrySize && Num(out, at + (if wide then 44 else 28), 4) == s.info
    && TextStands(out, names + Num(out, at, 4), s.name)
  }

  ghost function ShapeOf(s: Lists.Section): Shape {
    Shape(s.name, s.kind, s.flags, s.address, s.offset, s.size, s.alignment, s.entrySize, if s.name == ".dynsym" then 1 else 0)
  }

  lemma DescribedText(out: Bytes, at: nat, name: string)
    requires Fits(out, at, |name| + 1) && Slice(out, at, |name| + 1) == Lists.Text(name) + [0]
    requires forall i :: 0 <= i < |name| ==> 0 < name[i] as int < 128
    ensures TextStands(out, at, name)
  {
    var s := Slice(out, at, |name| + 1);
    forall i | 0 <= i < |name| ensures CharStands(out, at, name, i) {
      assert s[i] == out[at + i] && Lists.Text(name)[i] == name[i] as int % 256;
    }
    assert s[|name|] == out[at + |name|];
  }

  /** A self-describing file has an entry for each listed section. */
  lemma DescribesEntry(out: Bytes, c: ElfClass, all: seq<Lists.Section>, k: nat)
    requires SelfDescribing(out, c, all) && 1 <= k < |all|
    requires forall i :: 0 <= i < |all[k].name| ==> 0 < all[k].name[i] as int < 128
    ensures EntryCount(out, c.Bits64?) == |all| && HasEntry(out, c.Bits64?, k, ShapeOf(all[k]))
  {
    hide ReadAt, Slice, LinkedTo, Lists.Text;
    var h, wide := Parser.HeaderOf(out, c), c.Bits64?;
    var strings := NamesIndex(out, wide);
    StartIs(out, c, k);
    StartIs(out, c, strings);
    var names := SectionAt(out, c, SectionOffset(c, h.sectionOffset, strings));
    assert Describes(out, c, h.sectionOffset, names.offset, names.size, all, k);
    var e := SectionAt(out, c, SectionOffset(c, h.sectionOffset, k));
    assert |Lists.Text(all[k].name)| == |all[k].name|;
    DescribedText(out, names.offset + e.name, all[k].name);
  }

  lemma StartIs(out: Bytes, c: ElfClass, k: nat)
    requires c.HeaderSize() <= |out|
    ensures EntryStart(out, c.Bits64?, k) == SectionOffset(c, Parser.HeaderOf(out, c).sectionOffset, k)
    ensures EntryCount(out, c.Bits64?) == Parser.HeaderOf(out, c).sectionCount
    ensures NamesIndex(out, c.Bits64?) == ReadAt(out, c.SectionCountOffset() + 2, 2)
  {
    hide ReadAt;
  }

  // ---- what the program headers ask for ----

  /** PT_LOAD with bytes in the file, and with memory beyond them. */
  ghost predicate InFile(h: ProgramHeader) {
    h.kind == 1 && h.fileSize != 0
  }

  ghost predicate Beyond(h: ProgramHeader) {
    h.kind == 1 && h.memorySize > h.fileSize
  }

  /** PT_DYNAMIC, PT_INTERP or PT_TLS with bytes in the file. */
  ghost predicate Special(h: ProgramHeader) {
    h.fileSize != 0 && (h.kind == 2 || h.kind == 3 || h.kind == 7)
  }

  /** Entries for the loads among the first `n` headers. */
  ghost function LoadEntries(headers: seq<ProgramHeader>, n: nat): nat
    requires n <= |headers|
  {
    if n == 0 then 0
    else
      LoadEntries(headers, n - 1) + (if InFile(headers[n - 1]) then 1 else 0) + if Beyond(headers[n - 1]) then 1 else 0
  }

  ghost function SpecialEntries(headers: seq<ProgramHeader>, n: nat): nat
    requires n <= |headers|
  {
    if n == 0 then 0 else SpecialEntries(headers, n - 1) + if Special(headers[n - 1]) then 1 else 0
  }

  ghost function BaseOf(h: ProgramHeader): string {
    if h.flags % 2 == 1 then ".text" else if h.flags / 2 % 2 == 1 then ".data" else ".rodata"
  }

  /** Loads with bytes in the file and the same base name, before header `n`. */
  ghost function SameBase(headers: seq<ProgramHeader>, n: nat, base: string): nat
    requires n <= |headers|
  {
    if n == 0 then 0
    else SameBase(headers, n - 1, base) + if InFile(headers[n - 1]) && BaseOf(headers[n - 1]) == base then 1 else 0
  }

  /** The value of a decimal numeral. */
  ghost function ValueOf(digits: string): int {
    if digits == [] then 0 else 10 * ValueOf(digits[..|digits| - 1]) + (digits[|digits| - 1] as int - '0' as int)
  }

  /** `name` is the base, then for every but the first load of the base a dot and its number. */
  ghost predicate Numbered(name: string, base: string, n: nat) {
    if n == 0 then name == base
    else
      exists digits: string :: name == base + "." + digits && digits != [] && digits[0] != '0' && ValueOf(digits) == n
        && forall i :: 0 <= i < |digits| ==> '0' <= digits[i] <= '9'
  }

  ghost function AllocFlags(h: ProgramHeader): int {
    2 + (if h.flags % 2 == 1 then 4 else 0) + if h.flags / 2 % 2 == 1 then 1 else 0
  }

  ghost function AtLeastOne(n: nat): nat {
    if n == 0 then 1 else n
  }

  /** SHT_PROGBITS for the bytes of a load. */
  ghost predicate FileShape(s: Shape, headers: seq<ProgramHeader>, k: nat)
    requires k < |headers|
  {
    var h := headers[k];
    Numbered(s.name, BaseOf(h), SameBase(headers, k, BaseOf(h)))
    && s == Shape(s.name, 1, AllocFlags(h), h.virtualAddress, h.fileOffset, h.fileSize, AtLeastOne(h.alignment), 0, 0)
  }

  /** SHT_NOBITS, writable, for the memory beyond them. */
  ghost function ZeroShape(h: ProgramHeader): Shape {
    Shape(".bss", 8, AllocFlags(h) + (if h.flags / 2 % 2 == 1 then 0 else 1),
          (h.virtualAddress + h.fileSize) % 0x1_0000_0000_0000_0000, (h.fileOffset + h.fileSize) % 0x1_0000_0000_0000_0000,
          h.memorySize - h.fileSize, AtLeastOne(h.alignment), 0, 0)
  }

  ghost function SpecialShape(wide: bool, h: ProgramHeader): Shape {
    if h.kind == 3 then Shape(".interp", 1, 2, h.virtualAddress, h.fileOffset, h.fileSize, 1, 0, 0)
    else if h.kind == 2 then
      Shape(".dynamic", 6, 3, h.virtualAddress, h.fileOffset, h.fileSize, if wide then 8 else 4, if wide then 16 else 8, 0)
    else Shape(".tdata", 1, 3, h.virtualAddress, h.fileOffset, h.fileSize, AtLeastOne(h.alignment), 0, 0)
  }

  // ---- the built list, entry by entry ----

  lemma {:induction false} DecimalIs(n: nat)
    ensures Lists.Decimal(n) != [] && ValueOf(Lists.Decimal(n)) == n && (n > 0 ==> Lists.Decimal(n)[0] != '0')
    decreases n
  {
    var d := Lists.Decimal(n);
    if n < 10 {
      assert d[..|d| - 1] == [];
    } else {
      DecimalIs(n / 10);
      assert d[..|d| - 1] == Lists.Decimal(n / 10);
    }
  }

  lemma NameIs(h: ProgramHeader, n: nat)
    ensures Lists.BaseName(h) == BaseOf(h) && Numbered(Lists.LoadName(h, n), BaseOf(h), n)
  {
    hide Lists.Decimal, ValueOf;
    if n != 0 {
      var digits := Lists.Decimal(n);
      DecimalIs(n);
      assert Lists.LoadName(h, n) == BaseOf(h) + "." + digits;
    }
  }

  /** How the load loop counts its names. */
  ghost predicate Counted(l: Lists.Loads, headers: seq<ProgramHeader>, n: nat)
    requires n <= |headers|
  {
    l.text == SameBase(headers, n, ".text") && l.data == SameBase(headers, n, ".data") && l.readOnly == SameBase(headers, n, ".rodata")
    && |l.sections| == 1 + LoadEntries(headers, n)
  }

  lemma {:induction false} LoadsCounted(headers: seq<ProgramHeader>, n: nat)
    requires n <= |headers|
    ensures Counted(Lists.LoadSections(headers, n), headers, n)
  {
    hide Lists.FileSection, Lists.ZeroSection;
    if n > 0 {
      LoadsCounted(headers, n - 1);
      BasesDiffer();
    }
  }

  lemma BasesDiffer()
    ensures ".text" != ".data" && ".text" != ".rodata" && ".data" != ".rodata"
  {
    assert ".text"[1] != ".data"[1] && ".text"[1] != ".rodata"[1] && ".data"[1] != ".rodata"[1];
  }

  /** The sections of one load, where the loop puts them. */
  lemma LoadPlaced(headers: seq<ProgramHeader>, k: nat)
    requires k < |headers|
    ensures var l, at := Lists.LoadSections(headers, k + 1).sections, 1 + LoadEntries(headers, k);
            |l| == 1 + LoadEntries(headers, k + 1)
            && (InFile(headers[k]) ==> FileShape(ShapeOf(l[at]), headers, k) && l[at].link == "")
            && (Beyond(headers[k]) ==>
                  var z := l[at + if InFile(headers[k]) then 1 else 0]; ShapeOf(z) == ZeroShape(headers[k]) && z.link == "")
  {
    hide Lists.LoadSections, Lists.LoadName, Numbered;
    LoadsCounted(headers, k);
    LoadsCounted(headers, k + 1);
    var l := Lists.LoadSections(headers, k);
    LoadStep(headers, k);
    NameIs(headers[k], l.Ordinal(headers[k]));
    NamesOfLoads(headers[k], l.Ordinal(headers[k]));
  }

  lemma LoadStep(headers: seq<ProgramHeader>, k: nat)
    requires k < |headers|
    ensures Lists.LoadSections(headers, k + 1) == Lists.WithLoad(Lists.LoadSections(headers, k), headers[k])
  {
  }

  lemma {:induction false} LoadsGrow(headers: seq<ProgramHeader>, m: nat, n: nat)
    requires m <= n <= |headers|
    ensures var a, b := Lists.LoadSections(headers, m).sections, Lists.LoadSections(headers, n).sections; |a| <= |b| && b[..|a|] == a
    decreases n - m
  {
    hide Lists.FileSection, Lists.ZeroSection;
    if m < n {
      LoadsGrow(headers, m, n - 1);
    }
  }

  lemma {:induction false} SpecialsCounted(c: ElfClass, headers: seq<ProgramHeader>, n: nat)
    requires n <= |headers|
    ensures |Lists.SpecialSections(c, headers, n)| == SpecialEntries(headers, n)
  {
    if n > 0 {
      SpecialsCounted(c, headers, n - 1);
    }
  }

  lemma {:induction false} SpecialPlaced(c: ElfClass, headers: seq<ProgramHeader>, n: nat, k: nat)
    requires k < n <= |headers| && Special(headers[k])
    ensures var l, at := Lists.SpecialSections(c, headers, n), SpecialEntries(headers, k);
            at < |l| && ShapeOf(l[at]) == SpecialShape(c.Bits64?, headers[k])
            && l[at].link == if headers[k].kind == 2 then ".dynstr" else ""
  {
    if k < n - 1 {
      SpecialPlaced(c, headers, n - 1, k);
    } else {
      SpecialsCounted(c, headers, k);
    }
  }

  // ---- the rebuilt file ----

  ghost function DynamicShape(d: Analyzer.DynamicSection): Shape {
    Shape(d.name, d.kind, 2, d.address, d.fileOffset, d.size, d.alignment, d.entrySize, if d.name == ".dynsym" then 1 else 0)
  }

  /** The table of the file, entry by entry: the loads in header order, then the
      interpreter, dynamic and thread-local headers, then the tables that the
      dynamic section describes, then the section names. */
  ghost predicate TableExact(out: Bytes, wide: bool, headers: seq<ProgramHeader>, dynamic: seq<Analyzer.DynamicSection>) {
    var n := |headers|;
    var loads := LoadEntries(headers, n);
    var specials := SpecialEntries(headers, n);
    (forall k :: 0 <= k < n && InFile(headers[k]) ==> LoadListed(out, wide, headers, k))
    && (forall k :: 0 <= k < n && Beyond(headers[k]) ==>
          HasEntry(out, wide, 1 + LoadEntries(headers, k) + (if InFile(headers[k]) then 1 else 0), ZeroShape(headers[k])))
    && (forall k :: 0 <= k < n && Special(headers[k]) ==>
          HasEntry(out, wide, 1 + loads + SpecialEntries(headers, k), SpecialShape(wide, headers[k])))
    && (forall k :: 0 <= k < |dynamic| ==> HasEntry(out, wide, 1 + loads + specials + k, DynamicShape(dynamic[k])))
    && EntryCount(out, wide) == 2 + loads + specials + |dynamic| && NamesIndex(out, wide) == 1 + loads + specials + |dynamic|
    && exists offset, size :: HasEntry(out, wide, NamesIndex(out, wide), Shape(".shstrtab", 3, 0, 0, offset, size, 1, 0, 0))
  }

  ghost predicate LoadListed(out: Bytes, wide: bool, headers: seq<ProgramHeader>, k: nat)
    requires k < |headers|
  {
    exists s: Shape :: HasEntry(out, wide, 1 + LoadEntries(headers, k), s) && FileShape(s, headers, k)
  }

  /** Where each kind of section lies in the built list. */
  lemma ListParts(c: ElfClass, headers: seq<ProgramHeader>, dynamic: seq<Analyzer.DynamicSection>)
    ensures var all := Lists.AllSections(c, headers, dynamic);
            |all| == 1 + LoadEntries(headers, |headers|) + SpecialEntries(headers, |headers|) + |dynamic|
            && (forall i :: 0 <= i < 1 + LoadEntries(headers, |headers|) ==>
                  i < |Lists.LoadSections(headers, |headers|).sections|
                    && all[i] == Lists.LoadSections(headers, |headers|).sections[i])
            && (forall i :: 0 <= i < SpecialEntries(headers, |headers|) ==>
                  i < |Lists.SpecialSections(c, headers, |headers|)|
                  && all[1 + LoadEntries(headers, |headers|) + i] == Lists.SpecialSections(c, headers, |headers|)[i])
            && forall i :: 0 <= i < |dynamic| ==>
                 all[1 + LoadEntries(headers, |headers|) + SpecialEntries(headers, |headers|) + i] == Lists.FromDynamic(dynamic[i])
  {
    hide Lists.LoadSections, Lists.SpecialSections, Lists.FromDynamic;
    LoadsCounted(headers, |headers|);
    SpecialsCounted(c, headers, |headers|);
  }

  lemma {:induction false} EntriesGrow(headers: seq<ProgramHeader>, m: nat, n: nat)
    requires m <= n <= |headers|
    ensures LoadEntries(headers, m) <= LoadEntries(headers, n) && SpecialEntries(headers, m) <= SpecialEntries(headers, n)
    decreases n - m
  {
    if m < n {
      EntriesGrow(headers, m, n - 1);
    }
  }

  /** The list's sections, by program header. */
  lemma ListedLoad(c: ElfClass, headers: seq<ProgramHeader>, dynamic: seq<Analyzer.DynamicSection>, k: nat)
    requires k < |headers|
    ensures var all, at := Lists.AllSections(c, headers, dynamic), 1 + LoadEntries(headers, k);
            (InFile(headers[k]) ==> at < |all| && FileShape(ShapeOf(all[at]), headers, k))
            && (Beyond(headers[k]) ==>
                  var z := at + if InFile(headers[k]) then 1 else 0; z < |all| && ShapeOf(all[z]) == ZeroShape(headers[k]))
  {
    hide Lists.LoadSections, Lists.AllSections, FileShape, ZeroShape, ShapeOf;
    ListParts(c, headers, dynamic);
    LoadPlaced(headers, k);
    LoadsGrow(headers, k + 1, |headers|);
    EntriesGrow(headers, k + 1, |headers|);
    EntriesStep(headers, k);
    var a, b := Lists.LoadSections(headers, k + 1).sections, Lists.LoadSections(headers, |headers|).sections;
    assert forall i :: 0 <= i < |a| ==> b[i] == b[..|a|][i] == a[i];
  }

  lemma EntriesStep(headers: seq<ProgramHeader>, k: nat)
    requires k < |headers|
    ensures LoadEntries(headers, k + 1)
            == LoadEntries(headers, k) + (if InFile(headers[k]) then 1 else 0) + (if Beyond(headers[k]) then 1 else 0)
    ensures SpecialEntries(headers, k + 1) == SpecialEntries(headers, k) + if Special(headers[k]) then 1 else 0
  {
  }

  lemma ListedSpecial(c: ElfClass, headers: seq<ProgramHeader>, dynamic: seq<Analyzer.DynamicSection>, k: nat)
    requires k < |headers| && Special(headers[k])
    ensures var all, at := Lists.AllSections(c, headers, dynamic), 1 + LoadEntries(headers, |headers|) + SpecialEntries(headers, k);
            at < |all| && ShapeOf(all[at]) == SpecialShape(c.Bits64?, headers[k])
  {
    hide Lists.LoadSections, Lists.AllSections, SpecialShape, ShapeOf, Lists.SpecialSections;
    ListParts(c, headers, dynamic);
    SpecialPlaced(c, headers, |headers|, k);
    EntriesGrow(headers, k + 1, |headers|);
    EntriesStep(headers, k);
  }

  /** A section is linked to the dynamic table of that name, or to none. */
  ghost predicate LinkExact(out: Bytes, wide: bool, k: int, first: nat, dynamic: seq<Analyzer.DynamicSection>, link: string) {
    var at := Num(out, EntryStart(out, wide, k) + (if wide then 40 else 24), 4);
    if link == "" then at == 0
    else exists j :: 0 <= j < |dynamic| && dynamic[j].name == link && at == first + j
  }

  ghost predicate LinksExact(out: Bytes, wide: bool, headers: seq<ProgramHeader>, dynamic: seq<Analyzer.DynamicSection>) {
    var loads := LoadEntries(headers, |headers|);
    var first := 1 + loads + SpecialEntries(headers, |headers|);
    (forall k :: 1 <= k < 1 + loads ==> LinkExact(out, wide, k, first, dynamic, ""))
    && (forall k :: 0 <= k < |headers| && Special(headers[k]) ==>
          LinkExact(out, wide, 1 + loads + SpecialEntries(headers, k), first, dynamic, if headers[k].kind == 2 then ".dynstr" else ""))
    && forall k :: 0 <= k < |dynamic| ==> LinkExact(out, wide, first + k, first, dynamic, dynamic[k].link)
  }

  lemma TableIsExact(out: Bytes, c: ElfClass, headers: seq<ProgramHeader>, dynamic: seq<Analyzer.DynamicSection>, t: Tail)
    requires SelfDescribing(out, c, AllEmitted(Lists.AllSections(c, headers, dynamic), t))
    requires AllPlain(Lists.AllSections(c, headers, dynamic))
    requires NamesIndex(out, c.Bits64?) == |Lists.AllSections(c, headers, dynamic)|
    ensures TableExact(out, c.Bits64?, headers, dynamic)
  {
    hide Lists.AllSections, SelfDescribing, HasEntry, FileShape, ZeroShape, SpecialShape, EntryCount, NamesIndex;
    var sections, wide := Lists.AllSections(c, headers, dynamic), c.Bits64?;
    var all := AllEmitted(sections, t);
    ListParts(c, headers, dynamic);
    forall k | 1 <= k < |all| ensures HasEntry(out, wide, k, ShapeOf(all[k])) {
      EmittedPlain(sections, t, k);
      DescribesEntry(out, c, all, k);
    }
    DescribesCount(out, c, all);
    forall k | 0 <= k < |headers| ensures InFile(headers[k]) ==> LoadListed(out, wide, headers, k) {
      ListedLoad(c, headers, dynamic, k);
      if InFile(headers[k]) {
        var at := 1 + LoadEntries(headers, k);
        assert all[at] == sections[at] && HasEntry(out, wide, at, ShapeOf(sections[at]));
      }
    }
    forall k | 0 <= k < |headers| && Beyond(headers[k])
      ensures HasEntry(out, wide, 1 + LoadEntries(headers, k) + (if InFile(headers[k]) then 1 else 0), ZeroShape(headers[k]))
    {
      ListedLoad(c, headers, dynamic, k);
      var z := 1 + LoadEntries(headers, k) + if InFile(headers[k]) then 1 else 0;
      assert all[z] == sections[z] && HasEntry(out, wide, z, ShapeOf(all[z]));
    }
    forall k | 0 <= k < |headers| && Special(headers[k])
      ensures HasEntry(out, wide, 1 + LoadEntries(headers, |headers|) + SpecialEntries(headers, k), SpecialShape(wide, headers[k]))
    {
      ListedSpecial(c, headers, dynamic, k);
      var at := 1 + LoadEntries(headers, |headers|) + SpecialEntries(headers, k);
      assert all[at] == sections[at] && HasEntry(out, wide, at, ShapeOf(all[at]));
    }
    forall k | 0 <= k < |dynamic|
      ensures HasEntry(out, wide, 1 + LoadEntries(headers, |headers|) + SpecialEntries(headers, |headers|) + k,
                       DynamicShape(dynamic[k]))
    {
      var at := 1 + LoadEntries(headers, |headers|) + SpecialEntries(headers, |headers|) + k;
      assert all[at] == sections[at] && HasEntry(out, wide, at, ShapeOf(all[at]));
    }
    assert HasEntry(out, wide, |sections|, ShapeOf(all[|sections|]));
    LastEntry(sections, t);
  }

  lemma EmittedPlain(sections: seq<Lists.Section>, t: Tail, k: nat)
    requires AllPlain(sections) && k <= |sections|
    ensures var name := AllEmitted(sections, t)[k].name; forall i :: 0 <= i < |name| ==> 0 < name[i] as int < 128
  {
    assert k < |sections| ==> Plain(sections[k].name);
  }

  lemma DescribesCount(out: Bytes, c: ElfClass, all: seq<Lists.Section>)
    requires SelfDescribing(out, c, all)
    ensures EntryCount(out, c.Bits64?) == |all|
  {
    hide Describes, ReadAt;
    StartIs(out, c, 0);
  }

  lemma LastEntry(sections: seq<Lists.Section>, t: Tail)
    ensures var s := ShapeOf(AllEmitted(sections, t)[|sections|]);
            s == Shape(".shstrtab", 3, 0, 0, s.offset, s.size, 1, 0, 0)
  {
    assert ".shstrtab"[1] != ".dynsym"[1];
  }

  // ---- links ----

  lemma EntryLinked(out: Bytes, c: ElfClass, all: seq<Lists.Section>, k: nat)
    requires SelfDescribing(out, c, all) && 1 <= k < |all|
    ensures var at := Num(out, EntryStart(out, c.Bits64?, k) + (if c.Bits64? then 40 else 24), 4);
            if all[k].link == "" then at == 0 else 0 <= at < |all| && all[at].name == all[k].link
  {
    hide ReadAt, Slice, Lists.Text;
    var h, strings := Parser.HeaderOf(out, c), NamesIndex(out, c.Bits64?);
    StartIs(out, c, k);
    StartIs(out, c, strings);
    var names := SectionAt(out, c, SectionOffset(c, h.sectionOffset, strings));
    assert Describes(out, c, h.sectionOffset, names.offset, names.size, all, k);
  }

  /** Only tables of the dynamic section have the linked names. */
  lemma LinkedIsDynamic(c: ElfClass, headers: seq<ProgramHeader>, dynamic: seq<Analyzer.DynamicSection>, t: Tail,
                        at: nat, link: string)
    requires link == ".dynstr" || link == ".dynsym"
    requires var all := AllEmitted(Lists.AllSections(c, headers, dynamic), t); at < |all| && all[at].name == link
    ensures var first := 1 + LoadEntries(headers, |headers|) + SpecialEntries(headers, |headers|);
            first <= at < first + |dynamic| && dynamic[at - first].name == link
  {
    hide Lists.AllSections;
    var sections := Lists.AllSections(c, headers, dynamic);
    ListParts(c, headers, dynamic);
    var first := 1 + LoadEntries(headers, |headers|) + SpecialEntries(headers, |headers|);
    forall i | 0 <= i < first ensures sections[i].name != ".dynstr" && sections[i].name != ".dynsym" {
      EarlyName(c, headers, dynamic, i);
    }
    assert ".shstrtab" != ".dynstr" && ".shstrtab" != ".dynsym";
    if first <= at < first + |dynamic| {
      assert sections[first + (at - first)] == Lists.FromDynamic(dynamic[at - first]);
    }
  }

  lemma EarlyName(c: ElfClass, headers: seq<ProgramHeader>, dynamic: seq<Analyzer.DynamicSection>, i: nat)
    requires i < 1 + LoadEntries(headers, |headers|) + SpecialEntries(headers, |headers|)
    ensures var sections := Lists.AllSections(c, headers, dynamic);
            i < |sections| && sections[i].name != ".dynstr" && sections[i].name != ".dynsym"
  {
    hide Lists.AllSections, Lists.LoadSections, Lists.SpecialSections;
    ListParts(c, headers, dynamic);
    LoadsUnlinked(headers, |headers|);
    SpecialsLinked(c, headers, |headers|);
    SpecialsCounted(c, headers, |headers|);
    var sections, loads := Lists.AllSections(c, headers, dynamic), LoadEntries(headers, |headers|);
    if i < 1 + loads {
      LoadsCounted(headers, |headers|);
      assert sections[i] == Lists.LoadSections(headers, |headers|).sections[i];
    } else {
      assert sections[1 + loads + (i - 1 - loads)] == Lists.SpecialSections(c, headers, |headers|)[i - 1 - loads];
    }
  }

  lemma LinkIs(out: Bytes, c: ElfClass, headers: seq<ProgramHeader>, dynamic: seq<Analyzer.DynamicSection>, t: Tail,
               k: nat, link: string)
    requires var all := AllEmitted(Lists.AllSections(c, headers, dynamic), t);
             SelfDescribing(out, c, all) && 1 <= k < |all| && all[k].link == link
    requires link == "" || link == ".dynstr" || link == ".dynsym"
    ensures LinkExact(out, c.Bits64?, k, 1 + LoadEntries(headers, |headers|) + SpecialEntries(headers, |headers|), dynamic, link)
  {
    hide Lists.AllSections, SelfDescribing, EntryStart, Num;
    var all := AllEmitted(Lists.AllSections(c, headers, dynamic), t);
    EntryLinked(out, c, all, k);
    if link != "" {
      var at := Num(out, EntryStart(out, c.Bits64?, k) + (if c.Bits64? then 40 else 24), 4);
      LinkedIsDynamic(c, headers, dynamic, t, at, link);
      var first := 1 + LoadEntries(headers, |headers|) + SpecialEntries(headers, |headers|);
      assert dynamic[at - first].name == link && at == first + (at - first);
    }
  }

  lemma LinksAreExact(out: Bytes, c: ElfClass, headers: seq<ProgramHeader>, dynamic: seq<Analyzer.DynamicSection>, t: Tail)
    requires SelfDescribing(out, c, AllEmitted(Lists.AllSections(c, headers, dynamic), t))
    requires forall k :: 0 <= k < |dynamic| ==> Analyzer.Described(dynamic[k])
    ensures LinksExact(out, c.Bits64?, headers, dynamic)
  {
    hide Lists.AllSections, SelfDescribing, LinkExact, Lists.LoadSections, Lists.SpecialSections;
    var sections, n := Lists.AllSections(c, headers, dynamic), |headers|;
    var all, loads := AllEmitted(sections, t), LoadEntries(headers, n);
    var first := 1 + loads + SpecialEntries(headers, n);
    ListParts(c, headers, dynamic);
    LoadsUnlinked(headers, n);
    forall k | 1 <= k < 1 + loads ensures LinkExact(out, c.Bits64?, k, first, dynamic, "") {
      assert all[k] == sections[k] == Lists.LoadSections(headers, n).sections[k];
      LinkIs(out, c, headers, dynamic, t, k, "");
    }
    forall k | 0 <= k < n && Special(headers[k])
      ensures LinkExact(out, c.Bits64?, 1 + loads + SpecialEntries(headers, k), first, dynamic,
                        if headers[k].kind == 2 then ".dynstr" else "")
    {
      SpecialPlaced(c, headers, n, k);
      SpecialsCounted(c, headers, n);
      var i := SpecialEntries(headers, k);
      assert all[1 + loads + i] == sections[1 + loads + i] == Lists.SpecialSections(c, headers, n)[i];
      LinkIs(out, c, headers, dynamic, t, 1 + loads + i, if headers[k].kind == 2 then ".dynstr" else "");
    }
    forall k | 0 <= k < |dynamic| ensures LinkExact(out, c.Bits64?, first + k, first, dynamic, dynamic[k].link) {
      assert all[first + k] == sections[first + k] == Lists.FromDynamic(dynamic[k]);
      assert Analyzer.Described(dynamic[k]);
      LinkIs(out, c, headers, dynamic, t, first + k, dynamic[k].link);
    }
  }

  /** The section table of a rebuilt file, from its program headers and its dynamic section. */
  lemma RebuiltTableIsExact(captured: CapturedImage, maximum: U64, order: seq<nat>) returns (headed: Bytes)
    requires Outcome(captured, maximum, order).Ok?
    requires captured.layout.imageClass.HeaderSize() <= captured.layout.programHeaderOffset
    ensures Flat(captured, maximum, order).Ok?
    ensures Writer.Outcome(Flat(captured, maximum, order).value, captured.layout) == ByteFields.Written(headed, true)
    ensures Analyzer.Outcome(headed, captured.layout.imageClass, captured.layout.programHeaders).Ok?
    ensures var out, c := Outcome(captured, maximum, order).value, captured.layout.imageClass;
            var dynamic := Analyzer.Outcome(headed, c, captured.layout.programHeaders).value.sections;
            TableExact(out, c.Bits64?, captured.layout.programHeaders, dynamic)
            && LinksExact(out, c.Bits64?, captured.layout.programHeaders, dynamic)
  {
    hide Outcome, Flat, SelfDescribing, Lists.AllSections, Analyzer.Outcome, Writer.Outcome, Finish, TableExact, LinksExact, AllPlain,
      TailOf, NamesIndex;
    var flat, headed', sections := SectionTableIsConsistent(captured, maximum, order);
    headed := headed';
    var out, c, headers := Outcome(captured, maximum, order).value, captured.layout.imageClass, captured.layout.programHeaders;
    var dynamic := Analyzer.Outcome(headed, c, headers).value.sections;
    OutStrings(captured, maximum, flat, headed, sections, out);
    StartIs(out, c, 0);
    HeaderCount(captured, maximum, flat, headed, sections, out);
    StageParts(captured, maximum, flat, headed, sections, out);
    NamesArePlain(headed, c, headers);
    Analyzer.AnalysisDescribes(headed, c, headers);
    var t := TailOf(c, |headed|, sections);
    TableIsExact(out, c, headers, dynamic, t);
    LinksAreExact(out, c, headers, dynamic, t);
  }

  lemma HeaderCount(captured: CapturedImage, maximum: U64, flat: Bytes, headed: Bytes, sections: seq<Lists.Section>, out: Bytes)
    requires Stages(captured, maximum, flat, headed, sections, out)
    ensures |captured.layout.programHeaders| <= 0xffff
  {
    hide Finish, Lists.AllSections, Analyzer.Outcome, Writer.Programs;
  }

  lemma StageParts(captured: CapturedImage, maximum: U64, flat: Bytes, headed: Bytes, sections: seq<Lists.Section>, out: Bytes)
    requires Stages(captured, maximum, flat, headed, sections, out)
    ensures var c, layout := captured.layout.imageClass, captured.layout;
            Writer.Outcome(flat, layout) == ByteFields.Written(headed, true)
            && Analyzer.Outcome(headed, c, layout.programHeaders).Ok?
            && sections == Lists.AllSections(c, layout.programHeaders,
                                             Analyzer.Outcome(headed, c, layout.programHeaders).value.sections)
  {
    hide Finish, Lists.AllSections, Analyzer.Outcome, Writer.Outcome;
  }
}
