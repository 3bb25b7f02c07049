/** Recovers section headers for dynamic linking from the DT_* tags. */
module ElfDynamicMetadataAnalyzer {
  import opened Bytes
  import opened ElfFormat
  import Classifier = ElfImageTypeClassifier

  const STRING_TABLE: nat := 5
  const SYMBOL_TABLE: nat := 6
  const RELA: nat := 7
  const RELA_SIZE: nat := 8
  const RELA_ENTRY: nat := 9
  const STRING_SIZE: nat := 10
  const SYMBOL_ENTRY: nat := 11
  const REL: nat := 17
  const REL_SIZE: nat := 18
  const REL_ENTRY: nat := 19
  const PLT_KIND: nat := 20
  const PLT_RELOCATIONS: nat := 23
  const PLT_SIZE: nat := 2

  const SHT_STRTAB: U32 := 3
  const SHT_RELA: U32 := 4
  const SHT_REL: U32 := 9
  const SHT_DYNSYM: U32 := 11

  datatype DynamicError =
    RangeInvalid | RequiredTagsMissing | StringTableInvalid | SymbolTableInvalid | RelocationsInvalid | PltRelocationsInvalid

  datatype DynamicSection = DynamicSection(
    name: string, kind: U32, address: U64, fileOffset: U64, size: U64, alignment: nat, entrySize: nat, link: string)

  datatype Metadata = Metadata(present: bool, sections: seq<DynamicSection>)

  type TagMap = map<nat, U64>

  function Wrap64(x: int): U64 {
    x % 0x1_0000_0000_0000_0000
  }

  function FirstDynamic(headers: seq<ProgramHeader>): Option<ProgramHeader> {
    if headers == [] then None else if headers[0].kind == PT_DYNAMIC then Some(headers[0]) else FirstDynamic(headers[1..])
  }

  /** The file position of a mapped address range. */
  function FileOffsetFor(headers: seq<ProgramHeader>, address: U64, size: U64): Option<U64> {
    if headers == [] then None
    else
      var h := headers[0];
      if h.kind == PT_LOAD && address >= h.virtualAddress && size <= h.fileSize
         && address - h.virtualAddress <= h.fileSize - size
        then Some(Wrap64(h.fileOffset + address - h.virtualAddress))
      else FileOffsetFor(headers[1..], address, size)
  }

  function TagAt(b: Bytes, c: ElfClass, offset: nat): (tag: U64) {
    AddressRange(c);
    ReadUnsigned(b, offset, c.AddressWidth())
  }

  /** The tags from byte `cursor` on, first value of each; None without a terminator. */
  function Tags(b: Bytes, c: ElfClass, h: ProgramHeader, cursor: nat, tags: TagMap): Option<TagMap>
    decreases h.fileSize - cursor
  {
    if cursor >= h.fileSize then None
    else
      var tag, value := TagAt(b, c, h.fileOffset + cursor), TagAt(b, c, h.fileOffset + cursor + c.AddressWidth());
      if tag == 0 then Some(tags)
      else Tags(b, c, h, cursor + c.DynamicEntrySize(), if tag in tags then tags else tags[tag := value])
  }

  /** The sections with one more, unless it is empty; None where it lies outside the image. */
  function Add(size: nat, headers: seq<ProgramHeader>, sections: seq<DynamicSection>, s: DynamicSection): Option<seq<DynamicSection>> {
    if s.size == 0 then Some(sections)
    else
      var offset := FileOffsetFor(headers, s.address, s.size);
      if offset.None? || offset.value + s.size > size then None
      else Some(sections + [s.(fileOffset := offset.value)])
  }

  predicate RequiredTags(c: ElfClass, tags: TagMap) {
    STRING_TABLE in tags && SYMBOL_TABLE in tags && STRING_SIZE in tags && SYMBOL_ENTRY in tags
    && tags[STRING_SIZE] != 0 && tags[SYMBOL_ENTRY] == c.SymbolEntrySize()
  }

  function StringSection(tags: TagMap): DynamicSection
    requires STRING_TABLE in tags && STRING_SIZE in tags
  {
    DynamicSection(".dynstr", SHT_STRTAB, tags[STRING_TABLE], 0, tags[STRING_SIZE], 1, 0, "")
  }

  /** The symbol table ends where the string table starts. */
  function SymbolSize(tags: TagMap): U64
    requires STRING_TABLE in tags && SYMBOL_TABLE in tags
  {
    if tags[STRING_TABLE] > tags[SYMBOL_TABLE] then tags[STRING_TABLE] - tags[SYMBOL_TABLE] else 0
  }

  function SymbolSection(c: ElfClass, tags: TagMap): DynamicSection
    requires STRING_TABLE in tags && SYMBOL_TABLE in tags
  {
    DynamicSection(".dynsym", SHT_DYNSYM, tags[SYMBOL_TABLE], 0, SymbolSize(tags), c.AddressWidth(), c.SymbolEntrySize(),
                   ".dynstr")
  }

  /** A relocation table described by address, size and entry-size tags. */
  function WithRelocations(size: nat, headers: seq<ProgramHeader>, c: ElfClass, tags: TagMap, sections: seq<DynamicSection>,
                           name: string, kind: U32, table: nat, length: nat, entry: nat, entrySize: nat): Option<seq<DynamicSection>>
  {
    if table !in tags || length !in tags then Some(sections)
    else if entry !in tags || tags[entry] != entrySize then None
    else
      Add(size, headers, sections, DynamicSection(name, kind, tags[table], 0, tags[length], c.AddressWidth(), entrySize, ".dynsym"))
  }

  function PltKind(c: ElfClass, tags: TagMap): U64 {
    if PLT_KIND in tags then tags[PLT_KIND] else if c.Bits32? then REL else RELA
  }

  function WithPlt(size: nat, headers: seq<ProgramHeader>, c: ElfClass, tags: TagMap, sections: seq<DynamicSection>)
    : Option<seq<DynamicSection>>
  {
    if PLT_RELOCATIONS !in tags || PLT_SIZE !in tags then Some(sections)
    else
      var kind := PltKind(c, tags);
      if kind == RELA then
        Add(size, headers, sections, DynamicSection(".rela.plt", SHT_RELA, tags[PLT_RELOCATIONS], 0, tags[PLT_SIZE],
                                                    c.AddressWidth(), c.RelaEntrySize(), ".dynsym"))
      else if kind == REL then
        Add(size, headers, sections, DynamicSection(".rel.plt", SHT_REL, tags[PLT_RELOCATIONS], 0, tags[PLT_SIZE],
                                                    c.AddressWidth(), c.RelEntrySize(), ".dynsym"))
      else None
  }

  /** The sections that a complete tag set describes, for an image of `size` bytes. */
  function SectionsOf(size: nat, headers: seq<ProgramHeader>, c: ElfClass, tags: TagMap): Result<seq<DynamicSection>, DynamicError>
    requires RequiredTags(c, tags)
  {
    var strings := Add(size, headers, [], StringSection(tags));
    if strings.None? then Err(StringTableInvalid)
    else if SymbolSize(tags) == 0 || SymbolSize(tags) % c.SymbolEntrySize() != 0 then Err(SymbolTableInvalid)
    else
      var symbols := Add(size, headers, strings.value, SymbolSection(c, tags));
      if symbols.None? then Err(SymbolTableInvalid)
      else
        var rela := WithRelocations(size, headers, c, tags, symbols.value, ".rela.dyn", SHT_RELA, RELA, RELA_SIZE, RELA_ENTRY,
                                    c.RelaEntrySize());
        if rela.None? then Err(RelocationsInvalid)
        else
          var rel := WithRelocations(size, headers, c, tags, rela.value, ".rel.dyn", SHT_REL, REL, REL_SIZE, REL_ENTRY,
                                     c.RelEntrySize());
          if rel.None? then Err(RelocationsInvalid)
          else
            var plt := WithPlt(size, headers, c, tags, rel.value);
            if plt.None? then Err(PltRelocationsInvalid) else Ok(plt.value)
  }

  function Outcome(image: Bytes, c: ElfClass, headers: seq<ProgramHeader>): Result<Metadata, DynamicError> {
    var h := FirstDynamic(headers);
    if h.None? then Ok(Metadata(false, []))
    else if !Classifier.TableReadable(|image|, c, h.value) then Err(RangeInvalid)
    else
      var tags := Tags(image, c, h.value, 0, map[]);
      if tags.None? || !RequiredTags(c, tags.value) then Err(RequiredTagsMissing)
      else
        var sections := SectionsOf(|image|, headers, c, tags.value);
        if sections.Err? then Err(sections.error) else Ok(Metadata(true, sections.value))
  }

  /** The header search. */
  method FindDynamic(headers: seq<ProgramHeader>) returns (found: Option<ProgramHeader>)
    ensures found == FirstDynamic(headers)
  {
    var k := 0;
    assert headers[0..] == headers;
    while k < |headers|
      invariant 0 <= k <= |headers| && FirstDynamic(headers) == FirstDynamic(headers[k..])
    {
      if headers[k].kind == PT_DYNAMIC {
        return Some(headers[k]);
      }
      assert headers[k..][1..] == headers[k + 1..];
      k := k + 1;
    }
    return None;
  }

  /** The tag loop. */
  method ReadTags(image: Bytes, c: ElfClass, h: ProgramHeader) returns (found: Option<TagMap>)
    ensures found == Tags(image, c, h, 0, map[])
  {
    hide TagAt;
    var tags: TagMap := map[];
    var cursor: nat := 0;
    while cursor < h.fileSize
      invariant Tags(image, c, h, 0, map[]) == Tags(image, c, h, cursor, tags)
      decreases h.fileSize - cursor
    {
      var tag := TagAt(image, c, h.fileOffset + cursor);
      var value := TagAt(image, c, h.fileOffset + cursor + c.AddressWidth());
      if tag == 0 {
        return Some(tags);
      }
      if tag !in tags {
        tags := tags[tag := value];
      }
      cursor := cursor + c.DynamicEntrySize();
    }
    return None;
  }

  method Analyze(image: Bytes, c: ElfClass, headers: seq<ProgramHeader>) returns (result: Result<Metadata, DynamicError>)
    ensures result == Outcome(image, c, headers)
  {
    hide Add, WithRelocations, WithPlt, Tags;
    var h := FindDynamic(headers);
    if h == None {
      return Ok(Metadata(false, []));
    }
    if !Classifier.TableReadable(|image|, c, h.value) {
      return Err(RangeInvalid);
    }
    var found := ReadTags(image, c, h.value);
    if found == None || !RequiredTags(c, found.value) {
      return Err(RequiredTagsMissing);
    }
    var tags, size := found.value, |image|;
    var sections := Add(size, headers, [], StringSection(tags));
    if sections == None {
      return Err(StringTableInvalid);
    }
    if SymbolSize(tags) == 0 || SymbolSize(tags) % c.SymbolEntrySize() != 0 {
      return Err(SymbolTableInvalid);
    }
    sections := Add(size, headers, sections.value, SymbolSection(c, tags));
    if sections == None {
      return Err(SymbolTableInvalid);
    }
    sections := WithRelocations(size, headers, c, tags, sections.value, ".rela.dyn", SHT_RELA, RELA, RELA_SIZE, RELA_ENTRY,
                                c.RelaEntrySize());
    if sections == None {
      return Err(RelocationsInvalid);
    }
    sections := WithRelocations(size, headers, c, tags, sections.value, ".rel.dyn", SHT_REL, REL, REL_SIZE, REL_ENTRY,
                                c.RelEntrySize());
    if sections == None {
      return Err(RelocationsInvalid);
    }
    sections := WithPlt(size, headers, c, tags, sections.value);
    if sections == None {
      return Err(PltRelocationsInvalid);
    }
    result := Ok(Metadata(true, sections.value));
  }

  // ---- what the analysis depends on ----

  lemma FirstDynamicKind(headers: seq<ProgramHeader>)
    ensures FirstDynamic(headers).Some? ==> FirstDynamic(headers).value.kind == PT_DYNAMIC && FirstDynamic(headers).value in headers
  {
    if headers != [] && headers[0].kind != PT_DYNAMIC {
      FirstDynamicKind(headers[1..]);
    }
  }

  lemma {:induction false} TagsSame(a: Bytes, b: Bytes, c: ElfClass, h: ProgramHeader, cursor: nat, tags: TagMap)
    requires SameRange(a, b, h.fileOffset, h.fileSize) && h.fileSize % c.DynamicEntrySize() == 0
    requires cursor % c.DynamicEntrySize() == 0
    ensures Tags(a, c, h, cursor, tags) == Tags(b, c, h, cursor, tags)
    decreases h.fileSize - cursor
  {
    hide ReadAt;
    if cursor < h.fileSize {
      Classifier.EntryFits(c, h.fileSize, cursor);
      TagSame(a, b, c, h, cursor);
      var tag, value := TagAt(a, c, h.fileOffset + cursor), TagAt(a, c, h.fileOffset + cursor + c.AddressWidth());
      TagsSame(a, b, c, h, cursor + c.DynamicEntrySize(), if tag in tags then tags else tags[tag := value]);
    }
  }

  lemma TagSame(a: Bytes, b: Bytes, c: ElfClass, h: ProgramHeader, cursor: nat)
    requires SameRange(a, b, h.fileOffset, h.fileSize) && cursor + c.DynamicEntrySize() <= h.fileSize
    ensures TagAt(a, c, h.fileOffset + cursor) == TagAt(b, c, h.fileOffset + cursor)
    ensures TagAt(a, c, h.fileOffset + cursor + c.AddressWidth()) == TagAt(b, c, h.fileOffset + cursor + c.AddressWidth())
  {
    hide ReadAt;
    SameRangeRead(a, b, h.fileOffset + cursor, c.AddressWidth());
    SameRangeRead(a, b, h.fileOffset + cursor + c.AddressWidth(), c.AddressWidth());
  }

  lemma AddGrows(size: nat, size': nat, headers: seq<ProgramHeader>, sections: seq<DynamicSection>, s: DynamicSection)
    requires size <= size' && Add(size, headers, sections, s).Some?
    ensures Add(size', headers, sections, s) == Add(size, headers, sections, s)
  {
    hide FileOffsetFor;
  }

  lemma SectionsGrow(size: nat, size': nat, headers: seq<ProgramHeader>, c: ElfClass, tags: TagMap)
    requires size <= size' && RequiredTags(c, tags) && SectionsOf(size, headers, c, tags).Ok?
    ensures SectionsOf(size', headers, c, tags) == SectionsOf(size, headers, c, tags)
  {
    hide Add;
    forall sections, s | Add(size, headers, sections, s).Some?
      ensures Add(size', headers, sections, s) == Add(size, headers, sections, s)
    {
      AddGrows(size, size', headers, sections, s);
    }
  }

  /** A successful analysis gives the same result on any longer buffer that
      keeps the dynamic table. */
  lemma AnalysisSurvives(a: Bytes, b: Bytes, c: ElfClass, headers: seq<ProgramHeader>)
    requires Outcome(a, c, headers).Ok? && |a| <= |b|
    requires FirstDynamic(headers).Some? ==>
      SameRange(a, b, FirstDynamic(headers).value.fileOffset, FirstDynamic(headers).value.fileSize)
    ensures Outcome(b, c, headers) == Outcome(a, c, headers)
  {
    hide SectionsOf, Tags;
    if FirstDynamic(headers).Some? {
      var h := FirstDynamic(headers).value;
      TagsSame(a, b, c, h, 0, map[]);
      var tags := Tags(a, c, h, 0, map[]).value;
      SectionsGrow(|a|, |b|, headers, c, tags);
    }
  }

  // ---- what the sections are ----

  /** Each name goes with its type and its link. */
  ghost predicate Described(s: DynamicSection) {
    (s.name == ".dynstr" && s.kind == SHT_STRTAB && s.link == "")
    || (s.name == ".dynsym" && s.kind == SHT_DYNSYM && s.link == ".dynstr")
    || (s.name in {".rela.dyn", ".rela.plt"} && s.kind == SHT_RELA && s.link == ".dynsym")
    || (s.name in {".rel.dyn", ".rel.plt"} && s.kind == SHT_REL && s.link == ".dynsym")
  }

  ghost predicate AllDescribed(size: nat, sections: seq<DynamicSection>) {
    forall k :: 0 <= k < |sections| ==>
      Described(sections[k]) && 0 < sections[k].size && sections[k].fileOffset + sections[k].size <= size
  }

  lemma AddDescribed(size: nat, headers: seq<ProgramHeader>, sections: seq<DynamicSection>, s: DynamicSection)
    requires AllDescribed(size, sections) && Described(s) && Add(size, headers, sections, s).Some?
    ensures AllDescribed(size, Add(size, headers, sections, s).value)
    ensures var r := Add(size, headers, sections, s).value;
            |sections| <= |r| && r[..|sections|] == sections
  {
    hide FileOffsetFor;
    if s.size == 0 {
      assert sections[..|sections|] == sections;
    }
  }

  /** The analysis yields a string table, a symbol table linked to it, and
      relocation tables linked to the symbol table, all inside the image. */
  lemma AnalysisDescribes(image: Bytes, c: ElfClass, headers: seq<ProgramHeader>)
    requires Outcome(image, c, headers).Ok?
    ensures var m := Outcome(image, c, headers).value;
            AllDescribed(|image|, m.sections) && (!m.present ==> m.sections == [])
            && (m.present ==> |m.sections| >= 2 && m.sections[0].name == ".dynstr" && m.sections[1].name == ".dynsym")
            && (m.present <==> FirstDynamic(headers).Some?)
  {
    hide Add, Tags, AllDescribed, RequiredTags;
    NothingDescribed(|image|);
    if FirstDynamic(headers).Some? {
      var tags := Tags(image, c, FirstDynamic(headers).value, 0, map[]).value;
      SectionsDescribed(|image|, headers, c, tags);
    }
  }

  lemma NothingDescribed(size: nat)
    ensures AllDescribed(size, [])
  {
  }

  lemma SectionsDescribed(size: nat, headers: seq<ProgramHeader>, c: ElfClass, tags: TagMap)
    requires RequiredTags(c, tags) && SectionsOf(size, headers, c, tags).Ok?
    ensures var s := SectionsOf(size, headers, c, tags).value;
            AllDescribed(size, s) && |s| >= 2 && s[0].name == ".dynstr" && s[1].name == ".dynsym"
  {
    hide AllDescribed, Add;
    NothingDescribed(size);
    FirstTwo(size, headers, c, tags);
    var symbols := Add(size, headers, Add(size, headers, [], StringSection(tags)).value, SymbolSection(c, tags)).value;
    var rela := WithRelocations(size, headers, c, tags, symbols, ".rela.dyn", SHT_RELA, RELA, RELA_SIZE, RELA_ENTRY,
                                c.RelaEntrySize()).value;
    RelocationsDescribed(size, headers, c, tags, symbols, ".rela.dyn", SHT_RELA, RELA, RELA_SIZE, RELA_ENTRY, c.RelaEntrySize());
    var rel := WithRelocations(size, headers, c, tags, rela, ".rel.dyn", SHT_REL, REL, REL_SIZE, REL_ENTRY, c.RelEntrySize()).value;
    RelocationsDescribed(size, headers, c, tags, rela, ".rel.dyn", SHT_REL, REL, REL_SIZE, REL_ENTRY, c.RelEntrySize());
    PltDescribed(size, headers, c, tags, rel);
  }

  lemma FirstTwo(size: nat, headers: seq<ProgramHeader>, c: ElfClass, tags: TagMap)
    requires RequiredTags(c, tags) && SymbolSize(tags) != 0
    requires Add(size, headers, [], StringSection(tags)).Some?
    requires Add(size, headers, Add(size, headers, [], StringSection(tags)).value, SymbolSection(c, tags)).Some?
    ensures var s := Add(size, headers, Add(size, headers, [], StringSection(tags)).value, SymbolSection(c, tags)).value;
            AllDescribed(size, s) && |s| == 2 && s[0].name == ".dynstr" && s[1].name == ".dynsym"
  {
    hide FileOffsetFor;
  }

  lemma RelocationsDescribed(size: nat, headers: seq<ProgramHeader>, c: ElfClass, tags: TagMap, sections: seq<DynamicSection>,
                             name: string, kind: U32, table: nat, length: nat, entry: nat, entrySize: nat)
    requires AllDescribed(size, sections)
    requires (name == ".rela.dyn" && kind == SHT_RELA) || (name == ".rel.dyn" && kind == SHT_REL)
    requires WithRelocations(size, headers, c, tags, sections, name, kind, table, length, entry, entrySize).Some?
    ensures var r := WithRelocations(size, headers, c, tags, sections, name, kind, table, length, entry, entrySize).value;
            AllDescribed(size, r) && |sections| <= |r| && r[..|sections|] == sections
  {
    hide AllDescribed, Add;
    if table in tags && length in tags {
      AddDescribed(size, headers, sections, DynamicSection(name, kind, tags[table], 0, tags[length], c.AddressWidth(),
                                                           entrySize, ".dynsym"));
    } else {
      assert sections[..|sections|] == sections;
    }
  }

  lemma PltDescribed(size: nat, headers: seq<ProgramHeader>, c: ElfClass, tags: TagMap, sections: seq<DynamicSection>)
    requires AllDescribed(size, sections) && WithPlt(size, headers, c, tags, sections).Some?
    ensures var r := WithPlt(size, headers, c, tags, sections).value;
            AllDescribed(size, r) && |sections| <= |r| && r[..|sections|] == sections
  {
    hide AllDescribed, Add;
    if PLT_RELOCATIONS in tags && PLT_SIZE in tags {
      if PltKind(c, tags) == RELA {
        AddDescribed(size, headers, sections, DynamicSection(".rela.plt", SHT_RELA, tags[PLT_RELOCATIONS], 0, tags[PLT_SIZE],
                                                             c.AddressWidth(), c.RelaEntrySize(), ".dynsym"));
      } else {
        AddDescribed(size, headers, sections, DynamicSection(".rel.plt", SHT_REL, tags[PLT_RELOCATIONS], 0, tags[PLT_SIZE],
                                                             c.AddressWidth(), c.RelEntrySize(), ".dynsym"));
      }
    } else {
      assert sections[..|sections|] == sections;
    }
  }
}
