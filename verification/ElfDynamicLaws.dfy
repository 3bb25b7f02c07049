/** The dynamic-table analysis in numbers: which tags count, which sections they
    describe, and when the table is refused. */
module ElfDynamicLaws {
  import opened Bytes
  import opened ElfFormat
  import opened ElfDynamicMetadataAnalyzer

  // ---- the tags ----

  /** A stored address-wide number, or 0 where the file ends before it. */
  ghost function Long(b: Bytes, c: ElfClass, at: int): int {
    var w := if c.Bits32? then 4 else 8;
    if Fits(b, at, w) then ReadAt(b, at, w) else 0
  }

  ghost function TagOf(b: Bytes, c: ElfClass, h: ProgramHeader, i: nat): int {
    Long(b, c, h.fileOffset + if c.Bits32? then 8 * i else 16 * i)
  }

  ghost function ValueOf(b: Bytes, c: ElfClass, h: ProgramHeader, i: nat): int {
    Long(b, c, h.fileOffset + if c.Bits32? then 8 * i + 4 else 16 * i + 8)
  }

  ghost function EntryCount(c: ElfClass, h: ProgramHeader): nat {
    h.fileSize / if c.Bits32? then 8 else 16
  }

  /** Entry `n` is DT_NULL and the ones before it are not. */
  ghost predicate EndsAt(b: Bytes, c: ElfClass, h: ProgramHeader, n: nat) {
    n < EntryCount(c, h) && TagOf(b, c, h, n) == 0 && forall i: nat :: i < n ==> TagOf(b, c, h, i) != 0
  }

  /** Entry `i` is the first of the entries before `n` with its tag. */
  ghost predicate FirstOf(b: Bytes, c: ElfClass, h: ProgramHeader, n: nat, i: nat, tag: int) {
    i < n && TagOf(b, c, h, i) == tag && forall j: nat :: j < i ==> TagOf(b, c, h, j) != tag
  }

  /** The map holds the first value of each of the first `n` tags. */
  ghost predicate MapsFirst(b: Bytes, c: ElfClass, h: ProgramHeader, n: nat, tags: TagMap) {
    (forall i: nat :: i < n ==> TagOf(b, c, h, i) in tags)
    && forall t :: t in tags ==> exists i: nat :: FirstOf(b, c, h, n, i, t) && ValueOf(b, c, h, i) == tags[t]
  }

  ghost predicate TagsAre(b: Bytes, c: ElfClass, h: ProgramHeader, tags: TagMap) {
    exists n: nat :: EndsAt(b, c, h, n) && MapsFirst(b, c, h, n, tags)
  }

  lemma CursorIs(b: Bytes, c: ElfClass, h: ProgramHeader, i: nat)
    ensures TagAt(b, c, h.fileOffset + i * c.DynamicEntrySize()) == TagOf(b, c, h, i)
    ensures TagAt(b, c, h.fileOffset + i * c.DynamicEntrySize() + c.AddressWidth()) == ValueOf(b, c, h, i)
    ensures (i + 1) * c.DynamicEntrySize() == i * c.DynamicEntrySize() + c.DynamicEntrySize()
  {
    hide ReadAt;
  }

  lemma OneMore(b: Bytes, c: ElfClass, h: ProgramHeader, n: nat, tags: TagMap, value: U64)
    requires MapsFirst(b, c, h, n, tags) && ValueOf(b, c, h, n) == value
    ensures var tag := TagOf(b, c, h, n);
            tag >= 0 && MapsFirst(b, c, h, n + 1, if tag in tags then tags else tags[tag := value])
  {
    hide TagOf, ValueOf;
    TagPositive(b, c, h, n);
    var tag := TagOf(b, c, h, n);
    var more := if tag in tags then tags else tags[tag := value];
    forall t | t in more ensures exists i: nat :: FirstOf(b, c, h, n + 1, i, t) && ValueOf(b, c, h, i) == more[t] {
      if t in tags {
        var i: nat :| FirstOf(b, c, h, n, i, t) && ValueOf(b, c, h, i) == tags[t];
        assert FirstOf(b, c, h, n + 1, i, t);
      } else {
        assert FirstOf(b, c, h, n + 1, n, t);
      }
    }
  }

  lemma TagPositive(b: Bytes, c: ElfClass, h: ProgramHeader, n: nat)
    ensures TagOf(b, c, h, n) >= 0
  {
  }

  lemma {:induction false} TagsExact(b: Bytes, c: ElfClass, h: ProgramHeader, n: nat, tags: TagMap)
    requires h.fileSize == EntryCount(c, h) * c.DynamicEntrySize() && n <= EntryCount(c, h)
    requires MapsFirst(b, c, h, n, tags) && forall i: nat :: i < n ==> TagOf(b, c, h, i) != 0
    ensures var r := Tags(b, c, h, n * c.DynamicEntrySize(), tags);
            if r.Some? then TagsAre(b, c, h, r.value) else forall m: nat :: !EndsAt(b, c, h, m)
    decreases EntryCount(c, h) - n
  {
    hide TagAt, TagOf, ValueOf, MapsFirst;
    CursorIs(b, c, h, n);
    var cursor := n * c.DynamicEntrySize();
    if n == EntryCount(c, h) {
    } else {
      EntriesBelow(c, n, EntryCount(c, h));
      var tag, value := TagAt(b, c, h.fileOffset + cursor), TagAt(b, c, h.fileOffset + cursor + c.AddressWidth());
      if tag == 0 {
        assert EndsAt(b, c, h, n);
      } else {
        OneMore(b, c, h, n, tags, value);
        TagsExact(b, c, h, n + 1, if tag in tags then tags else tags[tag := value]);
      }
    }
  }

  lemma EntriesBelow(c: ElfClass, n: nat, count: nat)
    requires n < count
    ensures n * c.DynamicEntrySize() < count * c.DynamicEntrySize()
  {
  }

  lemma NothingMapped(b: Bytes, c: ElfClass, h: ProgramHeader)
    ensures MapsFirst(b, c, h, 0, map[])
  {
  }

  // ---- where tables lie ----

  ghost predicate Loads(h: ProgramHeader, address: int, size: int) {
    h.kind == 1 && h.virtualAddress <= address && address + size <= h.virtualAddress + h.fileSize
  }

  ghost predicate FirstLoad(headers: seq<ProgramHeader>, address: int, size: int, k: nat) {
    k < |headers| && Loads(headers[k], address, size) && forall j :: 0 <= j < k ==> !Loads(headers[j], address, size)
  }

  /** The table's file offset by the first load that holds all of it, or -1. */
  ghost function OffsetOf(headers: seq<ProgramHeader>, address: int, size: int): int {
    if exists k: nat :: FirstLoad(headers, address, size, k) then
      var k: nat :| FirstLoad(headers, address, size, k);
      (headers[k].fileOffset + (address - headers[k].virtualAddress)) % 0x1_0000_0000_0000_0000
    else -1
  }

  lemma FirstLoadOnce(headers: seq<ProgramHeader>, address: int, size: int, k: nat)
    requires FirstLoad(headers, address, size, k)
    ensures OffsetOf(headers, address, size)
            == (headers[k].fileOffset + (address - headers[k].virtualAddress)) % 0x1_0000_0000_0000_0000
  {
    hide Loads;
    forall j: nat | FirstLoad(headers, address, size, j) ensures j == k {
    }
  }

  lemma {:induction false} OffsetIs(all: seq<ProgramHeader>, n: nat, address: U64, size: U64)
    requires n <= |all| && forall j :: 0 <= j < n ==> !Loads(all[j], address, size)
    ensures var o := FileOffsetFor(all[n..], address, size);
            OffsetOf(all, address, size) == if o.Some? then o.value else -1
    decreases |all| - n
  {
    hide OffsetOf;
    if n < |all| {
      assert all[n..][0] == all[n] && all[n..][1..] == all[n + 1..];
      if Loads(all[n], address, size) {
        FirstLoadOnce(all, address, size, n);
      } else {
        OffsetIs(all, n + 1, address, size);
      }
    } else {
      NoLoad(all, address, size);
    }
  }

  lemma NoLoad(all: seq<ProgramHeader>, address: int, size: int)
    requires forall j :: 0 <= j < |all| ==> !Loads(all[j], address, size)
    ensures OffsetOf(all, address, size) == -1
  {
  }

  // ---- the sections ----

  /** A table of that many bytes is wanted but is not in the file. */
  ghost predicate Missing(image: Bytes, headers: seq<ProgramHeader>, address: int, size: int) {
    size != 0 && (OffsetOf(headers, address, size) < 0 || OffsetOf(headers, address, size) + size > |image|)
  }

  /** The section of a table, unless it is empty. */
  ghost function Table(headers: seq<ProgramHeader>, name: string, kind: U32, address: U64, size: U64, alignment: nat, entrySize: nat,
                       link: string): seq<DynamicSection> {
    if size == 0 || OffsetOf(headers, address, size) < 0 || OffsetOf(headers, address, size) > U64_MAX then []
    else [DynamicSection(name, kind, address, OffsetOf(headers, address, size), size, alignment, entrySize, link)]
  }

  lemma AddExact(image: Bytes, headers: seq<ProgramHeader>, sections: seq<DynamicSection>, name: string, kind: U32, address: U64,
                 size: U64, alignment: nat, entrySize: nat, link: string)
    ensures var r := Add(|image|, headers, sections, DynamicSection(name, kind, address, 0, size, alignment, entrySize, link));
            (r.None? <==> Missing(image, headers, address, size))
            && (r.Some? ==> r.value == sections + Table(headers, name, kind, address, size, alignment, entrySize, link))
  {
    hide OffsetOf, FileOffsetFor;
    assert headers[0..] == headers;
    OffsetIs(headers, 0, address, size);
    if size == 0 {
      assert sections + [] == sections;
    }
  }

  /** DT_STRTAB (5), DT_SYMTAB (6), DT_STRSZ (10) and DT_SYMENT (11) are needed. */
  ghost predicate Needed(c: ElfClass, tags: TagMap) {
    5 in tags && 6 in tags && 10 in tags && 11 in tags && tags[10] != 0 && tags[11] == if c.Bits32? then 16 else 24
  }

  /** Symbols run up to the string table. */
  ghost function SymbolBytes(tags: TagMap): U64
    requires 5 in tags && 6 in tags
  {
    if tags[5] > tags[6] then tags[5] - tags[6] else 0
  }

  /** DT_PLTREL (20), or by class. */
  ghost function PltTag(c: ElfClass, tags: TagMap): int {
    if 20 in tags then tags[20] else if c.Bits32? then 17 else 7
  }

  ghost function RelaSize(c: ElfClass): nat {
    if c.Bits32? then 12 else 24
  }

  ghost function RelSize(c: ElfClass): nat {
    if c.Bits32? then 8 else 16
  }

  ghost function Wide(c: ElfClass): nat {
    if c.Bits32? then 4 else 8
  }

  /** The first demand on the tags that fails, if one does. */
  ghost function Fault(image: Bytes, c: ElfClass, headers: seq<ProgramHeader>, tags: TagMap): Option<DynamicError> {
    if !Needed(c, tags) then Some(RequiredTagsMissing)
    else if Missing(image, headers, tags[5], tags[10]) then Some(StringTableInvalid)
    else if SymbolBytes(tags) == 0 || SymbolBytes(tags) % (if c.Bits32? then 16 else 24) != 0
            || Missing(image, headers, tags[6], SymbolBytes(tags)) then Some(SymbolTableInvalid)
    else if 7 in tags && 8 in tags && (9 !in tags || tags[9] != RelaSize(c) || Missing(image, headers, tags[7], tags[8]))
      then Some(RelocationsInvalid)
    else if 17 in tags && 18 in tags && (19 !in tags || tags[19] != RelSize(c) || Missing(image, headers, tags[17], tags[18]))
      then Some(RelocationsInvalid)
    else if 23 in tags && 2 in tags
            && ((PltTag(c, tags) != 7 && PltTag(c, tags) != 17) || Missing(image, headers, tags[23], tags[2]))
      then Some(PltRelocationsInvalid)
    else None
  }

  /** SHT_STRTAB (3), SHT_DYNSYM (11), SHT_RELA (4) and SHT_REL (9) sections. */
  ghost function Described(c: ElfClass, headers: seq<ProgramHeader>, tags: TagMap): seq<DynamicSection>
    requires Needed(c, tags)
  {
    Table(headers, ".dynstr", 3, tags[5], tags[10], 1, 0, "")
    + Table(headers, ".dynsym", 11, tags[6], SymbolBytes(tags), Wide(c), if c.Bits32? then 16 else 24, ".dynstr")
    + (if 7 in tags && 8 in tags then Table(headers, ".rela.dyn", 4, tags[7], tags[8], Wide(c), RelaSize(c), ".dynsym") else [])
    + (if 17 in tags && 18 in tags then Table(headers, ".rel.dyn", 9, tags[17], tags[18], Wide(c), RelSize(c), ".dynsym") else [])
    + (if 23 in tags && 2 in tags then
         if PltTag(c, tags) == 7 then Table(headers, ".rela.plt", 4, tags[23], tags[2], Wide(c), RelaSize(c), ".dynsym")
         else Table(headers, ".rel.plt", 9, tags[23], tags[2], Wide(c), RelSize(c), ".dynsym")
       else [])
  }

  lemma RelocationsExact(image: Bytes, c: ElfClass, headers: seq<ProgramHeader>, tags: TagMap, sections: seq<DynamicSection>)
    ensures var r := WithRelocations(|image|, headers, c, tags, sections, ".rela.dyn", SHT_RELA, RELA, RELA_SIZE, RELA_ENTRY,
                                     c.RelaEntrySize());
            if 7 in tags && 8 in tags && (9 !in tags || tags[9] != RelaSize(c)
                                          || Missing(image, headers, tags[7], tags[8])) then r.None?
            else
              r == Some(sections + if 7 in tags && 8 in tags
                                   then Table(headers, ".rela.dyn", 4, tags[7], tags[8], Wide(c), RelaSize(c), ".dynsym") else [])
    ensures var r := WithRelocations(|image|, headers, c, tags, sections, ".rel.dyn", SHT_REL, REL, REL_SIZE, REL_ENTRY,
                                     c.RelEntrySize());
            if 17 in tags && 18 in tags && (19 !in tags || tags[19] != RelSize(c) || Missing(image, headers, tags[17], tags[18]))
            then r.None?
            else
              r == Some(sections + if 17 in tags && 18 in tags
                                   then Table(headers, ".rel.dyn", 9, tags[17], tags[18], Wide(c), RelSize(c), ".dynsym") else [])
  {
    hide Add, Missing, Table;
    assert sections + [] == sections;
    if 7 in tags && 8 in tags {
      AddExact(image, headers, sections, ".rela.dyn", 4, tags[7], tags[8], Wide(c), RelaSize(c), ".dynsym");
    }
    if 17 in tags && 18 in tags {
      AddExact(image, headers, sections, ".rel.dyn", 9, tags[17], tags[18], Wide(c), RelSize(c), ".dynsym");
    }
  }

  lemma PltExact(image: Bytes, c: ElfClass, headers: seq<ProgramHeader>, tags: TagMap, sections: seq<DynamicSection>)
    ensures var r := WithPlt(|image|, headers, c, tags, sections);
            if 23 in tags && 2 in tags && ((PltTag(c, tags) != 7 && PltTag(c, tags) != 17)
                                           || Missing(image, headers, tags[23], tags[2]))
            then r.None?
            else
              r == Some(sections
                        + if 23 in tags && 2 in tags then
                            if PltTag(c, tags) == 7 then Table(headers, ".rela.plt", 4, tags[23], tags[2], Wide(c),
                                                               RelaSize(c), ".dynsym")
                            else Table(headers, ".rel.plt", 9, tags[23], tags[2], Wide(c), RelSize(c), ".dynsym")
                          else [])
  {
    hide Add, Missing, Table;
    assert sections + [] == sections;
    if 23 in tags && 2 in tags {
      AddExact(image, headers, sections, ".rela.plt", 4, tags[23], tags[2], Wide(c), RelaSize(c), ".dynsym");
      AddExact(image, headers, sections, ".rel.plt", 9, tags[23], tags[2], Wide(c), RelSize(c), ".dynsym");
    }
  }

  lemma SectionsExact(image: Bytes, c: ElfClass, headers: seq<ProgramHeader>, tags: TagMap)
    requires Needed(c, tags)
    ensures RequiredTags(c, tags)
    ensures var r, f := SectionsOf(|image|, headers, c, tags), Fault(image, c, headers, tags);
            if f.Some? then r == Err(f.value) else r == Ok(Described(c, headers, tags))
  {
    hide Add, WithRelocations, WithPlt, Missing, Table;
    AddExact(image, headers, [], ".dynstr", 3, tags[5], tags[10], 1, 0, "");
    var strings := Table(headers, ".dynstr", 3, tags[5], tags[10], 1, 0, "");
    assert [] + strings == strings;
    AddExact(image, headers, strings, ".dynsym", 11, tags[6], SymbolBytes(tags), Wide(c), if c.Bits32? then 16 else 24, ".dynstr");
    var symbols := strings + Table(headers, ".dynsym", 11, tags[6], SymbolBytes(tags), Wide(c),
                                   if c.Bits32? then 16 else 24, ".dynstr");
    RelocationsExact(image, c, headers, tags, symbols);
    var rela := symbols + if 7 in tags && 8 in tags
                          then Table(headers, ".rela.dyn", 4, tags[7], tags[8], Wide(c), RelaSize(c), ".dynsym") else [];
    RelocationsExact(image, c, headers, tags, rela);
    var rel := rela + if 17 in tags && 18 in tags
                      then Table(headers, ".rel.dyn", 9, tags[17], tags[18], Wide(c), RelSize(c), ".dynsym") else [];
    PltExact(image, c, headers, tags, rel);
  }

  // ---- the whole ----

  ghost predicate FirstDynamicAt(headers: seq<ProgramHeader>, d: nat) {
    d < |headers| && headers[d].kind == 2 && forall j :: 0 <= j < d ==> headers[j].kind != 2
  }

  lemma {:induction false} DynamicIs(all: seq<ProgramHeader>, n: nat)
    requires n <= |all| && forall j :: 0 <= j < n ==> all[j].kind != 2
    ensures var h := FirstDynamic(all[n..]);
            if h.Some? then exists d: nat :: d < |all| && FirstDynamicAt(all, d) && all[d] == h.value
            else forall d: nat :: !FirstDynamicAt(all, d)
    decreases |all| - n
  {
    if n < |all| {
      assert all[n..][0] == all[n] && all[n..][1..] == all[n + 1..];
      if all[n].kind == 2 {
        assert FirstDynamicAt(all, n);
      } else {
        DynamicIs(all, n + 1);
      }
    }
  }

  ghost predicate TableFits(image: Bytes, c: ElfClass, h: ProgramHeader) {
    var entry := if c.Bits32? then 8 else 16;
    h.fileSize >= entry && h.fileSize % entry == 0 && h.fileOffset + h.fileSize <= |image|
  }

  /** No dynamic header, no sections; a table out of the file, without an end or
      with a fault is refused; otherwise it describes its sections. */
  ghost predicate AnalysedAs(image: Bytes, c: ElfClass, headers: seq<ProgramHeader>, r: Result<Metadata, DynamicError>) {
    if forall d: nat :: !FirstDynamicAt(headers, d) then r == Ok(Metadata(false, []))
    else
      exists d: nat :: d < |headers| && FirstDynamicAt(headers, d)
        && if !TableFits(image, c, headers[d]) then r == Err(RangeInvalid)
           else if forall n: nat :: !EndsAt(image, c, headers[d], n) then r == Err(RequiredTagsMissing)
           else
             exists tags :: TagsAre(image, c, headers[d], tags)
               && var f := Fault(image, c, headers, tags);
                  if f.Some? then r == Err(f.value)
                  else Needed(c, tags) && r == Ok(Metadata(true, Described(c, headers, tags)))
  }

  lemma AnalysisIsExact(image: Bytes, c: ElfClass, headers: seq<ProgramHeader>)
    ensures AnalysedAs(image, c, headers, Outcome(image, c, headers))
  {
    hide FirstDynamicAt, TagsAre, EndsAt, Tags, SectionsOf, Described, Missing, MapsFirst;
    assert headers[0..] == headers;
    DynamicIs(headers, 0);
    if FirstDynamic(headers).Some? {
      var h := FirstDynamic(headers).value;
      var d: nat :| d < |headers| && FirstDynamicAt(headers, d) && headers[d] == h;
      KindIs(headers, d);
      if TableFits(image, c, h) {
        NothingMapped(image, c, h);
        TagsExact(image, c, h, 0, map[]);
        var tags := Tags(image, c, h, 0, map[]);
        if tags.Some? {
          SomeEnd(image, c, h, tags.value);
          if Needed(c, tags.value) {
            SectionsExact(image, c, headers, tags.value);
          }
        }
      }
    }
  }

  lemma SomeEnd(image: Bytes, c: ElfClass, h: ProgramHeader, tags: TagMap)
    requires TagsAre(image, c, h, tags)
    ensures exists n: nat :: EndsAt(image, c, h, n)
  {
    hide EndsAt, MapsFirst;
  }

  lemma KindIs(headers: seq<ProgramHeader>, d: nat)
    requires FirstDynamicAt(headers, d)
    ensures d < |headers| && headers[d].kind == 2
  {
  }
}
