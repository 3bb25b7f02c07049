/** The import table the fixer writes passes the validator and reads back as
    the plan, module by module and symbol by symbol. */
module ImportRoundTrip {
  import opened Bytes
  import opened Structs
  import opened PeFormat
  import opened ImportTypes
  import opened ImportTableValidator
  import opened ImportReader
  import opened AssemblyLaws
  import Builder = ImportTableBuilder
  import Tables = ImportTableLaws

  const LOW := 0x8000_0000

  /** A parsed file whose sections are stacked after the headers. */
  ghost predicate Sound(p: Layout) {
    Stacked(p.sections)
    && forall k :: 0 <= k < |p.sections| ==>
         p.sections[k].virtualSize <= p.sections[k].rawSize && p.sizeOfHeaders <= p.sections[k].virtualAddress
  }

  lemma {:induction false} RangeFound(sections: seq<Section>, rva: U32, size: nat, k: nat)
    requires Stacked(sections) && k < |sections| && 0 < size
    requires forall i :: 0 <= i < |sections| ==> sections[i].virtualSize <= sections[i].rawSize
    requires sections[k].virtualAddress <= rva && rva + size <= sections[k].virtualAddress + sections[k].rawSize
    ensures SectionRaw(sections, rva, size) == Some(sections[k].rawOffset + (rva - sections[k].virtualAddress))
    decreases k
  {
    if k > 0 {
      assert sections[0].virtualAddress + sections[0].rawSize <= sections[k].virtualAddress;
      StackedRest(sections);
      RangeFound(sections[1..], rva, size, k - 1);
    }
  }

  lemma StackedRest(sections: seq<Section>)
    requires Stacked(sections) && sections != []
    ensures Stacked(sections[1..])
  {
  }

  lemma SoundFound(p: Layout, rva: U32, size: nat, k: nat)
    requires Sound(p) && k < |p.sections| && 0 < size
    requires p.sections[k].virtualAddress <= rva && rva + size <= p.sections[k].virtualAddress + p.sections[k].rawSize
    ensures InSection(p, rva, size)
    ensures ToRaw(p, rva, size) == Some(p.sections[k].rawOffset + (rva - p.sections[k].virtualAddress))
  {
    hide SectionRaw, Stacked;
    RangeFound(p.sections, rva, size, k);
  }

  /** Section `k` of the file starts with the bytes of `table`. */
  ghost predicate TableAt(f: Bytes, p: Layout, k: nat, rva: U32, table: Bytes) {
    Sound(p) && k < |p.sections| && p.sections[k].virtualAddress == rva && rva > 0
    && |table| <= p.sections[k].rawSize && rva + |table| <= LOW
    && Fits(f, p.sections[k].rawOffset, |table|) && Slice(f, p.sections[k].rawOffset, |table|) == table
  }

  lemma TableRead(f: Bytes, p: Layout, k: nat, rva: U32, table: Bytes, off: nat, n: nat)
    requires TableAt(f, p, k, rva, table) && 0 < n && off + n <= |table|
    ensures k < |p.sections|
    ensures rva + off <= U32_MAX && InSection(p, rva + off, n)
    ensures ToRaw(p, rva + off, n) == Some(p.sections[k].rawOffset + off)
    ensures Fits(f, p.sections[k].rawOffset + off, n)
    ensures Slice(f, p.sections[k].rawOffset + off, n) == Slice(table, off, n)
  {
    hide Sound, SectionRaw;
    SoundFound(p, rva + off, n, k);
    var raw := p.sections[k].rawOffset;
    forall i | 0 <= i < n ensures Slice(f, raw + off, n)[i] == Slice(table, off, n)[i] {
      assert f[raw + (off + i)] == Slice(f, raw, |table|)[off + i];
    }
  }

  // ---- names ----

  lemma NameRead(f: Bytes, p: Layout, k: nat, rva: U32, table: Bytes, off: nat, name: Bytes)
    requires TableAt(f, p, k, rva, table) && Tables.NameAt(table, off, name)
    ensures rva + off <= U32_MAX && InSection(p, rva + off, 1) && StringAt(f, p, rva + off)
    ensures NulFree(name) ==> ReadString(f, p, rva + off) == Some(name)
  {
    hide TableAt, SectionRaw, ToRaw, CString, NulFree;
    TableRead(f, p, k, rva, table, off, 1);
    TableRead(f, p, k, rva, table, off, |name| + 1);
    var raw := p.sections[k].rawOffset + off;
    var part := Slice(f, raw, |name| + 1);
    assert part == Slice(table, off, |name| + 1);
    assert part[|name|] == table[off + |name|] == 0 && part[|name|] == f[raw + |name|];
    if NulFree(name) {
      var rest := f[raw..];
      forall i | 0 <= i < |name| ensures rest[..|name|][i] == name[i] {
        assert rest[i] == part[i] == Slice(table, off, |name| + 1)[i] == Slice(table, off, |name|)[i];
      }
      CStringFound(rest, name);
    }
  }

  // ---- lookup entries ----

  lemma ThunkRead(f: Bytes, p: Layout, k: nat, rva: U32, table: Bytes, at: nat)
    requires TableAt(f, p, k, rva, table) && at + p.format.PointerSize() <= |table|
    ensures rva + at <= U32_MAX
    ensures ReadThunk(f, p, rva + at) == Some(ReadAt(table, at, p.format.PointerSize()))
  {
    hide TableAt, ToRaw, Slice, Unsigned;
    TableRead(f, p, k, rva, table, at, p.format.PointerSize());
  }

  lemma OrdinalEntry(format: Format, ordinal: U16)
    ensures var v := format.OrdinalFlag() + ordinal;
            v > 0 && Has(v, format.OrdinalFlag()) && v % 0x1_0000 == ordinal
  {
    var flag := format.OrdinalFlag();
    assert (flag + ordinal) / flag == 1;
    if format.Pe32? {
      assert (0x8000 * 0x1_0000 + ordinal) % 0x1_0000 == ordinal;
    } else {
      assert (0x8000_0000_0000 * 0x1_0000 + ordinal) % 0x1_0000 == ordinal;
    }
  }

  lemma LowEntry(format: Format, v: nat)
    requires v < LOW
    ensures !Has(v, format.OrdinalFlag()) && Wrap32(v) == v && Wrap32(v + 2) == v + 2
  {
    assert v / format.OrdinalFlag() == 0;
  }

  /** A stored lookup entry is valid and stands for its symbol. */
  lemma SymbolRead(f: Bytes, p: Layout, k: nat, ctx: Builder.Context, table: Bytes, lo: int, at: nat, symbol: ImportSymbol)
    requires TableAt(f, p, k, ctx.importRva, table) && ctx.format == p.format && 0 <= lo
    requires symbol.ordinal.Some? != symbol.name.Some?
    requires Tables.LookupAt(ctx, table, lo, at, symbol)
    ensures var v := ReadAt(table, at, p.format.PointerSize());
            v > 0 && v <= U64_MAX && ThunkValid(f, p, v)
            && (SymbolNulFree(symbol) ==> ReadSymbol(f, p, v) == Some(Kept(symbol)))
  {
    hide ReadAt, Has, StringAt, InSection, ReadString, ReadHint, Tables.HintNameAt, NulFree;
    var rva := ctx.importRva;
    var v := ReadAt(table, at, p.format.PointerSize());
    if symbol.ordinal.Some? {
      OrdinalEntry(p.format, symbol.ordinal.value);
    } else {
      var off: nat :| lo <= off && v == ctx.importRva as int + off && Tables.HintNameAt(table, off, symbol);
      NamedSymbolRead(f, p, k, rva, table, off, symbol);
      LowEntry(p.format, v);
    }
  }

  lemma NamedSymbolRead(f: Bytes, p: Layout, k: nat, rva: U32, table: Bytes, off: nat, symbol: ImportSymbol)
    requires TableAt(f, p, k, rva, table) && Tables.HintNameAt(table, off, symbol)
    ensures 0 < rva + off < LOW - 2 && InSection(p, rva + off, 3) && StringAt(f, p, rva + off + 2)
    ensures ReadHint(f, p, rva + off) == Some(symbol.hint)
    ensures NulFree(symbol.name.value) ==> ReadString(f, p, rva + off + 2) == Some(symbol.name.value)
  {
    hide ToRaw, StringAt, InSection, ReadString, Slice, Unsigned, NulFree, Sound;
    NameRead(f, p, k, rva, table, off + 2, symbol.name.value);
    TableRead(f, p, k, rva, table, off, 2);
    TableRead(f, p, k, rva, table, off, 3);
  }

  // ---- the lookup list of one module ----

  /** Everything module `m` needs is in the file. */
  ghost predicate ModuleInFile(f: Bytes, p: Layout, k: nat, ctx: Builder.Context, t: Builder.Tables, lo: nat, m: ImportModule,
                               intOff: nat)
  {
    TableAt(f, p, k, ctx.importRva, t.importBytes) && ctx.format == p.format && SlotsFound(p, ctx)
    && Builder.ModuleShapeValid(ctx, m) && ctx.importRva + intOff <= U32_MAX
    && (forall n :: 0 <= n < |m.symbols| ==>
          Tables.EntryStored(ctx, t, lo, intOff, m, n) && m.symbols[n].ordinal.Some? != m.symbols[n].name.Some?)
    && Fits(t.importBytes, Builder.EntryOffset(ctx, intOff, |m.symbols|), p.format.PointerSize())
    && ReadAt(t.importBytes, Builder.EntryOffset(ctx, intOff, |m.symbols|), p.format.PointerSize()) == 0
  }

  /** Every IAT slot the builder could patch lies in a section of the file. */
  ghost predicate SlotsFound(p: Layout, ctx: Builder.Context) {
    forall rva: U32 :: Builder.IatOffset(ctx.headers, rva, ctx.format.PointerSize()).Some? ==>
      InSection(p, rva, ctx.format.PointerSize())
  }

  /** Lookup entry `n` of the list at `lookup` can be walked and stands for symbol `n`. */
  ghost predicate EntrySeen(f: Bytes, p: Layout, lookup: U32, m: ImportModule, n: nat)
    requires n < |m.symbols|
  {
    var size := p.format.PointerSize();
    var v := ReadThunk(f, p, Wrap32(lookup + n * size));
    IndexFits(p.format, lookup, n) && IndexFits(p.format, m.firstThunk, n)
    && InSection(p, Wrap32(m.firstThunk + n * size), size)
    && v.Some? && v.value != 0 && ThunkValid(f, p, v.value)
    && (SymbolNulFree(m.symbols[n]) ==> ReadSymbol(f, p, v.value) == Some(Kept(m.symbols[n])))
  }

  lemma EntryRead(f: Bytes, p: Layout, k: nat, ctx: Builder.Context, t: Builder.Tables, lo: nat, m: ImportModule,
                  intOff: nat, n: nat)
    requires ModuleInFile(f, p, k, ctx, t, lo, m, intOff) && n < |m.symbols|
    ensures EntrySeen(f, p, ctx.importRva + intOff, m, n)
  {
    hide TableAt, Tables.LookupAt, ReadThunk, ThunkValid, ReadSymbol, InSection, SymbolNulFree, ReadAt, Builder.ModuleShapeValid,
      Builder.EntryOffset, Builder.SlotRva, Builder.IatOffset;
    var at := Builder.EntryOffset(ctx, intOff, n);
    assert Tables.EntryStored(ctx, t, lo, intOff, m, n);
    Tables.EntryOffsetIs(ctx, intOff, n);
    LookupFits(ctx, t.importBytes, lo, at, m.symbols[n]);
    ThunkRead(f, p, k, ctx.importRva, t.importBytes, at);
    SymbolRead(f, p, k, ctx, t.importBytes, lo, at, m.symbols[n]);
    Tables.SlotRvaIs(ctx, m, n);
    Tables.RvasInRange(ctx, m, n);
    MultipleFits(p.format, ctx.importRva + intOff, n);
    MultipleFits(p.format, m.firstThunk, n);
  }

  lemma LookupFits(ctx: Builder.Context, table: Bytes, lo: int, at: int, symbol: ImportSymbol)
    requires Tables.LookupAt(ctx, table, lo, at, symbol)
    ensures Fits(table, at, ctx.format.PointerSize())
  {
  }

  lemma MultipleFits(format: Format, rva: U32, n: nat)
    requires rva + n * format.PointerSize() <= U32_MAX
    ensures IndexFits(format, rva, n)
  {
    if format.Pe32? {
      assert n * 4 / 4 == n;
    } else {
      assert n * 8 / 8 == n;
    }
  }

  lemma TerminatorRead(f: Bytes, p: Layout, k: nat, ctx: Builder.Context, t: Builder.Tables, lo: nat, m: ImportModule, intOff: nat)
    requires ModuleInFile(f, p, k, ctx, t, lo, m, intOff)
    ensures var lookup, n := ctx.importRva + intOff, |m.symbols|;
            IndexFits(p.format, lookup, n) && n < U32_MAX
            && ReadThunk(f, p, Wrap32(lookup + n * p.format.PointerSize())) == Some(0)
  {
    hide TableAt, ReadThunk, ReadAt, Tables.EntryStored, Builder.EntryOffset, SlotsFound;
    var at := Builder.EntryOffset(ctx, intOff, |m.symbols|);
    Tables.EntryOffsetIs(ctx, intOff, |m.symbols|);
    ThunkRead(f, p, k, ctx.importRva, t.importBytes, at);
    MultipleFits(p.format, ctx.importRva + intOff, |m.symbols|);
  }

  /** The lookup list is accepted exactly when it is short enough. */
  lemma {:induction false} ThunksAccepted(f: Bytes, p: Layout, k: nat, ctx: Builder.Context, t: Builder.Tables, lo: nat,
                                          m: ImportModule, intOff: nat, index: nat)
    requires ModuleInFile(f, p, k, ctx, t, lo, m, intOff) && index <= |m.symbols|
    ensures ThunksValid(f, p, ctx.importRva + intOff, m.firstThunk, index) <==> |m.symbols| < MAXIMUM_SYMBOLS
    decreases |m.symbols| - index
  {
    hide ModuleInFile, ReadThunk, ThunkValid, InSection, IndexFits, SymbolNulFree, ReadSymbol, Kept;
    ModuleLookupFits(f, p, k, ctx, t, lo, m, intOff);
    if index < MAXIMUM_SYMBOLS {
      if index < |m.symbols| {
        EntryRead(f, p, k, ctx, t, lo, m, intOff, index);
        ThunksAccepted(f, p, k, ctx, t, lo, m, intOff, index + 1);
      } else {
        TerminatorRead(f, p, k, ctx, t, lo, m, intOff);
      }
    }
  }

  lemma ModuleLookupFits(f: Bytes, p: Layout, k: nat, ctx: Builder.Context, t: Builder.Tables, lo: nat, m: ImportModule, intOff: nat)
    requires ModuleInFile(f, p, k, ctx, t, lo, m, intOff)
    ensures ctx.importRva + intOff <= U32_MAX && 0 < ctx.importRva
  {
  }

  lemma {:induction false} SymbolsRead(f: Bytes, p: Layout, k: nat, ctx: Builder.Context, t: Builder.Tables, lo: nat,
                                       m: ImportModule, intOff: nat, index: nat)
    requires ModuleInFile(f, p, k, ctx, t, lo, m, intOff) && index <= |m.symbols|
    requires forall n :: 0 <= n < |m.symbols| ==> SymbolNulFree(m.symbols[n])
    ensures ReadSymbols(f, p, ctx.importRva + intOff, index) == Some(KeptSymbols(m.symbols)[index..])
    decreases |m.symbols| - index
  {
    hide ModuleInFile, ReadThunk, ThunkValid, InSection, IndexFits, SymbolNulFree, ReadSymbol, Kept;
    ModuleLookupFits(f, p, k, ctx, t, lo, m, intOff);
    TerminatorRead(f, p, k, ctx, t, lo, m, intOff);
    if index < |m.symbols| {
      EntryRead(f, p, k, ctx, t, lo, m, intOff, index);
      SymbolsRead(f, p, k, ctx, t, lo, m, intOff, index + 1);
      assert [Kept(m.symbols[index])] + KeptSymbols(m.symbols)[index + 1..] == KeptSymbols(m.symbols)[index..];
    } else {
      assert KeptSymbols(m.symbols)[index..] == [];
    }
  }

  // ---- descriptors ----

  lemma DescriptorRead(f: Bytes, p: Layout, k: nat, rva: U32, table: Bytes, at: nat, lookup: U32, name: U32, firstThunk: U32)
    requires TableAt(f, p, k, rva, table) && at + DESCRIPTOR_SIZE <= |table|
    requires Slice(table, at, DESCRIPTOR_SIZE) == Builder.DescriptorBytes(lookup, name, firstThunk)
    ensures rva + at <= U32_MAX
    ensures ReadDescriptor(f, p, rva + at) == Some(Descriptor(lookup, name, firstThunk))
  {
    hide TableAt, ToRaw, Unpack, Pack, Slice;
    TableRead(f, p, k, rva, table, at, DESCRIPTOR_SIZE);
    DescriptorFits(lookup, name, firstThunk);
    DescriptorSize();
    var fields: seq<nat> := [lookup, 0, 0, name, firstThunk];
    UnpackOfPack(DESCRIPTOR_WIDTHS, fields);
    var raw := p.sections[k].rawOffset + at;
    assert Unpack(DESCRIPTOR_WIDTHS, Slice(f, raw, DESCRIPTOR_SIZE)) == fields;
  }

  lemma DescriptorFits(lookup: U32, name: U32, firstThunk: U32)
    ensures FieldsFit(DESCRIPTOR_WIDTHS, [lookup, 0, 0, name, firstThunk])
    ensures var fields: seq<nat> := [lookup, 0, 0, name, firstThunk];
            fields[0] == lookup && fields[3] == name && fields[4] == firstThunk
  {
    Powers();
  }

  lemma {:induction false} LittleEndianOfZero(width: nat)
    ensures LittleEndian(0, width) == Zeros(width)
  {
    if width > 0 {
      LittleEndianOfZero(width - 1);
    }
  }

  lemma ZeroDescriptor(s: Bytes)
    requires |s| == DESCRIPTOR_SIZE && forall j :: 0 <= j < |s| ==> s[j] == 0
    ensures s == Builder.DescriptorBytes(0, 0, 0)
  {
    hide Unpack, Pack, LittleEndian;
    LittleEndianOfZero(4);
    var w, z: seq<nat> := DESCRIPTOR_WIDTHS, [0, 0, 0, 0, 0];
    DescriptorSize();
    PackedZeros(w, z, s);
  }

  lemma {:induction false} PackedZeros(widths: seq<nat>, fields: seq<nat>, s: Bytes)
    requires |widths| == |fields| && |s| == Size(widths)
    requires (forall k :: 0 <= k < |fields| ==> fields[k] == 0) && forall j :: 0 <= j < |s| ==> s[j] == 0
    ensures Pack(widths, fields) == s
  {
    if widths != [] {
      LittleEndianOfZero(widths[0]);
      PackedZeros(widths[1..], fields[1..], s[widths[0]..]);
      assert s == s[..widths[0]] + s[widths[0]..];
    }
  }

  // ---- the whole table ----

  /** The file holds the finished table of the plan at section `k`. */
  ghost predicate PlanInFile(f: Bytes, p: Layout, k: nat, ctx: Builder.Context, done: Builder.Progress, plan: ImportPlan) {
    TableAt(f, p, k, ctx.importRva, done.tables.importBytes) && ctx.format == p.format && SlotsFound(p, ctx)
    && (forall rva: U32 :: Builder.IatOffset(ctx.headers, rva, ctx.format.PointerSize()).Some? ==> rva > 0)
    && Tables.PlanStored(ctx, done, plan, |plan.modules|)
    && (forall i, n :: 0 <= i < |plan.modules| && 0 <= n < |plan.modules[i].symbols| ==>
          plan.modules[i].symbols[n].ordinal.Some? != plan.modules[i].symbols[n].name.Some?)
    && p.directories[IMPORT_DIRECTORY] == Directory(ctx.importRva, Tables.TableSize(plan))
  }

  ghost predicate Short(m: ImportModule) {
    |m.symbols| < MAXIMUM_SYMBOLS
  }

  lemma ModuleRead(f: Bytes, p: Layout, k: nat, ctx: Builder.Context, done: Builder.Progress, plan: ImportPlan, i: nat)
    returns (d: Descriptor)
    requires PlanInFile(f, p, k, ctx, done, plan) && i < |plan.modules|
    ensures ctx.importRva + i * DESCRIPTOR_SIZE <= U32_MAX
    ensures ReadDescriptor(f, p, ctx.importRva + i * DESCRIPTOR_SIZE) == Some(d) && d != Descriptor(0, 0, 0)
    ensures DescriptorValid(f, p, d) <==> Short(plan.modules[i])
    ensures NulFree(plan.modules[i].moduleName)
            && (forall n :: 0 <= n < |plan.modules[i].symbols| ==> SymbolNulFree(plan.modules[i].symbols[n]))
            ==> ReadModule(f, p, d) == Some(KeptModule(plan.modules[i]))
  {
    hide TableAt, Tables.EntryStored, Builder.EntryOffset, Tables.NameAt, ReadDescriptor, InSection, StringAt, ThunksValid,
      SymbolNulFree, NulFree, ReadString, ReadSymbols, Builder.IatOffset, Builder.DescriptorBytes, Slice, ReadAt, Kept;
    var m, t, lo := plan.modules[i], done.tables, Tables.TableSize(plan);
    assert Tables.IsStored(ctx, t, lo, i, m);
    var intOff, nameOff :| Tables.ModuleStored(ctx, t, lo, i, m, intOff, nameOff);
    StoredInFile(f, p, k, ctx, done, plan, i, intOff, nameOff);
    DescriptorRead(f, p, k, ctx.importRva, t.importBytes, i * DESCRIPTOR_SIZE, ctx.importRva + intOff,
                   ctx.importRva + nameOff, m.firstThunk);
    d := Descriptor(ctx.importRva + intOff, ctx.importRva + nameOff, m.firstThunk);
    ModuleLookupFits(f, p, k, ctx, t, lo, m, intOff);
    NameRead(f, p, k, ctx.importRva, t.importBytes, nameOff, m.moduleName);
    ThunksAccepted(f, p, k, ctx, t, lo, m, intOff, 0);
    FirstSlots(f, p, k, ctx, t, lo, m, intOff);
    if forall n :: 0 <= n < |m.symbols| ==> SymbolNulFree(m.symbols[n]) {
      SymbolsRead(f, p, k, ctx, t, lo, m, intOff, 0);
      assert KeptSymbols(m.symbols)[0..] == KeptSymbols(m.symbols);
    }
  }

  lemma StoredInFile(f: Bytes, p: Layout, k: nat, ctx: Builder.Context, done: Builder.Progress, plan: ImportPlan, i: nat,
                     intOff: nat, nameOff: nat)
    requires PlanInFile(f, p, k, ctx, done, plan) && i < |plan.modules|
    requires Tables.ModuleStored(ctx, done.tables, Tables.TableSize(plan), i, plan.modules[i], intOff, nameOff)
    ensures ModuleInFile(f, p, k, ctx, done.tables, Tables.TableSize(plan), plan.modules[i], intOff)
    ensures plan.modules[i].firstThunk > 0
  {
    hide TableAt, Builder.EntryOffset, Tables.NameAt, Builder.DescriptorBytes, Slice, ReadAt, SlotsFound, Tables.LookupAt,
      Builder.IatOffset, Builder.SlotRva;
    var m := plan.modules[i];
    assert Tables.EntryStored(ctx, done.tables, Tables.TableSize(plan), intOff, m, 0);
    Tables.RvasInRange(ctx, m, 0);
  }

  /** The first lookup entry and the first IAT slot lie in sections. */
  lemma FirstSlots(f: Bytes, p: Layout, k: nat, ctx: Builder.Context, t: Builder.Tables, lo: nat, m: ImportModule, intOff: nat)
    requires ModuleInFile(f, p, k, ctx, t, lo, m, intOff)
    ensures InSection(p, ctx.importRva + intOff, p.format.PointerSize())
    ensures InSection(p, m.firstThunk, p.format.PointerSize())
  {
    hide TableAt, InSection, Tables.EntryStored, Builder.EntryOffset, ReadAt, SlotsFound;
    Tables.EntryOffsetIs(ctx, intOff, |m.symbols|);
    EntryRead(f, p, k, ctx, t, lo, m, intOff, 0);
    TableRead(f, p, k, ctx.importRva, t.importBytes, intOff, p.format.PointerSize());
  }

  lemma EndRead(f: Bytes, p: Layout, k: nat, ctx: Builder.Context, done: Builder.Progress, plan: ImportPlan)
    requires PlanInFile(f, p, k, ctx, done, plan)
    ensures ctx.importRva + |plan.modules| * DESCRIPTOR_SIZE <= U32_MAX
    ensures ReadDescriptor(f, p, ctx.importRva + |plan.modules| * DESCRIPTOR_SIZE) == Some(Descriptor(0, 0, 0))
  {
    hide TableAt, Builder.DescriptorBytes, SlotsFound, Tables.IsStored, Builder.IatOffset, ReadDescriptor;
    var table, at := done.tables.importBytes, |plan.modules| * DESCRIPTOR_SIZE;
    ZeroDescriptor(Slice(table, at, DESCRIPTOR_SIZE));
    DescriptorRead(f, p, k, ctx.importRva, table, at, 0, 0, 0);
  }

  /** The descriptor walk accepts the table exactly when every list is short enough. */
  lemma {:induction false} DescriptorsAccepted(f: Bytes, p: Layout, k: nat, ctx: Builder.Context, done: Builder.Progress,
                                               plan: ImportPlan, i: nat)
    requires PlanInFile(f, p, k, ctx, done, plan) && i <= |plan.modules|
    ensures DescriptorsValid(f, p, p.directories[IMPORT_DIRECTORY], i * DESCRIPTOR_SIZE)
            <==> forall j :: i <= j < |plan.modules| ==> Short(plan.modules[j])
    decreases |plan.modules| - i
  {
    hide PlanInFile, ReadDescriptor, DescriptorValid, Short, KeptModule, ReadModule, NulFree, SymbolNulFree;
    DirectoryIs(f, p, k, ctx, done, plan);
    EndRead(f, p, k, ctx, done, plan);
    if i < |plan.modules| {
      var d := ModuleRead(f, p, k, ctx, done, plan, i);
      DescriptorsAccepted(f, p, k, ctx, done, plan, i + 1);
    }
  }

  lemma DirectoryIs(f: Bytes, p: Layout, k: nat, ctx: Builder.Context, done: Builder.Progress, plan: ImportPlan)
    requires PlanInFile(f, p, k, ctx, done, plan)
    ensures p.directories[IMPORT_DIRECTORY] == Directory(ctx.importRva, (|plan.modules| + 1) * DESCRIPTOR_SIZE)
    ensures ctx.importRva > 0 && InSection(p, ctx.importRva, (|plan.modules| + 1) * DESCRIPTOR_SIZE)
  {
    hide InSection, SlotsFound, Tables.IsStored, Builder.IatOffset, Sound;
    TableRead(f, p, k, ctx.importRva, done.tables.importBytes, 0, (|plan.modules| + 1) * DESCRIPTOR_SIZE);
  }

  lemma {:induction false} ModulesRead(f: Bytes, p: Layout, k: nat, ctx: Builder.Context, done: Builder.Progress,
                                       plan: ImportPlan, i: nat)
    requires PlanInFile(f, p, k, ctx, done, plan) && i <= |plan.modules| && PlanNulFree(plan)
    ensures ReadModules(f, p, p.directories[IMPORT_DIRECTORY], i * DESCRIPTOR_SIZE) == Some(KeptModules(plan.modules)[i..])
    decreases |plan.modules| - i
  {
    hide PlanInFile, ReadDescriptor, DescriptorValid, Short, KeptModule, ReadModule, NulFree, SymbolNulFree;
    DirectoryIs(f, p, k, ctx, done, plan);
    EndRead(f, p, k, ctx, done, plan);
    if i < |plan.modules| {
      var d := ModuleRead(f, p, k, ctx, done, plan, i);
      ModulesRead(f, p, k, ctx, done, plan, i + 1);
      assert [KeptModule(plan.modules[i])] + KeptModules(plan.modules)[i + 1..] == KeptModules(plan.modules)[i..];
    } else {
      assert KeptModules(plan.modules)[i..] == [];
    }
  }

  /** The validator's verdict on a written table. */
  lemma TableAccepted(f: Bytes, p: Layout, k: nat, ctx: Builder.Context, done: Builder.Progress, plan: ImportPlan)
    requires PlanInFile(f, p, k, ctx, done, plan)
    requires p.directories[DELAY_IMPORT_DIRECTORY] == NO_DIRECTORY
    requires p.directories[BOUND_IMPORT_DIRECTORY] == NO_DIRECTORY
    requires var iat := p.directories[IAT_DIRECTORY]; iat != NO_DIRECTORY
    ensures var iat := p.directories[IAT_DIRECTORY];
            Valid(f, p) <==> InSection(p, iat.address, iat.size) && forall j :: 0 <= j < |plan.modules| ==> Short(plan.modules[j])
  {
    hide PlanInFile, DescriptorsValid, InSection, Short;
    DirectoryIs(f, p, k, ctx, done, plan);
    DescriptorsAccepted(f, p, k, ctx, done, plan, 0);
  }

  lemma PlanReadBack(f: Bytes, p: Layout, k: nat, ctx: Builder.Context, done: Builder.Progress, plan: ImportPlan)
    requires PlanInFile(f, p, k, ctx, done, plan) && PlanNulFree(plan)
    ensures ReadPlan(f, p) == Some(ImportPlan(KeptModules(plan.modules)))
  {
    hide PlanInFile, PlanNulFree;
    ModulesRead(f, p, k, ctx, done, plan, 0);
    var kept := KeptModules(plan.modules);
    assert kept[0..] == kept && 0 * DESCRIPTOR_SIZE == 0;
    assert ReadModules(f, p, p.directories[IMPORT_DIRECTORY], 0) == Some(kept);
  }
}
