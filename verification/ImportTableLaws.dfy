/** What the import table builder leaves behind: every descriptor, name, lookup
    entry and IAT slot of the plan can be found again. */
module ImportTableLaws {
  import opened Bytes
  import opened Structs
  import opened PeFormat
  import opened ImportTypes
  import opened ImportTableBuilder

  /** Sections in address and file order, each held entirely in the file, within 32 bits. */
  ghost predicate WellPlaced(headers: seq<Section>) {
    (forall i :: 0 <= i < |headers| ==>
       headers[i].virtualSize <= headers[i].rawSize
       && headers[i].virtualAddress + headers[i].rawSize <= U32_MAX
       && headers[i].rawOffset + headers[i].rawSize <= U32_MAX)
    && (forall i, j :: 0 <= i < j < |headers| ==>
          headers[i].virtualAddress + headers[i].rawSize <= headers[j].virtualAddress
          && headers[i].rawOffset + headers[i].rawSize <= headers[j].rawOffset)
  }

  ghost predicate Holds(s: Section, rva: int, size: nat) {
    s.virtualAddress <= rva && rva + size <= s.virtualAddress + s.virtualSize
  }

  lemma WellPlacedTail(headers: seq<Section>)
    requires WellPlaced(headers) && headers != []
    ensures WellPlaced(headers[1..])
    ensures headers[0].virtualSize <= headers[0].rawSize
    ensures headers[0].virtualAddress + headers[0].rawSize <= U32_MAX
    ensures headers[0].rawOffset + headers[0].rawSize <= U32_MAX
    ensures forall j :: 0 < j < |headers| ==>
      headers[0].virtualAddress + headers[0].rawSize <= headers[j].virtualAddress
  {
  }

  lemma {:induction false} SlotSection(headers: seq<Section>, rva: U32, size: nat) returns (k: nat)
    requires WellPlaced(headers) && IatOffset(headers, rva, size).Some?
    ensures k < |headers| && Holds(headers[k], rva, size)
    ensures IatOffset(headers, rva, size).value == headers[k].rawOffset + (rva - headers[k].virtualAddress)
  {
    hide WellPlaced;
    var s := headers[0];
    WellPlacedTail(headers);
    if s.virtualAddress <= rva && rva + size <= s.virtualAddress + s.virtualSize {
      k := 0;
    } else {
      k := SlotSection(headers[1..], rva, size);
      k := k + 1;
    }
  }

  /** Slots that do not share an address do not share a file byte. */
  lemma SlotsApart(headers: seq<Section>, a: U32, b: U32, size: nat)
    requires WellPlaced(headers) && IatOffset(headers, a, size).Some? && IatOffset(headers, b, size).Some?
    requires a + size <= b || b + size <= a
    ensures var x, y := IatOffset(headers, a, size).value, IatOffset(headers, b, size).value;
            x + size <= y || y + size <= x
  {
    var i := SlotSection(headers, a, size);
    var j := SlotSection(headers, b, size);
    if i < j {
      assert headers[i].rawOffset + headers[i].rawSize <= headers[j].rawOffset;
    } else if j < i {
      assert headers[j].rawOffset + headers[j].rawSize <= headers[i].rawOffset;
    }
  }

  // ---- what is stored ----

  ghost predicate NameAt(b: Bytes, at: int, name: Bytes) {
    Fits(b, at, |name| + 1) && Slice(b, at, |name|) == name && b[at + |name|] == 0
  }

  ghost predicate HintNameAt(b: Bytes, at: int, symbol: ImportSymbol) {
    symbol.name.Some? && Fits(b, at, 2) && ReadAt(b, at, 2) == symbol.hint && NameAt(b, at + 2, symbol.name.value)
  }

  /** The lookup entry at `at` describes the symbol; its name, if any, lies at `lo` or later. */
  ghost predicate LookupAt(ctx: Context, b: Bytes, lo: int, at: int, symbol: ImportSymbol) {
    var size := ctx.format.PointerSize();
    Fits(b, at, size)
    && if symbol.ordinal.Some?
       then ReadAt(b, at, size) == ctx.format.OrdinalFlag() + symbol.ordinal.value
       else exists off :: lo <= off && ReadAt(b, at, size) == ctx.importRva + off && HintNameAt(b, off, symbol)
  }

  /** The IAT slot at `rva` holds `value`. */
  ghost predicate IatHolds(ctx: Context, image: Bytes, rva: U32, value: int) {
    var size := ctx.format.PointerSize();
    var o := IatOffset(ctx.headers, rva, size);
    o.Some? && Fits(image, o.value, size) && ReadAt(image, o.value, size) == value
  }

  ghost predicate SlotCovers(ctx: Context, rva: U32, p: int) {
    var o := IatOffset(ctx.headers, rva, ctx.format.PointerSize());
    o.Some? && o.value <= p < o.value + ctx.format.PointerSize()
  }

  /** The two buffers agree from `lo` to the end of the first. */
  ghost predicate AgreeFrom(a: Bytes, b: Bytes, lo: int) {
    |a| <= |b| && forall j :: lo <= j < |a| && 0 <= j ==> b[j] == a[j]
  }

  lemma NameKept(a: Bytes, b: Bytes, lo: int, at: int, name: Bytes)
    requires AgreeFrom(a, b, lo) && lo <= at && NameAt(a, at, name)
    ensures NameAt(b, at, name)
  {
    assert Slice(b, at, |name|) == Slice(a, at, |name|);
  }

  lemma LookupKept(ctx: Context, a: Bytes, b: Bytes, lo: int, at: int, symbol: ImportSymbol)
    requires AgreeFrom(a, b, lo) && LookupAt(ctx, a, lo, at, symbol)
    requires SameRange(a, b, at, ctx.format.PointerSize())
    ensures LookupAt(ctx, b, lo, at, symbol)
    ensures ReadAt(b, at, ctx.format.PointerSize()) == ReadAt(a, at, ctx.format.PointerSize())
  {
    hide NameAt, ReadAt, AgreeFrom;
    var size := ctx.format.PointerSize();
    SameRangeRead(a, b, at, size);
    if symbol.ordinal.None? {
      var off :| lo <= off && ReadAt(a, at, size) == ctx.importRva + off && HintNameAt(a, off, symbol);
      HintKept(a, b, lo, off, symbol);
    }
  }

  lemma HintKept(a: Bytes, b: Bytes, lo: int, at: int, symbol: ImportSymbol)
    requires AgreeFrom(a, b, lo) && lo <= at && HintNameAt(a, at, symbol)
    ensures HintNameAt(b, at, symbol)
  {
    SameRangeRead(a, b, at, 2);
    NameKept(a, b, lo, at + 2, symbol.name.value);
  }

  lemma LookupWeaken(ctx: Context, b: Bytes, lo: int, lo': int, at: int, symbol: ImportSymbol)
    requires LookupAt(ctx, b, lo, at, symbol) && lo' <= lo
    ensures LookupAt(ctx, b, lo', at, symbol)
  {
  }

  // ---- one symbol ----

  lemma PointerRoundTrip(format: Format, value: nat)
    requires value < format.Modulus()
    ensures Unsigned(LittleEndian(value, format.PointerSize())) == value
  {
    hide LittleEndian, Unsigned;
    PointerRange(format);
    UnsignedOfLittleEndian(value, format.PointerSize());
  }

  lemma ThunkFits(ctx: Context, b: Bytes, symbol: ImportSymbol)
    requires symbol.name.Some? || symbol.ordinal.Some?
    ensures SymbolThunk(ctx, b, symbol) < ctx.format.Modulus()
  {
    hide PadTo;
  }

  /** A stored hint and name can be read back. */
  lemma HintNameStored(b: Bytes, symbol: ImportSymbol)
    requires symbol.name.Some?
    ensures |b| <= |PadTo(b, 2)| && HintNameAt(SymbolBytes(b, symbol), |PadTo(b, 2)|, symbol)
  {
    hide PadTo, LittleEndian, Unsigned;
    Powers();
    UnsignedOfLittleEndian(symbol.hint, 2);
    var padded, hint, name := PadTo(b, 2), LittleEndian(symbol.hint, 2), symbol.name.value;
    var r := SymbolBytes(b, symbol);
    assert r == padded + (hint + name + [0]);
    assert Slice(r, |padded|, 2) == hint;
    assert Slice(r, |padded| + 2, |name|) == name;
  }

  lemma SymbolStored(ctx: Context, t: Tables, at: nat, rva: U32, symbol: ImportSymbol)
    requires AddSymbol(ctx, t, at, rva, symbol).Ok?
    requires Fits(t.importBytes, at, ctx.format.PointerSize())
    requires ctx.importRva + |AddSymbol(ctx, t, at, rva, symbol).value.importBytes| <= U32_MAX
    ensures var r, size := AddSymbol(ctx, t, at, rva, symbol).value, ctx.format.PointerSize();
            |t.importBytes| <= |r.importBytes|
            && (forall j :: 0 <= j < |t.importBytes| && !(at <= j < at + size) ==> r.importBytes[j] == t.importBytes[j])
            && LookupAt(ctx, r.importBytes, |t.importBytes|, at, symbol)
            && IatHolds(ctx, r.image, rva, ReadAt(r.importBytes, at, size))
  {
    hide PadTo, LittleEndian, Unsigned, SymbolBytes, IatOffset, HintNameAt, Patch;
    var size := ctx.format.PointerSize();
    var thunk := SymbolThunk(ctx, t.importBytes, symbol);
    var bytes := SymbolBytes(t.importBytes, symbol);
    var le := LittleEndian(thunk, size);
    ThunkFits(ctx, t.importBytes, symbol);
    PointerRoundTrip(ctx.format, thunk);
    PatchRead(bytes, at, le);
    PrefixKept(t.importBytes, bytes, at, le);
    var o := IatOffset(ctx.headers, rva, size).value;
    PatchRead(t.image, o, le);
    if symbol.ordinal.None? {
      var off := |PadTo(t.importBytes, 2)|;
      HintNameStored(t.importBytes, symbol);
      HintBounds(bytes, off, symbol);
      HintKept(bytes, Patch(bytes, at, le), |t.importBytes|, off, symbol);
    }
  }

  lemma HintBounds(b: Bytes, at: int, symbol: ImportSymbol)
    requires HintNameAt(b, at, symbol)
    ensures 0 <= at <= |b|
  {
  }

  lemma PrefixKept(a: Bytes, b: Bytes, at: nat, s: Bytes)
    requires |a| <= |b| && b[..|a|] == a && at + |s| <= |a|
    ensures forall j :: 0 <= j < |a| && !(at <= j < at + |s|) ==> Patch(b, at, s)[j] == a[j]
    ensures AgreeFrom(b, Patch(b, at, s), |a|)
  {
    assert forall j :: 0 <= j < |a| ==> b[j] == b[..|a|][j];
  }

  lemma SymbolFrame(ctx: Context, t: Tables, at: nat, rva: U32, symbol: ImportSymbol, p: nat)
    requires AddSymbol(ctx, t, at, rva, symbol).Ok?
    requires p < |t.image| && !SlotCovers(ctx, rva, p)
    ensures |AddSymbol(ctx, t, at, rva, symbol).value.image| == |t.image|
    ensures AddSymbol(ctx, t, at, rva, symbol).value.image[p] == t.image[p]
  {
    hide SymbolBytes, SymbolThunk, LittleEndian, IatOffset;
  }

  /** An IAT slot elsewhere keeps its value. */
  lemma OtherSlotKept(ctx: Context, t: Tables, at: nat, rva: U32, symbol: ImportSymbol, other: U32, value: int)
    requires WellPlaced(ctx.headers) && AddSymbol(ctx, t, at, rva, symbol).Ok?
    requires IatHolds(ctx, t.image, other, value)
    requires other + ctx.format.PointerSize() <= rva || rva + ctx.format.PointerSize() <= other
    ensures IatHolds(ctx, AddSymbol(ctx, t, at, rva, symbol).value.image, other, value)
  {
    hide SymbolBytes, SymbolThunk, LittleEndian, IatOffset, WellPlaced, ReadAt, Patch;
    var size := ctx.format.PointerSize();
    var o := IatOffset(ctx.headers, rva, size).value;
    SlotsApart(ctx.headers, rva, other, size);
    PatchElsewhere(t.image, o, LittleEndian(SymbolThunk(ctx, t.importBytes, symbol), size),
                   IatOffset(ctx.headers, other, size).value, size);
  }

  // ---- one module ----

  /** Symbol `k` is described by its lookup entry and its IAT slot holds the same value. */
  ghost predicate EntryStored(ctx: Context, t: Tables, lo: int, intOffset: nat, m: ImportModule, k: nat) {
    k < |m.symbols|
    && LookupAt(ctx, t.importBytes, lo, EntryOffset(ctx, intOffset, k), m.symbols[k])
    && IatHolds(ctx, t.image, SlotRva(ctx, m, k),
                ReadAt(t.importBytes, EntryOffset(ctx, intOffset, k), ctx.format.PointerSize()))
  }

  /** File byte `p` belongs to one of the module's first `n` IAT slots. */
  ghost predicate ModuleCovers(ctx: Context, m: ImportModule, n: nat, p: int) {
    exists k :: 0 <= k < n && SlotCovers(ctx, SlotRva(ctx, m, k), p)
  }

  lemma EntriesApart(ctx: Context, base: nat, k: nat, k': nat)
    requires k < k'
    ensures EntryOffset(ctx, base, k) + ctx.format.PointerSize() <= EntryOffset(ctx, base, k')
  {
  }

  lemma RvasInRange(ctx: Context, m: ImportModule, k: nat)
    requires ModuleShapeValid(ctx, m) && k < |m.symbols|
    ensures SlotRva(ctx, m, k) == m.firstThunk + k * ctx.format.PointerSize()
    ensures RangeOf(ctx, m).begin <= SlotRva(ctx, m, k)
    ensures SlotRva(ctx, m, k) + ctx.format.PointerSize() <= RangeOf(ctx, m).end
  {
  }

  lemma RvasApart(ctx: Context, m: ImportModule, k: nat, k': nat)
    requires ModuleShapeValid(ctx, m) && k < k' < |m.symbols|
    ensures SlotRva(ctx, m, k) + ctx.format.PointerSize() <= SlotRva(ctx, m, k')
  {
    RvasInRange(ctx, m, k);
    RvasInRange(ctx, m, k');
  }

  /** The table only grows, and within its old part only the lookup entries change. */
  ghost predicate OnlyEntries(a: Bytes, b: Bytes, from: int, to: int) {
    |a| <= |b| && forall j :: 0 <= j < |a| && !(from <= j < to) ==> b[j] == a[j]
  }

  lemma {:induction false} SymbolsStored(ctx: Context, t: Tables, intOffset: nat, m: ImportModule, n: nat)
    requires WellPlaced(ctx.headers) && ModuleShapeValid(ctx, m) && n <= |m.symbols|
    requires AddSymbols(ctx, t, intOffset, m, n).Ok?
    requires EntryOffset(ctx, intOffset, |m.symbols|) <= |t.importBytes|
    requires ctx.importRva + |AddSymbols(ctx, t, intOffset, m, n).value.importBytes| <= U32_MAX
    ensures var r := AddSymbols(ctx, t, intOffset, m, n).value;
            OnlyEntries(t.importBytes, r.importBytes, intOffset, EntryOffset(ctx, intOffset, n))
            && forall k :: 0 <= k < n ==> EntryStored(ctx, r, |t.importBytes|, intOffset, m, k)
  {
    hide AddSymbol, LookupAt, IatHolds, WellPlaced, ModuleShapeValid, EntryOffset, SlotRva, ReadAt;
    if n > 0 {
      var size := ctx.format.PointerSize();
      var before := AddSymbols(ctx, t, intOffset, m, n - 1).value;
      var r := AddSymbols(ctx, t, intOffset, m, n).value;
      var at := EntryOffset(ctx, intOffset, n - 1);
      EntryOffsetIs(ctx, intOffset, n - 1);
      EntryOffsetIs(ctx, intOffset, n);
      EntryOffsetIs(ctx, intOffset, |m.symbols|);
      EntriesApart(ctx, intOffset, n - 1, n);
      if n < |m.symbols| {
        EntriesApart(ctx, intOffset, n, |m.symbols|);
      }
      SlotRvaIs(ctx, m, n - 1);
      SymbolGrows(ctx, before, at, SlotRva(ctx, m, n - 1), m.symbols[n - 1]);
      SymbolsStored(ctx, t, intOffset, m, n - 1);
      SymbolStored(ctx, before, at, SlotRva(ctx, m, n - 1), m.symbols[n - 1]);
      LookupWeaken(ctx, r.importBytes, |before.importBytes|, |t.importBytes|, at, m.symbols[n - 1]);
      forall k | 0 <= k < n - 1 ensures EntryStored(ctx, r, |t.importBytes|, intOffset, m, k) {
        EntryKept(ctx, t, before, intOffset, m, n - 1, k);
      }
    }
  }

  lemma EntryOffsetIs(ctx: Context, base: nat, k: nat)
    ensures EntryOffset(ctx, base, k) == base + k * ctx.format.PointerSize() >= base
  {
  }

  lemma SlotRvaIs(ctx: Context, m: ImportModule, k: nat)
    ensures SlotRva(ctx, m, k) == Wrap32(m.firstThunk + k * ctx.format.PointerSize())
  {
  }

  lemma SymbolGrows(ctx: Context, t: Tables, at: nat, rva: U32, symbol: ImportSymbol)
    requires AddSymbol(ctx, t, at, rva, symbol).Ok?
    ensures |t.importBytes| <= |AddSymbol(ctx, t, at, rva, symbol).value.importBytes|
  {
    hide PadTo, SymbolThunk, PatchIat;
  }

  /** Writing symbol `n` keeps what an earlier symbol `k` stored. */
  lemma EntryKept(ctx: Context, t: Tables, before: Tables, intOffset: nat, m: ImportModule, n: nat, k: nat)
    requires WellPlaced(ctx.headers) && ModuleShapeValid(ctx, m) && k < n < |m.symbols|
    requires |t.importBytes| <= |before.importBytes|
    requires EntryOffset(ctx, intOffset, |m.symbols|) <= |t.importBytes|
    requires EntryStored(ctx, before, |t.importBytes|, intOffset, m, k)
    requires AddSymbol(ctx, before, EntryOffset(ctx, intOffset, n), SlotRva(ctx, m, n), m.symbols[n]).Ok?
    requires var r := AddSymbol(ctx, before, EntryOffset(ctx, intOffset, n), SlotRva(ctx, m, n), m.symbols[n]).value;
             OnlyEntries(before.importBytes, r.importBytes, EntryOffset(ctx, intOffset, n),
                         EntryOffset(ctx, intOffset, n) + ctx.format.PointerSize())
    ensures var r := AddSymbol(ctx, before, EntryOffset(ctx, intOffset, n), SlotRva(ctx, m, n), m.symbols[n]).value;
            EntryStored(ctx, r, |t.importBytes|, intOffset, m, k)
  {
    hide AddSymbol, LookupAt, IatHolds, WellPlaced, ModuleShapeValid, EntryOffset, SlotRva, ReadAt;
    var r := AddSymbol(ctx, before, EntryOffset(ctx, intOffset, n), SlotRva(ctx, m, n), m.symbols[n]).value;
    var at := EntryOffset(ctx, intOffset, k);
    EntryOffsetIs(ctx, intOffset, k);
    EntriesApart(ctx, intOffset, k, n);
    EntriesApart(ctx, intOffset, n, |m.symbols|);
    LookupKept(ctx, before.importBytes, r.importBytes, |t.importBytes|, at, m.symbols[k]);
    RvasApart(ctx, m, k, n);
    OtherSlotKept(ctx, before, EntryOffset(ctx, intOffset, n), SlotRva(ctx, m, n), m.symbols[n], SlotRva(ctx, m, k),
                  ReadAt(before.importBytes, at, ctx.format.PointerSize()));
  }

  lemma {:induction false} SymbolsFrame(ctx: Context, t: Tables, intOffset: nat, m: ImportModule, n: nat, p: nat)
    requires n <= |m.symbols| && AddSymbols(ctx, t, intOffset, m, n).Ok?
    requires p < |t.image| && !ModuleCovers(ctx, m, n, p)
    ensures |AddSymbols(ctx, t, intOffset, m, n).value.image| == |t.image|
    ensures AddSymbols(ctx, t, intOffset, m, n).value.image[p] == t.image[p]
  {
    hide AddSymbol, SlotCovers;
    if n > 0 {
      var before := AddSymbols(ctx, t, intOffset, m, n - 1).value;
      SymbolsFrame(ctx, t, intOffset, m, n - 1, p);
      EntryOffsetIs(ctx, intOffset, n - 1);
      assert !SlotCovers(ctx, SlotRva(ctx, m, n - 1), p);
      SymbolFrame(ctx, before, EntryOffset(ctx, intOffset, n - 1), SlotRva(ctx, m, n - 1), m.symbols[n - 1], p);
    }
  }

  ghost predicate ModuleStored(ctx: Context, t: Tables, lo: nat, i: nat, m: ImportModule, intOff: nat, nameOff: nat) {
    var size := ctx.format.PointerSize();
    lo <= intOff && lo <= nameOff && i * DESCRIPTOR_SIZE + DESCRIPTOR_SIZE <= lo
    && ctx.importRva + intOff <= U32_MAX && ctx.importRva + nameOff <= U32_MAX
    && Fits(t.importBytes, i * DESCRIPTOR_SIZE, DESCRIPTOR_SIZE)
    && Slice(t.importBytes, i * DESCRIPTOR_SIZE, DESCRIPTOR_SIZE)
       == DescriptorBytes(ctx.importRva + intOff, ctx.importRva + nameOff, m.firstThunk)
    && NameAt(t.importBytes, nameOff, m.moduleName)
    && (forall k :: 0 <= k < |m.symbols| ==> EntryStored(ctx, t, lo, intOff, m, k))
    && Fits(t.importBytes, EntryOffset(ctx, intOff, |m.symbols|), size)
    && ReadAt(t.importBytes, EntryOffset(ctx, intOff, |m.symbols|), size) == 0
  }

  lemma LookupRoom(ctx: Context, b: Bytes, m: ImportModule)
    ensures var intOffset, lookup := |PadTo(b, ctx.format.PointerSize())|, WithLookup(ctx, b, m);
            |b| <= intOffset <= |lookup|
            && EntryOffset(ctx, intOffset, |m.symbols|) + ctx.format.PointerSize() == |lookup|
            && (forall j :: 0 <= j < |b| ==> lookup[j] == b[j])
            && (forall j :: intOffset <= j < |lookup| ==> lookup[j] == 0)
  {
    var size := ctx.format.PointerSize();
    var padded := PadTo(b, size);
    assert (|m.symbols| + 1) * size == |m.symbols| * size + size;
    assert forall j :: 0 <= j < |b| ==> padded[j] == padded[..|b|][j];
  }

  lemma AppendedName(b: Bytes, name: Bytes)
    ensures NameAt(b + (name + [0]), |b|, name)
  {
    assert Slice(b + (name + [0]), |b|, |name|) == name;
  }

  /** Everything a freshly added module needs is in the table. */
  lemma ModuleIsStored(ctx: Context, p: Progress, i: nat, m: ImportModule, lo: nat) returns (intOff: nat, nameOff: nat)
    requires WellPlaced(ctx.headers) && AddModule(ctx, p, i, m).Ok?
    requires i * DESCRIPTOR_SIZE + DESCRIPTOR_SIZE <= lo <= |p.tables.importBytes|
    requires ctx.importRva + |AddModule(ctx, p, i, m).value.tables.importBytes| <= U32_MAX
    ensures var r := AddModule(ctx, p, i, m).value.tables;
            ModuleStored(ctx, r, lo, i, m, intOff, nameOff)
            && OnlyEntries(p.tables.importBytes, r.importBytes, i * DESCRIPTOR_SIZE, i * DESCRIPTOR_SIZE + DESCRIPTOR_SIZE)
  {
    hide AddModule, PadTo, WithLookup, AddSymbols, EntryStored, EntryOffset, WellPlaced, DescriptorBytes, NameAt, Slice,
      ReadAt, Patch, ModuleShapeValid;
    intOff, nameOff := ModuleLayout(ctx, p, i, m);
    var named := WithLookup(ctx, p.tables.importBytes, m) + (m.moduleName + [0]);
    var done := AddSymbols(ctx, Tables(named, p.tables.image), intOff, m, |m.symbols|).value;
    var r := AddModule(ctx, p, i, m).value.tables;
    LookupRoom(ctx, p.tables.importBytes, m);
    AppendedName(WithLookup(ctx, p.tables.importBytes, m), m.moduleName);
    SymbolsStored(ctx, Tables(named, p.tables.image), intOff, m, |m.symbols|);
    var at := i * DESCRIPTOR_SIZE;
    var descriptor := DescriptorBytes(ctx.importRva + intOff, ctx.importRva + nameOff, m.firstThunk);
    PatchRead(done.importBytes, at, descriptor);
    NameAfterSymbols(ctx, named, done.importBytes, intOff, m, nameOff);
    DescriptorKeeps(done.importBytes, at, descriptor, lo);
    NameKept(done.importBytes, r.importBytes, lo, nameOff, m.moduleName);
    TerminatorIsZero(ctx, named, done.importBytes, r.importBytes, intOff, m, nameOff);
    forall k | 0 <= k < |m.symbols| ensures EntryStored(ctx, r, lo, intOff, m, k) {
      EntryWeaken(ctx, done, |named|, lo, intOff, m, k);
      EntryAfterDescriptor(ctx, done, r, lo, intOff, m, k);
    }
  }

  /** Where a module's lookup entries and name go, when no 32-bit sum wraps. */
  lemma ModuleLayout(ctx: Context, p: Progress, i: nat, m: ImportModule) returns (intOff: nat, nameOff: nat)
    requires AddModule(ctx, p, i, m).Ok?
    requires ctx.importRva + |AddModule(ctx, p, i, m).value.tables.importBytes| <= U32_MAX
    ensures intOff == |PadTo(p.tables.importBytes, ctx.format.PointerSize())|
    ensures nameOff == |WithLookup(ctx, p.tables.importBytes, m)|
    ensures ctx.importRva + intOff <= U32_MAX && ctx.importRva + nameOff <= U32_MAX
    ensures ModuleShapeValid(ctx, m)
    ensures var named := WithLookup(ctx, p.tables.importBytes, m) + (m.moduleName + [0]);
            var done := AddSymbols(ctx, Tables(named, p.tables.image), intOff, m, |m.symbols|);
            done.Ok? && |named| <= |done.value.importBytes|
            && Fits(done.value.importBytes, i * DESCRIPTOR_SIZE, DESCRIPTOR_SIZE)
            && AddModule(ctx, p, i, m).value.tables
               == Tables(Patch(done.value.importBytes, i * DESCRIPTOR_SIZE,
                               DescriptorBytes(ctx.importRva + intOff, ctx.importRva + nameOff, m.firstThunk)),
                         done.value.image)
  {
    hide PadTo, WithLookup, AddSymbols, EntryOffset, DescriptorBytes, Patch, ModuleShapeValid;
    intOff := |PadTo(p.tables.importBytes, ctx.format.PointerSize())|;
    nameOff := |WithLookup(ctx, p.tables.importBytes, m)|;
    var named := WithLookup(ctx, p.tables.importBytes, m) + (m.moduleName + [0]);
    LookupRoom(ctx, p.tables.importBytes, m);
    AddSymbolsGrow(ctx, Tables(named, p.tables.image), Wrap32(intOff), m, |m.symbols|);
  }

  lemma {:induction false} AddSymbolsGrow(ctx: Context, t: Tables, intOffset: nat, m: ImportModule, n: nat)
    requires n <= |m.symbols| && AddSymbols(ctx, t, intOffset, m, n).Ok?
    ensures |t.importBytes| <= |AddSymbols(ctx, t, intOffset, m, n).value.importBytes|
  {
    hide AddSymbol;
    if n > 0 {
      AddSymbolsGrow(ctx, t, intOffset, m, n - 1);
      SymbolGrows(ctx, AddSymbols(ctx, t, intOffset, m, n - 1).value, EntryOffset(ctx, intOffset, n - 1),
                  SlotRva(ctx, m, n - 1), m.symbols[n - 1]);
    }
  }

  lemma DescriptorKeeps(b: Bytes, at: nat, descriptor: Bytes, lo: nat)
    requires at + |descriptor| <= lo && Fits(b, at, |descriptor|)
    ensures AgreeFrom(b, Patch(b, at, descriptor), lo)
    ensures OnlyEntries(b, Patch(b, at, descriptor), at, at + |descriptor|)
  {
  }

  lemma NameAfterSymbols(ctx: Context, named: Bytes, done: Bytes, intOff: nat, m: ImportModule, nameOff: nat)
    requires OnlyEntries(named, done, intOff, EntryOffset(ctx, intOff, |m.symbols|))
    requires EntryOffset(ctx, intOff, |m.symbols|) <= nameOff && NameAt(named, nameOff, m.moduleName)
    ensures NameAt(done, nameOff, m.moduleName)
  {
    hide NameAt;
    NameKept(named, done, nameOff, nameOff, m.moduleName);
  }

  lemma TerminatorIsZero(ctx: Context, named: Bytes, done: Bytes, r: Bytes, intOff: nat, m: ImportModule, end: nat)
    requires OnlyEntries(named, done, intOff, EntryOffset(ctx, intOff, |m.symbols|))
    requires AgreeFrom(done, r, intOff) && end <= |named|
    requires EntryOffset(ctx, intOff, |m.symbols|) + ctx.format.PointerSize() == end
    requires forall j :: intOff <= j < end ==> named[j] == 0
    ensures Fits(r, EntryOffset(ctx, intOff, |m.symbols|), ctx.format.PointerSize())
    ensures ReadAt(r, EntryOffset(ctx, intOff, |m.symbols|), ctx.format.PointerSize()) == 0
  {
    hide EntryOffset;
    var at := EntryOffset(ctx, intOff, |m.symbols|);
    EntryOffsetIs(ctx, intOff, |m.symbols|);
    UnsignedOfZeros(Slice(r, at, ctx.format.PointerSize()));
  }

  lemma EntryWeaken(ctx: Context, t: Tables, lo: nat, lo': nat, intOff: nat, m: ImportModule, k: nat)
    requires EntryStored(ctx, t, lo, intOff, m, k) && lo' <= lo
    ensures EntryStored(ctx, t, lo', intOff, m, k)
  {
    hide LookupAt, IatHolds, EntryOffset, SlotRva;
    LookupWeaken(ctx, t.importBytes, lo, lo', EntryOffset(ctx, intOff, k), m.symbols[k]);
  }

  lemma EntryAfterDescriptor(ctx: Context, t: Tables, r: Tables, lo: nat, intOff: nat, m: ImportModule, k: nat)
    requires EntryStored(ctx, t, lo, intOff, m, k) && AgreeFrom(t.importBytes, r.importBytes, lo)
    requires t.image == r.image && lo <= intOff
    ensures EntryStored(ctx, r, lo, intOff, m, k)
  {
    hide IatHolds, EntryOffset, SlotRva, ReadAt;
    EntryOffsetIs(ctx, intOff, k);
    LookupKept(ctx, t.importBytes, r.importBytes, lo, EntryOffset(ctx, intOff, k), m.symbols[k]);
  }

  // ---- the whole plan ----

  lemma {:induction false} OtherSlotKeptBySymbols(ctx: Context, t: Tables, intOffset: nat, m: ImportModule, n: nat,
                                                  other: U32, value: int)
    requires WellPlaced(ctx.headers) && ModuleShapeValid(ctx, m) && n <= |m.symbols|
    requires AddSymbols(ctx, t, intOffset, m, n).Ok?
    requires IatHolds(ctx, t.image, other, value)
    requires other + ctx.format.PointerSize() <= RangeOf(ctx, m).begin || RangeOf(ctx, m).end <= other
    ensures IatHolds(ctx, AddSymbols(ctx, t, intOffset, m, n).value.image, other, value)
  {
    hide AddSymbol, IatHolds, WellPlaced, ModuleShapeValid, SlotRva, EntryOffset, RangeOf;
    if n > 0 {
      OtherSlotKeptBySymbols(ctx, t, intOffset, m, n - 1, other, value);
      RvasInRange(ctx, m, n - 1);
      SlotRvaIs(ctx, m, n - 1);
      EntryOffsetIs(ctx, intOffset, n - 1);
      OtherSlotKept(ctx, AddSymbols(ctx, t, intOffset, m, n - 1).value, EntryOffset(ctx, intOffset, n - 1),
                    SlotRva(ctx, m, n - 1), m.symbols[n - 1], other, value);
    }
  }

  /** Adding module `m` keeps one entry of an earlier module. */
  lemma EarlierEntryKept(ctx: Context, p: Progress, i: nat, m: ImportModule, lo: nat, m': ImportModule, intOff: nat, k: nat)
    requires WellPlaced(ctx.headers) && AddModule(ctx, p, i, m).Ok?
    requires ctx.importRva + |AddModule(ctx, p, i, m).value.tables.importBytes| <= U32_MAX
    requires ModuleShapeValid(ctx, m') && ModuleShapeValid(ctx, m) && !Meets(RangeOf(ctx, m), RangeOf(ctx, m'))
    requires lo <= intOff && EntryStored(ctx, p.tables, lo, intOff, m', k)
    requires AgreeFrom(p.tables.importBytes, AddModule(ctx, p, i, m).value.tables.importBytes, lo)
    ensures EntryStored(ctx, AddModule(ctx, p, i, m).value.tables, lo, intOff, m', k)
  {
    hide AddModule, WithLookup, AddSymbols, IatHolds, EntryOffset, SlotRva, ReadAt, WellPlaced, ModuleShapeValid,
      RangeOf, Patch, DescriptorBytes;
    var r := AddModule(ctx, p, i, m).value.tables;
    var at := EntryOffset(ctx, intOff, k);
    EntryOffsetIs(ctx, intOff, k);
    LookupKept(ctx, p.tables.importBytes, r.importBytes, lo, at, m'.symbols[k]);
    var intOff', nameOff' := ModuleLayout(ctx, p, i, m);
    var named := WithLookup(ctx, p.tables.importBytes, m) + (m.moduleName + [0]);
    RvasInRange(ctx, m', k);
    RangeIsNotEmpty(ctx, m);
    OtherSlotKeptBySymbols(ctx, Tables(named, p.tables.image), intOff', m, |m.symbols|, SlotRva(ctx, m', k),
                           ReadAt(p.tables.importBytes, at, ctx.format.PointerSize()));
  }

  lemma RangeIsNotEmpty(ctx: Context, m: ImportModule)
    requires ModuleShapeValid(ctx, m)
    ensures RangeOf(ctx, m).begin < RangeOf(ctx, m).end
  {
  }

  /** Adding module `i` keeps everything an earlier module stored. */
  lemma ModuleKept(ctx: Context, p: Progress, i: nat, m: ImportModule, lo: nat,
                   i': nat, m': ImportModule, intOff: nat, nameOff: nat)
    requires WellPlaced(ctx.headers) && AddModule(ctx, p, i, m).Ok? && i' < i
    requires ctx.importRva + |AddModule(ctx, p, i, m).value.tables.importBytes| <= U32_MAX
    requires ModuleShapeValid(ctx, m') && ModuleShapeValid(ctx, m) && !Meets(RangeOf(ctx, m), RangeOf(ctx, m'))
    requires i * DESCRIPTOR_SIZE + DESCRIPTOR_SIZE <= lo
    requires OnlyEntries(p.tables.importBytes, AddModule(ctx, p, i, m).value.tables.importBytes,
                         i * DESCRIPTOR_SIZE, i * DESCRIPTOR_SIZE + DESCRIPTOR_SIZE)
    requires ModuleStored(ctx, p.tables, lo, i', m', intOff, nameOff)
    ensures ModuleStored(ctx, AddModule(ctx, p, i, m).value.tables, lo, i', m', intOff, nameOff)
  {
    hide AddModule, EntryStored, EntryOffset, WellPlaced, ModuleShapeValid, RangeOf, Meets, DescriptorBytes, NameAt,
      ReadAt, Slice;
    var a, r := p.tables.importBytes, AddModule(ctx, p, i, m).value.tables;
    assert AgreeFrom(a, r.importBytes, lo);
    SameRangeRead(a, r.importBytes, i' * DESCRIPTOR_SIZE, DESCRIPTOR_SIZE);
    NameKept(a, r.importBytes, lo, nameOff, m'.moduleName);
    EntryOffsetIs(ctx, intOff, |m'.symbols|);
    SameRangeRead(a, r.importBytes, EntryOffset(ctx, intOff, |m'.symbols|), ctx.format.PointerSize());
    forall k | 0 <= k < |m'.symbols| ensures EntryStored(ctx, r, lo, intOff, m', k) {
      EarlierEntryKept(ctx, p, i, m, lo, m', intOff, k);
    }
  }

  /** Size of the descriptor array with its terminator. */
  function TableSize(plan: ImportPlan): nat {
    (|plan.modules| + 1) * DESCRIPTOR_SIZE
  }

  ghost predicate IsStored(ctx: Context, t: Tables, lo: nat, i: nat, m: ImportModule) {
    exists intOff, nameOff :: ModuleStored(ctx, t, lo, i, m, intOff, nameOff)
  }

  /** State after the first `n` modules. */
  ghost predicate PlanStored(ctx: Context, p: Progress, plan: ImportPlan, n: nat) {
    n <= |plan.modules| && TableSize(plan) <= |p.tables.importBytes| && |p.ranges| == n
    && (forall i :: 0 <= i < n ==>
          ModuleShapeValid(ctx, plan.modules[i]) && p.ranges[i] == RangeOf(ctx, plan.modules[i])
          && IsStored(ctx, p.tables, TableSize(plan), i, plan.modules[i]))
    && (forall j :: n * DESCRIPTOR_SIZE <= j < TableSize(plan) ==> p.tables.importBytes[j] == 0)
  }

  lemma PlanStep(ctx: Context, p: Progress, plan: ImportPlan, n: nat)
    requires WellPlaced(ctx.headers) && n < |plan.modules| && PlanStored(ctx, p, plan, n)
    requires AddModule(ctx, p, n, plan.modules[n]).Ok?
    requires ctx.importRva + |AddModule(ctx, p, n, plan.modules[n]).value.tables.importBytes| <= U32_MAX
    ensures PlanStored(ctx, AddModule(ctx, p, n, plan.modules[n]).value, plan, n + 1)
  {
    hide AddModule, ModuleStored, OnlyEntries, WellPlaced, RangeOf, Meets, ModuleShapeValid;
    var m := plan.modules[n];
    var lo := TableSize(plan);
    var r := AddModule(ctx, p, n, m).value;
    var intOff, nameOff := ModuleIsStored(ctx, p, n, m, lo);
    AddModuleRanges(ctx, p, n, m);
    OnlyEntriesMeans(p.tables.importBytes, r.tables.importBytes, n * DESCRIPTOR_SIZE, n * DESCRIPTOR_SIZE + DESCRIPTOR_SIZE);
    forall i | 0 <= i < n ensures IsStored(ctx, r.tables, lo, i, plan.modules[i]) {
      var intOff', nameOff' :| ModuleStored(ctx, p.tables, lo, i, plan.modules[i], intOff', nameOff');
      ModuleKept(ctx, p, n, m, lo, i, plan.modules[i], intOff', nameOff');
    }
  }

  lemma OnlyEntriesMeans(a: Bytes, b: Bytes, from: int, to: int)
    requires OnlyEntries(a, b, from, to)
    ensures |a| <= |b| && forall j :: 0 <= j < |a| && !(from <= j < to) ==> b[j] == a[j]
  {
  }

  lemma AddModuleRanges(ctx: Context, p: Progress, i: nat, m: ImportModule)
    requires AddModule(ctx, p, i, m).Ok?
    ensures ModuleShapeValid(ctx, m)
    ensures var r := AddModule(ctx, p, i, m).value;
            r.ranges == p.ranges + [RangeOf(ctx, m)]
            && (forall k :: 0 <= k < |p.ranges| ==> !Meets(RangeOf(ctx, m), p.ranges[k]))
            && r.iatStart == Min(p.iatStart, RangeOf(ctx, m).begin) && r.iatEnd == Max(p.iatEnd, RangeOf(ctx, m).end)
            && |r.tables.image| == |p.tables.image|
  {
    hide WithLookup, AddSymbols, Meets, DescriptorBytes, PadTo, Patch, ModuleShapeValid;
    var intOffset := |PadTo(p.tables.importBytes, ctx.format.PointerSize())|;
    var named := WithLookup(ctx, p.tables.importBytes, m) + (m.moduleName + [0]);
    ImageLength(ctx, Tables(named, p.tables.image), Wrap32(intOffset), m, |m.symbols|);
  }

  lemma {:induction false} ImageLength(ctx: Context, t: Tables, intOffset: nat, m: ImportModule, n: nat)
    requires n <= |m.symbols| && AddSymbols(ctx, t, intOffset, m, n).Ok?
    ensures |AddSymbols(ctx, t, intOffset, m, n).value.image| == |t.image|
  {
    hide SymbolBytes, SymbolThunk, PatchIat;
    if n > 0 {
      ImageLength(ctx, t, intOffset, m, n - 1);
    }
  }

  lemma {:induction false} ModulesGrow(ctx: Context, plan: ImportPlan, image: Bytes, n: nat, n': nat)
    requires n <= n' <= |plan.modules| && AddModules(ctx, plan, image, n').Ok?
    ensures AddModules(ctx, plan, image, n).Ok?
    ensures |AddModules(ctx, plan, image, n).value.tables.importBytes|
            <= |AddModules(ctx, plan, image, n').value.tables.importBytes|
    decreases n'
  {
    hide AddModule;
    if n < n' {
      var before := AddModules(ctx, plan, image, n' - 1);
      assert before.Ok?;
      ModulesGrow(ctx, plan, image, n, n' - 1);
      ModuleGrows(ctx, before.value, n' - 1, plan.modules[n' - 1]);
    }
  }

  lemma ModuleGrows(ctx: Context, p: Progress, i: nat, m: ImportModule)
    requires AddModule(ctx, p, i, m).Ok?
    ensures |p.tables.importBytes| <= |AddModule(ctx, p, i, m).value.tables.importBytes|
  {
    hide WithLookup, AddSymbols, Meets, DescriptorBytes, PadTo, Patch, EntryOffset;
    var b := p.tables.importBytes;
    var named := WithLookup(ctx, b, m) + (m.moduleName + [0]);
    LookupRoom(ctx, b, m);
    EntryOffsetIs(ctx, |PadTo(b, ctx.format.PointerSize())|, |m.symbols|);
    AddSymbolsGrow(ctx, Tables(named, p.tables.image), Wrap32(|PadTo(b, ctx.format.PointerSize())|), m, |m.symbols|);
  }

  /** After all modules, the whole plan can be found in the table and the IAT. */
  lemma {:induction false} PlanIsStored(ctx: Context, plan: ImportPlan, image: Bytes, n: nat)
    requires WellPlaced(ctx.headers) && n <= |plan.modules| && TableSize(plan) <= U32_MAX
    requires AddModules(ctx, plan, image, n).Ok?
    requires ctx.importRva + |AddModules(ctx, plan, image, n).value.tables.importBytes| <= U32_MAX
    ensures PlanStored(ctx, AddModules(ctx, plan, image, n).value, plan, n)
  {
    hide AddModule, PlanStored, WellPlaced;
    if n > 0 {
      ModulesGrow(ctx, plan, image, n - 1, n);
      PlanIsStored(ctx, plan, image, n - 1);
      PlanStep(ctx, AddModules(ctx, plan, image, n - 1).value, plan, n - 1);
    } else {
      PlanStart(ctx, plan, image);
    }
  }

  lemma PlanStart(ctx: Context, plan: ImportPlan, image: Bytes)
    requires TableSize(plan) <= U32_MAX
    ensures PlanStored(ctx, Start(|plan.modules|, image), plan, 0)
  {
  }

  // ---- what stays of the image ----

  /** File byte `p` belongs to an IAT slot of the first `n` modules. */
  ghost predicate PlanCovers(ctx: Context, plan: ImportPlan, n: nat, p: int) {
    exists i :: 0 <= i < n && i < |plan.modules| && ModuleCovers(ctx, plan.modules[i], |plan.modules[i].symbols|, p)
  }

  lemma ModuleFrame(ctx: Context, p: Progress, i: nat, m: ImportModule, q: nat)
    requires AddModule(ctx, p, i, m).Ok? && q < |p.tables.image| && !ModuleCovers(ctx, m, |m.symbols|, q)
    ensures |AddModule(ctx, p, i, m).value.tables.image| == |p.tables.image|
    ensures AddModule(ctx, p, i, m).value.tables.image[q] == p.tables.image[q]
  {
    hide WithLookup, AddSymbols, Meets, DescriptorBytes, PadTo, Patch, ModuleCovers;
    var intOffset := |PadTo(p.tables.importBytes, ctx.format.PointerSize())|;
    var named := WithLookup(ctx, p.tables.importBytes, m) + (m.moduleName + [0]);
    SymbolsFrame(ctx, Tables(named, p.tables.image), Wrap32(intOffset), m, |m.symbols|, q);
  }

  /** Only IAT slots of the plan change in the image. */
  lemma {:induction false} PlanFrame(ctx: Context, plan: ImportPlan, image: Bytes, n: nat, q: nat)
    requires n <= |plan.modules| && AddModules(ctx, plan, image, n).Ok?
    requires q < |image| && !PlanCovers(ctx, plan, n, q)
    ensures |AddModules(ctx, plan, image, n).value.tables.image| == |image|
    ensures AddModules(ctx, plan, image, n).value.tables.image[q] == image[q]
  {
    hide AddModule, ModuleCovers;
    if n > 0 {
      assert AddModules(ctx, plan, image, n - 1).Ok?;
      assert !PlanCovers(ctx, plan, n - 1, q);
      assert !ModuleCovers(ctx, plan.modules[n - 1], |plan.modules[n - 1].symbols|, q);
      PlanFrame(ctx, plan, image, n - 1, q);
      ModuleFrame(ctx, AddModules(ctx, plan, image, n - 1).value, n - 1, plan.modules[n - 1], q);
    }
  }
}
