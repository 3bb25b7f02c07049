/** Reads a loaded image region by region; what cannot be read is left zero. */
module ProcessImageDumper {
  import opened Bytes
  import Sections = SectionLayoutRebuilder
  import opened PeFormat

  datatype MemoryRegion = MemoryRegion(base: U64, size: U64, readable: bool, writable: bool, executable: bool)

  /** The debuggee's memory: any query and read functions. A read delivers at most what was asked for. */
  datatype Reader = Reader(query: U64 -> MemoryRegion, read: (U64, nat) -> Bytes)

  datatype LoadedImage = LoadedImage(base: U64, size: U64)

  datatype DumpError = InvalidImage | ReadFailed

  datatype Warning = PartialMemoryReadZeroFilled | UnreadableMemoryRegionZeroFilled

  datatype Dumped = Dumped(bytes: Bytes, regions: seq<Sections.Region>, warnings: seq<Warning>)

  function Wrap64(x: int): U64 {
    x % 0x1_0000_0000_0000_0000
  }

  /** The region that holds `address`, if the reader describes one. */
  predicate Describes(region: MemoryRegion, address: U64) {
    region.size != 0 && region.base <= address && address - region.base < region.size
  }

  function Current(image: LoadedImage, offset: nat): U64 {
    Wrap64(image.base + offset)
  }

  /** How many bytes of the region are dumped at once, in 64-bit arithmetic. */
  function Chunk(image: LoadedImage, region: MemoryRegion, offset: nat): (n: nat)
    requires offset < image.size && Describes(region, Current(image, offset))
    ensures 0 < n <= image.size - offset
  {
    var current := Current(image, offset);
    SpanOfRegion(region, current);
    Min(image.size - offset, Wrap64(Wrap64(region.base + region.size) - current))
  }

  lemma SpanOfRegion(region: MemoryRegion, current: U64)
    requires Describes(region, current)
    ensures Wrap64(Wrap64(region.base + region.size) - current) == region.base + region.size - current
  {
  }

  /** What the reader delivers, cut to what was asked for. */
  function Delivered(reader: Reader, address: U64, n: nat): (s: Bytes)
    ensures |s| <= n
  {
    var s := reader.read(address, n);
    if |s| <= n then s else s[..n]
  }

  function Content(reader: Reader, region: MemoryRegion, address: U64, n: nat): (s: Bytes)
    ensures |s| == n
  {
    if region.readable then Delivered(reader, address, n) + Zeros(n - |Delivered(reader, address, n)|) else Zeros(n)
  }

  function Warnings(reader: Reader, region: MemoryRegion, address: U64, n: nat): seq<Warning> {
    if !region.readable then [UnreadableMemoryRegionZeroFilled]
    else
      (if |Delivered(reader, address, n)| < n then [PartialMemoryReadZeroFilled] else [])
      + if Delivered(reader, address, n) == [] then [UnreadableMemoryRegionZeroFilled] else []
  }

  function DumpFrom(reader: Reader, image: LoadedImage, offset: nat): Result<Dumped, DumpError>
    requires offset <= image.size
    decreases image.size - offset
  {
    if offset == image.size then Ok(Dumped([], [], []))
    else
      var current := Current(image, offset);
      var region := reader.query(current);
      if !Describes(region, current) then Err(ReadFailed)
      else
        var n := Chunk(image, region, offset);
        var rest := DumpFrom(reader, image, offset + n);
        if rest.Err? then rest
        else Ok(Dumped(Content(reader, region, current, n) + rest.value.bytes,
                       [Sections.Region(offset, n, region.readable, region.writable, region.executable)] + rest.value.regions,
                       Warnings(reader, region, current, n) + rest.value.warnings))
  }

  function Outcome(reader: Reader, image: LoadedImage, layout: Layout, maximumImageSize: U64): Result<Dumped, DumpError> {
    if image.size != layout.sizeOfImage || image.size == 0 || image.size > maximumImageSize then Err(InvalidImage)
    else DumpFrom(reader, image, 0)
  }

  /** The bytes dumped so far, in place, and the lists built so far. */
  ghost predicate SoFar(reader: Reader, image: LoadedImage, offset: nat, prefix: Bytes, regions: seq<Sections.Region>,
                        warnings: seq<Warning>)
    requires offset <= image.size
  {
    DumpFrom(reader, image, 0)
    == var rest := DumpFrom(reader, image, offset);
       if rest.Err? then rest
       else Ok(Dumped(prefix + rest.value.bytes, regions + rest.value.regions, warnings + rest.value.warnings))
  }

  lemma SoFarStep(reader: Reader, image: LoadedImage, offset: nat, prefix: Bytes, regions: seq<Sections.Region>,
                  warnings: seq<Warning>)
    requires offset < image.size && SoFar(reader, image, offset, prefix, regions, warnings)
    requires Describes(reader.query(Current(image, offset)), Current(image, offset))
    ensures var current := Current(image, offset);
            var region := reader.query(current);
            var n := Chunk(image, region, offset);
            SoFar(reader, image, offset + n, prefix + Content(reader, region, current, n),
                  regions + [Sections.Region(offset, n, region.readable, region.writable, region.executable)],
                  warnings + Warnings(reader, region, current, n))
  {
    hide Chunk, Content, Warnings, Current, Describes;
    var current := Current(image, offset);
    var region := reader.query(current);
    var n := Chunk(image, region, offset);
    var rest := DumpFrom(reader, image, offset + n);
    if rest.Ok? {
      var r := Sections.Region(offset, n, region.readable, region.writable, region.executable);
      Reassociate(prefix, Content(reader, region, current, n), rest.value.bytes);
      Reassociate(regions, [r], rest.value.regions);
      Reassociate(warnings, Warnings(reader, region, current, n), rest.value.warnings);
    }
  }

  lemma Reassociate<T>(a: seq<T>, b: seq<T>, c: seq<T>)
    ensures a + (b + c) == (a + b) + c
  {
  }

  lemma SoFarNothing(reader: Reader, image: LoadedImage)
    ensures SoFar(reader, image, 0, [], [], [])
  {
    hide DumpFrom;
    var all := DumpFrom(reader, image, 0);
    if all.Ok? {
      assert [] + all.value.bytes == all.value.bytes && [] + all.value.regions == all.value.regions;
      assert [] + all.value.warnings == all.value.warnings;
    }
  }

  method Dump(reader: Reader, image: LoadedImage, layout: Layout, maximumImageSize: U64) returns (result: Result<Dumped, DumpError>)
    ensures result == Outcome(reader, image, layout, maximumImageSize)
  {
    hide SoFar, DumpFrom, Describes, Current, Chunk;
    if image.size != layout.sizeOfImage || image.size == 0 || image.size > maximumImageSize {
      return Err(InvalidImage);
    }
    var bytes := new Byte[image.size](_ => 0);
    var regions: seq<Sections.Region>, warnings: seq<Warning> := [], [];
    var offset: nat := 0;
    SoFarNothing(reader, image);
    assert bytes[..0] == [];
    while offset < image.size
      invariant offset <= image.size == bytes.Length
      invariant forall i :: offset <= i < bytes.Length ==> bytes[i] == 0
      invariant SoFar(reader, image, offset, bytes[..offset], regions, warnings)
    {
      var current := Current(image, offset);
      var region := reader.query(current);
      if !Describes(region, current) {
        SoFarFails(reader, image, offset, bytes[..offset], regions, warnings);
        return Err(ReadFailed);
      }
      var chunk := Chunk(image, region, offset);
      SoFarStep(reader, image, offset, bytes[..offset], regions, warnings);
      regions := regions + [Sections.Region(offset, chunk, region.readable, region.writable, region.executable)];
      warnings := warnings + Warnings(reader, region, current, chunk);
      ghost var before := bytes[..offset];
      if region.readable {
        var delivered := Delivered(reader, current, chunk);
        forall i | 0 <= i < |delivered| {
          bytes[offset + i] := delivered[i];
        }
      }
      assert bytes[..offset + chunk] == before + Content(reader, region, current, chunk);
      offset := offset + chunk;
    }
    SoFarDone(reader, image, bytes[..offset], regions, warnings);
    assert bytes[..offset] == bytes[..];
    result := Ok(Dumped(bytes[..], regions, warnings));
  }

  lemma SoFarFails(reader: Reader, image: LoadedImage, offset: nat, prefix: Bytes, regions: seq<Sections.Region>,
                   warnings: seq<Warning>)
    requires offset < image.size && SoFar(reader, image, offset, prefix, regions, warnings)
    requires !Describes(reader.query(Current(image, offset)), Current(image, offset))
    ensures DumpFrom(reader, image, 0) == Err(ReadFailed)
  {
    hide Describes, Current;
  }

  lemma SoFarDone(reader: Reader, image: LoadedImage, prefix: Bytes, regions: seq<Sections.Region>, warnings: seq<Warning>)
    requires SoFar(reader, image, image.size, prefix, regions, warnings)
    ensures DumpFrom(reader, image, 0) == Ok(Dumped(prefix, regions, warnings))
  {
    assert prefix + [] == prefix && regions + [] == regions && warnings + [] == warnings;
  }

  // ---- the regions tile the image ----

  /** Consecutive nonempty regions from `from` to `to`. */
  ghost predicate Tiles(regions: seq<Sections.Region>, from: int, to: int) {
    if regions == [] then from == to
    else regions[0].offset == from && regions[0].size > 0 && Tiles(regions[1..], from + regions[0].size, to)
  }

  /** Every region's bytes are what the reader delivered there, then zeros; an
      unreadable region is all zeros. */
  ghost predicate Holds(reader: Reader, image: LoadedImage, bytes: Bytes, r: Sections.Region) {
    Fits(bytes, r.offset, r.size)
    && var s := Slice(bytes, r.offset, r.size);
       if r.readable
       then var d := Delivered(reader, Current(image, r.offset), r.size); s == d + Zeros(r.size - |d|)
       else s == Zeros(r.size)
  }

  /** One region of a successful dump. */
  lemma DumpStep(reader: Reader, image: LoadedImage, offset: nat)
    requires offset < image.size && DumpFrom(reader, image, offset).Ok?
    ensures var current := Current(image, offset);
            var region := reader.query(current);
            Describes(region, current)
            && var n := Chunk(image, region, offset);
               var d, rest := DumpFrom(reader, image, offset).value, DumpFrom(reader, image, offset + n);
               rest.Ok? && d.bytes == Content(reader, region, current, n) + rest.value.bytes
               && d.regions == [Sections.Region(offset, n, region.readable, region.writable, region.executable)]
                               + rest.value.regions
  {
    hide Chunk, Current, Describes, Content, Warnings;
  }

  lemma ContentHolds(reader: Reader, image: LoadedImage, region: MemoryRegion, n: nat, before: Bytes, after: Bytes)
    requires |before| <= U64_MAX && n <= U64_MAX
    ensures Holds(reader, image, before + (Content(reader, region, Current(image, |before|), n) + after),
                  Sections.Region(|before|, n, region.readable, region.writable, region.executable))
  {
    hide Slice, Current, Delivered;
    MiddleSlice(before, Content(reader, region, Current(image, |before|), n), after);
  }

  /** For any reader: a successful dump has consecutive, nonempty regions that
      sum to the image size, its unread bytes are zero, and the section
      rebuilder's region check accepts every region. */
  lemma {:induction false} DumpTilesTheImage(reader: Reader, image: LoadedImage, offset: nat, before: Bytes)
    requires offset <= image.size && |before| == offset && DumpFrom(reader, image, offset).Ok?
    ensures var d := DumpFrom(reader, image, offset).value;
            offset + |d.bytes| == image.size && Tiles(d.regions, offset, image.size)
            && (forall k :: 0 <= k < |d.regions| ==>
                  Holds(reader, image, before + d.bytes, d.regions[k])
                  && d.regions[k].offset < image.size && d.regions[k].size <= image.size - d.regions[k].offset)
    decreases image.size - offset
  {
    hide Chunk, Current, Describes, Content, Holds;
    if offset < image.size {
      hide DumpFrom;
      DumpStep(reader, image, offset);
      var current := Current(image, offset);
      var region := reader.query(current);
      var n := Chunk(image, region, offset);
      var here, rest := Content(reader, region, current, n), DumpFrom(reader, image, offset + n).value;
      var d := DumpFrom(reader, image, offset).value;
      DumpTilesTheImage(reader, image, offset + n, before + here);
      Reassociate(before, here, rest.bytes);
      ContentHolds(reader, image, region, n, before, rest.bytes);
      assert d.regions[1..] == rest.regions;
    }
  }

  lemma MiddleSlice(a: Bytes, b: Bytes, c: Bytes)
    ensures Slice(a + (b + c), |a|, |b|) == b
  {
    assert (a + (b + c))[|a|..|a| + |b|] == b;
  }

  /** The section rebuilder never rejects the regions of a dump. */
  lemma DumpedRegionsAreAccepted(reader: Reader, image: LoadedImage, layout: Layout, maximum: U64, ranges: Sections.Ranges)
    requires Outcome(reader, image, layout, maximum).Ok?
    ensures Sections.WithRegions(layout, ranges, Outcome(reader, image, layout, maximum).value.regions).Some?
  {
    hide DumpFrom, Holds, Tiles;
    DumpTilesTheImage(reader, image, 0, []);
    InsideAccepted(layout, ranges, DumpFrom(reader, image, 0).value.regions);
  }

  lemma {:induction false} InsideAccepted(layout: Layout, ranges: Sections.Ranges, regions: seq<Sections.Region>)
    requires forall k :: 0 <= k < |regions| ==>
      regions[k].offset < layout.sizeOfImage && regions[k].size <= layout.sizeOfImage - regions[k].offset
    ensures Sections.WithRegions(layout, ranges, regions).Some?
  {
    if regions != [] {
      var rest := regions[..|regions| - 1];
      assert forall k :: 0 <= k < |rest| ==> rest[k] == regions[k];
      InsideAccepted(layout, ranges, rest);
    }
  }
}
