/** What a dump is, said of the debuggee's own answers at the stops of the walk. */
module DumpLaws {
  import opened Bytes
  import opened PeFormat
  import opened ProcessImageDumper
  import Sections = SectionLayoutRebuilder

  /** The address of an offset of the image, in 64 bits. */
  ghost function Place(image: LoadedImage, at: nat): U64 {
    (image.base + at) % 0x1_0000_0000_0000_0000
  }

  /** The region described at an offset reaches up to `next`, or past the image's end. */
  ghost predicate Reaches(reader: Reader, image: LoadedImage, at: nat, next: nat) {
    var a := Place(image, at);
    var r := reader.query(a);
    r.base <= a < r.base + r.size
    && next == (if at + (r.base + r.size - a) < image.size then at + (r.base + r.size - a) else image.size)
  }

  /** From `from` to the image's end, from region to region. */
  ghost predicate Walk(reader: Reader, image: LoadedImage, from: nat, stops: seq<nat>) {
    |stops| > 0 && stops[0] == from && stops[|stops| - 1] == image.size
    && forall i :: 0 <= i < |stops| - 1 ==> stops[i] < image.size && Reaches(reader, image, stops[i], stops[i + 1])
  }

  /** The region with the debuggee's rights. */
  ghost predicate RegionIs(reader: Reader, image: LoadedImage, at: nat, next: nat, r: Sections.Region) {
    var m := reader.query(Place(image, at));
    r.offset == at && r.size == next - at && r.readable == m.readable && r.writable == m.writable && r.executable == m.executable
  }

  /** Byte j is the byte that was read for its region, or zero where none was. */
  ghost predicate ByteIs(reader: Reader, image: LoadedImage, at: nat, next: nat, bytes: Bytes, j: nat) {
    at <= j < next <= |bytes|
    && var a := Place(image, at);
       var got := reader.read(a, next - at);
       bytes[j] == if reader.query(a).readable && j - at < |got| then got[j - at] else 0
  }

  ghost predicate BytesAre(reader: Reader, image: LoadedImage, at: nat, next: nat, bytes: Bytes) {
    forall j :: at <= j < next ==> ByteIs(reader, image, at, next, bytes, j)
  }

  ghost function WarningsAt(reader: Reader, image: LoadedImage, at: nat, next: nat): seq<Warning>
    requires at < next
  {
    var a := Place(image, at);
    var got := |reader.read(a, next - at)|;
    if !reader.query(a).readable then [UnreadableMemoryRegionZeroFilled]
    else if got == 0 then [PartialMemoryReadZeroFilled, UnreadableMemoryRegionZeroFilled]
    else if got < next - at then [PartialMemoryReadZeroFilled]
    else []
  }

  /** The warnings of all regions, in order. */
  ghost function Told(reader: Reader, image: LoadedImage, stops: seq<nat>): seq<Warning> {
    if |stops| < 2 || stops[0] >= stops[1] then []
    else WarningsAt(reader, image, stops[0], stops[1]) + Told(reader, image, stops[1..])
  }

  ghost predicate DumpIs(reader: Reader, image: LoadedImage, stops: seq<nat>, bytes: Bytes, regions: seq<Sections.Region>) {
    |bytes| == image.size && |stops| == |regions| + 1
    && forall i :: 0 <= i < |regions| ==>
         RegionIs(reader, image, stops[i], stops[i + 1], regions[i])
         && BytesAre(reader, image, stops[i], stops[i + 1], bytes)
  }

  // ---- the model's words ----

  lemma StepIs(reader: Reader, image: LoadedImage, at: nat, next: nat)
    requires at < image.size
    ensures Reaches(reader, image, at, next)
            <==> var current := Current(image, at);
                 Describes(reader.query(current), current) && next == at + Chunk(image, reader.query(current), at)
  {
    var current := Current(image, at);
    var region := reader.query(current);
    if Describes(region, current) {
      SpanOfRegion(region, current);
    }
  }

  lemma ContentIs(reader: Reader, image: LoadedImage, at: nat, next: nat, before: Bytes, after: Bytes)
    requires |before| == at && at < next
    ensures var current := Current(image, at);
            BytesAre(reader, image, at, next, before + (Content(reader, reader.query(current), current, next - at) + after))
  {
    var current, n := Current(image, at), next - at;
    var content := Content(reader, reader.query(current), current, n);
    var bytes := before + (content + after);
    forall j | at <= j < next ensures ByteIs(reader, image, at, next, bytes, j) {
      assert bytes[j] == content[j - at];
    }
  }

  lemma WarningsAre(reader: Reader, image: LoadedImage, at: nat, next: nat)
    requires at < next
    ensures var current := Current(image, at);
            WarningsAt(reader, image, at, next) == Warnings(reader, reader.query(current), current, next - at)
  {
  }

  lemma {:induction false} WalkIfDumped(reader: Reader, image: LoadedImage, offset: nat) returns (stops: seq<nat>)
    requires offset <= image.size && DumpFrom(reader, image, offset).Ok?
    ensures Walk(reader, image, offset, stops)
    decreases image.size - offset
  {
    hide Reaches, Current, Describes, Chunk, Content, Warnings;
    if offset == image.size {
      stops := [offset];
    } else {
      DumpStep(reader, image, offset);
      var next := offset + Chunk(image, reader.query(Current(image, offset)), offset);
      StepIs(reader, image, offset, next);
      var rest := WalkIfDumped(reader, image, next);
      stops := [offset] + rest;
      forall i | 0 <= i < |stops| - 1 ensures stops[i] < image.size && Reaches(reader, image, stops[i], stops[i + 1]) {
        if i > 0 {
          assert stops[i] == rest[i - 1] && stops[i + 1] == rest[i];
        }
      }
    }
  }

  lemma WalkRest(reader: Reader, image: LoadedImage, offset: nat, stops: seq<nat>)
    requires Walk(reader, image, offset, stops) && offset < image.size
    ensures |stops| > 1 && offset < stops[1] <= image.size && Reaches(reader, image, offset, stops[1])
    ensures Walk(reader, image, stops[1], stops[1..])
  {
    assert Reaches(reader, image, stops[0], stops[1]);
    forall i | 0 <= i < |stops[1..]| - 1 ensures Reaches(reader, image, stops[1..][i], stops[1..][i + 1]) {
      assert stops[1..][i] == stops[i + 1] && stops[1..][i + 1] == stops[i + 2];
    }
  }

  lemma {:induction false} DumpedIfWalk(reader: Reader, image: LoadedImage, offset: nat, stops: seq<nat>, before: Bytes)
    requires offset <= image.size && Walk(reader, image, offset, stops) && |before| == offset
    ensures DumpFrom(reader, image, offset).Ok?
    ensures var d := DumpFrom(reader, image, offset).value;
            DumpIs(reader, image, stops, before + d.bytes, d.regions) && d.warnings == Told(reader, image, stops)
    decreases image.size - offset
  {
    hide Reaches, Current, Describes, Chunk, Content, Warnings, WarningsAt, RegionIs, BytesAre, Walk;
    if offset == image.size {
      EndOfWalk(reader, image, stops);
    } else {
      WalkRest(reader, image, offset, stops);
      var next := stops[1];
      StepIs(reader, image, offset, next);
      var current := Current(image, offset);
      var here := Content(reader, reader.query(current), current, next - offset);
      DumpedIfWalk(reader, image, next, stops[1..], before + here);
      WalkStarts(reader, image, offset, stops);
      WarningsAre(reader, image, offset, next);
      OneMore(reader, image, offset, stops, before, DumpFrom(reader, image, offset).value, DumpFrom(reader, image, next).value);
    }
  }

  lemma WalkStarts(reader: Reader, image: LoadedImage, offset: nat, stops: seq<nat>)
    requires Walk(reader, image, offset, stops)
    ensures stops[0] == offset
  {
  }

  lemma EndOfWalk(reader: Reader, image: LoadedImage, stops: seq<nat>)
    requires Walk(reader, image, image.size, stops)
    ensures |stops| == 1
  {
    assert forall i :: 0 <= i < |stops| - 1 ==> stops[i] < image.size;
  }

  lemma OneMore(reader: Reader, image: LoadedImage, offset: nat, stops: seq<nat>, before: Bytes, d: Dumped, rest: Dumped)
    requires |stops| > 1 && stops[0] == offset < stops[1] <= image.size && |before| == offset
    requires var current := Current(image, offset);
             var region, n := reader.query(current), stops[1] - offset;
             var here := Content(reader, region, current, n);
             d.bytes == here + rest.bytes
             && d.regions == [Sections.Region(offset, n, region.readable, region.writable, region.executable)] + rest.regions
             && DumpIs(reader, image, stops[1..], (before + here) + rest.bytes, rest.regions)
    ensures DumpIs(reader, image, stops, before + d.bytes, d.regions)
  {
    hide Content, BytesAre;
    var current := Current(image, offset);
    var here := Content(reader, reader.query(current), current, stops[1] - offset);
    Reassociate(before, here, rest.bytes);
    ContentIs(reader, image, offset, stops[1], before, rest.bytes);
    forall i | 0 <= i < |d.regions|
      ensures RegionIs(reader, image, stops[i], stops[i + 1], d.regions[i])
              && BytesAre(reader, image, stops[i], stops[i + 1], before + d.bytes)
    {
      if i > 0 {
        assert stops[1..][i - 1] == stops[i] && stops[1..][i] == stops[i + 1] && d.regions[i] == rest.regions[i - 1];
      }
    }
  }

  /** A dump succeeds exactly when the image has its declared, nonzero size within the
      limit and the debuggee describes a region at every stop; it then holds one region per
      stop with the debuggee's rights, the bytes that were read and zeros elsewhere. */
  lemma DumpIsExact(reader: Reader, image: LoadedImage, layout: Layout, maximum: U64)
    ensures var r := Outcome(reader, image, layout, maximum);
            var sized := image.size == layout.sizeOfImage && 0 < image.size <= maximum;
            (r == Err(InvalidImage) <==> !sized)
            && (r.Ok? <==> sized && exists stops :: Walk(reader, image, 0, stops))
            && (r.Err? && sized ==> r.error == ReadFailed)
            && forall stops :: r.Ok? && Walk(reader, image, 0, stops) ==>
                 DumpIs(reader, image, stops, r.value.bytes, r.value.regions) && r.value.warnings == Told(reader, image, stops)
  {
    hide Walk, DumpFrom, DumpIs, Told;
    FailureIs(reader, image, 0);
    if DumpFrom(reader, image, 0).Ok? {
      var stops := WalkIfDumped(reader, image, 0);
    }
    forall stops | Walk(reader, image, 0, stops)
      ensures DumpFrom(reader, image, 0).Ok?
      ensures var d := DumpFrom(reader, image, 0).value;
              DumpIs(reader, image, stops, d.bytes, d.regions) && d.warnings == Told(reader, image, stops)
    {
      DumpedIfWalk(reader, image, 0, stops, []);
      assert [] + DumpFrom(reader, image, 0).value.bytes == DumpFrom(reader, image, 0).value.bytes;
    }
  }

  lemma {:induction false} FailureIs(reader: Reader, image: LoadedImage, offset: nat)
    requires offset <= image.size
    ensures DumpFrom(reader, image, offset).Err? ==> DumpFrom(reader, image, offset).error == ReadFailed
    decreases image.size - offset
  {
    hide Current, Describes, Chunk, Content, Warnings;
    if offset < image.size && Describes(reader.query(Current(image, offset)), Current(image, offset)) {
      FailureIs(reader, image, offset + Chunk(image, reader.query(Current(image, offset)), offset));
    }
  }
}
