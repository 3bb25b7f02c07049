/** The host protocol on the wire: every message as its list of little-endian
    words, longs and strings, with the numbers that the two sides agree on. */
module EngineHostWireLaws {
  import opened Bytes
  import opened EngineHostMessages
  import opened EngineHostCodec

  // ---- what a frame is made of ----

  datatype Item = Four(value: nat) | Eight(value: nat) | Raw(bytes: Bytes)

  /** The low `n` bytes of a number, lowest first. */
  ghost function Low(v: nat, n: nat): Bytes
    requires n == 4 || n == 8
  {
    var four := [v % 256, v / 0x100 % 256, v / 0x1_0000 % 256, v / 0x100_0000 % 256];
    if n == 4 then four
    else
      four + [v / 0x1_0000_0000 % 256, v / 0x100_0000_0000 % 256, v / 0x1_0000_0000_0000 % 256, v / 0x100_0000_0000_0000 % 256]
  }

  ghost function Of(item: Item): Bytes {
    match item
    case Four(v) => Low(v, 4)
    case Eight(v) => Low(v, 8)
    case Raw(b) => b
  }

  ghost function Spread(items: seq<Item>): Bytes {
    if items == [] then [] else Of(items[0]) + Spread(items[1..])
  }

  ghost function Text(s: Bytes): seq<Item> {
    [Four(|s|), Raw(s)]
  }

  // ---- the messages ----

  /** Format, class, processor, image kind and addressing. */
  ghost function DescriptorItems(d: Descriptor): seq<Item> {
    [Four(if d.family.Pe? then 0x10 else 0x20), Four(if d.imageClass.Bits32? then 0x32 else 0x64),
     Four(if d.architecture.X86? then 0x86 else 0x8664), Four(if d.imageKind.Executable? then 1 else 2),
     Four(if d.addressing.PlatformDefault? then 0 else if d.addressing.FixedAddress? then 0x11 else 0x12)]
  }

  ghost function DescriptorsItems(ds: seq<Descriptor>): seq<Item> {
    if ds == [] then [] else DescriptorItems(ds[0]) + DescriptorsItems(ds[1..])
  }

  ghost function ManifestItems(m: Manifest): seq<Item> {
    Text(m.backendId) + [Four(|m.capabilities|)] + DescriptorsItems(m.capabilities)
  }

  ghost function ManifestsItems(ms: seq<Manifest>): seq<Item> {
    if ms == [] then [] else ManifestItems(ms[0]) + ManifestsItems(ms[1..])
  }

  ghost function TextsItems(ss: seq<Bytes>): seq<Item> {
    if ss == [] then [] else Text(ss[0]) + TextsItems(ss[1..])
  }

  ghost function RequestItems(r: JobRequest): seq<Item> {
    var e := r.entryPoint;
    Text(r.targetPath) + Text(r.outputPath)
    + [Four(if e.Some? then 1 else 0),
       Four(if e.None? then 0 else if e.value.kind.RelativeVirtualAddress? then 0x11 else if e.value.kind.VirtualAddress? then 0x12 else 0x13),
       Eight(if e.Some? then e.value.value else 0), Four(r.timeout), Eight(r.maximumImageSize),
       Four(if r.retainFailedOutput then 1 else 0)]
  }

  ghost function StageWord(s: Stage): nat {
    if s.ValidatingTarget? then 0x101 else if s.DiscoveringEntryPoint? then 0x102 else if s.LoadingTarget? then 0x103
    else if s.CapturingImage? then 0x104 else if s.RebuildingImports? then 0x105 else if s.CapturingRelocations? then 0x106
    else if s.RebuildingImage? then 0x107 else if s.ValidatingArtifact? then 0x108 else 0x109
  }

  ghost function OutcomeWord(o: JobOutcome): nat {
    if o.Completed? then 0x201 else if o.Partial? then 0x202 else if o.UnsupportedTarget? then 0x203
    else if o.Cancelled? then 0x204 else if o.TimedOut? then 0x205 else 0x206
  }

  ghost function CategoryWord(c: Category): nat {
    if c.NoError? then 0x301 else if c.InvalidRequest? then 0x302 else if c.Unsupported? then 0x303
    else if c.Configuration? then 0x304 else if c.Input? then 0x305 else if c.Execution? then 0x306
    else if c.Reconstruction? then 0x307 else if c.Validation? then 0x308 else if c.Storage? then 0x309
    else if c.Protocol? then 0x30a else if c.CancelledError? then 0x30b else if c.TimeoutError? then 0x30c else 0x30d
  }

  ghost function ArtifactItems(a: Artifact): seq<Item> {
    Text(a.path) + [Four(if a.quality.CompleteArtifact? then 0x401 else 0x402), Four(if a.loaderVerified then 1 else 0),
                    Four(|a.warnings|)]
    + TextsItems(a.warnings)
  }

  ghost function ResultItems(r: JobResult): seq<Item> {
    [Four(OutcomeWord(r.outcome)), Four(CategoryWord(r.category))] + Text(r.detail)
    + [Four(r.nativeCode), Four(if r.artifact.Some? then 1 else 0)]
    + if r.artifact.Some? then ArtifactItems(r.artifact.value) else []
  }

  ghost function MessageItems(m: Message): seq<Item> {
    match m
    case QueryCapabilities => []
    case Capabilities(ms) => [Four(|ms|)] + ManifestsItems(ms)
    case ExecuteJob(r) => RequestItems(r)
    case Progress(e) => [Four(StageWord(e.stage))] + Text(e.detail)
    case ResultMessage(r) => ResultItems(r)
  }

  ghost function KindWord(m: Message): nat {
    if m.QueryCapabilities? then 0x1001 else if m.Capabilities? then 0x1002 else if m.ExecuteJob? then 0x2001
    else if m.Progress? then 0x2002 else 0x2003
  }

  ghost predicate Short(s: Bytes) {
    |s| <= 0x2_0000
  }

  /** Strings of at most 128 KiB and lists of at most 4096 elements. */
  ghost predicate Sendable(m: Message) {
    match m
    case QueryCapabilities => true
    case Capabilities(ms) =>
      |ms| <= 4096 && forall k :: 0 <= k < |ms| ==> Short(ms[k].backendId) && |ms[k].capabilities| <= 4096
    case ExecuteJob(r) => Short(r.targetPath) && Short(r.outputPath)
    case Progress(e) => Short(e.detail)
    case ResultMessage(r) =>
      Short(r.detail)
      && (r.artifact.Some? ==>
            Short(r.artifact.value.path) && |r.artifact.value.warnings| <= 4096
            && forall k :: 0 <= k < |r.artifact.value.warnings| ==> Short(r.artifact.value.warnings[k]))
  }

  // ---- the model, item by item ----

  lemma {:induction false} SpreadJoins(a: seq<Item>, b: seq<Item>)
    ensures Spread(a + b) == Spread(a) + Spread(b)
  {
    hide Of;
    if a == [] {
      assert a + b == b;
    } else {
      assert (a + b)[1..] == a[1..] + b;
      SpreadJoins(a[1..], b);
    }
  }

  lemma OneItem(item: Item)
    ensures Spread([item]) == Of(item)
  {
    assert [item][1..] == [];
  }

  /** `list` is put in front of `rest`. */
  ghost predicate InFront(list: seq<Item>, rest: Bytes, all: Bytes) {
    all == Spread(list) + rest
  }

  lemma FrontTwice(a: seq<Item>, b: seq<Item>, rest: Bytes, middle: Bytes, all: Bytes)
    requires InFront(b, rest, middle) && InFront(a, middle, all)
    ensures InFront(a + b, rest, all)
  {
    SpreadJoins(a, b);
  }

  lemma NothingInFront(rest: Bytes)
    ensures InFront([], rest, rest)
  {
  }

  lemma {:induction false} LowDigits(v: nat)
    ensures LittleEndian(v, 4) == Low(v, 4) && LittleEndian(v, 8) == Low(v, 8)
  {
    var a := v / 256;
    var b := a / 256;
    var c := b / 256;
    var d := c / 256;
    var e := d / 256;
    var f := e / 256;
    var g := f / 256;
    Quotients(v);
    assert LittleEndian(g, 1) == [g % 256] + LittleEndian(g / 256, 0);
    assert LittleEndian(f, 2) == [f % 256] + LittleEndian(g, 1);
    assert LittleEndian(e, 3) == [e % 256] + LittleEndian(f, 2);
    assert LittleEndian(d, 4) == [d % 256] + LittleEndian(e, 3);
    assert LittleEndian(c, 1) == [c % 256] + LittleEndian(d, 0);
    assert LittleEndian(b, 2) == [b % 256] + LittleEndian(c, 1);
    assert LittleEndian(a, 3) == [a % 256] + LittleEndian(b, 2);
    assert LittleEndian(v, 4) == [v % 256] + LittleEndian(a, 3);
    assert LittleEndian(c, 5) == [c % 256] + LittleEndian(d, 4);
    assert LittleEndian(b, 6) == [b % 256] + LittleEndian(c, 5);
    assert LittleEndian(a, 7) == [a % 256] + LittleEndian(b, 6);
    assert LittleEndian(v, 8) == [v % 256] + LittleEndian(a, 7);
  }

  lemma Quotients(v: nat)
    ensures v / 0x1_0000 == v / 256 / 256 && v / 0x100_0000 == v / 256 / 256 / 256
    ensures v / 0x1_0000_0000 == v / 256 / 256 / 256 / 256 && v / 0x100_0000_0000 == v / 256 / 256 / 256 / 256 / 256
    ensures v / 0x1_0000_0000_0000 == v / 256 / 256 / 256 / 256 / 256 / 256
    ensures v / 0x100_0000_0000_0000 == v / 256 / 256 / 256 / 256 / 256 / 256 / 256
  {
  }

  lemma WordFront(v: U32, rest: Bytes)
    ensures InFront([Four(v)], rest, PutU32(v, rest))
  {
    hide LittleEndian, Low;
    LowDigits(v);
    OneItem(Four(v));
  }

  lemma LongFront(v: U64, rest: Bytes)
    ensures InFront([Eight(v)], rest, PutU64(v, rest))
  {
    hide LittleEndian, Low;
    LowDigits(v);
    OneItem(Eight(v));
  }

  lemma TextFront(s: Bytes, rest: Bytes)
    requires Short(s)
    ensures InFront(Text(s), rest, PutString(s, rest))
  {
    hide InFront, PutU32;
    WrapSmall(|s|);
    WordFront(|s|, s + rest);
    RawFront(s, rest);
    assert [Four(|s|)] + [Raw(s)] == Text(s);
    FrontTwice([Four(|s|)], [Raw(s)], rest, s + rest, PutString(s, rest));
  }

  lemma RawFront(s: Bytes, rest: Bytes)
    ensures InFront([Raw(s)], rest, s + rest)
  {
    OneItem(Raw(s));
  }

  lemma DescriptorFront(d: Descriptor, rest: Bytes)
    ensures InFront(DescriptorItems(d), rest, PutDescriptor(d, rest))
  {
    hide InFront, PutU32;
    var i := DescriptorItems(d);
    var e := PutU32(EncodeAddressing(d.addressing), rest);
    var k := PutU32(EncodeKind(d.imageKind), e);
    var a := PutU32(EncodeArchitecture(d.architecture), k);
    var c := PutU32(EncodeClass(d.imageClass), a);
    WordFront(EncodeAddressing(d.addressing), rest);
    WordFront(EncodeKind(d.imageKind), e);
    WordFront(EncodeArchitecture(d.architecture), k);
    WordFront(EncodeClass(d.imageClass), a);
    WordFront(EncodeFamily(d.family), c);
    assert [i[3]] + [i[4]] == i[3..] && [i[2]] + i[3..] == i[2..] && [i[1]] + i[2..] == i[1..] && [i[0]] + i[1..] == i;
    FrontTwice([i[3]], [i[4]], rest, e, k);
    FrontTwice([i[2]], i[3..], rest, k, a);
    FrontTwice([i[1]], i[2..], rest, a, c);
    FrontTwice([i[0]], i[1..], rest, c, PutDescriptor(d, rest));
  }

  lemma {:induction false} DescriptorsFront(ds: seq<Descriptor>, rest: Bytes)
    ensures InFront(DescriptorsItems(ds), rest, PutDescriptors(ds, rest))
  {
    hide InFront, PutDescriptor, DescriptorItems;
    if ds == [] {
      NothingInFront(rest);
    } else {
      DescriptorsFront(ds[1..], rest);
      DescriptorFront(ds[0], PutDescriptors(ds[1..], rest));
      FrontTwice(DescriptorItems(ds[0]), DescriptorsItems(ds[1..]), rest, PutDescriptors(ds[1..], rest), PutDescriptors(ds, rest));
    }
  }

  lemma ManifestFront(m: Manifest, rest: Bytes)
    requires Short(m.backendId) && |m.capabilities| <= 4096
    ensures InFront(ManifestItems(m), rest, PutManifest(m, rest))
  {
    hide InFront, PutU32, PutString, PutDescriptors, Text, DescriptorsItems;
    var tail := PutDescriptors(m.capabilities, rest);
    WrapSmall(|m.capabilities|);
    DescriptorsFront(m.capabilities, rest);
    WordFront(|m.capabilities|, tail);
    TextFront(m.backendId, PutU32(|m.capabilities|, tail));
    FrontTwice(Text(m.backendId), [Four(|m.capabilities|)], tail, PutU32(|m.capabilities|, tail), PutManifest(m, rest));
    FrontTwice(Text(m.backendId) + [Four(|m.capabilities|)], DescriptorsItems(m.capabilities), rest, tail, PutManifest(m, rest));
  }

  lemma {:induction false} ManifestsFront(ms: seq<Manifest>, rest: Bytes)
    requires forall k :: 0 <= k < |ms| ==> Short(ms[k].backendId) && |ms[k].capabilities| <= 4096
    ensures InFront(ManifestsItems(ms), rest, PutManifests(ms, rest))
  {
    hide InFront, PutManifest, ManifestItems;
    if ms == [] {
      NothingInFront(rest);
    } else {
      ManifestsFront(ms[1..], rest);
      ManifestFront(ms[0], PutManifests(ms[1..], rest));
      FrontTwice(ManifestItems(ms[0]), ManifestsItems(ms[1..]), rest, PutManifests(ms[1..], rest), PutManifests(ms, rest));
    }
  }

  lemma {:induction false} TextsFront(ss: seq<Bytes>, rest: Bytes)
    requires forall k :: 0 <= k < |ss| ==> Short(ss[k])
    ensures InFront(TextsItems(ss), rest, PutStrings(ss, rest))
  {
    hide InFront, PutString, Text;
    if ss == [] {
      NothingInFront(rest);
    } else {
      TextsFront(ss[1..], rest);
      TextFront(ss[0], PutStrings(ss[1..], rest));
      FrontTwice(Text(ss[0]), TextsItems(ss[1..]), rest, PutStrings(ss[1..], rest), PutStrings(ss, rest));
    }
  }

  lemma RequestFront(r: JobRequest)
    requires Short(r.targetPath) && Short(r.outputPath)
    ensures InFront(RequestItems(r), [], PutRequest(r, []))
  {
    hide InFront, PutU32, PutU64, PutString, Text;
    var e := r.entryPoint;
    var kind, value := if e.Some? then EncodeEntryKind(e.value.kind) else 0, if e.Some? then e.value.value else 0;
    var retain := PutU32(EncodeFlag(r.retainFailedOutput), []);
    var maximum := PutU64(r.maximumImageSize, retain);
    var timeout := PutU32(r.timeout, maximum);
    var valueOn := PutU64(value, timeout);
    var kindOn := PutU32(kind, valueOn);
    var entryOn := PutU32(EncodeFlag(e.Some?), kindOn);
    var output := PutString(r.outputPath, entryOn);
    WordFront(EncodeFlag(r.retainFailedOutput), []);
    LongFront(r.maximumImageSize, retain);
    WordFront(r.timeout, maximum);
    LongFront(value, timeout);
    WordFront(kind, valueOn);
    WordFront(EncodeFlag(e.Some?), kindOn);
    TextFront(r.outputPath, entryOn);
    TextFront(r.targetPath, output);
    var a, b, c := [Four(EncodeFlag(e.Some?))], [Four(kind)], [Eight(value)];
    var d, f, g := [Four(r.timeout)], [Eight(r.maximumImageSize)], [Four(EncodeFlag(r.retainFailedOutput))];
    FrontTwice(f, g, [], retain, maximum);
    FrontTwice(d, f + g, [], maximum, timeout);
    FrontTwice(c, d + (f + g), [], timeout, valueOn);
    FrontTwice(b, c + (d + (f + g)), [], valueOn, kindOn);
    FrontTwice(a, b + (c + (d + (f + g))), [], kindOn, entryOn);
    var words := a + (b + (c + (d + (f + g))));
    FrontTwice(Text(r.outputPath), words, [], entryOn, output);
    FrontTwice(Text(r.targetPath), Text(r.outputPath) + words, [], output, PutRequest(r, []));
    assert Text(r.targetPath) + (Text(r.outputPath) + words) == Text(r.targetPath) + Text(r.outputPath) + words;
    assert words == [a[0], b[0], c[0], d[0], f[0], g[0]];
  }

  lemma ArtifactFront(a: Artifact, rest: Bytes)
    requires Short(a.path) && |a.warnings| <= 4096 && forall k :: 0 <= k < |a.warnings| ==> Short(a.warnings[k])
    ensures InFront(ArtifactItems(a), rest, PutArtifact(a, rest))
  {
    hide InFront, PutU32, PutString, PutStrings, Text, TextsItems;
    WrapSmall(|a.warnings|);
    var strings := PutStrings(a.warnings, rest);
    var count := PutU32(|a.warnings|, strings);
    var verified := PutU32(EncodeFlag(a.loaderVerified), count);
    var quality := PutU32(EncodeQuality(a.quality), verified);
    TextsFront(a.warnings, rest);
    WordFront(|a.warnings|, strings);
    WordFront(EncodeFlag(a.loaderVerified), count);
    WordFront(EncodeQuality(a.quality), verified);
    TextFront(a.path, quality);
    var q, v, n := [Four(EncodeQuality(a.quality))], [Four(EncodeFlag(a.loaderVerified))], [Four(|a.warnings|)];
    FrontTwice(v, n, strings, count, verified);
    FrontTwice(q, v + n, strings, verified, quality);
    FrontTwice(Text(a.path), q + (v + n), strings, quality, PutArtifact(a, rest));
    FrontTwice(Text(a.path) + (q + (v + n)), TextsItems(a.warnings), rest, strings, PutArtifact(a, rest));
    assert q + (v + n) == [q[0], v[0], n[0]];
  }

  lemma WordsAre(r: JobResult, s: Stage)
    ensures EncodeOutcome(r.outcome) == OutcomeWord(r.outcome) && EncodeCategory(r.category) == CategoryWord(r.category)
    ensures EncodeStage(s) == StageWord(s)
  {
  }

  lemma ResultFront(r: JobResult)
    requires Sendable(ResultMessage(r))
    ensures InFront(ResultItems(r), [], PutResult(r, []))
  {
    hide InFront, PutU32, PutString, PutArtifact, ArtifactItems, Text, EncodeOutcome, EncodeCategory, OutcomeWord, CategoryWord;
    WordsAre(r, StageCompleted);
    var items := if r.artifact.Some? then ArtifactItems(r.artifact.value) else [];
    var artifact := if r.artifact.Some? then PutArtifact(r.artifact.value, []) else [];
    if r.artifact.Some? {
      ArtifactFront(r.artifact.value, []);
    } else {
      NothingInFront([]);
    }
    var flag := PutU32(EncodeFlag(r.artifact.Some?), artifact);
    var native := PutU32(r.nativeCode, flag);
    var detail := PutString(r.detail, native);
    var category := PutU32(EncodeCategory(r.category), detail);
    WordFront(EncodeFlag(r.artifact.Some?), artifact);
    WordFront(r.nativeCode, flag);
    TextFront(r.detail, native);
    WordFront(EncodeCategory(r.category), detail);
    WordFront(EncodeOutcome(r.outcome), category);
    var o, c, t := [Four(OutcomeWord(r.outcome))], [Four(CategoryWord(r.category))], Text(r.detail);
    var n, f := [Four(r.nativeCode)], [Four(EncodeFlag(r.artifact.Some?))];
    FrontTwice(o, c, detail, category, PutResult(r, []));
    FrontTwice(o + c, t, native, detail, PutResult(r, []));
    FrontTwice(n, f, artifact, flag, native);
    FrontTwice(o + c + t, n + f, artifact, native, PutResult(r, []));
    FrontTwice(o + c + t + (n + f), items, [], artifact, PutResult(r, []));
    assert o + c == [o[0], c[0]] && n + f == [n[0], f[0]];
  }

  lemma PayloadIs(m: Message)
    requires Sendable(m)
    ensures PayloadOf(m) == Spread(MessageItems(m))
  {
    hide InFront, PutU32, PutString, PutManifests, PutRequest, PutResult, ManifestsItems, RequestItems, ResultItems, Text, EncodeStage,
      StageWord;
    match m {
      case QueryCapabilities =>
        NothingInFront([]);
      case Capabilities(ms) =>
        WrapSmall(|ms|);
        ManifestsFront(ms, []);
        WordFront(|ms|, PutManifests(ms, []));
        FrontTwice([Four(|ms|)], ManifestsItems(ms), [], PutManifests(ms, []), PayloadOf(m));
      case ExecuteJob(r) =>
        RequestFront(r);
      case Progress(e) =>
        WordsAre(JobResult(Completed, NoError, [], 0, None), e.stage);
        TextFront(e.detail, []);
        WordFront(EncodeStage(e.stage), PutString(e.detail, []));
        FrontTwice([Four(StageWord(e.stage))], Text(e.detail), [], PutString(e.detail, []), PayloadOf(m));
      case ResultMessage(r) =>
        ResultFront(r);
    }
    FrontOfNothing(MessageItems(m), PayloadOf(m));
  }

  lemma FrontOfNothing(items: seq<Item>, all: Bytes)
    requires InFront(items, [], all)
    ensures all == Spread(items)
  {
  }

  lemma SendableIs(m: Message)
    ensures MessageFits(m) <==> Sendable(m)
  {
    match m {
      case Capabilities(ms) =>
        assert forall k :: 0 <= k < |ms| ==> (ManifestFits(ms[k]) <==> Short(ms[k].backendId) && |ms[k].capabilities| <= 4096);
      case _ =>
    }
  }

  /** A frame is the magic "UPXK", version 7, the kind, the payload size and the
      payload; a message has one exactly when it is sendable and its payload
      has at most one mebibyte. */
  lemma FrameIsExact(m: Message)
    ensures var payload := Spread(MessageItems(m));
            Encoded(m) == if Sendable(m) && |payload| <= 0x10_0000
                          then Some(Spread([Raw([0x55, 0x50, 0x58, 0x4b]), Four(7), Four(KindWord(m)), Four(|payload|)]) + payload)
                          else None
  {
    hide PutU32, PayloadOf, MessageItems, Sendable, MessageFits, InFront, Low;
    SendableIs(m);
    if Sendable(m) {
      PayloadIs(m);
      var payload := PayloadOf(m);
      if |payload| <= 0x10_0000 {
        WrapSmall(|payload|);
        var size := PutU32(|payload|, payload);
        var kind := PutU32(TypeOf(m), size);
        var version := PutU32(7, kind);
        WordFront(|payload|, payload);
        WordFront(TypeOf(m), size);
        WordFront(7, kind);
        WordFront(PROTOCOL_MAGIC, version);
        var after := [Four(7), Four(TypeOf(m)), Four(|payload|)];
        assert [after[1]] + [after[2]] == after[1..] && [after[0]] + after[1..] == after;
        FrontTwice([Four(TypeOf(m))], [Four(|payload|)], payload, size, kind);
        FrontTwice([Four(7)], after[1..], payload, kind, version);
        FrontTwice([Four(PROTOCOL_MAGIC)], after, payload, version, FrameOf(m));
        MagicBytes(after, payload, FrameOf(m));
        assert [Raw([0x55, 0x50, 0x58, 0x4b])] + after == [Raw([0x55, 0x50, 0x58, 0x4b]), after[0], after[1], after[2]];
      }
    }
  }

  lemma MagicBytes(items: seq<Item>, rest: Bytes, all: Bytes)
    requires InFront([Four(PROTOCOL_MAGIC)] + items, rest, all)
    ensures all == Spread([Raw([0x55, 0x50, 0x58, 0x4b])] + items) + rest
  {
    SpreadJoins([Four(PROTOCOL_MAGIC)], items);
    SpreadJoins([Raw([0x55, 0x50, 0x58, 0x4b])], items);
    OneItem(Four(PROTOCOL_MAGIC));
    OneItem(Raw([0x55, 0x50, 0x58, 0x4b]));
  }
}
