/** Frames of the host protocol: a 16-byte header and a payload of
    little-endian words, counted strings and counted lists. */
module EngineHostCodec {
  import opened Bytes
  import opened EngineHostMessages

  const PROTOCOL_MAGIC: U32 := 0x4b585055
  const PROTOCOL_VERSION: U32 := 7
  const MAXIMUM_FRAME_SIZE := 0x10_0000
  const MAXIMUM_STRING_SIZE := 0x2_0000
  const MAXIMUM_COLLECTION_SIZE := 4096
  const FRAME_HEADER_SIZE := 16

  const QUERY_TYPE: U32 := 0x1001
  const CAPABILITIES_TYPE: U32 := 0x1002
  const EXECUTE_TYPE: U32 := 0x2001
  const PROGRESS_TYPE: U32 := 0x2002
  const RESULT_TYPE: U32 := 0x2003

  // ---- what is written: each value in front of what follows it ----

  function PutU32(v: U32, rest: Bytes): Bytes {
    LittleEndian(v, 4) + rest
  }

  function PutU64(v: U64, rest: Bytes): Bytes {
    LittleEndian(v, 8) + rest
  }

  function PutString(s: Bytes, rest: Bytes): Bytes {
    PutU32(Wrap32(|s|), s + rest)
  }

  function PutDescriptor(d: Descriptor, rest: Bytes): Bytes {
    PutU32(EncodeFamily(d.family),
           PutU32(EncodeClass(d.imageClass),
                  PutU32(EncodeArchitecture(d.architecture),
                         PutU32(EncodeKind(d.imageKind), PutU32(EncodeAddressing(d.addressing), rest)))))
  }

  function PutDescriptors(ds: seq<Descriptor>, rest: Bytes): Bytes {
    if ds == [] then rest else PutDescriptor(ds[0], PutDescriptors(ds[1..], rest))
  }

  function PutManifest(m: Manifest, rest: Bytes): Bytes {
    PutString(m.backendId, PutU32(Wrap32(|m.capabilities|), PutDescriptors(m.capabilities, rest)))
  }

  function PutManifests(ms: seq<Manifest>, rest: Bytes): Bytes {
    if ms == [] then rest else PutManifest(ms[0], PutManifests(ms[1..], rest))
  }

  function PutStrings(ss: seq<Bytes>, rest: Bytes): Bytes {
    if ss == [] then rest else PutString(ss[0], PutStrings(ss[1..], rest))
  }

  function PutEntry(e: Option<EntryHint>, rest: Bytes): Bytes {
    PutU32(EncodeFlag(e.Some?),
           PutU32(if e.Some? then EncodeEntryKind(e.value.kind) else 0, PutU64(if e.Some? then e.value.value else 0, rest)))
  }

  function PutRequest(r: JobRequest, rest: Bytes): Bytes {
    PutString(r.targetPath,
              PutString(r.outputPath,
                        PutEntry(r.entryPoint,
                                 PutU32(r.timeout, PutU64(r.maximumImageSize, PutU32(EncodeFlag(r.retainFailedOutput), rest))))))
  }

  function PutArtifact(a: Artifact, rest: Bytes): Bytes {
    PutString(a.path,
              PutU32(EncodeQuality(a.quality),
                     PutU32(EncodeFlag(a.loaderVerified), PutU32(Wrap32(|a.warnings|), PutStrings(a.warnings, rest)))))
  }

  function PutResult(r: JobResult, rest: Bytes): Bytes {
    PutU32(EncodeOutcome(r.outcome),
           PutU32(EncodeCategory(r.category),
                  PutString(r.detail,
                            PutU32(r.nativeCode,
                                   PutU32(EncodeFlag(r.artifact.Some?),
                                          if r.artifact.Some? then PutArtifact(r.artifact.value, rest) else rest)))))
  }

  function TypeOf(m: Message): U32 {
    match m
    case QueryCapabilities => QUERY_TYPE
    case Capabilities(_) => CAPABILITIES_TYPE
    case ExecuteJob(_) => EXECUTE_TYPE
    case Progress(_) => PROGRESS_TYPE
    case ResultMessage(_) => RESULT_TYPE
  }

  function PayloadOf(m: Message): Bytes {
    match m
    case QueryCapabilities => []
    case Capabilities(ms) => PutU32(Wrap32(|ms|), PutManifests(ms, []))
    case ExecuteJob(r) => PutRequest(r, [])
    case Progress(e) => PutU32(EncodeStage(e.stage), PutString(e.detail, []))
    case ResultMessage(r) => PutResult(r, [])
  }

  // ---- what can be written ----

  predicate ShortString(s: Bytes) {
    |s| <= MAXIMUM_STRING_SIZE
  }

  predicate ManifestFits(m: Manifest) {
    ShortString(m.backendId) && |m.capabilities| <= MAXIMUM_COLLECTION_SIZE
  }

  predicate ManifestsFit(ms: seq<Manifest>) {
    forall k :: 0 <= k < |ms| ==> ManifestFits(ms[k])
  }

  predicate StringsFit(ss: seq<Bytes>) {
    forall k :: 0 <= k < |ss| ==> ShortString(ss[k])
  }

  predicate ArtifactFits(a: Artifact) {
    ShortString(a.path) && |a.warnings| <= MAXIMUM_COLLECTION_SIZE && StringsFit(a.warnings)
  }

  predicate MessageFits(m: Message) {
    match m
    case QueryCapabilities => true
    case Capabilities(ms) => |ms| <= MAXIMUM_COLLECTION_SIZE && ManifestsFit(ms)
    case ExecuteJob(r) => ShortString(r.targetPath) && ShortString(r.outputPath)
    case Progress(e) => ShortString(e.detail)
    case ResultMessage(r) => ShortString(r.detail) && (r.artifact.Some? ==> ArtifactFits(r.artifact.value))
  }

  function FrameOf(m: Message): Bytes {
    PutU32(PROTOCOL_MAGIC, PutU32(PROTOCOL_VERSION, PutU32(TypeOf(m), PutU32(Wrap32(|PayloadOf(m)|), PayloadOf(m)))))
  }

  function Encoded(m: Message): Option<Bytes> {
    if MessageFits(m) && |PayloadOf(m)| <= MAXIMUM_FRAME_SIZE then Some(FrameOf(m)) else None
  }

  // ---- what is read: a value and the bytes after it ----

  datatype Parsed<+T> = Fail | Done(value: T, rest: Bytes) {
    predicate IsFailure() { Fail? }

    function PropagateFailure<U>(): Parsed<U>
      requires Fail?
    {
      Fail
    }

    function Extract(): Parsed<T>
      requires Done?
    {
      this
    }
  }

  function GetU32(s: Bytes): Parsed<U32> {
    Powers();
    if |s| < 4 then Fail else Done(ReadAt(s, 0, 4), s[4..])
  }

  function GetU64(s: Bytes): Parsed<U64> {
    Powers();
    if |s| < 8 then Fail else Done(ReadAt(s, 0, 8), s[8..])
  }

  function GetString(s: Bytes): Parsed<Bytes> {
    var n :- GetU32(s);
    if n.value > MAXIMUM_STRING_SIZE || n.value > |n.rest| then Fail else Done(n.rest[..n.value], n.rest[n.value..])
  }

  /** A word that must decode. */
  function GetWord<T>(s: Bytes, decode: U32 -> Option<T>): Parsed<T> {
    var w :- GetU32(s);
    var v := decode(w.value);
    if v.None? then Fail else Done(v.value, w.rest)
  }

  /** Five words first, then their meanings. */
  function GetDescriptor(s: Bytes): Parsed<Descriptor> {
    var family :- GetU32(s);
    var imageClass :- GetU32(family.rest);
    var architecture :- GetU32(imageClass.rest);
    var kind :- GetU32(architecture.rest);
    var addressing :- GetU32(kind.rest);
    var f, c, a := DecodeFamily(family.value), DecodeClass(imageClass.value), DecodeArchitecture(architecture.value);
    var k, d := DecodeKind(kind.value), DecodeAddressing(addressing.value);
    if f.None? || c.None? || a.None? || k.None? || d.None? then Fail
    else Done(Descriptor(f.value, c.value, a.value, k.value, d.value), addressing.rest)
  }

  function GetDescriptors(s: Bytes, n: nat): (r: Parsed<seq<Descriptor>>)
    decreases n
  {
    if n == 0 then Done([], s)
    else
      var first :- GetDescriptor(s);
      var others :- GetDescriptors(first.rest, n - 1);
      Done([first.value] + others.value, others.rest)
  }

  function GetManifest(s: Bytes): Parsed<Manifest> {
    var id :- GetString(s);
    var count :- GetU32(id.rest);
    if count.value > MAXIMUM_COLLECTION_SIZE then Fail
    else
      var capabilities :- GetDescriptors(count.rest, count.value);
      Done(Manifest(id.value, capabilities.value), capabilities.rest)
  }

  function GetManifests(s: Bytes, n: nat): (r: Parsed<seq<Manifest>>)
    decreases n
  {
    if n == 0 then Done([], s)
    else
      var first :- GetManifest(s);
      var others :- GetManifests(first.rest, n - 1);
      Done([first.value] + others.value, others.rest)
  }

  function GetStrings(s: Bytes, n: nat): (r: Parsed<seq<Bytes>>)
    decreases n
  {
    if n == 0 then Done([], s)
    else
      var first :- GetString(s);
      var others :- GetStrings(first.rest, n - 1);
      Done([first.value] + others.value, others.rest)
  }

  function GetCapabilities(s: Bytes): Parsed<Message> {
    var count :- GetU32(s);
    if count.value > MAXIMUM_COLLECTION_SIZE then Fail
    else
      var manifests :- GetManifests(count.rest, count.value);
      Done(Capabilities(manifests.value), manifests.rest)
  }

  /** The entry hint that flag, kind and value stand for. */
  function EntryOf(present: bool, kind: U32, value: U64): Option<Option<EntryHint>> {
    if present then
      var k := DecodeEntryKind(kind);
      if k.None? then None else Some(Some(EntryHint(k.value, value)))
    else if kind != 0 || value != 0 then None
    else Some(None)
  }

  /** The hint is interpreted once all fields are read. */
  function GetRequest(s: Bytes): Parsed<Message> {
    var target :- GetString(s);
    var output :- GetString(target.rest);
    var hasEntry :- GetWord(output.rest, DecodeFlag);
    var kind :- GetU32(hasEntry.rest);
    var value :- GetU64(kind.rest);
    var timeout :- GetU32(value.rest);
    var maximum :- GetU64(timeout.rest);
    var retain :- GetWord(maximum.rest, DecodeFlag);
    var entry := EntryOf(hasEntry.value, kind.value, value.value);
    if entry.None? then Fail
    else
      Done(ExecuteJob(JobRequest(target.value, output.value, entry.value, timeout.value, maximum.value, retain.value)),
           retain.rest)
  }

  function GetProgress(s: Bytes): Parsed<Message> {
    var stage :- GetWord(s, DecodeStage);
    var detail :- GetString(stage.rest);
    Done(Progress(ProgressEvent(stage.value, detail.value)), detail.rest)
  }

  function GetArtifact(s: Bytes): Parsed<Artifact> {
    var path :- GetString(s);
    var quality :- GetWord(path.rest, DecodeQuality);
    var verified :- GetWord(quality.rest, DecodeFlag);
    var count :- GetU32(verified.rest);
    if count.value > MAXIMUM_COLLECTION_SIZE then Fail
    else
      var warnings :- GetStrings(count.rest, count.value);
      Done(Artifact(path.value, quality.value, verified.value, warnings.value), warnings.rest)
  }

  function GetResult(s: Bytes): Parsed<Message> {
    var outcome :- GetWord(s, DecodeOutcome);
    var category :- GetWord(outcome.rest, DecodeCategory);
    var detail :- GetString(category.rest);
    var native :- GetU32(detail.rest);
    var hasArtifact :- GetWord(native.rest, DecodeFlag);
    if !hasArtifact.value then
      Done(ResultMessage(JobResult(outcome.value, category.value, detail.value, native.value, None)), hasArtifact.rest)
    else
      var artifact :- GetArtifact(hasArtifact.rest);
      Done(ResultMessage(JobResult(outcome.value, category.value, detail.value, native.value, Some(artifact.value))),
           artifact.rest)
  }

  function GetMessage(kind: U32, s: Bytes): Parsed<Message> {
    if kind == QUERY_TYPE then Done(QueryCapabilities, s)
    else if kind == CAPABILITIES_TYPE then GetCapabilities(s)
    else if kind == EXECUTE_TYPE then GetRequest(s)
    else if kind == PROGRESS_TYPE then GetProgress(s)
    else if kind == RESULT_TYPE then GetResult(s)
    else Fail
  }

  datatype FrameHeader = FrameHeader(messageType: U32, payloadSize: U32)

  function DecodedHeader(b: Bytes): Option<FrameHeader> {
    if |b| != FRAME_HEADER_SIZE then None
    else
      var magic, version := GetU32(b), GetU32(b[4..]);
      var kind, size := GetU32(b[8..]), GetU32(b[12..]);
      if magic.value != PROTOCOL_MAGIC || version.value != PROTOCOL_VERSION || size.value > MAXIMUM_FRAME_SIZE then None
      else Some(FrameHeader(kind.value, size.value))
  }

  /** The payload's message, when it is exactly one. */
  function DecodedPayload(header: FrameHeader, payload: Bytes): Option<Message> {
    if |payload| != header.payloadSize then None
    else
      var m := GetMessage(header.messageType, payload);
      if m.Fail? || m.rest != [] then None else Some(m.value)
  }

  /** A whole frame. */
  function Decoded(frame: Bytes): Option<Message> {
    if |frame| < FRAME_HEADER_SIZE then None
    else
      var header := DecodedHeader(frame[..FRAME_HEADER_SIZE]);
      if header.None? then None else DecodedPayload(header.value, frame[FRAME_HEADER_SIZE..])
  }
}
