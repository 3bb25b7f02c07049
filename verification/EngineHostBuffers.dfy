/** Encoding into a growing buffer and decoding with an advancing offset. */
module EngineHostBuffers {
  import opened Bytes
  import opened EngineHostMessages
  import opened EngineHostCodec

  /** A frame under construction. `rest` is what the caller writes next. */
  class FrameWriter {
    var bytes: Bytes

    constructor ()
      ensures bytes == []
    {
      bytes := [];
    }

    /** Appends the `width` low bytes of a value, lowest first. */
    method Append(v: nat, width: nat)
      modifies this
      ensures bytes == old(bytes) + LittleEndian(v, width)
    {
      var shifted, index := v, 0;
      assert LittleEndian(v, width) == [] + LittleEndian(shifted, width - index);
      while index < width
        invariant 0 <= index <= width
        invariant bytes + LittleEndian(shifted, width - index) == old(bytes) + LittleEndian(v, width)
      {
        ghost var before, left := bytes, LittleEndian(shifted, width - index);
        assert left == [shifted % 256] + LittleEndian(shifted / 256, width - index - 1);
        bytes := bytes + [shifted % 256];
        shifted := shifted / 256;
        assert bytes + LittleEndian(shifted, width - index - 1) == before + left;
        index := index + 1;
      }
      assert bytes == bytes + [];
    }

    method AppendU32(v: U32, ghost rest: Bytes)
      modifies this
      ensures bytes + rest == old(bytes) + PutU32(v, rest)
    {
      hide LittleEndian;
      Append(v, 4);
      assert bytes + rest == old(bytes) + PutU32(v, rest);
    }

    method AppendU64(v: U64, ghost rest: Bytes)
      modifies this
      ensures bytes + rest == old(bytes) + PutU64(v, rest)
    {
      hide LittleEndian;
      Append(v, 8);
      assert bytes + rest == old(bytes) + PutU64(v, rest);
    }

    method AppendString(s: Bytes, ghost rest: Bytes) returns (ok: bool)
      modifies this
      ensures ok == ShortString(s)
      ensures ok ==> bytes + rest == old(bytes) + PutString(s, rest)
    {
      hide PutU32;
      if |s| > MAXIMUM_STRING_SIZE {
        return false;
      }
      AppendU32(Wrap32(|s|), s + rest);
      ghost var sized := bytes;
      bytes := bytes + s;
      assert bytes + rest == sized + (s + rest);
      ok := true;
    }

    method AppendDescriptor(d: Descriptor, ghost rest: Bytes)
      modifies this
      ensures bytes + rest == old(bytes) + PutDescriptor(d, rest)
    {
      hide PutU32;
      ghost var e := PutU32(EncodeAddressing(d.addressing), rest);
      ghost var k := PutU32(EncodeKind(d.imageKind), e);
      ghost var a := PutU32(EncodeArchitecture(d.architecture), k);
      AppendU32(EncodeFamily(d.family), PutU32(EncodeClass(d.imageClass), a));
      AppendU32(EncodeClass(d.imageClass), a);
      AppendU32(EncodeArchitecture(d.architecture), k);
      AppendU32(EncodeKind(d.imageKind), e);
      AppendU32(EncodeAddressing(d.addressing), rest);
    }

    method AppendManifest(m: Manifest, ghost rest: Bytes) returns (ok: bool)
      modifies this
      ensures ok == ManifestFits(m)
      ensures ok ==> bytes + rest == old(bytes) + PutManifest(m, rest)
    {
      hide PutU32, PutString, PutDescriptor;
      ghost var all := PutDescriptors(m.capabilities, rest);
      var written := AppendString(m.backendId, PutU32(Wrap32(|m.capabilities|), all));
      if !written || |m.capabilities| > MAXIMUM_COLLECTION_SIZE {
        return false;
      }
      AppendU32(Wrap32(|m.capabilities|), all);
      ghost var target := bytes + all;
      var index := 0;
      assert m.capabilities[0..] == m.capabilities;
      while index < |m.capabilities|
        invariant 0 <= index <= |m.capabilities| && bytes + PutDescriptors(m.capabilities[index..], rest) == target
      {
        assert m.capabilities[index..][1..] == m.capabilities[index + 1..];
        AppendDescriptor(m.capabilities[index], PutDescriptors(m.capabilities[index + 1..], rest));
        index := index + 1;
      }
      ok := true;
    }

    method AppendManifests(ms: seq<Manifest>, ghost rest: Bytes) returns (ok: bool)
      modifies this
      ensures ok == ManifestsFit(ms)
      ensures ok ==> bytes + rest == old(bytes) + PutManifests(ms, rest)
    {
      hide PutManifest, ManifestFits;
      var index := 0;
      assert ms[0..] == ms;
      while index < |ms|
        invariant 0 <= index <= |ms| && ManifestsFit(ms[..index])
        invariant bytes + PutManifests(ms[index..], rest) == old(bytes) + PutManifests(ms, rest)
      {
        assert ms[index..][1..] == ms[index + 1..];
        var written := AppendManifest(ms[index], PutManifests(ms[index + 1..], rest));
        if !written {
          return false;
        }
        assert ms[..index + 1] == ms[..index] + [ms[index]];
        index := index + 1;
      }
      assert ms[..index] == ms;
      ok := true;
    }

    method AppendStrings(ss: seq<Bytes>, ghost rest: Bytes) returns (ok: bool)
      modifies this
      ensures ok == StringsFit(ss)
      ensures ok ==> bytes + rest == old(bytes) + PutStrings(ss, rest)
    {
      hide PutString, ShortString;
      var index := 0;
      assert ss[0..] == ss;
      while index < |ss|
        invariant 0 <= index <= |ss| && StringsFit(ss[..index])
        invariant bytes + PutStrings(ss[index..], rest) == old(bytes) + PutStrings(ss, rest)
      {
        assert ss[index..][1..] == ss[index + 1..];
        var written := AppendString(ss[index], PutStrings(ss[index + 1..], rest));
        if !written {
          return false;
        }
        assert ss[..index + 1] == ss[..index] + [ss[index]];
        index := index + 1;
      }
      assert ss[..index] == ss;
      ok := true;
    }

    method AppendEntry(e: Option<EntryHint>, ghost rest: Bytes)
      modifies this
      ensures bytes + rest == old(bytes) + PutEntry(e, rest)
    {
      hide PutU32, PutU64;
      var kind, value := if e.Some? then EncodeEntryKind(e.value.kind) else 0, if e.Some? then e.value.value else 0;
      AppendU32(EncodeFlag(e.Some?), PutU32(kind, PutU64(value, rest)));
      AppendU32(kind, PutU64(value, rest));
      AppendU64(value, rest);
    }

    method AppendRequest(r: JobRequest, ghost rest: Bytes) returns (ok: bool)
      modifies this
      ensures ok == (ShortString(r.targetPath) && ShortString(r.outputPath))
      ensures ok ==> bytes + rest == old(bytes) + PutRequest(r, rest)
    {
      hide PutU32, PutU64, PutString, PutEntry, ShortString;
      ghost var retain := PutU32(EncodeFlag(r.retainFailedOutput), rest);
      ghost var maximum := PutU64(r.maximumImageSize, retain);
      ghost var timeout := PutU32(r.timeout, maximum);
      ghost var entry := PutEntry(r.entryPoint, timeout);
      ok := AppendString(r.targetPath, PutString(r.outputPath, entry));
      if !ok {
        return;
      }
      ok := AppendString(r.outputPath, entry);
      if !ok {
        return;
      }
      AppendEntry(r.entryPoint, timeout);
      AppendU32(r.timeout, maximum);
      AppendU64(r.maximumImageSize, retain);
      AppendU32(EncodeFlag(r.retainFailedOutput), rest);
    }

    method AppendArtifact(a: Artifact, ghost rest: Bytes) returns (ok: bool)
      modifies this
      ensures ok == ArtifactFits(a)
      ensures ok ==> bytes + rest == old(bytes) + PutArtifact(a, rest)
    {
      hide PutU32, PutString, PutStrings, ShortString, StringsFit;
      ghost var strings := PutStrings(a.warnings, rest);
      ghost var count := PutU32(Wrap32(|a.warnings|), strings);
      ghost var verified := PutU32(EncodeFlag(a.loaderVerified), count);
      ok := AppendString(a.path, PutU32(EncodeQuality(a.quality), verified));
      if !ok {
        return;
      }
      AppendU32(EncodeQuality(a.quality), verified);
      AppendU32(EncodeFlag(a.loaderVerified), count);
      if |a.warnings| > MAXIMUM_COLLECTION_SIZE {
        return false;
      }
      AppendU32(Wrap32(|a.warnings|), strings);
      ok := AppendStrings(a.warnings, rest);
    }

    method AppendResult(r: JobResult, ghost rest: Bytes) returns (ok: bool)
      modifies this
      ensures ok == MessageFits(ResultMessage(r))
      ensures ok ==> bytes + rest == old(bytes) + PutResult(r, rest)
    {
      hide PutU32, PutString, PutArtifact, ShortString, ArtifactFits;
      ghost var artifact := if r.artifact.Some? then PutArtifact(r.artifact.value, rest) else rest;
      ghost var flag := PutU32(EncodeFlag(r.artifact.Some?), artifact);
      ghost var native := PutU32(r.nativeCode, flag);
      ghost var detail := PutString(r.detail, native);
      AppendU32(EncodeOutcome(r.outcome), PutU32(EncodeCategory(r.category), detail));
      AppendU32(EncodeCategory(r.category), detail);
      ok := AppendString(r.detail, native);
      if !ok {
        return;
      }
      AppendU32(r.nativeCode, flag);
      AppendU32(EncodeFlag(r.artifact.Some?), artifact);
      if r.artifact.Some? {
        ok := AppendArtifact(r.artifact.value, rest);
      }
    }

    /** The payload of a message, in an empty buffer. */
    method AppendPayload(m: Message) returns (ok: bool)
      requires bytes == []
      modifies this
      ensures ok == MessageFits(m)
      ensures ok ==> bytes == PayloadOf(m)
    {
      hide PutU32, PutString, PutManifests, PutRequest, PutResult, ManifestsFit, ShortString, ArtifactFits;
      match m {
        case QueryCapabilities =>
          ok := true;
        case Capabilities(ms) =>
          if |ms| > MAXIMUM_COLLECTION_SIZE {
            return false;
          }
          AppendU32(Wrap32(|ms|), PutManifests(ms, []));
          ok := AppendManifests(ms, []);
        case ExecuteJob(r) =>
          ok := AppendRequest(r, []);
        case Progress(e) =>
          AppendU32(EncodeStage(e.stage), PutString(e.detail, []));
          ok := AppendString(e.detail, []);
        case ResultMessage(r) =>
          ok := AppendResult(r, []);
      }
      assert bytes == bytes + [] && old(bytes) + PayloadOf(m) == PayloadOf(m);
    }
  }

  /** The frame of a message, if it can be written. */
  method Encode(m: Message) returns (frame: Option<Bytes>)
    ensures frame == Encoded(m)
  {
    hide PutU32, PayloadOf, MessageFits;
    var payload := new FrameWriter();
    var ok := payload.AppendPayload(m);
    if !ok || |payload.bytes| > MAXIMUM_FRAME_SIZE {
      return None;
    }
    var header := new FrameWriter();
    ghost var size := PutU32(Wrap32(|payload.bytes|), payload.bytes);
    ghost var kind := PutU32(TypeOf(m), size);
    header.AppendU32(PROTOCOL_MAGIC, PutU32(PROTOCOL_VERSION, kind));
    header.AppendU32(PROTOCOL_VERSION, kind);
    header.AppendU32(TypeOf(m), size);
    header.AppendU32(Wrap32(|payload.bytes|), payload.bytes);
    assert header.bytes + payload.bytes == [] + FrameOf(m) == FrameOf(m);
    frame := Some(header.bytes + payload.bytes);
  }

  // ---- reading ----

  /** A read gave what the parser gives, and left what the parser leaves. */
  ghost predicate Agrees<T>(p: Parsed<T>, r: Option<T>, rest: Bytes) {
    match p
    case Fail => r == None
    case Done(value, after) => r == Some(value) && rest == after
  }

  /** A payload being read; the offset only moves forward. */
  class FrameReader {
    const bytes: Bytes
    var offset: nat

    constructor (payload: Bytes)
      ensures bytes == payload && offset == 0 && Valid() && Rest() == payload
    {
      bytes := payload;
      offset := 0;
    }

    predicate Valid()
      reads this
    {
      offset <= |bytes|
    }

    function Rest(): Bytes
      reads this
      requires Valid()
    {
      bytes[offset..]
    }

    /** The value of the next `width` bytes, lowest first. */
    method Read(width: nat) returns (v: Option<nat>)
      requires Valid()
      modifies this
      ensures Valid() && old(offset) <= offset
      ensures v.Some? <==> width <= |old(Rest())|
      ensures v.Some? ==> v.value == ReadAt(old(Rest()), 0, width) && Rest() == old(Rest())[width..]
    {
      if width > |bytes| - offset {
        return None;
      }
      var start := offset;
      var value: nat, scale: nat, index: nat := 0, 1, 0;
      while index < width
        invariant 0 <= index <= width && offset == start + index && start + width <= |bytes|
        invariant scale == Pow256(index) && value == Unsigned(bytes[start..start + index])
      {
        NextDigit(bytes[start..start + index], bytes[offset]);
        assert bytes[start..start + index + 1] == bytes[start..start + index] + [bytes[offset]];
        value := value + bytes[offset] * scale;
        scale := 256 * scale;
        offset := offset + 1;
        index := index + 1;
      }
      assert Slice(old(Rest()), 0, width) == bytes[start..start + width];
      v := Some(value);
    }

    method ReadU32() returns (v: Option<U32>)
      requires Valid()
      modifies this
      ensures Valid() && Agrees(GetU32(old(Rest())), v, Rest())
    {
      hide ReadAt;
      Powers();
      var read := Read(4);
      v := if read.Some? then Some(read.value) else None;
    }

    method ReadU64() returns (v: Option<U64>)
      requires Valid()
      modifies this
      ensures Valid() && Agrees(GetU64(old(Rest())), v, Rest())
    {
      hide ReadAt;
      Powers();
      var read := Read(8);
      v := if read.Some? then Some(read.value) else None;
    }

    method ReadString() returns (v: Option<Bytes>)
      requires Valid()
      modifies this
      ensures Valid() && Agrees(GetString(old(Rest())), v, Rest())
    {
      hide GetU32;
      var size := ReadU32();
      if size == None || size.value > MAXIMUM_STRING_SIZE || size.value > |bytes| - offset {
        return None;
      }
      v := Some(bytes[offset..offset + size.value]);
      assert Rest()[..size.value] == v.value && Rest()[size.value..] == bytes[offset + size.value..];
      offset := offset + size.value;
    }

    method ReadWord<T(==)>(decode: U32 -> Option<T>) returns (v: Option<T>)
      requires Valid()
      modifies this
      ensures Valid() && Agrees(GetWord(old(Rest()), decode), v, Rest())
    {
      hide GetU32;
      var w := ReadU32();
      v := if w == None then None else decode(w.value);
    }

    method ReadDescriptor() returns (v: Option<Descriptor>)
      requires Valid()
      modifies this
      ensures Valid() && Agrees(GetDescriptor(old(Rest())), v, Rest())
    {
      hide GetU32;
      var family := ReadU32();
      if family == None {
        return None;
      }
      var imageClass := ReadU32();
      if imageClass == None {
        return None;
      }
      var architecture := ReadU32();
      if architecture == None {
        return None;
      }
      var kind := ReadU32();
      if kind == None {
        return None;
      }
      var addressing := ReadU32();
      if addressing == None {
        return None;
      }
      var f, c, a := DecodeFamily(family.value), DecodeClass(imageClass.value), DecodeArchitecture(architecture.value);
      var k, d := DecodeKind(kind.value), DecodeAddressing(addressing.value);
      if f == None || c == None || a == None || k == None || d == None {
        return None;
      }
      v := Some(Descriptor(f.value, c.value, a.value, k.value, d.value));
    }

    method ReadManifest() returns (v: Option<Manifest>)
      requires Valid()
      modifies this
      ensures Valid() && Agrees(GetManifest(old(Rest())), v, Rest())
    {
      hide GetU32, GetString, GetDescriptor;
      var id := ReadString();
      if id == None {
        return None;
      }
      var count := ReadU32();
      if count == None || count.value > MAXIMUM_COLLECTION_SIZE {
        return None;
      }
      ghost var all := GetDescriptors(Rest(), count.value);
      var capabilities: seq<Descriptor> := [];
      PrefixedNothing(all);
      var index := 0;
      while index < count.value
        invariant 0 <= index <= count.value && Valid()
        invariant all == Prefixed(capabilities, GetDescriptors(Rest(), count.value - index))
      {
        var d := ReadDescriptor();
        if d == None {
          return None;
        }
        PrefixedMore(capabilities, d.value, GetDescriptors(Rest(), count.value - index - 1));
        capabilities := capabilities + [d.value];
        index := index + 1;
      }
      assert capabilities + [] == capabilities;
      v := Some(Manifest(id.value, capabilities));
    }

    method ReadManifests(count: nat) returns (v: Option<seq<Manifest>>)
      requires Valid()
      modifies this
      ensures Valid() && Agrees(GetManifests(old(Rest()), count), v, Rest())
    {
      hide GetManifest;
      var manifests: seq<Manifest> := [];
      PrefixedNothing(GetManifests(Rest(), count));
      var index := 0;
      while index < count
        invariant 0 <= index <= count && Valid()
        invariant GetManifests(old(Rest()), count) == Prefixed(manifests, GetManifests(Rest(), count - index))
      {
        var m := ReadManifest();
        if m == None {
          return None;
        }
        PrefixedMore(manifests, m.value, GetManifests(Rest(), count - index - 1));
        manifests := manifests + [m.value];
        index := index + 1;
      }
      assert manifests + [] == manifests;
      v := Some(manifests);
    }

    method ReadStrings(count: nat) returns (v: Option<seq<Bytes>>)
      requires Valid()
      modifies this
      ensures Valid() && Agrees(GetStrings(old(Rest()), count), v, Rest())
    {
      hide GetString;
      var strings: seq<Bytes> := [];
      PrefixedNothing(GetStrings(Rest(), count));
      var index := 0;
      while index < count
        invariant 0 <= index <= count && Valid()
        invariant GetStrings(old(Rest()), count) == Prefixed(strings, GetStrings(Rest(), count - index))
      {
        var s := ReadString();
        if s == None {
          return None;
        }
        PrefixedMore(strings, s.value, GetStrings(Rest(), count - index - 1));
        strings := strings + [s.value];
        index := index + 1;
      }
      assert strings + [] == strings;
      v := Some(strings);
    }

    method ReadRequest() returns (v: Option<Message>)
      requires Valid()
      modifies this
      ensures Valid() && Agrees(GetRequest(old(Rest())), v, Rest())
    {
      hide GetU32, GetU64, GetString, GetWord;
      var target := ReadString();
      if target == None {
        return None;
      }
      var output := ReadString();
      if output == None {
        return None;
      }
      var hasEntry := ReadWord(DecodeFlag);
      if hasEntry == None {
        return None;
      }
      var kind := ReadU32();
      if kind == None {
        return None;
      }
      var value := ReadU64();
      if value == None {
        return None;
      }
      var timeout := ReadU32();
      if timeout == None {
        return None;
      }
      var maximum := ReadU64();
      if maximum == None {
        return None;
      }
      var retain := ReadWord(DecodeFlag);
      if retain == None {
        return None;
      }
      var entry := EntryOf(hasEntry.value, kind.value, value.value);
      if entry == None {
        return None;
      }
      v := Some(ExecuteJob(JobRequest(target.value, output.value, entry.value, timeout.value, maximum.value, retain.value)));
    }

    method ReadArtifact() returns (v: Option<Artifact>)
      requires Valid()
      modifies this
      ensures Valid() && Agrees(GetArtifact(old(Rest())), v, Rest())
    {
      hide GetU32, GetString, GetWord, GetStrings;
      var path := ReadString();
      if path == None {
        return None;
      }
      var quality := ReadWord(DecodeQuality);
      if quality == None {
        return None;
      }
      var verified := ReadWord(DecodeFlag);
      if verified == None {
        return None;
      }
      var count := ReadU32();
      if count == None || count.value > MAXIMUM_COLLECTION_SIZE {
        return None;
      }
      var warnings := ReadStrings(count.value);
      if warnings == None {
        return None;
      }
      v := Some(Artifact(path.value, quality.value, verified.value, warnings.value));
    }

    method ReadResult() returns (v: Option<Message>)
      requires Valid()
      modifies this
      ensures Valid() && Agrees(GetResult(old(Rest())), v, Rest())
    {
      hide GetU32, GetString, GetWord, GetArtifact;
      var outcome := ReadWord(DecodeOutcome);
      if outcome == None {
        return None;
      }
      var category := ReadWord(DecodeCategory);
      if category == None {
        return None;
      }
      var detail := ReadString();
      if detail == None {
        return None;
      }
      var native := ReadU32();
      if native == None {
        return None;
      }
      var hasArtifact := ReadWord(DecodeFlag);
      if hasArtifact == None {
        return None;
      }
      if !hasArtifact.value {
        return Some(ResultMessage(JobResult(outcome.value, category.value, detail.value, native.value, None)));
      }
      var artifact := ReadArtifact();
      if artifact == None {
        return None;
      }
      v := Some(ResultMessage(JobResult(outcome.value, category.value, detail.value, native.value, Some(artifact.value))));
    }

    method ReadMessage(kind: U32) returns (v: Option<Message>)
      requires Valid()
      modifies this
      ensures Valid() && Agrees(GetMessage(kind, old(Rest())), v, Rest())
    {
      hide GetU32, GetString, GetWord, GetManifests, GetRequest, GetResult;
      if kind == QUERY_TYPE {
        return Some(QueryCapabilities);
      }
      if kind == CAPABILITIES_TYPE {
        var count := ReadU32();
        if count == None || count.value > MAXIMUM_COLLECTION_SIZE {
          return None;
        }
        var manifests := ReadManifests(count.value);
        return if manifests == None then None else Some(Capabilities(manifests.value));
      }
      if kind == EXECUTE_TYPE {
        v := ReadRequest();
        return;
      }
      if kind == PROGRESS_TYPE {
        var stage := ReadWord(DecodeStage);
        if stage == None {
          return None;
        }
        var detail := ReadString();
        return if detail == None then None else Some(Progress(ProgressEvent(stage.value, detail.value)));
      }
      if kind == RESULT_TYPE {
        v := ReadResult();
        return;
      }
      v := None;
    }
  }

  lemma NextDigit(s: Bytes, d: Byte)
    ensures Unsigned(s + [d]) == Unsigned(s) + d * Pow256(|s|)
  {
    hide Pow256;
    UnsignedAppend(s, [d]);
    OneDigit(d);
  }

  lemma OneDigit(d: Byte)
    ensures Unsigned([d]) == d
  {
    assert [d][1..] == [];
  }

  /** A list parse with `first` already read. */
  ghost function Prefixed<T>(first: seq<T>, p: Parsed<seq<T>>): Parsed<seq<T>> {
    match p
    case Fail => Fail
    case Done(value, rest) => Done(first + value, rest)
  }

  lemma PrefixedNothing<T>(p: Parsed<seq<T>>)
    ensures Prefixed([], p) == p
  {
    if p.Done? {
      assert [] + p.value == p.value;
    }
  }

  lemma PrefixedMore<T>(first: seq<T>, x: T, p: Parsed<seq<T>>)
    ensures Prefixed(first + [x], p) == Prefixed(first, Prefixed([x], p))
  {
    if p.Done? {
      assert first + [x] + p.value == first + ([x] + p.value);
    }
  }

  method DecodePayload(header: FrameHeader, payload: Bytes) returns (m: Option<Message>)
    ensures m == DecodedPayload(header, payload)
  {
    hide GetMessage;
    if |payload| != header.payloadSize {
      return None;
    }
    var reader := new FrameReader(payload);
    m := reader.ReadMessage(header.messageType);
    if reader.offset != |payload| {
      return None;
    }
  }

  method DecodeHeader(b: Bytes) returns (header: Option<FrameHeader>)
    ensures header == DecodedHeader(b)
  {
    if |b| != FRAME_HEADER_SIZE {
      return None;
    }
    var reader := new FrameReader(b);
    var magic := reader.ReadU32();
    var version := reader.ReadU32();
    var kind := reader.ReadU32();
    var size := reader.ReadU32();
    assert b[4..][4..] == b[8..] && b[8..][4..] == b[12..];
    if magic.value != PROTOCOL_MAGIC || version.value != PROTOCOL_VERSION || size.value > MAXIMUM_FRAME_SIZE {
      return None;
    }
    header := Some(FrameHeader(kind.value, size.value));
  }
}
