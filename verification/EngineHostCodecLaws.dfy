/** The codec is a bijection between the messages it can write and the frames
    it accepts. */
module EngineHostCodecLaws {
  import opened Bytes
  import opened EngineHostMessages
  import opened EngineHostCodec

  // ---- words and strings ----

  lemma WordRead(v: U32, rest: Bytes)
    ensures GetU32(PutU32(v, rest)) == Done(v, rest)
  {
    hide LittleEndian, Unsigned;
    Powers();
    UnsignedOfLittleEndian(v, 4);
    var s := PutU32(v, rest);
    assert Slice(s, 0, 4) == LittleEndian(v, 4) && s[4..] == rest;
  }

  lemma WordWritten(s: Bytes)
    requires GetU32(s).Done?
    ensures s == PutU32(GetU32(s).value, GetU32(s).rest)
  {
    hide LittleEndian, Unsigned;
    Powers();
    LittleEndianOfUnsigned(Slice(s, 0, 4));
    assert s == Slice(s, 0, 4) + s[4..];
  }

  lemma LongRead(v: U64, rest: Bytes)
    ensures GetU64(PutU64(v, rest)) == Done(v, rest)
  {
    hide LittleEndian, Unsigned;
    Powers();
    UnsignedOfLittleEndian(v, 8);
    var s := PutU64(v, rest);
    assert Slice(s, 0, 8) == LittleEndian(v, 8) && s[8..] == rest;
  }

  lemma LongWritten(s: Bytes)
    requires GetU64(s).Done?
    ensures s == PutU64(GetU64(s).value, GetU64(s).rest)
  {
    hide LittleEndian, Unsigned;
    Powers();
    LittleEndianOfUnsigned(Slice(s, 0, 8));
    assert s == Slice(s, 0, 8) + s[8..];
  }

  lemma StringRead(s: Bytes, rest: Bytes)
    requires ShortString(s)
    ensures GetString(PutString(s, rest)) == Done(s, rest)
  {
    hide GetU32, PutU32;
    WrapSmall(|s|);
    WordRead(|s|, s + rest);
  }

  lemma StringWritten(b: Bytes)
    requires GetString(b).Done?
    ensures ShortString(GetString(b).value) && b == PutString(GetString(b).value, GetString(b).rest)
  {
    hide GetU32, PutU32;
    WordWritten(b);
    var n := GetU32(b);
    WrapSmall(n.value);
    assert n.rest == n.rest[..n.value] + n.rest[n.value..];
  }

  // ---- descriptors, manifests, lists ----

  lemma DescriptorRead(d: Descriptor, rest: Bytes)
    ensures GetDescriptor(PutDescriptor(d, rest)) == Done(d, rest)
  {
    hide GetU32, PutU32;
    var e := PutU32(EncodeAddressing(d.addressing), rest);
    var k := PutU32(EncodeKind(d.imageKind), e);
    var a := PutU32(EncodeArchitecture(d.architecture), k);
    var c := PutU32(EncodeClass(d.imageClass), a);
    WordRead(EncodeFamily(d.family), c);
    WordRead(EncodeClass(d.imageClass), a);
    WordRead(EncodeArchitecture(d.architecture), k);
    WordRead(EncodeKind(d.imageKind), e);
    WordRead(EncodeAddressing(d.addressing), rest);
  }

  lemma DescriptorWritten(s: Bytes)
    requires GetDescriptor(s).Done?
    ensures s == PutDescriptor(GetDescriptor(s).value, GetDescriptor(s).rest)
  {
    hide GetU32, PutU32;
    var f := GetU32(s);
    var c := GetU32(f.rest);
    var a := GetU32(c.rest);
    var k := GetU32(a.rest);
    WordWritten(s);
    WordWritten(f.rest);
    WordWritten(c.rest);
    WordWritten(a.rest);
    WordWritten(k.rest);
  }

  lemma {:induction false} DescriptorsRead(ds: seq<Descriptor>, rest: Bytes)
    ensures GetDescriptors(PutDescriptors(ds, rest), |ds|) == Done(ds, rest)
  {
    hide GetDescriptor, PutDescriptor;
    if ds != [] {
      assert ds == [ds[0]] + ds[1..];
      DescriptorsRead(ds[1..], rest);
      DescriptorRead(ds[0], PutDescriptors(ds[1..], rest));
    }
  }

  lemma {:induction false} DescriptorsWritten(s: Bytes, n: nat)
    requires GetDescriptors(s, n).Done?
    ensures |GetDescriptors(s, n).value| == n && s == PutDescriptors(GetDescriptors(s, n).value, GetDescriptors(s, n).rest)
    decreases n
  {
    hide GetDescriptor, PutDescriptor;
    if n > 0 {
      DescriptorWritten(s);
      DescriptorsWritten(GetDescriptor(s).rest, n - 1);
      assert GetDescriptors(s, n).value[1..] == GetDescriptors(GetDescriptor(s).rest, n - 1).value;
    }
  }

  lemma ManifestRead(m: Manifest, rest: Bytes)
    requires ManifestFits(m)
    ensures GetManifest(PutManifest(m, rest)) == Done(m, rest)
  {
    hide GetU32, PutU32, GetString, PutString, GetDescriptors, PutDescriptors;
    var tail := PutDescriptors(m.capabilities, rest);
    WrapSmall(|m.capabilities|);
    StringRead(m.backendId, PutU32(|m.capabilities|, tail));
    WordRead(|m.capabilities|, tail);
    DescriptorsRead(m.capabilities, rest);
  }

  lemma ManifestWritten(s: Bytes)
    requires GetManifest(s).Done?
    ensures ManifestFits(GetManifest(s).value) && s == PutManifest(GetManifest(s).value, GetManifest(s).rest)
  {
    hide GetU32, PutU32, GetString, PutString, GetDescriptors, PutDescriptors;
    StringWritten(s);
    var count := GetU32(GetString(s).rest);
    WordWritten(GetString(s).rest);
    DescriptorsWritten(count.rest, count.value);
    WrapSmall(count.value);
  }

  lemma {:induction false} ManifestsRead(ms: seq<Manifest>, rest: Bytes)
    requires ManifestsFit(ms)
    ensures GetManifests(PutManifests(ms, rest), |ms|) == Done(ms, rest)
  {
    hide GetManifest, PutManifest, ManifestFits;
    if ms != [] {
      assert ms == [ms[0]] + ms[1..];
      ManifestsRead(ms[1..], rest);
      ManifestRead(ms[0], PutManifests(ms[1..], rest));
    }
  }

  lemma {:induction false} ManifestsWritten(s: Bytes, n: nat)
    requires GetManifests(s, n).Done?
    ensures |GetManifests(s, n).value| == n && ManifestsFit(GetManifests(s, n).value)
    ensures s == PutManifests(GetManifests(s, n).value, GetManifests(s, n).rest)
    decreases n
  {
    hide GetManifest, PutManifest, ManifestFits;
    if n > 0 {
      ManifestWritten(s);
      ManifestsWritten(GetManifest(s).rest, n - 1);
      assert GetManifests(s, n).value[1..] == GetManifests(GetManifest(s).rest, n - 1).value;
    }
  }

  lemma {:induction false} StringsRead(ss: seq<Bytes>, rest: Bytes)
    requires StringsFit(ss)
    ensures GetStrings(PutStrings(ss, rest), |ss|) == Done(ss, rest)
  {
    hide GetString, PutString, ShortString;
    if ss != [] {
      assert ss == [ss[0]] + ss[1..];
      StringsRead(ss[1..], rest);
      StringRead(ss[0], PutStrings(ss[1..], rest));
    }
  }

  lemma {:induction false} StringsWritten(s: Bytes, n: nat)
    requires GetStrings(s, n).Done?
    ensures |GetStrings(s, n).value| == n && StringsFit(GetStrings(s, n).value)
    ensures s == PutStrings(GetStrings(s, n).value, GetStrings(s, n).rest)
    decreases n
  {
    hide GetString, PutString, ShortString;
    if n > 0 {
      StringWritten(s);
      StringsWritten(GetString(s).rest, n - 1);
      assert GetStrings(s, n).value[1..] == GetStrings(GetString(s).rest, n - 1).value;
    }
  }

  // ---- messages ----

  lemma FlagRead(v: bool, rest: Bytes)
    ensures GetWord(PutU32(EncodeFlag(v), rest), DecodeFlag) == Done(v, rest)
  {
    hide GetU32, PutU32;
    WordRead(EncodeFlag(v), rest);
  }

  lemma FlagWritten(s: Bytes)
    requires GetWord(s, DecodeFlag).Done?
    ensures s == PutU32(EncodeFlag(GetWord(s, DecodeFlag).value), GetWord(s, DecodeFlag).rest)
  {
    hide GetU32, PutU32;
    WordWritten(s);
  }

  lemma RequestRead(r: JobRequest)
    requires ShortString(r.targetPath) && ShortString(r.outputPath)
    ensures GetRequest(PutRequest(r, [])) == Done(ExecuteJob(r), [])
  {
    hide GetU32, PutU32, GetU64, PutU64, GetString, PutString, GetWord;
    var retain := PutU32(EncodeFlag(r.retainFailedOutput), []);
    var maximum := PutU64(r.maximumImageSize, retain);
    var timeout := PutU32(r.timeout, maximum);
    var e := r.entryPoint;
    var kind, value := if e.Some? then EncodeEntryKind(e.value.kind) else 0, if e.Some? then e.value.value else 0;
    var valueOn := PutU64(value, timeout);
    var kindOn := PutU32(kind, valueOn);
    var entryOn := PutU32(EncodeFlag(e.Some?), kindOn);
    var output := PutString(r.outputPath, entryOn);
    StringRead(r.targetPath, output);
    StringRead(r.outputPath, entryOn);
    FlagRead(e.Some?, kindOn);
    WordRead(kind, valueOn);
    LongRead(value, timeout);
    WordRead(r.timeout, maximum);
    LongRead(r.maximumImageSize, retain);
    FlagRead(r.retainFailedOutput, []);
  }

  lemma RequestWritten(s: Bytes)
    requires GetRequest(s).Done?
    ensures GetRequest(s).value.ExecuteJob? && MessageFits(GetRequest(s).value)
    ensures s == PutRequest(GetRequest(s).value.request, GetRequest(s).rest)
  {
    hide GetU32, PutU32, GetU64, PutU64, GetString, PutString, GetWord, ShortString;
    var target := GetString(s);
    var output := GetString(target.rest);
    var hasEntry := GetWord(output.rest, DecodeFlag);
    var kind := GetU32(hasEntry.rest);
    var value := GetU64(kind.rest);
    var timeout := GetU32(value.rest);
    var maximum := GetU64(timeout.rest);
    StringWritten(s);
    StringWritten(target.rest);
    FlagWritten(output.rest);
    WordWritten(hasEntry.rest);
    LongWritten(kind.rest);
    WordWritten(value.rest);
    LongWritten(timeout.rest);
    FlagWritten(maximum.rest);
  }

  lemma ArtifactRead(a: Artifact, rest: Bytes)
    requires ArtifactFits(a)
    ensures GetArtifact(PutArtifact(a, rest)) == Done(a, rest)
  {
    hide GetU32, PutU32, GetString, PutString, GetStrings, PutStrings, StringsFit;
    WrapSmall(|a.warnings|);
    var strings := PutStrings(a.warnings, rest);
    var count := PutU32(|a.warnings|, strings);
    var verified := PutU32(EncodeFlag(a.loaderVerified), count);
    StringRead(a.path, PutU32(EncodeQuality(a.quality), verified));
    WordRead(EncodeQuality(a.quality), verified);
    FlagRead(a.loaderVerified, count);
    WordRead(|a.warnings|, strings);
    StringsRead(a.warnings, rest);
  }

  lemma ArtifactWritten(s: Bytes)
    requires GetArtifact(s).Done?
    ensures ArtifactFits(GetArtifact(s).value) && s == PutArtifact(GetArtifact(s).value, GetArtifact(s).rest)
  {
    hide GetU32, PutU32, GetString, PutString, GetStrings, PutStrings, StringsFit;
    var path := GetString(s);
    var quality := GetWord(path.rest, DecodeQuality);
    var verified := GetWord(quality.rest, DecodeFlag);
    var count := GetU32(verified.rest);
    StringWritten(s);
    WordWritten(path.rest);
    FlagWritten(quality.rest);
    WordWritten(verified.rest);
    StringsWritten(count.rest, count.value);
    WrapSmall(count.value);
  }

  lemma ResultRead(r: JobResult)
    requires MessageFits(ResultMessage(r))
    ensures GetResult(PutResult(r, [])) == Done(ResultMessage(r), [])
  {
    hide GetU32, PutU32, GetString, PutString, GetArtifact, PutArtifact, ArtifactFits, ShortString;
    var artifact := if r.artifact.Some? then PutArtifact(r.artifact.value, []) else [];
    var flag := PutU32(EncodeFlag(r.artifact.Some?), artifact);
    var native := PutU32(r.nativeCode, flag);
    var detail := PutString(r.detail, native);
    WordRead(EncodeOutcome(r.outcome), PutU32(EncodeCategory(r.category), detail));
    WordRead(EncodeCategory(r.category), detail);
    StringRead(r.detail, native);
    WordRead(r.nativeCode, flag);
    FlagRead(r.artifact.Some?, artifact);
    if r.artifact.Some? {
      ArtifactRead(r.artifact.value, []);
    }
  }

  lemma ResultWritten(s: Bytes)
    requires GetResult(s).Done?
    ensures GetResult(s).value.ResultMessage? && MessageFits(GetResult(s).value)
    ensures s == PutResult(GetResult(s).value.result, GetResult(s).rest)
  {
    hide GetU32, PutU32, GetString, PutString, GetArtifact, PutArtifact, ArtifactFits, ShortString;
    var outcome := GetWord(s, DecodeOutcome);
    var category := GetWord(outcome.rest, DecodeCategory);
    var detail := GetString(category.rest);
    var native := GetU32(detail.rest);
    var hasArtifact := GetWord(native.rest, DecodeFlag);
    WordWritten(s);
    WordWritten(outcome.rest);
    StringWritten(category.rest);
    WordWritten(detail.rest);
    FlagWritten(native.rest);
    if hasArtifact.value {
      ArtifactWritten(hasArtifact.rest);
    }
  }

  lemma PayloadRead(m: Message)
    requires MessageFits(m)
    ensures GetMessage(TypeOf(m), PayloadOf(m)) == Done(m, [])
  {
    hide GetU32, PutU32, GetString, PutString, GetManifests, PutManifests, ManifestsFit, GetRequest, PutRequest, GetResult, PutResult;
    match m
    case QueryCapabilities =>
    case Capabilities(ms) =>
      WrapSmall(|ms|);
      WordRead(|ms|, PutManifests(ms, []));
      ManifestsRead(ms, []);
    case ExecuteJob(r) =>
      RequestRead(r);
    case Progress(e) =>
      WordRead(EncodeStage(e.stage), PutString(e.detail, []));
      StringRead(e.detail, []);
    case ResultMessage(r) =>
      ResultRead(r);
  }

  lemma PayloadWritten(kind: U32, s: Bytes)
    requires GetMessage(kind, s).Done? && GetMessage(kind, s).rest == []
    ensures var m := GetMessage(kind, s).value; TypeOf(m) == kind && MessageFits(m) && s == PayloadOf(m)
  {
    hide GetU32, PutU32, GetString, PutString, GetManifests, PutManifests, ManifestsFit, GetRequest, PutRequest, GetResult, PutResult;
    if kind == CAPABILITIES_TYPE {
      var count := GetU32(s);
      WordWritten(s);
      ManifestsWritten(count.rest, count.value);
      WrapSmall(count.value);
    } else if kind == EXECUTE_TYPE {
      RequestWritten(s);
    } else if kind == PROGRESS_TYPE {
      WordWritten(s);
      StringWritten(GetWord(s, DecodeStage).rest);
    } else if kind == RESULT_TYPE {
      ResultWritten(s);
    }
  }

  // ---- frames ----

  /** The four header words of a frame, and what follows them. */
  lemma HeaderWords(a: U32, b: U32, c: U32, d: U32, rest: Bytes)
    ensures var s := PutU32(a, PutU32(b, PutU32(c, PutU32(d, rest))));
            |s| == 16 + |rest| && s[16..] == rest
            && GetU32(s[..16]) == Done(a, s[4..16]) && GetU32(s[..16][4..]) == Done(b, s[8..16])
            && GetU32(s[..16][8..]) == Done(c, s[12..16]) && GetU32(s[..16][12..]) == Done(d, [])
  {
    hide GetU32, LittleEndian;
    var s := PutU32(a, PutU32(b, PutU32(c, PutU32(d, rest))));
    assert s[..16] == PutU32(a, s[4..16]);
    assert s[..16][4..] == PutU32(b, s[8..16]);
    assert s[..16][8..] == PutU32(c, s[12..16]);
    assert s[..16][12..] == PutU32(d, []);
    WordRead(a, s[4..16]);
    WordRead(b, s[8..16]);
    WordRead(c, s[12..16]);
    WordRead(d, []);
  }

  /** A 16-byte header is its four words. */
  lemma HeaderIsWords(b: Bytes)
    requires |b| == 16
    ensures GetU32(b).Done? && GetU32(b[4..]).Done? && GetU32(b[8..]).Done? && GetU32(b[12..]).Done?
    ensures b == PutU32(GetU32(b).value, PutU32(GetU32(b[4..]).value, PutU32(GetU32(b[8..]).value,
                 PutU32(GetU32(b[12..]).value, []))))
  {
    hide LittleEndian, ReadAt, PutU32;
    assert b[4..][4..] == b[8..] && b[8..][4..] == b[12..] && b[12..][4..] == [];
    WordWritten(b);
    WordWritten(b[4..]);
    WordWritten(b[8..]);
    WordWritten(b[12..]);
  }

  lemma PutAppend(a: U32, s: Bytes, rest: Bytes)
    ensures PutU32(a, s) + rest == PutU32(a, s + rest)
  {
    hide LittleEndian;
  }

  lemma EncodedDecodes(m: Message)
    requires Encoded(m).Some?
    ensures Decoded(Encoded(m).value) == Some(m)
  {
    hide GetU32, PutU32, GetMessage, PayloadOf, TypeOf, MessageFits;
    var payload := PayloadOf(m);
    WrapSmall(|payload|);
    HeaderWords(PROTOCOL_MAGIC, PROTOCOL_VERSION, TypeOf(m), |payload|, payload);
    PayloadRead(m);
  }

  lemma DecodedEncodes(frame: Bytes)
    requires Decoded(frame).Some?
    ensures Encoded(Decoded(frame).value) == Some(frame)
  {
    hide GetU32, PutU32, GetMessage, PayloadOf, TypeOf, MessageFits;
    var header, payload := frame[..16], frame[16..];
    HeaderIsWords(header);
    PayloadWritten(GetU32(header[8..]).value, payload);
    WrapSmall(|payload|);
    var d := PutU32(|payload|, []);
    var c := PutU32(GetU32(header[8..]).value, d);
    var b := PutU32(PROTOCOL_VERSION, c);
    PutAppend(|payload|, [], payload);
    PutAppend(GetU32(header[8..]).value, d, payload);
    PutAppend(PROTOCOL_VERSION, c, payload);
    PutAppend(PROTOCOL_MAGIC, b, payload);
    assert frame == header + payload && [] + payload == payload;
  }

  /** A frame is accepted as a message exactly when it is that message's frame. */
  lemma CodecIsBijective(m: Message, frame: Bytes)
    ensures Decoded(frame) == Some(m) <==> Encoded(m) == Some(frame)
  {
    hide Decoded, Encoded;
    if Decoded(frame).Some? {
      DecodedEncodes(frame);
    }
    if Encoded(m).Some? {
      EncodedDecodes(m);
    }
  }
}
