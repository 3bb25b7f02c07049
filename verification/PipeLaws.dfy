/** Message streams survive any chunking. */
module PipeLaws {
  import opened Bytes
  import opened EngineHostMessages
  import opened EngineHostCodec
  import opened PipeTransport
  import CodecLaws = EngineHostCodecLaws

  /** No call fails, and every call that moves bytes moves at least one. */
  ghost predicate Working(attempts: seq<Attempt>) {
    forall k :: 0 <= k < |attempts| ==> attempts[k].Interrupted? || (attempts[k].Moved? && attempts[k].limit > 0)
  }

  /** Calls that are not interrupted. */
  function Moves(attempts: seq<Attempt>): nat {
    if attempts == [] then 0 else (if attempts[0].Moved? then 1 else 0) + Moves(attempts[1..])
  }

  /** Enough calls for `n` bytes, however short each of them is. */
  ghost predicate Suffices(attempts: seq<Attempt>, n: nat) {
    Working(attempts) && Moves(attempts) >= n
  }

  /** A whole buffer is read, in order, however the reads are cut. */
  lemma {:induction false} TakeGets(stream: Bytes, attempts: seq<Attempt>, want: nat, extra: nat)
    requires want <= |stream| && Suffices(attempts, want + extra)
    ensures var t := Take(stream, attempts, want);
            t.data == Some(stream[..want]) && t.stream == stream[want..] && Suffices(t.attempts, extra)
    decreases |attempts|
  {
    if want > 0 {
      assert forall k :: 0 <= k < |attempts[1..]| ==> attempts[1..][k] == attempts[k + 1];
      if attempts[0].Interrupted? {
        TakeGets(stream, attempts[1..], want, extra);
      } else {
        var k := Min(attempts[0].limit, Min(want, |stream|));
        TakeGets(stream[k..], attempts[1..], want - k, extra);
        assert stream[..k] + stream[k..][..want - k] == stream[..want];
        assert stream[k..][want - k..] == stream[want..];
      }
    }
  }

  /** A whole buffer is written, in order, however the writes are cut. */
  lemma {:induction false} SendPuts(stream: Bytes, attempts: seq<Attempt>, data: Bytes, extra: nat)
    requires Suffices(attempts, |data| + extra)
    ensures var s := Send(stream, attempts, data);
            s.ok && s.stream == stream + data && Suffices(s.attempts, extra)
    decreases |attempts|
  {
    if data == [] {
      assert stream + data == stream;
    } else {
      assert forall k :: 0 <= k < |attempts[1..]| ==> attempts[1..][k] == attempts[k + 1];
      if attempts[0].Interrupted? {
        SendPuts(stream, attempts[1..], data, extra);
      } else {
        var k := Min(attempts[0].limit, |data|);
        SendPuts(stream + data[..k], attempts[1..], data[k..], extra);
        assert stream + data[..k] + data[k..] == stream + data;
      }
    }
  }

  ghost predicate AllEncodable(ms: seq<Message>) {
    forall k :: 0 <= k < |ms| ==> Encoded(ms[k]).Some?
  }

  /** The frames of the messages, one after another. */
  ghost function Frames(ms: seq<Message>): Bytes
    requires AllEncodable(ms)
  {
    if ms == [] then [] else Encoded(ms[0]).value + Frames(ms[1..])
  }

  /** A frame is its header and a payload of the announced size. */
  lemma FrameShape(m: Message)
    requires Encoded(m).Some?
    ensures var f := Encoded(m).value;
            |f| >= FRAME_HEADER_SIZE && DecodedHeader(f[..FRAME_HEADER_SIZE]).Some?
            && var h := DecodedHeader(f[..FRAME_HEADER_SIZE]).value;
               |f| == FRAME_HEADER_SIZE + h.payloadSize && DecodedPayload(h, f[FRAME_HEADER_SIZE..]) == Some(m)
  {
    hide Encoded, DecodedHeader, GetMessage;
    CodecLaws.EncodedDecodes(m);
  }

  lemma ReceiveGets(m: Message, rest: Bytes, attempts: seq<Attempt>, extra: nat)
    requires Encoded(m).Some? && Suffices(attempts, |Encoded(m).value| + extra)
    ensures var r := Receive(Encoded(m).value + rest, attempts);
            r.message == Some(m) && r.stream == rest && Suffices(r.attempts, extra)
  {
    hide Take, DecodedHeader, DecodedPayload, Encoded, Suffices;
    FrameShape(m);
    var f := Encoded(m).value;
    var stream := f + rest;
    var h := DecodedHeader(f[..FRAME_HEADER_SIZE]).value;
    SuffixSuffices(attempts, |f| + extra, FRAME_HEADER_SIZE + (h.payloadSize + extra));
    TakeGets(stream, attempts, FRAME_HEADER_SIZE, h.payloadSize + extra);
    assert stream[..FRAME_HEADER_SIZE] == f[..FRAME_HEADER_SIZE];
    var t := Take(stream, attempts, FRAME_HEADER_SIZE);
    TakeGets(t.stream, t.attempts, h.payloadSize, extra);
    assert t.stream[..h.payloadSize] == f[FRAME_HEADER_SIZE..];
    assert t.stream[h.payloadSize..] == rest;
  }

  lemma SuffixSuffices(attempts: seq<Attempt>, n: nat, m: nat)
    requires Suffices(attempts, n) && m <= n
    ensures Suffices(attempts, m)
  {
  }

  lemma {:induction false} ReceiveAllGets(ms: seq<Message>, rest: Bytes, attempts: seq<Attempt>)
    requires AllEncodable(ms) && Suffices(attempts, |Frames(ms)|)
    ensures ReceiveAll(Frames(ms) + rest, attempts, |ms|) == ms
  {
    hide Receive, Encoded, Suffices;
    if ms != [] {
      var f := Encoded(ms[0]).value;
      assert Frames(ms) + rest == f + (Frames(ms[1..]) + rest);
      ReceiveGets(ms[0], Frames(ms[1..]) + rest, attempts, |Frames(ms[1..])|);
      ReceiveAllGets(ms[1..], rest, Receive(Frames(ms) + rest, attempts).attempts);
    }
  }

  lemma {:induction false} SendAllPuts(stream: Bytes, attempts: seq<Attempt>, ms: seq<Message>)
    requires AllEncodable(ms) && Suffices(attempts, |Frames(ms)|)
    ensures var s := SendAll(stream, attempts, ms); s.ok && s.stream == stream + Frames(ms)
    decreases |ms|
  {
    hide Send, Encoded, Suffices;
    if ms == [] {
      assert stream + [] == stream;
    } else {
      var f := Encoded(ms[0]).value;
      SendPuts(stream, attempts, f, |Frames(ms[1..])|);
      SendAllPuts(stream + f, Send(stream, attempts, f).attempts, ms[1..]);
      assert stream + f + Frames(ms[1..]) == stream + Frames(ms);
    }
  }

  /** What one end writes, the other end reads: the same messages in the same
      order, for every way of cutting and interrupting the transfers. */
  lemma StreamsSurviveChunking(ms: seq<Message>, writeCalls: seq<Attempt>, readCalls: seq<Attempt>)
    requires AllEncodable(ms) && Suffices(writeCalls, |Frames(ms)|) && Suffices(readCalls, |Frames(ms)|)
    ensures SendAll([], writeCalls, ms).ok && ReceiveAll(SendAll([], writeCalls, ms).stream, readCalls, |ms|) == ms
  {
    hide Receive, Send, Encoded, Suffices;
    SendAllPuts([], writeCalls, ms);
    ReceiveAllGets(ms, [], readCalls);
    assert [] + Frames(ms) == Frames(ms) + [];
  }

  // ---- the client ----

  /** What the client must do with a message list. */
  function Expected(ms: seq<Message>): ClientRun {
    if ms == [] then ClientRun([], ReadFailed)
    else if ms[0].Progress? then
      var others := Expected(ms[1..]);
      ClientRun([ms[0].event] + others.forwarded, others.end)
    else if ms[0].ResultMessage? then ClientRun([], Finished(ms[0].result))
    else ClientRun([], UnexpectedMessage)
  }

  /** A stream that has ended yields no message. */
  lemma {:induction false} NothingToTake(attempts: seq<Attempt>, want: nat)
    requires want > 0
    ensures Take([], attempts, want).data.None?
  {
    if attempts != [] && attempts[0].Interrupted? {
      NothingToTake(attempts[1..], want);
    }
  }

  /** The client handles exactly the messages sent, for every chunking. */
  lemma {:induction false} ClientConsumes(ms: seq<Message>, attempts: seq<Attempt>)
    requires AllEncodable(ms) && Suffices(attempts, |Frames(ms)|)
    ensures Consume(Frames(ms), attempts) == Expected(ms)
    decreases |ms|
  {
    hide Encoded, Suffices, Take;
    if ms == [] {
      NothingToTake(attempts, FRAME_HEADER_SIZE);
    } else {
      ReceiveGets(ms[0], Frames(ms[1..]), attempts, |Frames(ms[1..])|);
      if ms[0].Progress? {
        ClientConsumes(ms[1..], Receive(Frames(ms), attempts).attempts);
      }
    }
  }

  function ProgressMessages(events: seq<ProgressEvent>): (ms: seq<Message>)
    ensures |ms| == |events|
  {
    seq(|events|, k requires 0 <= k < |events| => Progress(events[k]))
  }

  lemma {:induction false} ExpectedForwards(events: seq<ProgressEvent>, result: JobResult, more: seq<Message>)
    ensures Expected(ProgressMessages(events) + [ResultMessage(result)] + more) == ClientRun(events, Finished(result))
  {
    var ms := ProgressMessages(events) + [ResultMessage(result)] + more;
    if events != [] {
      assert ms[1..] == ProgressMessages(events[1..]) + [ResultMessage(result)] + more;
      ExpectedForwards(events[1..], result, more);
    }
  }

  /** The loop ends on the first result, having forwarded exactly the progress before it. */
  lemma ClientStopsAtResult(events: seq<ProgressEvent>, result: JobResult, more: seq<Message>, attempts: seq<Attempt>)
    requires AllEncodable(ProgressMessages(events) + [ResultMessage(result)] + more)
    requires Suffices(attempts, |Frames(ProgressMessages(events) + [ResultMessage(result)] + more)|)
    ensures Consume(Frames(ProgressMessages(events) + [ResultMessage(result)] + more), attempts)
            == ClientRun(events, Finished(result))
  {
    hide Consume, Encoded, Suffices;
    ClientConsumes(ProgressMessages(events) + [ResultMessage(result)] + more, attempts);
    ExpectedForwards(events, result, more);
  }
}
