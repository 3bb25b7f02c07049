/** Messages over a byte pipe whose reads and writes may be short or interrupted,
    and the client loop that consumes them. */
module PipeTransport {
  import opened Bytes
  import opened EngineHostMessages
  import opened EngineHostCodec
  import Buffers = EngineHostBuffers

  /** What one read or write call does: it is interrupted by a signal, it fails,
      or it moves at most `limit` bytes. */
  datatype Attempt = Interrupted | Broken | Moved(limit: nat)

  // ---- moving a whole buffer ----

  datatype Taken = Taken(data: Option<Bytes>, stream: Bytes, attempts: seq<Attempt>)

  /** Reading `want` bytes, call by call. A read at the end of the stream moves nothing. */
  function Take(stream: Bytes, attempts: seq<Attempt>, want: nat): Taken
    decreases |attempts|
  {
    if want == 0 then Taken(Some([]), stream, attempts)
    else if attempts == [] || attempts[0].Broken? then Taken(None, stream, attempts)
    else if attempts[0].Interrupted? then Take(stream, attempts[1..], want)
    else
      var k := Min(attempts[0].limit, Min(want, |stream|));
      if k == 0 then Taken(None, stream, attempts)
      else
        var others := Take(stream[k..], attempts[1..], want - k);
        if others.data.None? then others else Taken(Some(stream[..k] + others.data.value), others.stream, others.attempts)
  }

  datatype Sent = Sent(ok: bool, stream: Bytes, attempts: seq<Attempt>)

  /** Writing all of `data`, call by call. */
  function Send(stream: Bytes, attempts: seq<Attempt>, data: Bytes): Sent
    decreases |attempts|
  {
    if data == [] then Sent(true, stream, attempts)
    else if attempts == [] || attempts[0].Broken? then Sent(false, stream, attempts)
    else if attempts[0].Interrupted? then Send(stream, attempts[1..], data)
    else
      var k := Min(attempts[0].limit, |data|);
      if k == 0 then Sent(false, stream, attempts) else Send(stream + data[..k], attempts[1..], data[k..])
  }

  /** A pipe end: the bytes in the pipe and the calls still to come. */
  class Pipe {
    var stream: Bytes
    var attempts: seq<Attempt>

    constructor (bytes: Bytes, calls: seq<Attempt>)
      ensures stream == bytes && attempts == calls
    {
      stream, attempts := bytes, calls;
    }

    /** Fills the buffer. */
    method ReadExact(buffer: array<Byte>) returns (ok: bool)
      modifies this, buffer
      ensures var t := Take(old(stream), old(attempts), buffer.Length);
              ok == t.data.Some? && stream == t.stream && attempts == t.attempts
              && (ok ==> buffer[..] == t.data.value)
    {
      ghost var all := Take(stream, attempts, buffer.Length);
      var offset := 0;
      AfterNothing(all);
      while offset < buffer.Length
        invariant 0 <= offset <= buffer.Length
        invariant all == After(buffer[..offset], Take(stream, attempts, buffer.Length - offset))
        decreases |attempts|
      {
        if attempts == [] || attempts[0].Broken? {
          return false;
        }
        var call := attempts[0];
        if call.Interrupted? {
          attempts := attempts[1..];
        } else {
          var k := Min(call.limit, Min(buffer.Length - offset, |stream|));
          if k == 0 {
            return false;
          }
          ghost var before, data := buffer[..offset], stream[..k];
          CopyInto(buffer, offset, stream[..k]);
          assert buffer[..offset + k] == before + data;
          AfterMore(before, data, Take(stream[k..], attempts[1..], buffer.Length - offset - k));
          stream, attempts := stream[k..], attempts[1..];
          offset := offset + k;
        }
      }
      assert buffer[..offset] == buffer[..] == buffer[..] + [];
      ok := true;
    }

    /** Drains the buffer. */
    method WriteExact(data: Bytes) returns (ok: bool)
      modifies this
      ensures Sent(ok, stream, attempts) == Send(old(stream), old(attempts), data)
    {
      var offset := 0;
      assert data[0..] == data;
      while offset < |data|
        invariant 0 <= offset <= |data|
        invariant Send(stream, attempts, data[offset..]) == Send(old(stream), old(attempts), data)
        decreases |attempts|
      {
        if attempts == [] || attempts[0].Broken? {
          return false;
        }
        var call := attempts[0];
        if call.Interrupted? {
          attempts := attempts[1..];
        } else {
          var k := Min(call.limit, |data| - offset);
          if k == 0 {
            return false;
          }
          assert data[offset..][..k] == data[offset..offset + k] && data[offset..][k..] == data[offset + k..];
          stream, attempts := stream + data[offset..offset + k], attempts[1..];
          offset := offset + k;
        }
      }
      ok := true;
    }

    /** One message, or None where the frame is incomplete or malformed. */
    method Read() returns (m: Option<Message>)
      modifies this
      ensures Received(m, stream, attempts) == Receive(old(stream), old(attempts))
    {
      hide Take, DecodedHeader, DecodedPayload;
      var headerBytes := new Byte[FRAME_HEADER_SIZE](_ => 0);
      var ok := ReadExact(headerBytes);
      if !ok {
        return None;
      }
      var header := Buffers.DecodeHeader(headerBytes[..]);
      if header == None {
        return None;
      }
      var payload := new Byte[header.value.payloadSize](_ => 0);
      ok := ReadExact(payload);
      if !ok {
        return None;
      }
      m := Buffers.DecodePayload(header.value, payload[..]);
    }

    method Write(m: Message) returns (ok: bool)
      modifies this
      ensures Sent(ok, stream, attempts) == SendMessage(old(stream), old(attempts), m)
    {
      hide Send, Encoded;
      var frame := Buffers.Encode(m);
      if frame == None {
        return false;
      }
      ok := WriteExact(frame.value);
    }
  }

  /** The transfer with `data` already moved. */
  ghost function After(data: Bytes, t: Taken): Taken {
    if t.data.None? then t else t.(data := Some(data + t.data.value))
  }

  lemma AfterNothing(t: Taken)
    ensures After([], t) == t
  {
    if t.data.Some? {
      assert [] + t.data.value == t.data.value;
    }
  }

  lemma AfterMore(first: Bytes, more: Bytes, t: Taken)
    ensures After(first + more, t) == After(first, After(more, t))
  {
    if t.data.Some? {
      assert first + more + t.data.value == first + (more + t.data.value);
    }
  }

  // ---- messages ----

  datatype Received = Received(message: Option<Message>, stream: Bytes, attempts: seq<Attempt>)

  function Receive(stream: Bytes, attempts: seq<Attempt>): Received {
    var h := Take(stream, attempts, FRAME_HEADER_SIZE);
    if h.data.None? then Received(None, h.stream, h.attempts)
    else
      var header := DecodedHeader(h.data.value);
      if header.None? then Received(None, h.stream, h.attempts)
      else
        var p := Take(h.stream, h.attempts, header.value.payloadSize);
        if p.data.None? then Received(None, p.stream, p.attempts)
        else Received(DecodedPayload(header.value, p.data.value), p.stream, p.attempts)
  }

  function SendMessage(stream: Bytes, attempts: seq<Attempt>, m: Message): Sent {
    if Encoded(m).None? then Sent(false, stream, attempts) else Send(stream, attempts, Encoded(m).value)
  }

  function SendAll(stream: Bytes, attempts: seq<Attempt>, ms: seq<Message>): Sent
    decreases |ms|
  {
    if ms == [] then Sent(true, stream, attempts)
    else
      var s := SendMessage(stream, attempts, ms[0]);
      if !s.ok then s else SendAll(s.stream, s.attempts, ms[1..])
  }

  /** The messages of `count` reads, up to the first failure. */
  function ReceiveAll(stream: Bytes, attempts: seq<Attempt>, count: nat): seq<Message>
    decreases count
  {
    if count == 0 then []
    else
      var r := Receive(stream, attempts);
      if r.message.None? then [] else [r.message.value] + ReceiveAll(r.stream, r.attempts, count - 1)
  }

  // ---- the client loop ----

  datatype ClientEnd = Finished(result: JobResult) | ReadFailed | UnexpectedMessage

  datatype ClientRun = ClientRun(forwarded: seq<ProgressEvent>, end: ClientEnd)

  /** The loop on a stream: it forwards progress until something else arrives. */
  function Consume(stream: Bytes, attempts: seq<Attempt>): ClientRun
    decreases |attempts|
  {
    var r := Receive(stream, attempts);
    ReceiveUsesCalls(stream, attempts);
    if r.message.None? then ClientRun([], ReadFailed)
    else
      match r.message.value
      case Progress(event) =>
        var others := Consume(r.stream, r.attempts);
        ClientRun([event] + others.forwarded, others.end)
      case ResultMessage(result) => ClientRun([], Finished(result))
      case _ => ClientRun([], UnexpectedMessage)
  }

  lemma {:induction false} TakeUsesCalls(stream: Bytes, attempts: seq<Attempt>, want: nat)
    ensures |Take(stream, attempts, want).attempts| <= |attempts|
    ensures want > 0 && Take(stream, attempts, want).data.Some? ==> |Take(stream, attempts, want).attempts| < |attempts|
    decreases |attempts|
  {
    if want > 0 && attempts != [] && !attempts[0].Broken? {
      if attempts[0].Interrupted? {
        TakeUsesCalls(stream, attempts[1..], want);
      } else {
        var k := Min(attempts[0].limit, Min(want, |stream|));
        if k > 0 {
          TakeUsesCalls(stream[k..], attempts[1..], want - k);
        }
      }
    }
  }

  lemma ReceiveUsesCalls(stream: Bytes, attempts: seq<Attempt>)
    ensures Receive(stream, attempts).message.Some? ==> |Receive(stream, attempts).attempts| < |attempts|
  {
    hide Take, DecodedHeader, DecodedPayload;
    var h := Take(stream, attempts, FRAME_HEADER_SIZE);
    TakeUsesCalls(stream, attempts, FRAME_HEADER_SIZE);
    if h.data.Some? && DecodedHeader(h.data.value).Some? {
      TakeUsesCalls(h.stream, h.attempts, DecodedHeader(h.data.value).value.payloadSize);
    }
  }

  method RunClient(response: Pipe) returns (forwarded: seq<ProgressEvent>, end: ClientEnd)
    modifies response
    ensures ClientRun(forwarded, end) == Consume(old(response.stream), old(response.attempts))
  {
    hide Receive;
    forwarded := [];
    ghost var all := Consume(response.stream, response.attempts);
    while true
      invariant all.end == Consume(response.stream, response.attempts).end
      invariant all.forwarded == forwarded + Consume(response.stream, response.attempts).forwarded
      decreases |response.attempts|
    {
      ghost var stream, calls := response.stream, response.attempts;
      ReceiveUsesCalls(stream, calls);
      var m := response.Read();
      if m == None {
        return forwarded, ReadFailed;
      }
      match m.value {
        case Progress(event) =>
          ghost var others := Consume(response.stream, response.attempts);
          assert forwarded + ([event] + others.forwarded) == forwarded + [event] + others.forwarded;
          forwarded := forwarded + [event];
        case ResultMessage(result) =>
          return forwarded, Finished(result);
        case _ =>
          return forwarded, UnexpectedMessage;
      }
    }
  }
}
