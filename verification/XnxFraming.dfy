/** Messages of the XNX display protocol on a byte stream: the compositor's incremental reader
    (user/xnx/compositor.c) and the client's sender and receiver (user/lib/xnx/xnx.c). */
module XnxFraming {
  import opened Bytes

  const HEADER := 8
  const MAX_PAYLOAD := 65536

  datatype Message = Message(kind: U32, payload: seq<Byte>)

  predicate Sendable(m: Message) { |m.payload| <= MAX_PAYLOAD }

  /** struct xnx_header followed by the payload. */
  function Wire(m: Message): (s: seq<Byte>)
    requires Sendable(m)
    ensures |s| == HEADER + |m.payload|
  {
    Encode(m.kind) + Encode(|m.payload|) + m.payload
  }

  function WireAll(ms: seq<Message>): seq<Byte>
    requires forall m :: m in ms ==> Sendable(m)
  {
    if ms == [] then [] else Wire(ms[0]) + WireAll(ms[1..])
  }

  /** What has become of a stream of bytes: the messages dispatched, and either the connection is
      given up or some bytes of the next message are left over. */
  datatype Reading = Open(done: seq<Message>, rest: seq<Byte>) | Closed(done: seq<Message>)

  /** The reference reading of a whole stream.  `accept` is the verdict of the message handler,
      given all the messages of this client up to the one in question. */
  function Read(bytes: seq<Byte>, done: seq<Message>, accept: seq<Message> -> bool): Reading
    decreases |bytes|
  {
    if |bytes| < HEADER then Open(done, bytes)
    else
      var size := Load32(bytes, 4);
      if size > MAX_PAYLOAD then Closed(done)
      else if |bytes| < HEADER + size then Open(done, bytes)
      else
        var done' := done + [Message(Load32(bytes, 0), bytes[HEADER..HEADER + size])];
        if accept(done') then Read(bytes[HEADER + size..], done', accept) else Closed(done')
  }

  /** More bytes: reading goes on from what was left over. */
  lemma {:induction false} ReadOn(xs: seq<Byte>, ys: seq<Byte>, done: seq<Message>, accept: seq<Message> -> bool)
    ensures var r := Read(xs, done, accept);
      Read(xs + ys, done, accept) == if r.Open? then Read(r.rest + ys, r.done, accept) else r
    decreases |xs|
  {
    if |xs| >= HEADER {
      var zs := xs + ys;
      SameWord(xs, zs, 0);
      SameWord(xs, zs, 4);
      var size := Load32(xs, 4);
      if size <= MAX_PAYLOAD && |xs| >= HEADER + size {
        assert zs[HEADER..HEADER + size] == xs[HEADER..HEADER + size];
        var done' := done + [Message(Load32(xs, 0), xs[HEADER..HEADER + size])];
        if accept(done') {
          assert zs[HEADER + size..] == xs[HEADER + size..] + ys;
          ReadOn(xs[HEADER + size..], ys, done', accept);
        }
      }
    }
  }

  /** Reading messages instead of bytes. */
  function Handled(ms: seq<Message>, done: seq<Message>, accept: seq<Message> -> bool): Reading {
    if ms == [] then Open(done, [])
    else if accept(done + [ms[0]]) then Handled(ms[1..], done + [ms[0]], accept)
    else Closed(done + [ms[0]])
  }

  lemma {:induction false} WireParts(m: Message, tail: seq<Byte>)
    requires Sendable(m)
    ensures var s := Wire(m) + tail;
      && Load32(s, 0) == m.kind && Load32(s, 4) == |m.payload|
      && s[HEADER..HEADER + |m.payload|] == m.payload && s[HEADER + |m.payload|..] == tail
  {
    var s := Wire(m) + tail;
    DecodeEncode(m.kind);
    DecodeEncode(|m.payload|);
    assert s[0..4] == Encode(m.kind) && s[4..8] == Encode(|m.payload|);
  }

  /** The messages read are the messages sent, up to the first one that is refused. */
  lemma {:induction false} RoundTrip(ms: seq<Message>, done: seq<Message>, accept: seq<Message> -> bool)
    requires forall m :: m in ms ==> Sendable(m)
    ensures Read(WireAll(ms), done, accept) == Handled(ms, done, accept)
  {
    if ms != [] {
      WireParts(ms[0], WireAll(ms[1..]));
      if accept(done + [ms[0]]) {
        RoundTrip(ms[1..], done + [ms[0]], accept);
      }
    }
  }

  lemma {:induction false} AllHandled(ms: seq<Message>, done: seq<Message>, accept: seq<Message> -> bool)
    requires forall k :: 0 < k <= |ms| ==> accept(done + ms[..k])
    ensures Handled(ms, done, accept) == Open(done + ms, [])
  {
    if ms == [] {
      assert done + ms == done;
    } else {
      assert done + [ms[0]] == done + ms[..1];
      forall k | 0 < k <= |ms[1..]|
        ensures accept(done + [ms[0]] + ms[1..][..k])
      {
        assert done + [ms[0]] + ms[1..][..k] == done + ms[..k + 1];
      }
      AllHandled(ms[1..], done + [ms[0]], accept);
      assert done + [ms[0]] + ms[1..] == done + ms;
    }
  }

  /** With a handler that refuses nothing, the list itself arrives. */
  lemma {:induction false} SentIsDispatched(ms: seq<Message>, accept: seq<Message> -> bool)
    requires forall m :: m in ms ==> Sendable(m)
    requires forall k :: 0 < k <= |ms| ==> accept(ms[..k])
    ensures Read(WireAll(ms), [], accept) == Open(ms, [])
  {
    RoundTrip(ms, [], accept);
    forall k | 0 < k <= |ms|
      ensures accept([] + ms[..k])
    {
      assert [] + ms[..k] == ms[..k];
    }
    AllHandled(ms, [], accept);
    assert [] + ms == ms;
  }

  // ----- the compositor's reader -----

  /** What recv returned: some bytes, the end of the stream, EINTR or EAGAIN, or an error. */
  datatype Recv = Data(bytes: seq<Byte>) | Eof | Again | Failed

  /** The bytes of the message being read that are in the buffers. */
  function Partial(header: seq<Byte>, buf: seq<Byte>, offset: nat, inPayload: bool): seq<Byte>
    requires if inPayload then offset <= |buf| else offset <= |header|
  {
    if inPayload then header + buf[..offset] else header[..offset]
  }

  /** At most one message, with its header complete. */
  lemma {:induction false} ReadPart(h: seq<Byte>, payload: seq<Byte>, done: seq<Message>, accept: seq<Message> -> bool)
    requires |h| == HEADER && |payload| <= Load32(h, 4) <= MAX_PAYLOAD
    ensures var m := Message(Load32(h, 0), payload);
      Read(h + payload, done, accept) ==
        if |payload| < Load32(h, 4) then Open(done, h + payload)
        else if accept(done + [m]) then Open(done + [m], [])
        else Closed(done + [m])
  {
    var s := h + payload;
    SameWord(h, s, 0);
    SameWord(h, s, 4);
    assert s[HEADER..HEADER + |payload|] == payload && s[HEADER + |payload|..] == [];
  }

  /** struct xnx_client, the part that reads. */
  class Client {
    const accept: seq<Message> -> bool
    const header: array<Byte>
    const buf: array<Byte>
    var readOffset: nat
    var inPayload: bool
    var dispatched: seq<Message>
    ghost var consumed: seq<Byte>

    ghost predicate Buffers()
      reads this, header, buf
    {
      && header.Length == HEADER && buf.Length == MAX_PAYLOAD && header != buf
      && if inPayload then readOffset < Load32(header[..], 4) <= MAX_PAYLOAD else readOffset < HEADER
    }

    /** What was consumed reads as the messages dispatched and the bytes held. */
    ghost predicate Valid()
      reads this, header, buf
    {
      Buffers() && Read(consumed, [], accept) == Open(dispatched, Partial(header[..], buf[..], readOffset, inPayload))
    }

    constructor (accept: seq<Message> -> bool)
      ensures Valid() && consumed == [] && this.accept == accept && fresh(header) && fresh(buf)
    {
      this.accept := accept;
      header := new Byte[HEADER];
      buf := new Byte[MAX_PAYLOAD];
      readOffset := 0;
      inPayload := false;
      dispatched := [];
      consumed := [];
    }

    /** The length passed to recv. */
    function Needed(): (n: nat)
      requires Buffers()
      reads this, header, buf
    {
      if inPayload then Load32(header[..], 4) - readOffset else HEADER - readOffset
    }

    /** handle_client_message: -1 gives the client up. */
    method Handle(m: Message) returns (ok: bool)
      modifies this`dispatched
      ensures dispatched == old(dispatched) + [m] && ok == accept(dispatched)
    {
      dispatched := dispatched + [m];
      ok := accept(dispatched);
    }

    /** read_client_data; false is the result -1, on which the client is removed. */
    method ReadData(r: Recv) returns (ok: bool)
      requires Valid() && (r.Data? ==> 0 < |r.bytes| <= Needed())
      modifies this, header, buf
      ensures r.Data? ==> consumed == old(consumed) + r.bytes
      ensures r.Data? && !ok ==> Read(consumed, [], accept) == Closed(dispatched)
      ensures !r.Data? ==> consumed == old(consumed) && dispatched == old(dispatched) && ok == r.Again?
      ensures ok ==> Valid()
    {
      if !r.Data? {
        return r.Again?;
      }
      var n := |r.bytes|;
      ghost var held := Partial(header[..], buf[..], readOffset, inPayload);
      ReadOn(consumed, r.bytes, [], accept);
      consumed := consumed + r.bytes;
      if !inPayload {
        ok := ReadHeader(r.bytes, held);
      } else {
        ok := ReadPayload(r.bytes, held);
      }
    }

    /** The branch msg_state == 0. */
    method ReadHeader(bytes: seq<Byte>, ghost held: seq<Byte>) returns (ok: bool)
      requires Buffers() && !inPayload && 0 < |bytes| <= Needed()
      requires held == Partial(header[..], buf[..], readOffset, inPayload)
      modifies this`readOffset, this`inPayload, this`dispatched, header
      ensures ok ==> Buffers() && Read(held + bytes, old(dispatched), accept) ==
                                  Open(dispatched, Partial(header[..], buf[..], readOffset, inPayload))
      ensures !ok ==> Read(held + bytes, old(dispatched), accept) == Closed(dispatched)
    {
      forall i | 0 <= i < |bytes| {
        header[readOffset + i] := bytes[i];
      }
      assert header[..readOffset + |bytes|] == held + bytes;
      readOffset := readOffset + |bytes|;
      if readOffset == HEADER {
        assert header[..] == held + bytes;
        readOffset := 0;
        inPayload := true;
        var size := Load32(header[..], 4);
        if size > MAX_PAYLOAD {
          return false;
        }
        if size == 0 {
          inPayload := false;
          assert (held + bytes)[HEADER..HEADER] == [];
          ok := Handle(Message(Load32(header[..], 0), []));
          return;
        }
        assert header[..] + buf[..0] == header[..];
      }
      ok := true;
    }

    /** The branch msg_state == 1. */
    method ReadPayload(bytes: seq<Byte>, ghost held: seq<Byte>) returns (ok: bool)
      requires Buffers() && inPayload && 0 < |bytes| <= Needed()
      requires held == Partial(header[..], buf[..], readOffset, inPayload)
      modifies this`readOffset, this`inPayload, this`dispatched, buf
      ensures ok ==> Buffers() && Read(held + bytes, old(dispatched), accept) ==
                                  Open(dispatched, Partial(header[..], buf[..], readOffset, inPayload))
      ensures !ok ==> Read(held + bytes, old(dispatched), accept) == Closed(dispatched)
    {
      var h := header[..];
      forall i | 0 <= i < |bytes| {
        buf[readOffset + i] := bytes[i];
      }
      readOffset := readOffset + |bytes|;
      assert header[..] == h && held + bytes == h + buf[..readOffset];
      ReadPart(h, buf[..readOffset], dispatched, accept);
      if readOffset == Load32(h, 4) {
        var m := Message(Load32(h, 0), buf[..readOffset]);
        readOffset := 0;
        inPayload := false;
        ok := Handle(m);
        return;
      }
      ok := true;
    }
  }

  /** A client's stream read to its end, however recv splits it: `split` says how many of the bytes
      that may be returned are returned, call by call.  The outcome is that of the reference, so two
      ways of splitting cannot differ. */
  method Serve(stream: seq<Byte>, split: nat -> nat, accept: seq<Message> -> bool) returns (c: Client, ok: bool)
    ensures var r := Read(stream, [], accept); ok == r.Open? && c.dispatched == r.done
  {
    c := new Client(accept);
    ok := true;
    var at, calls := 0, 0;
    assert stream[..0] == [];
    while ok && at < |stream|
      invariant at <= |stream| && c.accept == accept && c.consumed == stream[..at] && fresh(c) && fresh(c.header)
      invariant fresh(c.buf)
      invariant if ok then c.Valid() else Read(stream[..at], [], accept) == Closed(c.dispatched)
      decreases |stream| - at
    {
      var needed := c.Needed();
      var most := if needed < |stream| - at then needed else |stream| - at;
      var n := 1 + split(calls) % most;
      ok := c.ReadData(Data(stream[at..at + n]));
      assert stream[..at] + stream[at..at + n] == stream[..at + n];
      at, calls := at + n, calls + 1;
    }
    ReadOn(stream[..at], stream[at..], [], accept);
    assert stream[..at] + stream[at..] == stream;
    assert at == |stream| ==> stream[..at] == stream;
  }

  // ----- the client library -----

  /** What send or recv returned: some bytes moved, EINTR or EAGAIN, or an error. */
  datatype Attempt = Moved(n: nat) | Retry | Broken

  /** Stuck: still retrying when the attempts end. */
  datatype Outcome = Done | Error | Stuck

  /** The attempts move `length` bytes before one fails. */
  predicate Enough(length: nat, attempts: seq<Attempt>)
    decreases |attempts|
  {
    length == 0 || (attempts != [] &&
      match attempts[0]
      case Moved(n) => n > 0 && Enough(if n < length then length - n else 0, attempts[1..])
      case Retry => Enough(length, attempts[1..])
      case Broken => false)
  }

  class Connection {
    /** The bytes given to send, and those recv has still to return. */
    var sent: seq<Byte>
    var incoming: seq<Byte>

    constructor (incoming: seq<Byte>)
      ensures sent == [] && this.incoming == incoming
    {
      sent := [];
      this.incoming := incoming;
    }

    /** xnx_send_all; a call moves at least one byte and at most the remaining ones. */
    method SendAll(buffer: seq<Byte>, attempts: seq<Attempt>) returns (outcome: Outcome)
      modifies this`sent
      ensures outcome.Done? <==> Enough(|buffer|, attempts)
      ensures exists k :: 0 <= k <= |buffer| && sent == old(sent) + buffer[..k] && (outcome.Done? <==> k == |buffer|)
    {
      var at, i := 0, 0;
      assert sent == old(sent) + buffer[..0] && attempts[0..] == attempts;
      while at < |buffer|
        invariant 0 <= at <= |buffer| && 0 <= i <= |attempts| && sent == old(sent) + buffer[..at]
        invariant Enough(|buffer|, attempts) == Enough(|buffer| - at, attempts[i..])
        decreases |attempts| - i
      {
        if i == |attempts| {
          return Stuck;
        }
        assert attempts[i..][1..] == attempts[i + 1..];
        if attempts[i].Moved? {
          if attempts[i].n == 0 {
            return Error;
          }
          var n := if attempts[i].n < |buffer| - at then attempts[i].n else |buffer| - at;
          sent := sent + buffer[at..at + n];
          assert buffer[..at] + buffer[at..at + n] == buffer[..at + n];
          at := at + n;
        } else if attempts[i].Broken? {
          return Error;
        }
        i := i + 1;
      }
      assert buffer[..at] == buffer;
      outcome := Done;
    }

    /** xnx_send_message */
    method SendMessage(m: Message, headerAttempts: seq<Attempt>, payloadAttempts: seq<Attempt>)
      returns (outcome: Outcome)
      requires |m.payload| < 0x1_0000_0000
      modifies this`sent
      ensures !Sendable(m) ==> outcome == Error && sent == old(sent)
      ensures Sendable(m) ==>
        (outcome.Done? <==> Enough(HEADER, headerAttempts) && Enough(|m.payload|, payloadAttempts))
      ensures Sendable(m) ==>
        exists k :: 0 <= k <= |Wire(m)| && sent == old(sent) + Wire(m)[..k] && (outcome.Done? <==> k == |Wire(m)|)
    {
      if |m.payload| > MAX_PAYLOAD {
        return Error;
      }
      ghost var w := Wire(m);
      var header := Encode(m.kind) + Encode(|m.payload|);
      outcome := SendAll(header, headerAttempts);
      ghost var k :| 0 <= k <= HEADER && sent == old(sent) + header[..k] && (outcome.Done? <==> k == HEADER);
      assert header[..k] == w[..k];
      if outcome.Done? && |m.payload| > 0 {
        ghost var before := sent;
        outcome := SendAll(m.payload, payloadAttempts);
        k :| 0 <= k <= |m.payload| && sent == before + m.payload[..k] && (outcome.Done? <==> k == |m.payload|);
        assert w[..HEADER + k] == header + m.payload[..k];
        assert sent == old(sent) + w[..HEADER + k];
      }
    }

    /** xnx_recv_all */
    method RecvAll(length: nat, attempts: seq<Attempt>) returns (outcome: Outcome, buffer: seq<Byte>)
      modifies this`incoming
      ensures old(incoming) == buffer + incoming && |buffer| <= length && (outcome.Done? <==> |buffer| == length)
      ensures outcome.Done? <==> length <= |old(incoming)| && Enough(length, attempts)
    {
      buffer := [];
      var i := 0;
      assert attempts[0..] == attempts;
      while |buffer| < length
        invariant |buffer| <= length && i <= |attempts| && old(incoming) == buffer + incoming
        invariant Enough(length, attempts) == Enough(length - |buffer|, attempts[i..]) || length > |old(incoming)|
        decreases |attempts| - i
      {
        if i == |attempts| {
          return Stuck, buffer;
        }
        assert attempts[i..][1..] == attempts[i + 1..];
        if attempts[i].Moved? {
          var room := if length - |buffer| < |incoming| then length - |buffer| else |incoming|;
          var n := if attempts[i].n < room then attempts[i].n else room;
          if n == 0 {
            return Error, buffer;
          }
          buffer := buffer + incoming[..n];
          incoming := incoming[n..];
        } else if attempts[i].Broken? {
          return Error, buffer;
        }
        i := i + 1;
      }
      outcome := Done;
    }

    /** xnx_recv_message: the inverse of sending, one message at a time. */
    method RecvMessage(capacity: nat, headerAttempts: seq<Attempt>, payloadAttempts: seq<Attempt>, ghost m: Message,
                       ghost tail: seq<Byte>)
      returns (outcome: Outcome, kind: U32, payload: seq<Byte>)
      requires Sendable(m) && incoming == Wire(m) + tail
      modifies this`incoming
      ensures outcome.Done? ==> Message(kind, payload) == m && incoming == tail && |payload| <= capacity
      ensures outcome.Done? <==>
        |m.payload| <= capacity && Enough(HEADER, headerAttempts) && Enough(|m.payload|, payloadAttempts)
    {
      WireParts(m, tail);
      kind, payload := 0, [];
      var header;
      outcome, header := RecvAll(HEADER, headerAttempts);
      if !outcome.Done? {
        return;
      }
      SameWord(old(incoming), header, 0);
      SameWord(old(incoming), header, 4);
      var size := Load32(header, 4);
      if size > capacity {
        return Error, kind, payload;
      }
      kind := Load32(header, 0);
      assert incoming == old(incoming)[HEADER..] == m.payload + tail;
      if size > 0 {
        outcome, payload := RecvAll(size, payloadAttempts);
      }
    }
  }
}
