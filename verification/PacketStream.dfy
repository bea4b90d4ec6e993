/** The return-traffic stream: length-prefixed packets, received in chunks cut anywhere. */
module PacketStream {
  import opened Base

  datatype PlainPacket = PlainPacket(magic: u32, connId: u64, handlerId: u64, rip: Bytes16, rport: u16,
                                     payload: Bytes, checksum: u32, isResponse: bool)

  type PacketCodec = Codec<PlainPacket>

  /** A payload on the wire: its length as 32 little-endian bits, then its bytes. */
  function Framed(payload: Bytes): Bytes {
    Le(|payload| % TWO_32, WIDTH_32) + payload
  }

  function Stream(payloads: seq<Bytes>): Bytes {
    if |payloads| == 0 then [] else Framed(payloads[0]) + Stream(payloads[1..])
  }

  /** The complete frames at the front of a stream, and the bytes that follow them. */
  datatype Parsed = Parsed(payloads: seq<Bytes>, rest: Bytes) {
    function After(first: seq<Bytes>): Parsed {
      Parsed(first + payloads, rest)
    }
  }

  /** Whether a whole frame is there. */
  predicate Complete(s: Bytes) {
    |s| >= 4 && |s| >= 4 + FromLe(s[..4])
  }

  function Parse(s: Bytes): Parsed
    decreases |s|
  {
    if !Complete(s) then Parsed([], s)
    else
      var len := FromLe(s[..4]);
      Parse(s[4 + len..]).After([s[4..4 + len]])
  }

  /** The payloads that decode, decoded; the others are skipped. */
  function Decoded(c: PacketCodec, payloads: seq<Bytes>): seq<PlainPacket> {
    if |payloads| == 0 then []
    else
      (match c.decode(payloads[0]) case Some(p) => [p] case None => []) + Decoded(c, payloads[1..])
  }

  class Subscription {
    const codec: PacketCodec
    var buffer: Bytes
    var dispatched: seq<PlainPacket>

    constructor (codec: PacketCodec)
      ensures this.codec == codec && buffer == [] && dispatched == []
    {
      this.codec := codec;
      buffer, dispatched := [], [];
    }

    /** Adds a chunk to the buffer and dispatches every frame that is now complete. */
    method OnChunk(chunk: Bytes)
      modifies this
      ensures var p := Parse(old(buffer) + chunk);
        buffer == p.rest && dispatched == old(dispatched) + Decoded(codec, p.payloads)
    {
      buffer := buffer + chunk;
      ghost var all := Parse(buffer);
      ghost var done: seq<Bytes> := [];
      while |buffer| >= 4
        invariant all == Parse(buffer).After(done)
        invariant dispatched == old(dispatched) + Decoded(codec, done)
        decreases |buffer|
      {
        var len := FromLe(buffer[..4]);
        if |buffer| < 4 + len {
          break;
        }
        var rest := buffer[4..];
        var payload := rest[..len];
        assert payload == buffer[4..4 + len] && rest[len..] == buffer[4 + len..];
        buffer := rest[len..];
        Assoc(done, [payload], Parse(buffer).payloads);
        DecodedAppend(codec, done, [payload]);
        done := done + [payload];
        match codec.decode(payload) {
          case Some(packet) => dispatched := dispatched + [packet];
          case None =>
        }
      }
      assert done + [] == done;
    }
  }

  lemma {:induction false} DecodedAppend(c: PacketCodec, a: seq<Bytes>, b: seq<Bytes>)
    ensures Decoded(c, a + b) == Decoded(c, a) + Decoded(c, b)
  {
    if |a| == 0 {
      assert a + b == b;
    } else {
      assert (a + b)[1..] == a[1..] + b;
      DecodedAppend(c, a[1..], b);
      Assoc(match c.decode(a[0]) case Some(p) => [p] case None => [], Decoded(c, a[1..]), Decoded(c, b));
    }
  }

  // ---- chunk boundaries do not matter ----

  lemma CompleteStays(a: Bytes, b: Bytes)
    requires Complete(a)
    ensures var len := FromLe(a[..4]);
      && Complete(a + b) && FromLe((a + b)[..4]) == len
      && (a + b)[4..4 + len] == a[4..4 + len] && (a + b)[4 + len..] == a[4 + len..] + b
  {
    TakeWithin(a, b, 4);
  }

  /** Parsing a stream that arrived in two parts: what the first part left over goes in front of the second. */
  lemma {:induction false} ParseAppend(a: Bytes, b: Bytes)
    ensures Parse(a + b) == Parse(Parse(a).rest + b).After(Parse(a).payloads)
    decreases |a|
  {
    if Complete(a) {
      var len := FromLe(a[..4]);
      var tail := a[4 + len..];
      CompleteStays(a, b);
      ParseAppend(tail, b);
      Assoc([a[4..4 + len]], Parse(tail).payloads, Parse(Parse(tail).rest + b).payloads);
    } else {
      assert Parse(a + b).After([]) == Parse(a + b);
    }
  }

  function Joined(chunks: seq<Bytes>): Bytes {
    if |chunks| == 0 then [] else Joined(chunks[..|chunks| - 1]) + chunks[|chunks| - 1]
  }

  datatype Receiver = Receiver(buffer: Bytes, dispatched: seq<PlainPacket>)

  /** A receiver after one more chunk. */
  function Received(c: PacketCodec, r: Receiver, chunk: Bytes): Receiver {
    var p := Parse(r.buffer + chunk);
    Receiver(p.rest, r.dispatched + Decoded(c, p.payloads))
  }

  /** A new receiver after a sequence of chunks. */
  function ReceivedAll(c: PacketCodec, chunks: seq<Bytes>): Receiver {
    if |chunks| == 0 then Receiver([], [])
    else Received(c, ReceivedAll(c, chunks[..|chunks| - 1]), chunks[|chunks| - 1])
  }

  /** However a stream is cut, the receiver dispatches the decodable frames of the whole stream and keeps the bytes
      after the last complete frame. */
  lemma {:induction false} ChunksDoNotMatter(c: PacketCodec, chunks: seq<Bytes>)
    ensures var p := Parse(Joined(chunks)); ReceivedAll(c, chunks) == Receiver(p.rest, Decoded(c, p.payloads))
  {
    if |chunks| > 0 {
      var before, chunk := chunks[..|chunks| - 1], chunks[|chunks| - 1];
      ChunksDoNotMatter(c, before);
      ParseAppend(Joined(before), chunk);
      var p := Parse(Joined(before));
      DecodedAppend(c, p.payloads, Parse(p.rest + chunk).payloads);
    }
  }

  /** What stays buffered is never a complete frame. */
  lemma {:induction false} RestIsIncomplete(s: Bytes)
    ensures !Complete(Parse(s).rest)
    decreases |s|
  {
    if Complete(s) {
      RestIsIncomplete(s[4 + FromLe(s[..4])..]);
    }
  }

  // ---- what was sent is what is received ----

  predicate Sendable(payloads: seq<Bytes>) {
    forall i :: 0 <= i < |payloads| ==> |payloads[i]| < TWO_32
  }

  lemma ParseFramed(payload: Bytes, more: Bytes)
    requires |payload| < TWO_32
    ensures Parse(Framed(payload) + more) == Parse(more).After([payload])
  {
    Widths();
    SmallMod(|payload|, TWO_32);
    LeRoundTrip(|payload|, WIDTH_32);
    var s := Framed(payload) + more;
    assert s[..4] == Le(|payload|, WIDTH_32);
    assert s[4..4 + |payload|] == payload && s[4 + |payload|..] == more;
  }

  /** Parsing inverts framing; an incomplete tail is left over. */
  lemma {:induction false} ParseStream(payloads: seq<Bytes>, tail: Bytes)
    requires Sendable(payloads) && !Complete(tail)
    ensures Parse(Stream(payloads) + tail) == Parsed(payloads, tail)
  {
    if |payloads| == 0 {
      assert Stream(payloads) + tail == tail;
    } else {
      var first, more := payloads[0], Stream(payloads[1..]);
      assert |payloads[0]| < TWO_32;
      Assoc(Framed(first), more, tail);
      ParseFramed(first, more + tail);
      ParseStream(payloads[1..], tail);
      assert [first] + payloads[1..] == payloads;
    }
  }

  /** The payloads of a list of packets. */
  function Payloads(c: PacketCodec, packets: seq<PlainPacket>): seq<Bytes>
    requires forall p :: p in packets ==> c.encode(p).Some?
  {
    if |packets| == 0 then [] else [c.encode(packets[0]).value] + Payloads(c, packets[1..])
  }

  lemma {:induction false} DecodedPayloads(c: PacketCodec, packets: seq<PlainPacket>)
    requires Lawful(c) && forall p :: p in packets ==> c.encode(p).Some?
    ensures Decoded(c, Payloads(c, packets)) == packets
  {
    if |packets| > 0 {
      var rest := Payloads(c, packets[1..]);
      assert ([c.encode(packets[0]).value] + rest)[1..] == rest;
      DecodedPayloads(c, packets[1..]);
      assert packets == [packets[0]] + packets[1..];
    }
  }

  /** Every list of packets, sent as one stream and cut into chunks in any way, is dispatched exactly and in order. */
  lemma PacketsArrive(c: PacketCodec, packets: seq<PlainPacket>, chunks: seq<Bytes>)
    requires Lawful(c) && forall p :: p in packets ==> c.encode(p).Some?
    requires Sendable(Payloads(c, packets)) && Joined(chunks) == Stream(Payloads(c, packets))
    ensures ReceivedAll(c, chunks) == Receiver([], packets)
  {
    var payloads := Payloads(c, packets);
    ChunksDoNotMatter(c, chunks);
    assert Stream(payloads) + [] == Stream(payloads);
    ParseStream(payloads, []);
    DecodedPayloads(c, packets);
  }

  /** A framed payload byte by byte: the digits of its length, lowest first, and its bytes. */
  lemma FramedBytes(payload: Bytes, i: nat)
    requires i < |Framed(payload)|
    ensures Framed(payload)[i] == if i < 4 then Digit(|payload| % TWO_32, i) else payload[i - 4]
  {
    if i < 4 {
      LeDigit(|payload| % TWO_32, WIDTH_32, i);
    }
  }

  /** The frame at the front of some bytes. */
  lemma FirstFrame(s: Bytes)
    requires Complete(s)
    ensures var len := FromLe(s[..4]); len < TWO_32 && s == Framed(s[4..4 + len]) + s[4 + len..]
  {
    var len := FromLe(s[..4]);
    Widths();
    assert |s[..4]| == WIDTH_32;
    LeOfFromLe(s[..4]);
    SmallMod(len, TWO_32);
    assert s == s[..4] + s[4..4 + len] + s[4 + len..];
  }

  lemma {:induction false} ParsedIsStream(s: Bytes)
    ensures Sendable(Parse(s).payloads) && s == Stream(Parse(s).payloads) + Parse(s).rest
    decreases |s|
  {
    if Complete(s) {
      var len := FromLe(s[..4]);
      var first, more := s[4..4 + len], Parse(s[4 + len..]).payloads;
      FirstFrame(s);
      ParsedIsStream(s[4 + len..]);
      assert ([first] + more)[1..] == more;
      Assoc(Framed(first), Stream(more), Parse(s).rest);
    }
  }

  /** On any bytes, parsing gives these payloads and this rest exactly when the bytes are those payloads framed, each
      under 2^32 bytes, and a rest that is not a whole frame. */
  lemma ParseExactly(s: Bytes, payloads: seq<Bytes>, rest: Bytes)
    ensures Parse(s) == Parsed(payloads, rest) <==>
      Sendable(payloads) && s == Stream(payloads) + rest && !(|rest| >= 4 && |rest| - 4 >= FromLe(rest[..4]))
  {
    ParsedIsStream(s);
    RestIsIncomplete(s);
    if Sendable(payloads) && s == Stream(payloads) + rest && !Complete(rest) {
      ParseStream(payloads, rest);
    }
  }

  /** A payload survives framing exactly when its length fits the 32-bit field. */
  lemma FramedSurvives(payload: Bytes)
    ensures Parse(Framed(payload)) == Parsed([payload], []) <==> |payload| < TWO_32
  {
    assert Framed(payload) + [] == Framed(payload);
    if |payload| < TWO_32 {
      ParseFramed(payload, []);
    } else {
      var n := |payload| % TWO_32;
      Widths();
      LeRoundTrip(n, WIDTH_32);
      assert Framed(payload)[..4] == Le(n, WIDTH_32);
      assert Parse(Framed(payload)).payloads[0] == Framed(payload)[4..4 + n];
    }
  }
}
