/** The exit node: virtual addresses for forwarded packets, and replies framed onto the handlers' streams. */
module ExitNode {
  import opened Base
  import opened PacketStream

  datatype Ipv4 = Ipv4(a: Byte, b: Byte, c: Byte, d: Byte)

  datatype Route = Route(handlerId: u64, connId: u64)

  const FIRST: nat := 2
  const TUN_BUFFER: nat := 2048
  const MAGIC: nat := 0xDEADBEEF

  function AddressOf(id: nat): Ipv4
    requires id < 65536
  {
    Ipv4(10, 200, (id / 256) as Byte, (id % 256) as Byte)
  }

  /** The foreign parts: the packet serialiser, the checksum, and the IPv4 header parser. */
  datatype Foreign = Foreign(
    codec: PacketCodec, crc: Bytes -> u32, isIpv4: Bytes -> bool, destination: Bytes -> Option<Ipv4>)

  // ---- what each event does ----

  datatype Node = Node(ipPool: nat, routes: map<Ipv4, Route>, streams: map<u64, Bytes>)

  const FRESH := Node(FIRST, map[], map[])

  datatype Event =
    | Forward(handlerId: u64, connId: u64)
    | Tun(packet: Bytes)              // a packet read from the tunnel
    | Register(handlerId: u64)        // a handler opens its stream

  function Reply(f: Foreign, r: Route, packet: Bytes): PlainPacket {
    PlainPacket(MAGIC, r.connId, r.handlerId, seq(16, _ => 0), 0, packet, f.crc(packet), true)
  }

  function Step(f: Foreign, n: Node, e: Event): Node
    requires n.ipPool < 65536
  {
    match e
    case Forward(handlerId, connId) =>
      n.(ipPool := (n.ipPool + 1) % 65536, routes := n.routes[AddressOf(n.ipPool) := Route(handlerId, connId)])
    case Register(handlerId) => n.(streams := n.streams[handlerId := []])
    case Tun(packet) =>
      match f.destination(packet)
      case None => n
      case Some(dst) =>
        if dst !in n.routes || n.routes[dst].handlerId !in n.streams then n
        else
          var h := n.routes[dst].handlerId;
          match f.codec.encode(Reply(f, n.routes[dst], packet))
          case None => n
          case Some(bytes) => n.(streams := n.streams[h := n.streams[h] + Framed(bytes)])
  }

  /** The packet with its source address replaced, if it starts with an IPv4 header. */
  function Rewritten(f: Foreign, payload: Bytes, source: Ipv4): Bytes {
    if f.isIpv4(payload) && |payload| >= 20
    then payload[..12] + [source.a, source.b, source.c, source.d] + payload[16..]
    else payload
  }

  class ExitService {
    const f: Foreign
    var ipPool: nat
    var routes: map<Ipv4, Route>
    var streams: map<u64, Bytes>

    predicate Valid()
      reads this
    {
      ipPool < 65536
    }

    function State(): Node
      reads this
    {
      Node(ipPool, routes, streams)
    }

    constructor (f: Foreign)
      ensures Valid() && State() == FRESH && this.f == f
    {
      this.f := f;
      ipPool, routes, streams := FIRST, map[], map[];
    }

    method AllocIp() returns (ip: Ipv4)
      requires Valid()
      modifies this`ipPool
      ensures Valid() && ip == AddressOf(old(ipPool)) && ipPool == (old(ipPool) + 1) % 65536
    {
      var id := ipPool;
      ipPool := (ipPool + 1) % 65536;
      ip := Ipv4(10, 200, (id / 256) as Byte, (id % 256) as Byte);
    }

    /** Routes the connection of a packet through a new virtual address and returns what goes into the tunnel. */
    method HandleForward(packet: PlainPacket) returns (written: Bytes)
      requires Valid()
      modifies this`ipPool, this`routes
      ensures Valid() && State() == Step(f, old(State()), Forward(packet.handlerId, packet.connId))
      ensures written == Rewritten(f, packet.payload, AddressOf(old(ipPool)))
    {
      var ip := AllocIp();
      written := packet.payload;
      if f.isIpv4(packet.payload) && |packet.payload| >= 20 {
        written := written[12 := ip.a];
        written := written[13 := ip.b];
        written := written[14 := ip.c];
        written := written[15 := ip.d];
      }
      routes := routes[ip := Route(packet.handlerId, packet.connId)];
    }

    method RegisterStream(handlerId: u64)
      requires Valid()
      modifies this`streams
      ensures Valid() && State() == Step(f, old(State()), Register(handlerId))
    {
      streams := streams[handlerId := []];
    }

    method OnTunPacket(packet: Bytes)
      requires Valid()
      modifies this`streams
      ensures Valid() && State() == Step(f, old(State()), Tun(packet))
    {
      var dst := f.destination(packet);
      if dst.Some? && dst.value in routes {
        var route := routes[dst.value];
        if route.handlerId in streams {
          var bytes := f.codec.encode(Reply(f, route, packet));
          if bytes.Some? {
            var payload := Le(|bytes.value| % TWO_32, WIDTH_32) + bytes.value;
            streams := streams[route.handlerId := streams[route.handlerId] + payload];
          }
        }
      }
    }
  }

  // ---- routes ----

  function Run(f: Foreign, events: seq<Event>): (n: Node)
    ensures n.ipPool < 65536
  {
    if |events| == 0 then FRESH else Step(f, Run(f, Front(events)), Last(events))
  }

  /** The routes of the forwarded packets, in order. */
  function Forwards(events: seq<Event>): seq<Route> {
    if |events| == 0 then []
    else
      Forwards(Front(events)) +
      if Last(events).Forward? then [Route(Last(events).handlerId, Last(events).connId)] else []
  }

  /** The virtual address of the i-th forwarded packet. */
  function NthAddress(i: nat): Ipv4 {
    AddressOf((FIRST + i) % 65536)
  }

  /** The route of the latest packet with an address. */
  function Latest(forwards: seq<Route>, address: Ipv4): Option<Route> {
    if |forwards| == 0 then None
    else if NthAddress(|forwards| - 1) == address then Some(Last(forwards))
    else Latest(Front(forwards), address)
  }

  lemma {:induction false} CounterFollows(f: Foreign, events: seq<Event>)
    ensures Run(f, events).ipPool == (FIRST + |Forwards(events)|) % 65536
  {
    if |events| > 0 {
      CounterFollows(f, Front(events));
    }
  }

  /** After any events, an address routes to the latest packet that was given it. */
  lemma {:induction false} RoutesAreLatest(f: Foreign, events: seq<Event>, address: Ipv4)
    ensures var routes := Run(f, events).routes;
      (if address in routes then Some(routes[address]) else None) == Latest(Forwards(events), address)
  {
    if |events| > 0 {
      RoutesAreLatest(f, Front(events), address);
      CounterFollows(f, Front(events));
      var before := Forwards(Front(events));
      if Last(events).Forward? {
        assert Front(Forwards(events)) == before;
      } else {
        assert Forwards(events) == before;
      }
    }
  }

  /** The octets determine the counter value. */
  lemma AddressesDiffer(i: nat, j: nat)
    requires i < 65536 && j < 65536
    ensures AddressOf(i) == AddressOf(j) <==> i == j
  {}

  /** The address of the i-th packet: 10.200, then the counter's two bytes, the high one first. */
  lemma AddressOctets(i: nat)
    ensures var ip := NthAddress(i);
      ip.a == 10 && ip.b == 200 && ip.c as nat * 256 + ip.d as nat == (2 + i) % 65536
  {}

  /** Of a packet that is rewritten, only the four bytes of the source address change; any other stays as it is. */
  lemma RewrittenBytes(f: Foreign, payload: Bytes, source: Ipv4, i: nat)
    requires i < |payload|
    ensures |Rewritten(f, payload, source)| == |payload|
    ensures Rewritten(f, payload, source)[i] ==
      if f.isIpv4(payload) && |payload| >= 20 && 12 <= i < 16
      then [source.a, source.b, source.c, source.d][i - 12] else payload[i]
  {}

  /** Two packets share an address exactly when their numbers differ by a multiple of the pool; so none of the first
      65,536 do. */
  lemma AddressesRepeat(i: nat, j: nat)
    ensures NthAddress(i) == NthAddress(j) <==> i % 65536 == j % 65536
    ensures i < j < i + 65536 ==> NthAddress(i) != NthAddress(j)
  {
    AddressesDiffer((FIRST + i) % 65536, (FIRST + j) % 65536);
    CounterAt(i);
    CounterAt(j);
    if i < j < i + 65536 {
      NotTheSame(i, j);
    }
  }

  lemma CounterAt(i: nat)
    ensures (FIRST + i) % 65536 == if i % 65536 < 65534 then i % 65536 + 2 else i % 65536 - 65534
  {}

  lemma NotTheSame(i: nat, j: nat)
    requires i < j < i + 65536
    ensures i % 65536 != j % 65536
  {}

  /** An address routes to the i-th packet exactly until the pool has come round to it again. */
  lemma {:induction false} RouteLasts(forwards: seq<Route>, i: nat)
    requires i < |forwards| <= i + 65536
    ensures Latest(forwards, NthAddress(i)) == Some(forwards[i])
  {
    if i < |forwards| - 1 {
      AddressesRepeat(i, |forwards| - 1);
      RouteLasts(Front(forwards), i);
    }
  }

  /** After that it routes to a later packet. */
  lemma {:induction false} RouteReplaced(forwards: seq<Route>, i: nat)
    requires i + 65536 < |forwards|
    ensures exists j: nat ::
      i < j < |forwards| && j % 65536 == i % 65536 && Latest(forwards, NthAddress(i)) == Some(forwards[j])
    decreases |forwards| - i
  {
    if i + 65536 + 65536 < |forwards| {
      RouteReplaced(forwards, i + 65536);
      AddressesRepeat(i, i + 65536);
      var j: nat :| i + 65536 < j < |forwards| && j % 65536 == (i + 65536) % 65536
               && Latest(forwards, NthAddress(i + 65536)) == Some(forwards[j]);
    } else {
      RouteLasts(forwards, i + 65536);
      AddressesRepeat(i, i + 65536);
    }
  }

  // ---- replies ----

  /** The replies a handler should see on the stream it opened last. */
  function Replies(f: Foreign, events: seq<Event>, h: u64): seq<PlainPacket> {
    if |events| == 0 then []
    else
      var before, e := Replies(f, Front(events), h), Last(events);
      match e
      case Forward(_, _) => before
      case Register(h') => if h' == h then [] else before
      case Tun(packet) => before + NewReplies(f, Front(events), packet, h)
  }

  predicate HasStream(events: seq<Event>, h: u64) {
    exists i :: 0 <= i < |events| && events[i] == Register(h)
  }

  /** A tunnel packet is a reply to the handler that its destination routes to, if that handler has a stream. */
  function NewReplies(f: Foreign, events: seq<Event>, packet: Bytes, h: u64): seq<PlainPacket> {
    match f.destination(packet)
    case None => []
    case Some(dst) =>
      match Latest(Forwards(events), dst)
      case None => []
      case Some(route) =>
        if route.handlerId == h && HasStream(events, h) && f.codec.encode(Reply(f, route, packet)).Some?
        then [Reply(f, route, packet)] else []
  }

  /** The packet with which a tunnel packet is sent back on a connection of a handler. */
  predicate Answers(f: Foreign, p: PlainPacket, packet: Bytes, handlerId: u64, connId: u64) {
    && p.handlerId == handlerId && p.connId == connId
    && p.payload == packet && p.checksum == f.crc(packet) && p.isResponse
    && p.magic == 0xDEAD_BEEF && p.rport == 0 && forall i :: 0 <= i < 16 ==> p.rip[i] == 0
  }

  /** The address given to the packet that is forwarded at a position of a run. */
  function GivenAt(events: seq<Event>, e: nat): Ipv4
    requires e <= |events|
  {
    NthAddress(|Forwards(events[..e])|)
  }

  /** The packet forwarded at position e was the latest, before position t, to be given this address. */
  ghost predicate WasGiven(events: seq<Event>, t: nat, e: nat, address: Ipv4)
    requires t <= |events|
  {
    && e < t && events[e].Forward? && GivenAt(events, e) == address
    && forall k :: e < k < t && events[k].Forward? ==> GivenAt(events, k) != address
  }

  lemma LatestMore(forwards: seq<Route>, r: Route, address: Ipv4)
    ensures Latest(forwards + [r], address) ==
      if NthAddress(|forwards|) == address then Some(r) else Latest(forwards, address)
  {
    assert Front(forwards + [r]) == forwards;
  }

  lemma LatestAt(events: seq<Event>, t: nat, address: Ipv4)
    requires 0 < t <= |events|
    ensures Latest(Forwards(events[..t]), address) ==
      if events[t - 1].Forward? && GivenAt(events, t - 1) == address
      then Some(Route(events[t - 1].handlerId, events[t - 1].connId))
      else Latest(Forwards(events[..t - 1]), address)
  {
    var before, e := Forwards(events[..t - 1]), events[t - 1];
    assert Front(events[..t]) == events[..t - 1];
    if e.Forward? {
      LatestMore(before, Route(e.handlerId, e.connId), address);
    } else {
      assert Forwards(events[..t]) == before;
    }
  }

  /** An address routes to the packet that was given it last. */
  lemma {:induction false} GivenIsLatest(events: seq<Event>, t: nat, e: nat, address: Ipv4)
    requires t <= |events| && WasGiven(events, t, e, address)
    ensures Latest(Forwards(events[..t]), address) == Some(Route(events[e].handlerId, events[e].connId))
  {
    LatestAt(events, t, address);
    if e < t - 1 {
      GivenIsLatest(events, t - 1, e, address);
    }
  }

  lemma {:induction false} LatestWasGiven(events: seq<Event>, t: nat, address: Ipv4) returns (e: nat)
    requires t <= |events| && Latest(Forwards(events[..t]), address).Some?
    ensures WasGiven(events, t, e, address)
  {
    assert |Forwards(events[..t])| > 0;
    LatestAt(events, t, address);
    if events[t - 1].Forward? && GivenAt(events, t - 1) == address {
      e := t - 1;
    } else {
      e := LatestWasGiven(events, t - 1, address);
    }
  }

  lemma AnswerIsReply(f: Foreign, p: PlainPacket, r: Route, packet: Bytes)
    ensures Answers(f, p, packet, r.handlerId, r.connId) <==> p == Reply(f, r, packet)
  {
    var zeros: Bytes16 := seq(16, _ => 0);
    if Answers(f, p, packet, r.handlerId, r.connId) {
      assert p.rip == zeros && Reply(f, r, packet).rip == zeros;
    }
  }

  /** A tunnel packet of a run is to be answered to a handler with p: its destination was last given to the packet
      forwarded at position j, which is the handler's, p can be encoded, and the handler's stream is the one open
      then. */
  ghost predicate Answerable(f: Foreign, events: seq<Event>, h: u64, t: nat, j: nat, p: PlainPacket) {
    && t < |events| && events[t].Tun? && f.destination(events[t].packet).Some?
    && WasGiven(events, t, j, f.destination(events[t].packet).value)
    && events[j].handlerId == h
    && Answers(f, p, events[t].packet, h, events[j].connId) && f.codec.encode(p).Some?
    && HasStream(events[..t], h) && forall k :: t < k < |events| ==> events[k] != Register(h)
  }

  lemma AnswerableBefore(f: Foreign, events: seq<Event>, h: u64, t: nat, j: nat, p: PlainPacket)
    requires |events| > 0 && t < |events| - 1 && Last(events) != Register(h)
    ensures Answerable(f, events, h, t, j, p) <==> Answerable(f, Front(events), h, t, j, p)
  {
    assert forall k :: 0 <= k <= t ==> events[..k] == Front(events)[..k];
    assert forall k :: 0 <= k < |events| - 1 ==> events[k] == Front(events)[k];
  }

  lemma NewIsAnswerable(f: Foreign, events: seq<Event>, h: u64) returns (j: nat)
    requires |events| > 0 && Last(events).Tun? && |NewReplies(f, Front(events), Last(events).packet, h)| > 0
    ensures Answerable(f, events, h, |events| - 1, j, NewReplies(f, Front(events), Last(events).packet, h)[0])
  {
    var before, packet := Front(events), Last(events).packet;
    assert events[..|events| - 1] == before;
    j := LatestWasGiven(events, |events| - 1, f.destination(packet).value);
    GivenIsLatest(events, |events| - 1, j, f.destination(packet).value);
    AnswerIsReply(f, NewReplies(f, before, packet, h)[0], Route(events[j].handlerId, events[j].connId), packet);
  }

  lemma AnswerableIsNew(f: Foreign, events: seq<Event>, h: u64, j: nat, p: PlainPacket)
    requires |events| > 0 && Answerable(f, events, h, |events| - 1, j, p)
    ensures NewReplies(f, Front(events), Last(events).packet, h) == [p]
  {
    var before, packet := Front(events), Last(events).packet;
    assert events[..|events| - 1] == before;
    GivenIsLatest(events, |events| - 1, j, f.destination(packet).value);
    AnswerIsReply(f, p, Route(events[j].handlerId, events[j].connId), packet);
  }

  /** These tunnel packets of a run are exactly the ones to be answered to a handler, in their order, and the packets
      are their answers. */
  ghost predicate Lists(f: Foreign, events: seq<Event>, h: u64, ts: seq<nat>, js: seq<nat>, packets: seq<PlainPacket>) {
    && |ts| == |js| == |packets|
    && (forall i, i' :: 0 <= i < i' < |ts| ==> ts[i] < ts[i'])
    && (forall i :: 0 <= i < |ts| ==> Answerable(f, events, h, ts[i], js[i], packets[i]))
    && (forall t: nat, j: nat, p: PlainPacket :: Answerable(f, events, h, t, j, p) ==> t in ts)
  }

  lemma ListsNone(f: Foreign, events: seq<Event>, h: u64)
    requires |events| == 0 || Last(events) == Register(h)
    ensures Lists(f, events, h, [], [], [])
  {
    forall t: nat, j: nat, p: PlainPacket
      ensures !Answerable(f, events, h, t, j, p)
    {
      if |events| > 0 {
        assert events[|events| - 1] == Register(h);
      }
    }
  }

  /** Another event leaves the earlier answers as they are. */
  lemma ListsBefore(f: Foreign, events: seq<Event>, h: u64, ts: seq<nat>, js: seq<nat>, packets: seq<PlainPacket>)
    requires |events| > 0 && Last(events) != Register(h) && Lists(f, Front(events), h, ts, js, packets)
    ensures forall i :: 0 <= i < |ts| ==> ts[i] < |events| - 1 && Answerable(f, events, h, ts[i], js[i], packets[i])
    ensures forall t: nat, j: nat, p: PlainPacket ::
      Answerable(f, events, h, t, j, p) && t < |events| - 1 ==> t in ts
  {
    forall i | 0 <= i < |ts|
      ensures ts[i] < |events| - 1 && Answerable(f, events, h, ts[i], js[i], packets[i])
    {
      assert Answerable(f, Front(events), h, ts[i], js[i], packets[i]);
      AnswerableBefore(f, events, h, ts[i], js[i], packets[i]);
    }
    forall t: nat, j: nat, p: PlainPacket | Answerable(f, events, h, t, j, p) && t < |events| - 1
      ensures t in ts
    {
      AnswerableBefore(f, events, h, t, j, p);
    }
  }

  lemma ListsSame(f: Foreign, events: seq<Event>, h: u64, ts: seq<nat>, js: seq<nat>, packets: seq<PlainPacket>)
    requires |events| > 0 && Last(events) != Register(h) && Lists(f, Front(events), h, ts, js, packets)
    requires Last(events).Tun? ==> |NewReplies(f, Front(events), Last(events).packet, h)| == 0
    ensures Lists(f, events, h, ts, js, packets)
  {
    ListsBefore(f, events, h, ts, js, packets);
    forall t: nat, j: nat, p: PlainPacket | Answerable(f, events, h, t, j, p)
      ensures t in ts
    {
      if t == |events| - 1 {
        AnswerableIsNew(f, events, h, j, p);
      }
    }
  }

  lemma ListsMore(f: Foreign, events: seq<Event>, h: u64, ts: seq<nat>, js: seq<nat>, packets: seq<PlainPacket>,
                  j: nat, p: PlainPacket)
    requires |events| > 0 && Last(events) != Register(h) && Lists(f, Front(events), h, ts, js, packets)
    requires Answerable(f, events, h, |events| - 1, j, p)
    ensures Lists(f, events, h, ts + [|events| - 1], js + [j], packets + [p])
  {
    ListsBefore(f, events, h, ts, js, packets);
    var ts' := ts + [|events| - 1];
    assert ts'[|ts|] == |events| - 1;
    forall t: nat, j: nat, p: PlainPacket | Answerable(f, events, h, t, j, p)
      ensures t in ts'
    {
      if t < |events| - 1 {
        assert t in ts;
      }
    }
  }

  /** The replies to a handler are the answers to exactly the tunnel packets that are to be answered to it, once each
      and in their order. */
  lemma {:induction false} RepliesExactly(f: Foreign, events: seq<Event>, h: u64) returns (ts: seq<nat>, js: seq<nat>)
    ensures Lists(f, events, h, ts, js, Replies(f, events, h))
  {
    if |events| == 0 || Last(events) == Register(h) {
      ts, js := [], [];
      ListsNone(f, events, h);
    } else {
      var before := Replies(f, Front(events), h);
      ts, js := RepliesExactly(f, Front(events), h);
      if Last(events).Tun? && |NewReplies(f, Front(events), Last(events).packet, h)| > 0 {
        var j := NewIsAnswerable(f, events, h);
        var p := NewReplies(f, Front(events), Last(events).packet, h)[0];
        ListsMore(f, events, h, ts, js, before, j, p);
        assert Replies(f, events, h) == before + [p];
        ts, js := ts + [|events| - 1], js + [j];
      } else {
        ListsSame(f, events, h, ts, js, before);
        assert Replies(f, events, h) == before;
      }
    }
  }

  lemma {:induction false} StreamsExist(f: Foreign, events: seq<Event>, h: u64)
    ensures h in Run(f, events).streams <==> HasStream(events, h)
  {
    if |events| > 0 {
      StreamsExist(f, Front(events), h);
      assert HasStream(events, h) <==> HasStream(Front(events), h) || Last(events) == Register(h);
    }
  }

  lemma {:induction false} StreamSnoc(payloads: seq<Bytes>, payload: Bytes)
    ensures Stream(payloads + [payload]) == Stream(payloads) + Framed(payload)
  {
    if |payloads| == 0 {
      assert payloads + [payload] == [payload];
      assert Stream([payload]) == Framed(payload) + Stream([]);
    } else {
      assert (payloads + [payload])[1..] == payloads[1..] + [payload];
      StreamSnoc(payloads[1..], payload);
      Assoc(Framed(payloads[0]), Stream(payloads[1..]), Framed(payload));
    }
  }

  ghost predicate AllEncode(c: PacketCodec, packets: seq<PlainPacket>) {
    forall p :: p in packets ==> c.encode(p).Some?
  }

  lemma {:induction false} PayloadsSnoc(c: PacketCodec, packets: seq<PlainPacket>, p: PlainPacket)
    requires AllEncode(c, packets) && c.encode(p).Some?
    ensures AllEncode(c, packets + [p])
    ensures Payloads(c, packets + [p]) == Payloads(c, packets) + [c.encode(p).value]
  {
    if |packets| > 0 {
      assert (packets + [p])[1..] == packets[1..] + [p];
      PayloadsSnoc(c, packets[1..], p);
    }
  }

  /** A handler's stream carries exactly its replies. */
  lemma {:induction false} StreamCarriesReplies(f: Foreign, events: seq<Event>, h: u64)
    ensures AllEncode(f.codec, Replies(f, events, h))
    ensures h in Run(f, events).streams ==>
      Run(f, events).streams[h] == Stream(Payloads(f.codec, Replies(f, events, h)))
  {
    if |events| > 0 {
      StreamCarriesReplies(f, Front(events), h);
      var n, before, e := Run(f, Front(events)), Replies(f, Front(events), h), Last(events);
      StreamsExist(f, Front(events), h);
      if e.Tun? {
        if f.destination(e.packet).Some? {
          RoutesAreLatest(f, Front(events), f.destination(e.packet).value);
        }
        if |NewReplies(f, Front(events), e.packet, h)| == 0 {
          assert Replies(f, events, h) == before;
        } else {
          var reply := NewReplies(f, Front(events), e.packet, h)[0];
          PayloadsSnoc(f.codec, before, reply);
          StreamSnoc(Payloads(f.codec, before), f.codec.encode(reply).value);
        }
      }
    }
  }

  /** A packet that fits the tunnel buffer encodes to fewer bytes than the length field can count. */
  ghost predicate EncodesShort(c: PacketCodec) {
    forall p: PlainPacket :: |p.payload| <= TUN_BUFFER && c.encode(p).Some? ==> |c.encode(p).value| < TWO_32
  }

  /** The tunnel is read into a buffer of fixed size. */
  predicate TunSized(events: seq<Event>) {
    forall i :: 0 <= i < |events| ==> events[i].Tun? ==> |events[i].packet| <= TUN_BUFFER
  }

  lemma {:induction false} RepliesAreShort(f: Foreign, events: seq<Event>, h: u64, p: PlainPacket)
    requires TunSized(events) && p in Replies(f, events, h)
    ensures |p.payload| <= TUN_BUFFER
  {
    if p in Replies(f, Front(events), h) {
      assert forall i :: 0 <= i < |Front(events)| ==> Front(events)[i] == events[i];
      RepliesAreShort(f, Front(events), h, p);
    } else {
      assert events[|events| - 1].Tun?;
    }
  }

  lemma {:induction false} ShortIsSendable(c: PacketCodec, packets: seq<PlainPacket>)
    requires AllEncode(c, packets) && EncodesShort(c) && forall p :: p in packets ==> |p.payload| <= TUN_BUFFER
    ensures Sendable(Payloads(c, packets))
  {
    if |packets| > 0 {
      assert packets[0] in packets;
      ShortIsSendable(c, packets[1..]);
    }
  }

  /** From the tunnel to the handler: whatever way a handler's stream is cut into chunks, its receiver dispatches the
      replies to that handler, in order and nothing else. */
  lemma RepliesArrive(f: Foreign, events: seq<Event>, h: u64, chunks: seq<Bytes>)
    requires Lawful(f.codec) && h in Run(f, events).streams && Joined(chunks) == Run(f, events).streams[h]
    requires EncodesShort(f.codec) && TunSized(events)
    ensures ReceivedAll(f.codec, chunks) == Receiver([], Replies(f, events, h))
  {
    StreamCarriesReplies(f, events, h);
    forall p | p in Replies(f, events, h)
      ensures |p.payload| <= TUN_BUFFER
    {
      RepliesAreShort(f, events, h, p);
    }
    ShortIsSendable(f.codec, Replies(f, events, h));
    PacketsArrive(f.codec, Replies(f, events, h), chunks);
  }
}
