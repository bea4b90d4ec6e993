/**
 Formats and a signature scheme that meet the laws asked of foreign code, so that the theorems that assume those laws
 speak about something. None of them is the one the program uses.
 */
module ExampleFormats {
  import opened Base
  import opened WriteAheadLog
  import opened RaftStorage
  import PacketStream
  import ExitNode
  import Authentication
  import KeyRotation

  // ---- taking codes apart ----

  lemma SameParts(a: Bytes, b: Bytes, a': Bytes, b': Bytes)
    requires a + b == a' + b' && |a| == |a'|
    ensures a == a' && b == b'
  {
    Parts(a, b);
    Parts(a', b');
  }

  lemma SameNumber(n: nat, b: Bytes, n': nat, b': Bytes, width: nat)
    requires Le(n, width) + b == Le(n', width) + b' && n < Pow256(width) && n' < Pow256(width)
    ensures n == n' && b == b'
  {
    SameParts(Le(n, width), b, Le(n', width), b');
    LeRoundTrip(n, width);
    LeRoundTrip(n', width);
  }

  lemma SameLast(n: nat, n': nat, width: nat)
    requires Le(n, width) == Le(n', width) && n < Pow256(width) && n' < Pow256(width)
    ensures n == n'
  {
    LeRoundTrip(n, width);
    LeRoundTrip(n', width);
  }

  // ---- log entries ----

  function UpsertCode(r: ClientRequest): (s: Bytes)
    requires r.Upsert?
    ensures |s| == 32
  {
    Le(r.connId, 8) + (r.clientAddr + (Le(r.natEntry.0, 2) + (Le(r.natEntry.1, 2) + Le(r.assignedPod, 4))))
  }

  function RequestCode(r: ClientRequest): (s: Bytes)
    ensures |s| <= 33
  {
    match r
    case Upsert(_, _, _, _) => [0] + UpsertCode(r)
    case DeleteConn(id) => [1] + Le(id, 8)
    case Cleanup(before) => [2] + Le(before, 8)
    case Noop => [3]
  }

  function PayloadCode(p: Payload): (s: Bytes)
    ensures |s| <= 33
  {
    match p
    case Blank => []
    case Normal(r) => RequestCode(r)
  }

  /** A binary form of an entry. Its first byte is not the first byte of a marker. */
  function Code(e: Entry): (s: Bytes)
    ensures 0 < |s| <= 50 && s[0] == 0
  {
    [0] + (Le(e.term, 8) + (Le(e.index, 8) + PayloadCode(e.payload)))
  }

  ghost function Decoded(s: Bytes): (r: Option<Entry>)
    ensures r.Some? ==> Code(r.value) == s
    ensures r.None? ==> forall e: Entry :: Code(e) != s
  {
    if exists e: Entry :: Code(e) == s then var e: Entry :| Code(e) == s; Some(e) else None
  }

  lemma SamePorts(p: u16, q: u16, pod: u32, p': u16, q': u16, pod': u32)
    requires Le(p, 2) + (Le(q, 2) + Le(pod, 4)) == Le(p', 2) + (Le(q', 2) + Le(pod', 4))
    ensures p == p' && q == q' && pod == pod'
  {
    Widths();
    assert Pow256(2) == 65536;
    SameNumber(p, Le(q, 2) + Le(pod, 4), p', Le(q', 2) + Le(pod', 4), 2);
    SameNumber(q, Le(pod, 4), q', Le(pod', 4), 2);
    SameLast(pod, pod', 4);
  }

  lemma UpsertCodeInjective(r: ClientRequest, r': ClientRequest)
    requires r.Upsert? && r'.Upsert? && UpsertCode(r) == UpsertCode(r')
    ensures r == r'
  {
    var ports := Le(r.natEntry.0, 2) + (Le(r.natEntry.1, 2) + Le(r.assignedPod, 4));
    var ports' := Le(r'.natEntry.0, 2) + (Le(r'.natEntry.1, 2) + Le(r'.assignedPod, 4));
    Widths();
    SameNumber(r.connId, r.clientAddr + ports, r'.connId, r'.clientAddr + ports', 8);
    SameParts(r.clientAddr, ports, r'.clientAddr, ports');
    SamePorts(r.natEntry.0, r.natEntry.1, r.assignedPod, r'.natEntry.0, r'.natEntry.1, r'.assignedPod);
  }

  lemma RequestCodeInjective(r: ClientRequest, r': ClientRequest)
    requires RequestCode(r) == RequestCode(r')
    ensures r == r'
  {
    assert RequestCode(r)[0] == RequestCode(r')[0];
    assert RequestCode(r)[1..] == RequestCode(r')[1..];
    Widths();
    match r
    case Upsert(_, _, _, _) => UpsertCodeInjective(r, r');
    case DeleteConn(id) => SameLast(id, r'.connId, 8);
    case Cleanup(before) => SameLast(before, r'.beforeTimestamp, 8);
    case Noop =>
  }

  lemma CodeInjective(e: Entry, e': Entry)
    requires Code(e) == Code(e')
    ensures e == e'
  {
    var p, p' := PayloadCode(e.payload), PayloadCode(e'.payload);
    Widths();
    SameParts([0], Le(e.term, 8) + (Le(e.index, 8) + p), [0], Le(e'.term, 8) + (Le(e'.index, 8) + p'));
    SameNumber(e.term, Le(e.index, 8) + p, e'.term, Le(e'.index, 8) + p', 8);
    SameNumber(e.index, p, e'.index, p', 8);
    if e.payload.Normal? && e'.payload.Normal? {
      RequestCodeInjective(e.payload.request, e'.payload.request);
    }
  }

  ghost function BinaryFormats(crc: Checksum): Formats {
    Formats(crc, Codec((e: Entry) => Some(Code(e)), s => Decoded(s)), _ => [])
  }

  /** The laws asked of the formats can be met, with any checksum. */
  lemma WellBehavedFormatsExist(crc: Checksum)
    ensures WellBehaved(BinaryFormats(crc))
  {
    var f := BinaryFormats(crc);
    forall e: Entry
      ensures f.json.decode(f.json.encode(e).value) == Some(e)
    {
      CodeInjective(e, Decoded(Code(e)).value);
    }
    forall hs: HardState
      ensures f.json.decode(MarkerData(f, hs)).None?
    {
      assert MarkerData(f, hs)[0] == 95;
    }
  }

  // ---- packets on the reply stream ----

  function PacketCode(p: PacketStream.PlainPacket): (s: Bytes)
    ensures 0 < |s| <= |p.payload| + 64
  {
    Le(p.magic, 4) + (Le(p.connId, 8) + (Le(p.handlerId, 8) + (p.rip + (Le(p.rport, 2) +
    (Le(p.checksum, 4) + ([if p.isResponse then 1 else 0] + p.payload))))))
  }

  lemma PacketCodeInjective(p: PacketStream.PlainPacket, q: PacketStream.PlainPacket)
    requires PacketCode(p) == PacketCode(q)
    ensures p == q
  {
    var p1, q1 := [if p.isResponse then 1 else 0] + p.payload, [if q.isResponse then 1 else 0] + q.payload;
    var p2, q2 := Le(p.checksum, 4) + p1, Le(q.checksum, 4) + q1;
    var p3, q3 := Le(p.rport, 2) + p2, Le(q.rport, 2) + q2;
    var p4, q4 := Le(p.handlerId, 8) + (p.rip + p3), Le(q.handlerId, 8) + (q.rip + q3);
    Widths();
    assert Pow256(2) == 65536;
    SameNumber(p.magic, Le(p.connId, 8) + p4, q.magic, Le(q.connId, 8) + q4, 4);
    SameNumber(p.connId, p4, q.connId, q4, 8);
    SameNumber(p.handlerId, p.rip + p3, q.handlerId, q.rip + q3, 8);
    SameParts(p.rip, p3, q.rip, q3);
    SameNumber(p.rport, p2, q.rport, q2, 2);
    SameNumber(p.checksum, p1, q.checksum, q1, 4);
    assert p1[0] == q1[0] && p1[1..] == q1[1..];
  }

  ghost function PacketDecoded(s: Bytes): (r: Option<PacketStream.PlainPacket>)
    ensures r.Some? ==> PacketCode(r.value) == s
    ensures r.None? ==> forall p: PacketStream.PlainPacket :: PacketCode(p) != s
  {
    if exists p: PacketStream.PlainPacket :: PacketCode(p) == s
    then var p: PacketStream.PlainPacket :| PacketCode(p) == s; Some(p) else None
  }

  ghost function PacketFormat(): PacketStream.PacketCodec {
    Codec((p: PacketStream.PlainPacket) => Some(PacketCode(p)), s => PacketDecoded(s))
  }

  lemma PacketLawsCanHold()
    ensures Lawful(PacketFormat()) && ExitNode.EncodesShort(PacketFormat())
  {
    forall p: PacketStream.PlainPacket
      ensures PacketDecoded(PacketCode(p)) == Some(p)
    {
      PacketCodeInjective(p, PacketDecoded(PacketCode(p)).value);
    }
  }

  // ---- tokens ----

  function Unary(n: nat): Bytes {
    seq<Byte>(n, _ => 0) + [1]
  }

  /** The mark is where the number says, and nowhere before. */
  lemma EndMark(n: nat, b: Bytes)
    ensures (Unary(n) + b)[n] == 1 && forall i :: 0 <= i < n ==> (Unary(n) + b)[i] == 0
  {}

  lemma SameUnary(n: nat, b: Bytes, n': nat, b': Bytes)
    requires Unary(n) + b == Unary(n') + b'
    ensures n == n' && b == b'
  {
    EndMark(n, b);
    EndMark(n', b');
    SameParts(Unary(n), b, Unary(n'), b');
  }

  function TokenCode(p: Authentication.TokenPayload): Bytes {
    p.nonce + (Unary(p.userId) + (Unary(p.issuedAt) + Unary(p.validUntil)))
  }

  lemma TokenCodeInjective(p: Authentication.TokenPayload, q: Authentication.TokenPayload)
    requires TokenCode(p) == TokenCode(q)
    ensures p == q
  {
    var p1, q1 := Unary(p.issuedAt) + Unary(p.validUntil), Unary(q.issuedAt) + Unary(q.validUntil);
    SameParts(p.nonce, Unary(p.userId) + p1, q.nonce, Unary(q.userId) + q1);
    SameUnary(p.userId, p1, q.userId, q1);
    SameUnary(p.issuedAt, Unary(p.validUntil), q.issuedAt, Unary(q.validUntil));
    assert |Unary(p.validUntil)| == p.validUntil + 1 && |Unary(q.validUntil)| == q.validUntil + 1;
  }

  ghost function TokenDecoded(s: Bytes): (r: Option<Authentication.TokenPayload>)
    ensures r.Some? ==> TokenCode(r.value) == s
    ensures r.None? ==> forall p: Authentication.TokenPayload :: TokenCode(p) != s
  {
    if exists p: Authentication.TokenPayload :: TokenCode(p) == s
    then var p: Authentication.TokenPayload :| TokenCode(p) == s; Some(p) else None
  }

  /** Signatures are all alike and of the given size; the program splits off another size, or the same. */
  ghost function TokenFormat(splitSize: nat, schemeSize: nat): Authentication.Foreign {
    Authentication.Foreign(
      (r: Authentication.AuthRequest) => true, s => None,
      (b: Bytes) => b, (b: Bytes) => Some(b),
      splitSize, (b: Bytes) => seq<Byte>(schemeSize, _ => 0), (b: Bytes, s: Bytes) => |s| == schemeSize,
      (p: Authentication.TokenPayload) => TokenCode(p), (s: Bytes) => TokenDecoded(s))
  }

  lemma TokenLawsCanHold(splitSize: nat, schemeSize: nat)
    ensures Authentication.TokenLaws(TokenFormat(splitSize, schemeSize), schemeSize)
  {
    forall p: Authentication.TokenPayload
      ensures TokenDecoded(TokenCode(p)) == Some(p)
    {
      TokenCodeInjective(p, TokenDecoded(TokenCode(p)).value);
    }
  }

  // ---- signatures ----

  /** A signature is the key and the message. */
  function PlainScheme(): KeyRotation.Scheme<(Bytes, Bytes)> {
    KeyRotation.Scheme(
      (k: Bytes) => k, (k: Bytes, m: Bytes) => (k, m), (k: Bytes, m: Bytes, s: (Bytes, Bytes)) => s == (k, m))
  }

  lemma IdealSchemeExists()
    ensures KeyRotation.Ideal(PlainScheme())
  {}
}
