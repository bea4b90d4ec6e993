/** The answer format of the DNS tunnel: a count byte, then one typed record for each address. */
module Doh {
  import opened Base

  datatype IpAddr = V4(octets: Bytes) | V6(octets: Bytes)

  predicate IsAddress(a: IpAddr) {
    |a.octets| == if a.V4? then 4 else 16
  }

  type Ip = a: IpAddr | IsAddress(a) witness V4([0, 0, 0, 0])

  const TYPE_A: Byte := 0x01
  const TYPE_AAAA: Byte := 0x1C

  datatype ControlMessage = DohResponse(response: Bytes) | Other

  datatype Answer = Found(addresses: seq<Ip>) | NoResults | InvalidResponse

  function Record(a: Ip): Bytes {
    [if a.V4? then TYPE_A else TYPE_AAAA] + a.octets
  }

  function Records(addresses: seq<Ip>): Bytes {
    if |addresses| == 0 then [] else Record(addresses[0]) + Records(addresses[1..])
  }

  /** The count byte holds the number of addresses modulo 256. */
  function Response(addresses: seq<Ip>): Bytes {
    [(|addresses| % 256) as Byte] + Records(addresses)
  }

  lemma {:induction false} RecordsSnoc(addresses: seq<Ip>, a: Ip)
    ensures Records(addresses + [a]) == Records(addresses) + Record(a)
  {
    if |addresses| == 0 {
      assert addresses + [a] == [a];
      assert Records([a]) == Record(a) + Records([]);
    } else {
      assert (addresses + [a])[1..] == addresses[1..] + [a];
      RecordsSnoc(addresses[1..], a);
      Assoc(Record(addresses[0]), Records(addresses[1..]), Record(a));
    }
  }

  method BuildDohResponse(addresses: seq<Ip>) returns (response: Bytes)
    ensures response == Response(addresses)
  {
    response := [(|addresses| % 256) as Byte];
    ghost var head := response;
    for i := 0 to |addresses|
      invariant response == head + Records(addresses[..i])
    {
      var a := addresses[i];
      RecordsSnoc(addresses[..i], a);
      assert addresses[..i] + [a] == addresses[..i + 1];
      Assoc(head, Records(addresses[..i]), Record(a));
      response := response + ([if a.V4? then TYPE_A else TYPE_AAAA] + a.octets);
    }
    assert addresses[..|addresses|] == addresses;
  }

  /** The addresses of up to `count` records. A record that is cut short is skipped after its type byte; an unknown
      type ends the answer. */
  function ParseRecords(bytes: Bytes, count: nat): seq<Ip>
    decreases count
  {
    if count == 0 || |bytes| == 0 then []
    else if bytes[0] == TYPE_A then
      if |bytes| >= 5 then [V4(bytes[1..5])] + ParseRecords(bytes[5..], count - 1)
      else ParseRecords(bytes[1..], count - 1)
    else if bytes[0] == TYPE_AAAA then
      if |bytes| >= 17 then [V6(bytes[1..17])] + ParseRecords(bytes[17..], count - 1)
      else ParseRecords(bytes[1..], count - 1)
    else []
  }

  function Parsed(m: ControlMessage): Answer {
    if m.Other? then InvalidResponse
    else if |m.response| == 0 then NoResults
    else
      var results := ParseRecords(m.response[1..], m.response[0] as nat);
      if |results| == 0 then NoResults else Found(results)
  }

  /** One turn of the parser's loop: the record at an offset, if it is whole, and where the next one starts. An unknown
      type ends the loop. */
  method ParseRecordAt(response: Bytes, offset: nat, ghost count: nat)
    returns (found: seq<Ip>, next: nat, unknown: bool)
    requires offset < |response| && count > 0
    ensures offset < next <= |response|
    ensures ParseRecords(response[offset..], count) ==
      if unknown then [] else found + ParseRecords(response[next..], count - 1)
    ensures unknown ==> found == []
  {
    ParseFrom(response, offset, count);
    var recordType := response[offset];
    found, next, unknown := [], offset + 1, false;
    if recordType == TYPE_A {
      if next + 4 <= |response| {
        found, next := [V4(response[next..next + 4])], next + 4;
      }
    } else if recordType == TYPE_AAAA {
      if next + 16 <= |response| {
        found, next := [V6(response[next..next + 16])], next + 16;
      }
    } else {
      unknown := true;
    }
  }

  /** The parser reads only inside the response, whatever its bytes are. */
  method ParseDohResponse(m: ControlMessage) returns (answer: Answer)
    ensures answer == Parsed(m)
  {
    if m.Other? {
      return InvalidResponse;
    }
    var response := m.response;
    if |response| == 0 {
      return NoResults;
    }
    var count := response[0] as nat;
    var results: seq<Ip> := [];
    var offset := 1;
    ghost var all := ParseRecords(response[1..], count);
    var i := 0;
    while i < count
      invariant 0 <= i <= count && 1 <= offset <= |response|
      invariant all == results + ParseRecords(response[offset..], count - i)
    {
      if offset >= |response| {
        break;
      }
      var found, next, unknown := ParseRecordAt(response, offset, count - i);
      if unknown {
        break;
      }
      Assoc(results, found, ParseRecords(response[next..], count - i - 1));
      results, offset := results + found, next;
      i := i + 1;
    }
    assert results == all;
    answer := if |results| == 0 then NoResults else Found(results);
  }

  lemma Slices(s: Bytes, offset: nat, n: nat)
    requires offset + 1 + n <= |s|
    ensures s[offset..][1..1 + n] == s[offset + 1..offset + 1 + n] && s[offset..][1 + n..] == s[offset + 1 + n..]
  {}

  /** What the parser makes of the bytes of a response from an offset on. */
  lemma ParseFrom(response: Bytes, offset: nat, count: nat)
    requires offset < |response| && count > 0
    ensures var next := offset + 1;
      ParseRecords(response[offset..], count) ==
        if response[offset] == 1 && next + 4 <= |response|
        then [V4(response[next..next + 4])] + ParseRecords(response[next + 4..], count - 1)
        else if response[offset] == 28 && next + 16 <= |response|
        then [V6(response[next..next + 16])] + ParseRecords(response[next + 16..], count - 1)
        else if response[offset] == 1 || response[offset] == 28 then ParseRecords(response[next..], count - 1)
        else []
  {
    Slices(response, offset, 0);
    if offset + 5 <= |response| {
      Slices(response, offset, 4);
    }
    if offset + 17 <= |response| {
      Slices(response, offset, 16);
    }
  }

  lemma ParseRecord(a: Ip, more: Bytes, count: nat)
    requires count > 0
    ensures ParseRecords(Record(a) + more, count) == [a] + ParseRecords(more, count - 1)
  {
    var bytes := Record(a) + more;
    assert bytes[1..1 + |a.octets|] == a.octets && bytes[1 + |a.octets|..] == more;
  }

  /** Parsing built records gives as many of the addresses as the count asks for. */
  lemma {:induction false} ParseBuilt(addresses: seq<Ip>, count: nat)
    requires count <= |addresses|
    ensures ParseRecords(Records(addresses), count) == addresses[..count]
  {
    if count > 0 {
      ParseRecord(addresses[0], Records(addresses[1..]), count);
      ParseBuilt(addresses[1..], count - 1);
      assert addresses[..count] == [addresses[0]] + addresses[1..][..count - 1];
    }
  }

  /** For lists of any length, mixing both kinds: the answer is the first (length mod 256) addresses, or no results. */
  lemma ParseInvertsBuild(addresses: seq<Ip>)
    ensures var n := |addresses| % 256;
      Parsed(DohResponse(Response(addresses))) == if n == 0 then NoResults else Found(addresses[..n])
  {
    var n, response := |addresses| % 256, Response(addresses);
    assert response[1..] == Records(addresses);
    ParseBuilt(addresses, n);
  }

  /** Another kind of message is an invalid response; a response without a readable address is no result. */
  lemma AnswerExactly(m: ControlMessage)
    ensures Parsed(m) == InvalidResponse <==> m.Other?
    ensures Parsed(m) == NoResults <==>
      m.DohResponse? && (m.response == [] || ParseRecords(m.response[1..], m.response[0] as nat) == [])
    ensures Parsed(m).Found? ==> Parsed(m).addresses == ParseRecords(m.response[1..], m.response[0] as nat)
  {}

  /** So a list comes back whole exactly when it has between 1 and 255 addresses. */
  lemma WholeAnswerExactly(addresses: seq<Ip>)
    ensures Parsed(DohResponse(Response(addresses))) == Found(addresses) <==> 1 <= |addresses| <= 255
  {
    ParseInvertsBuild(addresses);
    if 1 <= |addresses| <= 255 {
      assert addresses[..|addresses|] == addresses;
    }
  }

  /** Whatever the bytes, the addresses found fit into them and are no more than the count. */
  lemma {:induction false} FoundFits(bytes: Bytes, count: nat)
    ensures |ParseRecords(bytes, count)| <= count
    ensures |Records(ParseRecords(bytes, count))| <= |bytes|
    decreases count
  {
    var r := ParseRecords(bytes, count);
    if count > 0 && |bytes| > 0 {
      if bytes[0] == TYPE_A && |bytes| >= 5 {
        FoundFits(bytes[5..], count - 1);
        assert r[1..] == ParseRecords(bytes[5..], count - 1);
      } else if bytes[0] == TYPE_AAAA && |bytes| >= 17 {
        FoundFits(bytes[17..], count - 1);
        assert r[1..] == ParseRecords(bytes[17..], count - 1);
      } else {
        FoundFits(bytes[1..], count - 1);
      }
    }
  }

  // ---- the bytes of a response, and responses that are cut ----

  /** Where the record of the j-th address starts. */
  function Offset(addresses: seq<Ip>, j: nat): nat
    requires j <= |addresses|
  {
    if j == 0 then 1 else Offset(addresses, j - 1) + if addresses[j - 1].V4? then 5 else 17
  }

  lemma {:induction false} RecordsSplit(addresses: seq<Ip>, j: nat)
    requires j <= |addresses|
    ensures Records(addresses) == Records(addresses[..j]) + Records(addresses[j..])
  {
    if j == 0 {
      assert addresses[..0] == [] && addresses[0..] == addresses;
    } else {
      RecordsSplit(addresses[1..], j - 1);
      assert addresses[1..][..j - 1] == addresses[..j][1..] && addresses[1..][j - 1..] == addresses[j..];
      Assoc(Record(addresses[0]), Records(addresses[..j][1..]), Records(addresses[j..]));
    }
  }

  lemma {:induction false} OffsetIsLength(addresses: seq<Ip>, j: nat)
    requires j <= |addresses|
    ensures Offset(addresses, j) == 1 + |Records(addresses[..j])|
  {
    if j > 0 {
      OffsetIsLength(addresses, j - 1);
      assert addresses[..j] == addresses[..j - 1] + [addresses[j - 1]];
      RecordsSnoc(addresses[..j - 1], addresses[j - 1]);
    }
  }

  lemma InTheMiddle(before: Bytes, a: Ip, after: Bytes)
    ensures var s, p := before + (Record(a) + after), |before|;
      && p + 1 + |a.octets| <= |s|
      && s[p] == (if a.V4? then 1 else 28) && s[p + 1..p + 1 + |a.octets|] == a.octets
  {
    assert (before + (Record(a) + after))[|before|..] == Record(a) + after;
  }

  lemma ResponseSplit(addresses: seq<Ip>, j: nat) returns (before: Bytes, after: Bytes)
    requires j < |addresses|
    ensures Response(addresses) == before + (Record(addresses[j]) + after)
    ensures |before| == Offset(addresses, j)
  {
    var count, whole := [(|addresses| % 256) as Byte], Records(addresses[..j]);
    before, after := count + whole, Records(addresses[j + 1..]);
    RecordsSplit(addresses, j);
    OffsetIsLength(addresses, j);
    assert addresses[j..][1..] == addresses[j + 1..];
    Assoc(count, whole, Record(addresses[j]) + after);
  }

  lemma ResponseLength(addresses: seq<Ip>)
    ensures |Response(addresses)| == Offset(addresses, |addresses|)
  {
    OffsetIsLength(addresses, |addresses|);
    assert addresses[..|addresses|] == addresses;
  }

  /** Every byte of a response: the count, and for each address the type of its record, 1 or 28, and its octets. */
  lemma ResponseBytes(addresses: seq<Ip>, j: nat)
    requires j < |addresses|
    ensures var response, a, p := Response(addresses), addresses[j], Offset(addresses, j);
      && response[0] as nat == |addresses| % 256 && |response| == Offset(addresses, |addresses|)
      && p + 1 + |a.octets| <= |response|
      && response[p] == (if a.V4? then 1 else 28) && response[p + 1..p + 1 + |a.octets|] == a.octets
  {
    var before, after := ResponseSplit(addresses, j);
    ResponseLength(addresses);
    InTheMiddle(before, addresses[j], after);
  }

  lemma {:induction false} ParsePast(addresses: seq<Ip>, more: Bytes, count: nat)
    requires count >= |addresses|
    ensures ParseRecords(Records(addresses) + more, count) == addresses + ParseRecords(more, count - |addresses|)
  {
    if |addresses| == 0 {
      assert Records(addresses) + more == more;
    } else {
      var rest := Records(addresses[1..]);
      Assoc(Record(addresses[0]), rest, more);
      ParseRecord(addresses[0], rest + more, count);
      ParsePast(addresses[1..], more, count - 1);
      assert addresses == [addresses[0]] + addresses[1..];
      Assoc([addresses[0]], addresses[1..], ParseRecords(more, count - |addresses|));
    }
  }

  /** Octets of a cut record that look like records themselves: some bytes 28, a 1, and at least four more. */
  ghost predicate Misleading(left: Bytes, count: nat) {
    exists i :: 0 <= i < count && i + 5 <= |left| && left[i] == 1 && forall j :: 0 <= j < i ==> left[j] == 28
  }

  lemma {:induction false} LeftoverParses(left: Bytes, count: nat)
    requires |left| < 16
    ensures |ParseRecords(left, count)| > 0 <==> Misleading(left, count)
    decreases count
  {
    if count > 0 && |left| > 0 {
      if left[0] == 1 && |left| >= 5 {
        assert Misleading(left, count);
      } else if left[0] == 28 {
        LeftoverParses(left[1..], count - 1);
        SkippedType(left, count);
      } else if left[0] == 1 {
        TooShort(left[1..], count - 1);
      }
    }
  }

  lemma SkippedType(left: Bytes, count: nat)
    requires count > 0 && |left| > 0 && left[0] == 28
    ensures Misleading(left, count) <==> Misleading(left[1..], count - 1)
  {
    var rest := left[1..];
    if Misleading(left, count) {
      var i :| 0 <= i < count && i + 5 <= |left| && left[i] == 1 && forall j :: 0 <= j < i ==> left[j] == 28;
      assert i > 0 && rest[i - 1] == 1 && forall j :: 0 <= j < i - 1 ==> rest[j] == left[j + 1];
    }
    if Misleading(rest, count - 1) {
      var i :| 0 <= i < count - 1 && i + 5 <= |rest| && rest[i] == 1 && forall j :: 0 <= j < i ==> rest[j] == 28;
      assert left[i + 1] == 1 && forall j :: 0 < j < i + 1 ==> left[j] == rest[j - 1];
    }
  }

  lemma {:induction false} TooShort(left: Bytes, count: nat)
    requires |left| < 4
    ensures ParseRecords(left, count) == []
    decreases count
  {
    if count > 0 && |left| > 0 {
      TooShort(left[1..], count - 1);
    }
  }

  /** The octets that a cut leaves of a record, if it leaves its type. */
  function Left(a: Ip, extra: nat): Bytes
    requires extra <= |a.octets|
  {
    if extra == 0 then [] else a.octets[..extra - 1]
  }

  lemma ParseCut(a: Ip, extra: nat, count: nat)
    requires count > 0 && extra <= |a.octets|
    ensures extra <= |Record(a)|
    ensures ParseRecords(Record(a)[..extra], count) == ParseRecords(Left(a, extra), count - 1)
  {
    if extra > 0 {
      assert Record(a)[..extra][1..] == a.octets[..extra - 1];
    }
  }

  /** A response of up to 255 addresses cut inside the record of address j gives exactly the addresses before it, unless
      what is left of the record looks like records. */
  lemma CutResponseExactly(addresses: seq<Ip>, j: nat, extra: nat)
    requires j < |addresses| <= 255 && extra <= |addresses[j].octets|
    ensures Offset(addresses, j) + extra <= |Response(addresses)|
    ensures Gives(Response(addresses)[..Offset(addresses, j) + extra], addresses[..j]) <==>
      !Misleading(Left(addresses[j], extra), |addresses| - j - 1)
  {
    var a, n, good := addresses[j], |addresses|, addresses[..j];
    CutBytes(addresses, j, extra);
    ParsePast(good, Record(a)[..extra], n);
    ParseCut(a, extra, n - j);
    var bogus := ParseRecords(Left(a, extra), n - j - 1);
    LeftoverParses(Left(a, extra), n - j - 1);
    if |bogus| == 0 {
      assert good + bogus == good;
    } else {
      assert |good + bogus| > |good|;
    }
  }

  /** A response is answered with these addresses, or with none if there are none. */
  predicate Gives(response: Bytes, addresses: seq<Ip>) {
    Parsed(DohResponse(response)) == if |addresses| == 0 then NoResults else Found(addresses)
  }

  lemma CutBytes(addresses: seq<Ip>, j: nat, extra: nat)
    requires j < |addresses| <= 255 && extra <= |addresses[j].octets|
    ensures extra <= |Record(addresses[j])| && Offset(addresses, j) + extra <= |Response(addresses)|
    ensures var cut := Response(addresses)[..Offset(addresses, j) + extra];
      cut[0] as nat == |addresses| && cut[1..] == Records(addresses[..j]) + Record(addresses[j])[..extra]
  {
    var whole, r, rest := Records(addresses[..j]), Record(addresses[j]), Records(addresses[j + 1..]);
    RecordsSplit(addresses, j);
    OffsetIsLength(addresses, j);
    assert addresses[j..][1..] == addresses[j + 1..];
    assert Records(addresses) == whole + (r + rest);
    TakePast(whole, r + rest, extra);
    TakeWithin(r, rest, extra);
    var cut := Response(addresses)[..Offset(addresses, j) + extra];
    assert cut[1..] == Records(addresses)[..|whole| + extra];
  }

  /** Such a response: cut five octets into a first address 0102:0304:05.., it is answered with 2.3.4.5, which was never
      sent. */
  lemma CutResponseMisread(a: Ip, b: Ip)
    requires a.V6? && a.octets[..5] == [1, 2, 3, 4, 5]
    ensures |Response([a, b])| >= 7
    ensures Parsed(DohResponse(Response([a, b])[..7])) == Found([V4([2, 3, 4, 5])])
  {
    var cut := Response([a, b])[..7];
    CutBytes([a, b], 0, 6);
    assert [a, b][..0] == [] && Offset([a, b], 0) == 1;
    assert cut[1..] == [28, 1, 2, 3, 4, 5] by {
      assert Record(a)[..6] == [28] + a.octets[..5];
    }
    assert cut[1..][1..] == [1, 2, 3, 4, 5] && [1, 2, 3, 4, 5][1..5] == [2, 3, 4, 5] && [1, 2, 3, 4, 5][5..] == [];
    var five: Bytes := [1, 2, 3, 4, 5];
    assert ParseRecords(five, 1) == [V4(five[1..5])] + ParseRecords(five[5..], 0);
    assert ParseRecords(cut[1..], 2) == ParseRecords(five, 1);
  }
}
