/** A storage segment: records appended to a byte buffer, with the offset where each one starts. */
module Segments {
  import opened Base

  datatype StreamState = StreamState(streamId: nat, bytesSent: nat, bytesReceived: nat, isClosed: bool)

  datatype ConnMeta = ConnMeta(clientAddr: Bytes, localPort: nat, remotePort: nat, assignedPod: nat,
                               streams: seq<StreamState>)

  datatype ConnRecord = ConnRecord(connId: nat, metadata: ConnMeta, createdAt: nat, lastActive: nat,
                                   accessCount: nat, txid: nat)

  type RecordCodec = Codec<ConnRecord>

  datatype SegmentPtr = SegmentPtr(segmentId: nat, offset: nat)

  /** The value of a segment. */
  datatype Seg = Seg(id: nat, data: Bytes, offsets: seq<nat>, isSealed: bool, sizeLimit: nat)

  function NewSegment(id: nat, sizeLimit: nat): Seg {
    Seg(id, [], [], false, sizeLimit)
  }

  /** Records start at strictly increasing offsets, each inside the data. */
  predicate WellFormed(s: Seg) {
    && (forall i, j :: 0 <= i < j < |s.offsets| ==> s.offsets[i] < s.offsets[j])
    && (forall i :: 0 <= i < |s.offsets| ==> s.offsets[i] < |s.data|)
  }

  /** The segment with a record appended, at offset |s.data|; or nothing, if it is sealed or too full. */
  function Appended(c: RecordCodec, s: Seg, r: ConnRecord): Option<Seg> {
    if s.isSealed then None
    else match c.encode(r)
      case None => None
      case Some(bytes) =>
        if |s.data| + |bytes| > s.sizeLimit then None
        else Some(s.(data := s.data + bytes, offsets := s.offsets + [|s.data|]))
  }

  /** The first offset above a given one. */
  function NextOffset(offsets: seq<nat>, offset: nat): Option<nat> {
    if |offsets| == 0 then None
    else if offsets[0] > offset then Some(offsets[0])
    else NextOffset(offsets[1..], offset)
  }

  lemma {:induction false} NextOffsetIn(offsets: seq<nat>, offset: nat)
    ensures var n := NextOffset(offsets, offset); n.Some? ==> n.value in offsets && n.value > offset
  {
    if |offsets| > 0 {
      NextOffsetIn(offsets[1..], offset);
    }
  }

  /** The record that starts at an offset: its bytes end where the next record starts. */
  function ReadAt(c: RecordCodec, s: Seg, offset: nat): Option<ConnRecord>
    requires WellFormed(s)
  {
    if offset >= |s.data| then None
    else
      var next := NextOffset(s.offsets, offset);
      NextOffsetIn(s.offsets, offset);
      var end := if next.Some? then next.value else |s.data|;
      c.decode(s.data[offset..end])
  }

  class Segment {
    const codec: RecordCodec
    const id: nat
    var data: Bytes
    var offsets: seq<nat>
    var isSealed: bool
    const sizeLimit: nat

    function State(): Seg
      reads this
    {
      Seg(id, data, offsets, isSealed, sizeLimit)
    }

    constructor (codec: RecordCodec, id: nat, sizeLimit: nat)
      ensures State() == NewSegment(id, sizeLimit) && this.codec == codec
    {
      this.codec, this.id, this.sizeLimit := codec, id, sizeLimit;
      data, offsets, isSealed := [], [], false;
    }

    method Append(r: ConnRecord) returns (offset: Option<nat>)
      modifies this
      ensures var s := Appended(codec, old(State()), r);
        if s.Some? then State() == s.value && offset == Some(|old(data)|)
        else State() == old(State()) && offset == None
    {
      if isSealed {
        return None;
      }
      var bytes := codec.encode(r);
      if bytes.None? || |data| + |bytes.value| > sizeLimit {
        return None;
      }
      offset := Some(|data|);
      data := data + bytes.value;
      offsets := offsets + [offset.value];
    }

    method Read(offset: nat) returns (r: Option<ConnRecord>)
      requires WellFormed(State())
      ensures r == ReadAt(codec, State(), offset)
    {
      if offset >= |data| {
        return None;
      }
      var i := 0;
      while i < |offsets| && offsets[i] <= offset
        invariant 0 <= i <= |offsets|
        invariant NextOffset(offsets, offset) == NextOffset(offsets[i..], offset)
      {
        i := i + 1;
      }
      var end := if i < |offsets| then offsets[i] else |data|;
      r := codec.decode(data[offset..end]);
    }

    method Seal()
      modifies this`isSealed
      ensures State() == old(State()).(isSealed := true)
    {
      isSealed := true;
    }
  }

  // ---- appending never disturbs an earlier record ----

  /** The next offset above one of the listed offsets is its successor in the list. */
  lemma {:induction false} NextOffsetAt(offsets: seq<nat>, i: nat)
    requires i < |offsets| && forall i, j :: 0 <= i < j < |offsets| ==> offsets[i] < offsets[j]
    ensures NextOffset(offsets, offsets[i]) == if i + 1 < |offsets| then Some(offsets[i + 1]) else None
  {
    if i > 0 {
      NextOffsetAt(offsets[1..], i - 1);
    } else if |offsets| > 1 {
      assert offsets[1..][0] == offsets[1];
    }
  }

  lemma {:induction false} NextOffsetFrom(offsets: seq<nat>, offset: nat, i: nat)
    requires i <= |offsets| && (forall j :: 0 <= j < i ==> offsets[j] <= offset)
    requires i < |offsets| ==> offsets[i] > offset
    ensures NextOffset(offsets, offset) == if i < |offsets| then Some(offsets[i]) else None
  {
    if i > 0 {
      NextOffsetFrom(offsets[1..], offset, i - 1);
    }
  }

  /** Reading at any offset decodes the bytes from there to the first record that starts later, or to the end. */
  lemma ReadsToNext(c: RecordCodec, s: Seg, offset: nat, i: nat)
    requires WellFormed(s) && i <= |s.offsets| && (forall j :: 0 <= j < i ==> s.offsets[j] <= offset)
    requires i < |s.offsets| ==> s.offsets[i] > offset
    ensures ReadAt(c, s, offset) ==
      if offset >= |s.data| then None
      else if i < |s.offsets| then c.decode(s.data[offset..s.offsets[i]])
      else c.decode(s.data[offset..])
  {
    NextOffsetFrom(s.offsets, offset, i);
    if offset < |s.data| {
      assert s.data[offset..|s.data|] == s.data[offset..];
    }
  }

  lemma AppendedWellFormed(c: RecordCodec, s: Seg, r: ConnRecord)
    requires WellFormed(s) && Lawful(c) && Appended(c, s, r).Some?
    ensures WellFormed(Appended(c, s, r).value)
  {}

  lemma ReadsNew(c: RecordCodec, s: Seg, r: ConnRecord)
    requires WellFormed(s) && Lawful(c) && Appended(c, s, r).Some?
    ensures var s' := Appended(c, s, r).value;
      WellFormed(s') && |s.data| in s'.offsets && |s.data| !in s.offsets && ReadAt(c, s', |s.data|) == Some(r)
  {
    AppendedWellFormed(c, s, r);
    var s' := Appended(c, s, r).value;
    assert s'.offsets[|s.offsets|] == |s.data|;
    NextOffsetAt(s'.offsets, |s.offsets|);
    Parts(s.data, c.encode(r).value);
    assert s'.data[|s.data|..|s'.data|] == s'.data[|s.data|..];
  }

  lemma ReadsOld(c: RecordCodec, s: Seg, r: ConnRecord, i: nat)
    requires WellFormed(s) && Lawful(c) && Appended(c, s, r).Some? && i < |s.offsets|
    ensures var s' := Appended(c, s, r).value;
      WellFormed(s') && s.offsets[i] in s'.offsets && ReadAt(c, s', s.offsets[i]) == ReadAt(c, s, s.offsets[i])
  {
    AppendedWellFormed(c, s, r);
    var s' := Appended(c, s, r).value;
    var o := s.offsets[i];
    assert s'.offsets[i] == o;
    NextOffsetAt(s.offsets, i);
    NextOffsetAt(s'.offsets, i);
    var end := if i + 1 < |s.offsets| then s.offsets[i + 1] else |s.data|;
    assert s'.data[o..end] == s.data[o..end];
  }

  /** When appending works, and what the segment then holds: the new record at its offset, and every earlier record
      where it was. */
  lemma AppendedReads(c: RecordCodec, s: Seg, r: ConnRecord)
    requires WellFormed(s) && Lawful(c)
    ensures Appended(c, s, r).Some? <==>
      !s.isSealed && c.encode(r).Some? && |s.data| + |c.encode(r).value| <= s.sizeLimit
    ensures Appended(c, s, r).Some? ==>
      var s' := Appended(c, s, r).value;
      && WellFormed(s') && s'.id == s.id && !s'.isSealed && s'.sizeLimit == s.sizeLimit
      && |s.data| in s'.offsets && |s.data| !in s.offsets && ReadAt(c, s', |s.data|) == Some(r)
      && (forall o :: o in s.offsets ==> o in s'.offsets && ReadAt(c, s', o) == ReadAt(c, s, o))
  {
    if Appended(c, s, r).Some? {
      ReadsNew(c, s, r);
      forall o | o in s.offsets
        ensures var s' := Appended(c, s, r).value; o in s'.offsets && ReadAt(c, s', o) == ReadAt(c, s, o)
      {
        var i :| 0 <= i < |s.offsets| && s.offsets[i] == o;
        ReadsOld(c, s, r, i);
      }
    }
  }
}
