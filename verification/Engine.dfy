/** Tables of segments with increasing ids, and the pointers that lead into them. */
module SegmentTables {
  import opened Base
  import opened Segments

  predicate AllWellFormed(segs: seq<Seg>) {
    forall i :: 0 <= i < |segs| ==> WellFormed(segs[i])
  }

  predicate IncreasingIds(segs: seq<Seg>) {
    forall i, j :: 0 <= i < j < |segs| ==> segs[i].id < segs[j].id
  }

  /** The first sealed segment with an id. */
  function FindSealed(sealed: seq<Seg>, id: nat): Option<Seg> {
    if |sealed| == 0 then None
    else if sealed[0].id == id then Some(sealed[0])
    else FindSealed(sealed[1..], id)
  }

  lemma {:induction false} FindSealedIn(sealed: seq<Seg>, id: nat)
    ensures var s := FindSealed(sealed, id); s.Some? ==> s.value in sealed
  {
    if |sealed| > 0 {
      FindSealedIn(sealed[1..], id);
    }
  }

  lemma {:induction false} FindSealedAt(sealed: seq<Seg>, i: nat)
    requires IncreasingIds(sealed) && i < |sealed|
    ensures FindSealed(sealed, sealed[i].id) == Some(sealed[i])
  {
    if i > 0 {
      FindSealedAt(sealed[1..], i - 1);
    }
  }

  function ScanSealed(c: RecordCodec, sealed: seq<Seg>, ptr: SegmentPtr): Option<ConnRecord>
    requires AllWellFormed(sealed)
  {
    FindSealedIn(sealed, ptr.segmentId);
    match FindSealed(sealed, ptr.segmentId)
    case Some(s) => ReadAt(c, s, ptr.offset)
    case None => None
  }

  /** Some segment of the table holds the record at the pointer. */
  ghost predicate Holds(c: RecordCodec, segs: seq<Seg>, ptr: SegmentPtr, r: ConnRecord) {
    exists i :: 0 <= i < |segs| && HoldsAt(c, segs[i], ptr, r)
  }

  predicate HoldsAt(c: RecordCodec, s: Seg, ptr: SegmentPtr, r: ConnRecord) {
    WellFormed(s) && s.id == ptr.segmentId && ptr.offset in s.offsets && ReadAt(c, s, ptr.offset) == Some(r)
  }

  /** A later version of a segment: every record is still where it was. */
  ghost predicate Grown(c: RecordCodec, s: Seg, s': Seg) {
    && WellFormed(s) && WellFormed(s') && s.id == s'.id
    && (forall o :: o in s.offsets ==> o in s'.offsets && ReadAt(c, s', o) == ReadAt(c, s, o))
  }

  /** A later version of a table: later versions of its segments, and perhaps more of them. */
  ghost predicate Grows(c: RecordCodec, segs: seq<Seg>, segs': seq<Seg>) {
    |segs| <= |segs'| && forall i :: 0 <= i < |segs| ==> Grown(c, segs[i], segs'[i])
  }

  lemma HoldsGrows(c: RecordCodec, segs: seq<Seg>, segs': seq<Seg>, ptr: SegmentPtr, r: ConnRecord)
    requires Grows(c, segs, segs') && Holds(c, segs, ptr, r)
    ensures Holds(c, segs', ptr, r)
  {
    var i :| 0 <= i < |segs| && HoldsAt(c, segs[i], ptr, r);
    assert HoldsAt(c, segs'[i], ptr, r);
  }

  /** Appending to the last segment of a table. */
  lemma AppendLast(c: RecordCodec, sealed: seq<Seg>, active: Seg, r: ConnRecord)
    requires Lawful(c) && AllWellFormed(sealed + [active]) && IncreasingIds(sealed + [active])
    requires Appended(c, active, r).Some?
    ensures var segs, segs' := sealed + [active], sealed + [Appended(c, active, r).value];
      && AllWellFormed(segs') && IncreasingIds(segs') && Grows(c, segs, segs')
      && Holds(c, segs', SegmentPtr(active.id, |active.data|), r)
  {
    var segs, segs' := sealed + [active], sealed + [Appended(c, active, r).value];
    assert segs[|sealed|] == active;
    AppendedReads(c, active, r);
    assert forall i :: 0 <= i < |sealed| ==> segs'[i] == segs[i] && WellFormed(segs[i]);
    assert HoldsAt(c, segs'[|sealed|], SegmentPtr(active.id, |active.data|), r);
  }

  /** Sealing a segment leaves its records in place. */
  lemma SealKeeps(c: RecordCodec, s: Seg)
    requires WellFormed(s)
    ensures Grown(c, s, s.(isSealed := true))
  {}

  /** Sealing the last segment and putting a new one after it. */
  lemma RotateLast(c: RecordCodec, sealed: seq<Seg>, active: Seg, id: nat, limit: nat)
    requires AllWellFormed(sealed + [active]) && IncreasingIds(sealed + [active]) && active.id < id
    ensures var segs, segs' := sealed + [active], sealed + [active.(isSealed := true)] + [NewSegment(id, limit)];
      AllWellFormed(segs') && IncreasingIds(segs') && Grows(c, segs, segs')
  {
    var segs := sealed + [active];
    assert segs[|sealed|] == active;
    SealKeeps(c, active);
    assert forall i :: 0 <= i < |sealed| ==> segs[i] == sealed[i] && WellFormed(sealed[i]) && sealed[i].id < active.id;
  }

  /** With increasing ids, a pointer into the sealed part is found by scanning it. */
  lemma ScanFinds(c: RecordCodec, sealed: seq<Seg>, ptr: SegmentPtr, r: ConnRecord)
    requires AllWellFormed(sealed) && IncreasingIds(sealed) && Holds(c, sealed, ptr, r)
    ensures ScanSealed(c, sealed, ptr) == Some(r)
  {
    var i :| 0 <= i < |sealed| && HoldsAt(c, sealed[i], ptr, r);
    FindSealedAt(sealed, i);
  }

  /** A pointer into the table leads into its last segment exactly when that segment has its id. */
  lemma HoldsSplit(c: RecordCodec, sealed: seq<Seg>, active: Seg, ptr: SegmentPtr, r: ConnRecord)
    requires AllWellFormed(sealed + [active]) && IncreasingIds(sealed + [active])
    requires Holds(c, sealed + [active], ptr, r)
    ensures if ptr.segmentId == active.id then HoldsAt(c, active, ptr, r) else Holds(c, sealed, ptr, r)
  {
    var segs := sealed + [active];
    var i :| 0 <= i < |segs| && HoldsAt(c, segs[i], ptr, r);
    assert segs[|sealed|] == active;
    if i < |sealed| {
      assert segs[i].id < segs[|sealed|].id;
      assert HoldsAt(c, sealed[i], ptr, r);
    }
  }

  lemma SealedPart(sealed: seq<Seg>, active: Seg)
    requires AllWellFormed(sealed + [active]) && IncreasingIds(sealed + [active])
    ensures AllWellFormed(sealed) && IncreasingIds(sealed) && WellFormed(active)
  {
    var segs := sealed + [active];
    assert segs[|sealed|] == active;
    assert forall i :: 0 <= i < |sealed| ==> segs[i] == sealed[i];
  }

  /** The index covers the keys of a map, and each of its pointers leads to the record of its key. */
  ghost predicate IndexHolds(c: RecordCodec, segs: seq<Seg>, index: map<nat, SegmentPtr>,
                             contents: map<nat, ConnRecord>)
  {
    index.Keys == contents.Keys && forall k :: k in contents ==> Holds(c, segs, index[k], contents[k])
  }

  lemma IndexGrows(c: RecordCodec, segs: seq<Seg>, segs': seq<Seg>, index: map<nat, SegmentPtr>,
                   contents: map<nat, ConnRecord>)
    requires Grows(c, segs, segs') && IndexHolds(c, segs, index, contents)
    ensures IndexHolds(c, segs', index, contents)
  {
    forall k | k in contents
      ensures Holds(c, segs', index[k], contents[k])
    {
      HoldsGrows(c, segs, segs', index[k], contents[k]);
    }
  }

  lemma IndexInsert(c: RecordCodec, segs: seq<Seg>, index: map<nat, SegmentPtr>, contents: map<nat, ConnRecord>,
                    k: nat, ptr: SegmentPtr, r: ConnRecord)
    requires IndexHolds(c, segs, index, contents) && Holds(c, segs, ptr, r)
    ensures IndexHolds(c, segs, index[k := ptr], contents[k := r])
  {}

  lemma IndexRemove(c: RecordCodec, segs: seq<Seg>, index: map<nat, SegmentPtr>, contents: map<nat, ConnRecord>, k: nat)
    requires IndexHolds(c, segs, index, contents)
    ensures IndexHolds(c, segs, index - {k}, contents - {k})
  {}
}

/** The storage engine: an active segment, sealed segments, and an index from connection ids to pointers. */
module StorageEngine {
  import opened Base
  import opened Segments
  import opened SegmentTables

  // ---- the engine's state and operations ----

  datatype Engine = Engine(
    active: Seg, sealed: seq<Seg>, index: map<nat, SegmentPtr>, txid: nat, nextId: nat, limit: nat)

  function Segs(e: Engine): seq<Seg> {
    e.sealed + [e.active]
  }

  function Fresh(limit: nat, nextId: nat): Engine {
    Engine(NewSegment(nextId, limit), [], map[], 1, nextId + 1, limit)
  }

  function Rotated(e: Engine): Engine {
    e.(active := NewSegment(e.nextId, e.limit), nextId := e.nextId + 1,
       sealed := e.sealed + [e.active.(isSealed := true)])
  }

  function TryAppend(c: RecordCodec, e: Engine, r: ConnRecord): Option<Engine> {
    match Appended(c, e.active, r)
    case Some(s) => Some(e.(active := s, index := e.index[r.connId := SegmentPtr(e.active.id, |e.active.data|)]))
    case None => None
  }

  function NewRecord(connId: nat, metadata: ConnMeta, now: nat, txid: nat): ConnRecord {
    ConnRecord(connId, metadata, now, now, 1, txid)
  }

  /** Draws a transaction id, then appends the record, to a new segment if the active one has no room. */
  function Upserted(c: RecordCodec, e: Engine, connId: nat, metadata: ConnMeta, now: nat): (Engine, Option<nat>) {
    var r := NewRecord(connId, metadata, now, e.txid);
    var e1 := e.(txid := e.txid + 1);
    match TryAppend(c, e1, r)
    case Some(e2) => (e2, Some(e.txid))
    case None =>
      match TryAppend(c, Rotated(e1), r)
      case Some(e2) => (e2, Some(e.txid))
      case None => (Rotated(e1), None)
  }

  function Get(c: RecordCodec, e: Engine, connId: nat): Option<ConnRecord>
    requires AllWellFormed(Segs(e))
  {
    if connId !in e.index then None
    else
      var ptr := e.index[connId];
      assert Segs(e)[|e.sealed|] == e.active;
      assert forall i :: 0 <= i < |e.sealed| ==> Segs(e)[i] == e.sealed[i];
      if ptr.segmentId == e.active.id then ReadAt(c, e.active, ptr.offset) else ScanSealed(c, e.sealed, ptr)
  }

  function Deleted(e: Engine, connId: nat): Engine {
    e.(index := e.index - {connId})
  }

  // ---- the program ----

  /** The process-wide counter of segment ids. */
  class SegmentIds {
    var next: nat

    constructor ()
      ensures next == 0
    {
      next := 0;
    }

    method Draw() returns (id: nat)
      modifies this
      ensures id == old(next) && next == old(next) + 1
    {
      id := next;
      next := next + 1;
    }
  }

  ghost function StatesOf(segments: seq<Segment>): (r: seq<Seg>)
    reads segments
    ensures |r| == |segments| && forall i :: 0 <= i < |r| ==> r[i] == segments[i].State()
  {
    seq(|segments|, i requires 0 <= i < |segments| reads segments => segments[i].State())
  }

  lemma StatesSnoc(segments: seq<Segment>, last: Segment)
    ensures StatesOf(segments + [last]) == StatesOf(segments) + [last.State()]
  {}

  class StorageEngine {
    const codec: RecordCodec
    const limit: nat
    const ids: SegmentIds
    var active: Segment
    var sealed: seq<Segment>
    var index: map<nat, SegmentPtr>
    var txidCounter: nat

    ghost predicate Valid()
      reads this, active, sealed, ids
    {
      && active !in sealed
      && active.codec == codec && (forall s :: s in sealed ==> s.codec == codec)
      && AllWellFormed(Segs(State()))
    }

    ghost function State(): Engine
      reads this, active, sealed, ids
    {
      Engine(active.State(), StatesOf(sealed), index, txidCounter, ids.next, limit)
    }

    constructor (codec: RecordCodec, limit: nat, ids: SegmentIds)
      modifies ids
      ensures Valid() && this.codec == codec && this.ids == ids
      ensures State() == Fresh(limit, old(ids.next))
    {
      this.codec, this.limit, this.ids := codec, limit, ids;
      var id := ids.Draw();
      active := new Segment(codec, id, limit);
      sealed, index, txidCounter := [], map[], 1;
    }

    method NextTxid() returns (txid: nat)
      modifies this`txidCounter
      ensures txid == old(txidCounter) && txidCounter == txid + 1
    {
      txid := txidCounter;
      txidCounter := txidCounter + 1;
    }

    method RotateSegment()
      requires Valid()
      modifies this`active, this`sealed, active, ids
      ensures active !in sealed && active.codec == codec && fresh(active)
      ensures forall s :: s in sealed ==> s.codec == codec
      ensures State() == Rotated(old(State()))
    {
      var id := ids.Draw();
      var oldSegment := active;
      active := new Segment(codec, id, limit);
      oldSegment.Seal();
      assert StatesOf(sealed) == old(StatesOf(sealed));
      StatesSnoc(sealed, oldSegment);
      sealed := sealed + [oldSegment];
      assert active.State() == NewSegment(id, limit);
      assert StatesOf(sealed) == old(StatesOf(sealed)) + [old(active.State()).(isSealed := true)];
    }

    /** Appends a record to the active segment and points the index at it. */
    method AppendActive(r: ConnRecord) returns (ok: bool)
      requires Valid()
      modifies this`index, active
      ensures active !in sealed && active.codec == codec && forall s :: s in sealed ==> s.codec == codec
      ensures var e := TryAppend(codec, old(State()), r);
        if e.Some? then ok && State() == e.value else !ok && State() == old(State())
    {
      var offset := active.Append(r);
      ok := offset.Some?;
      if ok {
        index := index[r.connId := SegmentPtr(active.id, offset.value)];
      }
      assert StatesOf(sealed) == old(StatesOf(sealed));
    }

    method Upsert(connId: nat, metadata: ConnMeta, now: nat) returns (r: Option<nat>)
      requires Valid() && Lawful(codec)
      modifies this, active, ids
      ensures Valid()
      ensures (State(), r) == Upserted(codec, old(State()), connId, metadata, now)
    {
      UpsertedWellFormed(codec, State(), connId, metadata, now);
      var txid := NextTxid();
      ghost var e := State();
      assert e == old(State()).(txid := txid + 1) && Segs(e) == Segs(old(State()));
      var record := NewRecord(connId, metadata, now, txid);
      var ok := AppendActive(record);
      if ok {
        return Some(txid);
      }
      assert State() == e;
      RotatedWellFormed(e);
      RotateSegment();
      assert State() == Rotated(e) && Valid();
      ok := AppendActive(record);
      r := if ok then Some(txid) else None;
    }

    method Lookup(connId: nat) returns (r: Option<ConnRecord>)
      requires Valid()
      ensures r == Get(codec, State(), connId)
    {
      if connId !in index {
        return None;
      }
      var ptr := index[connId];
      ghost var e := State();
      assert Segs(e)[|sealed|] == active.State();
      if ptr.segmentId == active.id {
        r := active.Read(ptr.offset);
        return;
      }
      for i := 0 to |sealed|
        invariant FindSealed(e.sealed, ptr.segmentId) == FindSealed(e.sealed[i..], ptr.segmentId)
      {
        assert Segs(e)[i] == sealed[i].State() == e.sealed[i];
        if ptr.segmentId == sealed[i].id {
          r := sealed[i].Read(ptr.offset);
          return;
        }
      }
      r := None;
    }

    method Delete(connId: nat) returns (r: Option<SegmentPtr>)
      requires Valid()
      modifies this`index
      ensures Valid()
      ensures State() == Deleted(old(State()), connId)
      ensures r == if connId in old(index) then Some(old(index)[connId]) else None
    {
      r := if connId in index then Some(index[connId]) else None;
      index := index - {connId};
    }
  }

  lemma RotatedWellFormed(e: Engine)
    requires AllWellFormed(Segs(e))
    ensures AllWellFormed(Segs(Rotated(e)))
  {
    assert Segs(e)[|e.sealed|] == e.active;
    assert forall i :: 0 <= i < |e.sealed| ==> Segs(e)[i] == e.sealed[i];
  }

  lemma TryAppendWellFormed(c: RecordCodec, e: Engine, r: ConnRecord)
    requires Lawful(c) && AllWellFormed(Segs(e)) && TryAppend(c, e, r).Some?
    ensures AllWellFormed(Segs(TryAppend(c, e, r).value))
  {
    assert Segs(e)[|e.sealed|] == e.active;
    assert forall i :: 0 <= i < |e.sealed| ==> Segs(e)[i] == e.sealed[i];
    AppendedReads(c, e.active, r);
  }

  lemma UpsertedWellFormed(c: RecordCodec, e: Engine, connId: nat, metadata: ConnMeta, now: nat)
    requires Lawful(c) && AllWellFormed(Segs(e))
    ensures AllWellFormed(Segs(Upserted(c, e, connId, metadata, now).0))
  {
    var r := NewRecord(connId, metadata, now, e.txid);
    var e1 := e.(txid := e.txid + 1);
    RotatedWellFormed(e1);
    if TryAppend(c, e1, r).Some? {
      TryAppendWellFormed(c, e1, r);
    } else if TryAppend(c, Rotated(e1), r).Some? {
      TryAppendWellFormed(c, Rotated(e1), r);
    }
  }

  // ---- the engine agrees with a plain map ----

  datatype Op =
    | Upsert(connId: nat, metadata: ConnMeta, now: nat)
    | Delete(connId: nat)
    | ForeignSegment   // another engine of the process draws a segment id

  function Step(c: RecordCodec, e: Engine, op: Op): Engine {
    match op
    case Upsert(connId, metadata, now) => Upserted(c, e, connId, metadata, now).0
    case Delete(connId) => Deleted(e, connId)
    case ForeignSegment => e.(nextId := e.nextId + 1)
  }

  function Run(c: RecordCodec, limit: nat, nextId: nat, ops: seq<Op>): Engine {
    if |ops| == 0 then Fresh(limit, nextId)
    else Step(c, Run(c, limit, nextId, ops[..|ops| - 1]), ops[|ops| - 1])
  }

  /** Transaction ids count the upserts, failed ones included. */
  function NextTxid(ops: seq<Op>): nat {
    if |ops| == 0 then 1
    else NextTxid(ops[..|ops| - 1]) + if ops[|ops| - 1].Upsert? then 1 else 0
  }

  /** A record fits when it can be encoded in no more bytes than a segment may have. */
  predicate Fits(c: RecordCodec, limit: nat, r: ConnRecord) {
    c.encode(r).Some? && |c.encode(r).value| <= limit
  }

  /** The map that a run of operations means: each key's last upsert that fits, unless it was deleted since. */
  function Contents(c: RecordCodec, limit: nat, ops: seq<Op>): map<nat, ConnRecord> {
    if |ops| == 0 then map[]
    else
      var before, op := Contents(c, limit, ops[..|ops| - 1]), ops[|ops| - 1];
      match op
      case Upsert(connId, metadata, now) =>
        var r := NewRecord(connId, metadata, now, NextTxid(ops[..|ops| - 1]));
        if Fits(c, limit, r) then before[connId := r] else before
      case Delete(connId) => before - {connId}
      case ForeignSegment => before
  }

  /** The engine represents a map: every indexed pointer leads to the record of its key. */
  ghost predicate Represents(c: RecordCodec, e: Engine, contents: map<nat, ConnRecord>) {
    && AllWellFormed(Segs(e)) && IncreasingIds(Segs(e)) && e.active.id < e.nextId
    && !e.active.isSealed && e.active.sizeLimit == e.limit
    && IndexHolds(c, Segs(e), e.index, contents)
  }

  lemma GetRepresented(c: RecordCodec, e: Engine, contents: map<nat, ConnRecord>, connId: nat)
    requires Represents(c, e, contents)
    ensures Get(c, e, connId) == if connId in contents then Some(contents[connId]) else None
  {
    if connId in contents {
      var ptr := e.index[connId];
      SealedPart(e.sealed, e.active);
      HoldsSplit(c, e.sealed, e.active, ptr, contents[connId]);
      if ptr.segmentId != e.active.id {
        ScanFinds(c, e.sealed, ptr, contents[connId]);
      }
    }
  }

  lemma RotateRepresents(c: RecordCodec, e: Engine, contents: map<nat, ConnRecord>)
    requires Represents(c, e, contents)
    ensures Represents(c, Rotated(e), contents)
  {
    RotateLast(c, e.sealed, e.active, e.nextId, e.limit);
    IndexGrows(c, Segs(e), Segs(Rotated(e)), e.index, contents);
  }

  lemma AppendsWhenRoom(c: RecordCodec, e: Engine, contents: map<nat, ConnRecord>, r: ConnRecord)
    requires Lawful(c) && Represents(c, e, contents)
    ensures TryAppend(c, e, r).Some? <==> c.encode(r).Some? && |e.active.data| + |c.encode(r).value| <= e.limit
  {}

  lemma AppendRepresents(c: RecordCodec, e: Engine, contents: map<nat, ConnRecord>, r: ConnRecord)
    requires Lawful(c) && Represents(c, e, contents) && TryAppend(c, e, r).Some?
    ensures Represents(c, TryAppend(c, e, r).value, contents[r.connId := r])
  {
    var e' := TryAppend(c, e, r).value;
    SealedPart(e.sealed, e.active);
    AppendedReads(c, e.active, r);
    AppendLast(c, e.sealed, e.active, r);
    assert Segs(e') == e.sealed + [Appended(c, e.active, r).value];
    IndexGrows(c, Segs(e), Segs(e'), e.index, contents);
    IndexInsert(c, Segs(e'), e.index, contents, r.connId, SegmentPtr(e.active.id, |e.active.data|), r);
  }

  /** An upsert fails exactly when its record does not fit a segment, and then no key changes. */
  lemma UpsertRepresents(c: RecordCodec, e: Engine, contents: map<nat, ConnRecord>, connId: nat, metadata: ConnMeta,
                         now: nat)
    requires Lawful(c) && Represents(c, e, contents)
    ensures var r := ConnRecord(connId, metadata, now, now, 1, e.txid);
      var (e', txid) := Upserted(c, e, connId, metadata, now);
      && txid == (if Fits(c, e.limit, r) then Some(e.txid) else None)
      && Represents(c, e', if Fits(c, e.limit, r) then contents[connId := r] else contents)
      && e'.txid == e.txid + 1 && e'.limit == e.limit
  {
    var r := NewRecord(connId, metadata, now, e.txid);
    var e1 := e.(txid := e.txid + 1);
    assert Segs(e1) == Segs(e);
    AppendsWhenRoom(c, e1, contents, r);
    RotateRepresents(c, e1, contents);
    AppendsWhenRoom(c, Rotated(e1), contents, r);
    if TryAppend(c, e1, r).Some? {
      AppendRepresents(c, e1, contents, r);
    } else if TryAppend(c, Rotated(e1), r).Some? {
      AppendRepresents(c, Rotated(e1), contents, r);
    }
  }

  lemma {:induction false} RunRepresents(c: RecordCodec, limit: nat, nextId: nat, ops: seq<Op>)
    requires Lawful(c)
    ensures var e := Run(c, limit, nextId, ops);
      Represents(c, e, Contents(c, limit, ops)) && e.txid == NextTxid(ops) && e.limit == limit
  {
    if |ops| > 0 {
      var before, op := ops[..|ops| - 1], ops[|ops| - 1];
      RunRepresents(c, limit, nextId, before);
      var e, contents := Run(c, limit, nextId, before), Contents(c, limit, before);
      match op
      case Upsert(connId, metadata, now) => UpsertRepresents(c, e, contents, connId, metadata, now);
      case Delete(connId) =>
        assert Segs(Step(c, e, op)) == Segs(e);
        IndexRemove(c, Segs(e), e.index, contents, connId);
      case ForeignSegment => assert Segs(Step(c, e, op)) == Segs(e);
    }
  }

  /** In every run exactly the active segment is still open for appending. */
  lemma {:induction false} OnlyActiveIsOpen(c: RecordCodec, limit: nat, nextId: nat, ops: seq<Op>)
    ensures var e := Run(c, limit, nextId, ops);
      !e.active.isSealed && forall i :: 0 <= i < |e.sealed| ==> e.sealed[i].isSealed
  {
    if |ops| > 0 {
      OnlyActiveIsOpen(c, limit, nextId, ops[..|ops| - 1]);
    }
  }

  /** After every run, across any number of rotations, a get returns what the plain map holds. */
  lemma GetAgreesWithMap(c: RecordCodec, limit: nat, nextId: nat, ops: seq<Op>, connId: nat)
    requires Lawful(c)
    ensures AllWellFormed(Segs(Run(c, limit, nextId, ops)))
    ensures var contents := Contents(c, limit, ops);
      Get(c, Run(c, limit, nextId, ops), connId) == if connId in contents then Some(contents[connId]) else None
  {
    RunRepresents(c, limit, nextId, ops);
    GetRepresented(c, Run(c, limit, nextId, ops), Contents(c, limit, ops), connId);
  }

  /** The upsert at a position of a run succeeded for a key, with this record: the key and the metadata it was given,
      its own time twice, one access, and the transaction id that was next. */
  predicate Succeeded(c: RecordCodec, limit: nat, ops: seq<Op>, i: nat, r: ConnRecord)
    requires i < |ops|
  {
    && ops[i].Upsert? && r.connId == ops[i].connId && r.metadata == ops[i].metadata
    && r.createdAt == ops[i].now && r.lastActive == ops[i].now && r.accessCount == 1
    && r.txid == NextTxid(ops[..i]) && Fits(c, limit, r)
  }

  /** No operation after a position stores or removes the key. */
  ghost predicate LeftAlone(c: RecordCodec, limit: nat, ops: seq<Op>, i: nat, connId: nat) {
    && (forall j :: i < j < |ops| ==> ops[j] != Delete(connId))
    && (forall j, r :: i < j < |ops| && Succeeded(c, limit, ops, j, r) ==> r.connId != connId)
  }

  /** The key's last successful upsert stored this record, and the key was not deleted since. */
  ghost predicate StoredLast(c: RecordCodec, limit: nat, ops: seq<Op>, connId: nat, r: ConnRecord) {
    exists i :: 0 <= i < |ops| && r.connId == connId && Succeeded(c, limit, ops, i, r)
                && LeftAlone(c, limit, ops, i, connId)
  }

  lemma SucceededBefore(c: RecordCodec, limit: nat, ops: seq<Op>, i: nat, r: ConnRecord)
    requires i < |ops| - 1
    ensures Succeeded(c, limit, ops, i, r) <==> Succeeded(c, limit, ops[..|ops| - 1], i, r)
  {
    assert ops[..|ops| - 1][..i] == ops[..i];
  }

  /** The last operation stores a record. */
  lemma StoredNow(c: RecordCodec, limit: nat, ops: seq<Op>, r: ConnRecord, r': ConnRecord)
    requires |ops| > 0 && Succeeded(c, limit, ops, |ops| - 1, r)
    ensures StoredLast(c, limit, ops, r.connId, r') <==> r' == r
  {
    var n := |ops| - 1;
    if StoredLast(c, limit, ops, r.connId, r') {
      var i :| 0 <= i < |ops| && r'.connId == r.connId && Succeeded(c, limit, ops, i, r')
               && LeftAlone(c, limit, ops, i, r.connId);
      assert i == n;
    }
    if r' == r {
      assert LeftAlone(c, limit, ops, n, r.connId);
    }
  }

  /** The last operation does not touch the key. */
  lemma StoredBefore(c: RecordCodec, limit: nat, ops: seq<Op>, connId: nat, r: ConnRecord)
    requires |ops| > 0 && ops[|ops| - 1] != Delete(connId)
    requires forall r' :: Succeeded(c, limit, ops, |ops| - 1, r') ==> r'.connId != connId
    ensures StoredLast(c, limit, ops, connId, r) <==> StoredLast(c, limit, ops[..|ops| - 1], connId, r)
  {
    var n := |ops| - 1;
    var before := ops[..n];
    forall i, r' | 0 <= i < n
      ensures Succeeded(c, limit, ops, i, r') <==> Succeeded(c, limit, before, i, r')
    {
      SucceededBefore(c, limit, ops, i, r');
    }
    forall i | 0 <= i < n
      ensures LeftAlone(c, limit, ops, i, connId) <==> LeftAlone(c, limit, before, i, connId)
    {
      assert forall j :: i < j < n ==> before[j] == ops[j];
    }
    if StoredLast(c, limit, before, connId, r) {
      var i :| 0 <= i < |before| && r.connId == connId && Succeeded(c, limit, before, i, r)
               && LeftAlone(c, limit, before, i, connId);
      assert LeftAlone(c, limit, ops, i, connId);
    }
    if StoredLast(c, limit, ops, connId, r) {
      var i :| 0 <= i < |ops| && r.connId == connId && Succeeded(c, limit, ops, i, r)
               && LeftAlone(c, limit, ops, i, connId);
      assert i < n && LeftAlone(c, limit, before, i, connId);
    }
  }

  /** The last operation deletes the key. */
  lemma StoredNoMore(c: RecordCodec, limit: nat, ops: seq<Op>, connId: nat, r: ConnRecord)
    requires |ops| > 0 && ops[|ops| - 1] == Delete(connId)
    ensures !StoredLast(c, limit, ops, connId, r)
  {
    forall i | 0 <= i < |ops| && Succeeded(c, limit, ops, i, r)
      ensures !LeftAlone(c, limit, ops, i, connId)
    {
      assert i < |ops| - 1;
    }
  }

  lemma {:induction false} ContentsAreStoredLast(c: RecordCodec, limit: nat, ops: seq<Op>, connId: nat, r: ConnRecord)
    ensures connId in Contents(c, limit, ops) && Contents(c, limit, ops)[connId] == r <==>
      StoredLast(c, limit, ops, connId, r)
  {
    if |ops| > 0 {
      var before, op := ops[..|ops| - 1], ops[|ops| - 1];
      ContentsAreStoredLast(c, limit, before, connId, r);
      if op == Delete(connId) {
        StoredNoMore(c, limit, ops, connId, r);
      } else if op.Upsert? && op.connId == connId &&
        Fits(c, limit, ConnRecord(connId, op.metadata, op.now, op.now, 1, NextTxid(before))) {
        StoredNow(c, limit, ops, ConnRecord(connId, op.metadata, op.now, op.now, 1, NextTxid(before)), r);
      } else {
        StoredBefore(c, limit, ops, connId, r);
      }
    }
  }

  /** After every run a get returns a record exactly when the key's last successful upsert stored it, field by field,
      and the key was not deleted since. */
  lemma GetReturnsLastUpsert(c: RecordCodec, limit: nat, nextId: nat, ops: seq<Op>, connId: nat, r: ConnRecord)
    requires Lawful(c)
    ensures AllWellFormed(Segs(Run(c, limit, nextId, ops)))
    ensures Get(c, Run(c, limit, nextId, ops), connId) == Some(r) <==> StoredLast(c, limit, ops, connId, r)
  {
    GetAgreesWithMap(c, limit, nextId, ops, connId);
    ContentsAreStoredLast(c, limit, ops, connId, r);
  }

  /** After every run, an upsert succeeds exactly when the record made of its arguments fits, and then the next get
      returns that record. */
  lemma GetAfterUpsert(c: RecordCodec, limit: nat, nextId: nat, ops: seq<Op>, connId: nat, metadata: ConnMeta, now: nat)
    requires Lawful(c)
    ensures var (e, txid) := Upserted(c, Run(c, limit, nextId, ops), connId, metadata, now);
      && (txid.Some? <==> Fits(c, limit, ConnRecord(connId, metadata, now, now, 1, NextTxid(ops))))
      && AllWellFormed(Segs(e))
      && (txid.Some? ==>
            && txid.value == NextTxid(ops) && Get(c, e, connId).Some?
            && var r := Get(c, e, connId).value;
               && r.connId == connId && r.metadata == metadata && r.createdAt == now && r.lastActive == now
               && r.accessCount == 1 && r.txid == txid.value)
  {
    RunRepresents(c, limit, nextId, ops);
    var e0, contents := Run(c, limit, nextId, ops), Contents(c, limit, ops);
    UpsertRepresents(c, e0, contents, connId, metadata, now);
    var (e, txid) := Upserted(c, e0, connId, metadata, now);
    if txid.Some? {
      GetRepresented(c, e, contents[connId := ConnRecord(connId, metadata, now, now, 1, NextTxid(ops))], connId);
    }
  }

  lemma {:induction false} TxidsGrow(ops: seq<Op>, i: nat)
    requires i <= |ops|
    ensures NextTxid(ops[..i]) <= NextTxid(ops)
    ensures i < |ops| && ops[i].Upsert? ==> NextTxid(ops[..i]) < NextTxid(ops)
  {
    if i == |ops| {
      assert ops[..i] == ops;
    } else {
      var before := ops[..|ops| - 1];
      assert ops[..i] == before[..i];
      TxidsGrow(before, i);
    }
  }

  /** The record of a key is that of a successful upsert of it, and no successful upsert of it has a larger txid. */
  lemma {:induction false} LargestTxid(c: RecordCodec, limit: nat, ops: seq<Op>, connId: nat)
    requires connId in Contents(c, limit, ops)
    ensures var r := Contents(c, limit, ops)[connId];
      && (exists i :: 0 <= i < |ops| && r.connId == connId && Succeeded(c, limit, ops, i, r))
      && (forall i, r' :: 0 <= i < |ops| && Succeeded(c, limit, ops, i, r') && r'.connId == connId ==>
            r'.txid <= r.txid)
  {
    var n := |ops| - 1;
    var before, op := ops[..n], ops[n];
    var r := Contents(c, limit, ops)[connId];
    assert forall i :: 0 <= i <= n ==> ops[..i] == before[..i];
    var isNew := op.Upsert? && op.connId == connId &&
      Fits(c, limit, ConnRecord(connId, op.metadata, op.now, op.now, 1, NextTxid(before)));
    if isNew {
      assert Succeeded(c, limit, ops, n, r);
      forall i, r' | 0 <= i < |ops| && Succeeded(c, limit, ops, i, r') && r'.connId == connId
        ensures r'.txid <= r.txid
      {
        TxidsGrow(before, i);
      }
    } else {
      LargestTxid(c, limit, before, connId);
      var i :| 0 <= i < |before| && r.connId == connId && Succeeded(c, limit, before, i, r);
      assert Succeeded(c, limit, ops, i, r);
      forall i, r' | 0 <= i < |ops| && Succeeded(c, limit, ops, i, r') && r'.connId == connId
        ensures r'.txid <= r.txid
      {
        assert i < n;
        assert Succeeded(c, limit, before, i, r');
      }
    }
  }
}
