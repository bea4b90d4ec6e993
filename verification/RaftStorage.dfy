/**
 The Raft log kept in memory and rebuilt from the write-ahead log.

 The storage appends entries and hard-state markers to the write-ahead log; deletions touch memory only. So a
 restart brings back every entry ever appended, including deleted ones. The lemmas below say exactly what a
 restart restores, and when that log still has consecutive indices.
 */
module RaftStorage {
  import opened Base
  import opened WriteAheadLog

  datatype ClientRequest =
    | Upsert(connId: u64, clientAddr: Bytes16, natEntry: (u16, u16), assignedPod: u32)
    | DeleteConn(connId: u64)
    | Cleanup(beforeTimestamp: u64)
    | Noop

  datatype Payload = Blank | Normal(request: ClientRequest)

  datatype Entry = Entry(term: u64, index: u64, payload: Payload)

  datatype HardState = HardState(currentTerm: u64, votedFor: Option<u64>)

  datatype Membership = Membership(members: set<u64>, membersAfterConsensus: Option<set<u64>>)

  datatype InitialState = InitialState(
    lastLogTerm: u64, lastLogIndex: u64, lastAppliedLog: u64, hardState: HardState, membership: Membership)

  const NO_HARD_STATE := HardState(0, None)

  /** The text "__HARDSTATE__:" that starts a hard-state marker. */
  const MARKER: Bytes := [95, 95, 72, 65, 82, 68, 83, 84, 65, 84, 69, 95, 95, 58]

  /** The checksum and the JSON formats of entries and hard states. */
  datatype Formats = Formats(crc: Checksum, json: Codec<Entry>, hardJson: HardState -> Bytes)

  /** Every entry has a JSON form that parses back, a marker is no JSON, and both are short: every field has a fixed
      size. */
  ghost predicate WellBehaved(f: Formats) {
    && Lawful(f.json)
    && (forall e: Entry :: f.json.encode(e).Some? && |f.json.encode(e).value| <= MAX_ENTRY)
    && (forall hs: HardState :: f.json.decode(MarkerData(f, hs)).None? && |MarkerData(f, hs)| <= MAX_ENTRY)
  }

  function EntryData(f: Formats, e: Entry): Bytes {
    match f.json.encode(e)
    case Some(data) => data
    case None => []
  }

  function MarkerData(f: Formats, hs: HardState): Bytes {
    MARKER + f.hardJson(hs)
  }

  // ---- what each operation does ----

  /** The in-memory log and hard state, and the file with its cursor. */
  datatype Store = Store(log: seq<Entry>, hard: HardState, disk: Disk)

  datatype Op =
    | Append(entry: Entry)
    | Replicate(entries: seq<Entry>)
    | SaveHard(hs: HardState)
    | Delete(start: u64, stop: Option<u64>)
    | Restart

  function WriteData(f: Formats, s: Store, data: Bytes): Store {
    s.(disk := WriteRecord(f.crc, s.disk, data))
  }

  function WriteEntries(f: Formats, s: Store, entries: seq<Entry>): Store {
    if |entries| == 0 then s
    else WriteData(f, WriteEntries(f, s, entries[..|entries| - 1]), EntryData(f, entries[|entries| - 1]))
  }

  predicate Kept(e: Entry, start: u64, stop: Option<u64>) {
    e.index < start || (stop.Some? && e.index >= stop.value)
  }

  function Retain(log: seq<Entry>, start: u64, stop: Option<u64>): seq<Entry> {
    if |log| == 0 then []
    else
      var last := log[|log| - 1];
      Retain(log[..|log| - 1], start, stop) + if Kept(last, start, stop) then [last] else []
  }

  /** The entries with an index in [start, stop), in log order. */
  function Select(log: seq<Entry>, start: u64, stop: u64): seq<Entry> {
    if |log| == 0 then []
    else
      var last := log[|log| - 1];
      Select(log[..|log| - 1], start, stop) + if start <= last.index < stop then [last] else []
  }

  /** The records that parse as entries, in order. */
  function Replay(f: Formats, records: seq<Bytes>): seq<Entry> {
    if |records| == 0 then []
    else
      Replay(f, records[..|records| - 1]) +
      match f.json.decode(records[|records| - 1])
      case Some(e) => [e]
      case None => []
  }

  /** A storage opened on an existing file. A file that cannot be read gives an empty log. */
  function Opened(f: Formats, file: Bytes): Store {
    var r := Read(f.crc, file).result;
    Store(if r.Entries? then Replay(f, r.entries) else [], NO_HARD_STATE, AfterRead(f.crc, Disk(file, 0)))
  }

  function Step(f: Formats, s: Store, op: Op): Store {
    match op
    case Append(e) => WriteData(f, s.(log := s.log + [e]), EntryData(f, e))
    case Replicate(es) => WriteEntries(f, s.(log := s.log + es), es)
    case SaveHard(hs) => WriteData(f, s.(hard := hs), MarkerData(f, hs))
    case Delete(start, stop) => s.(log := Retain(s.log, start, stop))
    case Restart => Opened(f, s.disk.file)
  }

  /** The store after a run of operations on a new file. */
  function Run(f: Formats, ops: seq<Op>): Store {
    if |ops| == 0 then Opened(f, []) else Step(f, Run(f, Front(ops)), Last(ops))
  }

  class PersistentStorage {
    const f: Formats
    const membership: Membership
    var log: seq<Entry>
    var hardState: HardState
    const wal: Wal

    ghost predicate Valid() {
      wal.crc == f.crc
    }

    ghost function State(): Store
      reads this, wal
    {
      Store(log, hardState, wal.State())
    }

    constructor (f: Formats, nodeId: u64, file: Bytes)
      ensures Valid() && fresh(wal) && this.f == f
      ensures membership == Membership({nodeId}, None)
      ensures State() == Opened(f, file)
    {
      this.f := f;
      membership := Membership({nodeId}, None);
      log := [];
      hardState := NO_HARD_STATE;
      wal := new Wal.Open(f.crc, file);
      new;
      var r := wal.ReadAll();
      if r.Entries? {
        for i := 0 to |r.entries|
          modifies this`log
          invariant log == Replay(f, r.entries[..i])
        {
          assert r.entries[..i + 1][..i] == r.entries[..i];
          var parsed := f.json.decode(r.entries[i]);
          if parsed.Some? {
            log := log + [parsed.value];
          }
        }
        assert r.entries[..|r.entries|] == r.entries;
      }
    }

    /** Everything in the log is reported as applied. */
    method GetInitialState() returns (r: InitialState)
      ensures r.lastAppliedLog == r.lastLogIndex == LastIndex(log)
      ensures r.lastLogTerm == if |log| == 0 then 0 else Last(log).term
      ensures r.hardState == hardState && r.membership == membership
    {
      var lastTerm, lastIndex := 0, 0;
      if |log| > 0 {
        lastTerm, lastIndex := log[|log| - 1].term, log[|log| - 1].index;
      }
      r := InitialState(lastTerm, lastIndex, lastIndex, hardState, membership);
    }

    method SaveHardState(hs: HardState)
      requires Valid()
      modifies this`hardState, wal
      ensures State() == Step(f, old(State()), SaveHard(hs))
    {
      hardState := hs;
      var _ := wal.Append(MarkerData(f, hs));
    }

    method GetLogEntries(start: u64, stop: u64) returns (r: seq<Entry>)
      ensures r == Select(log, start, stop)
    {
      r := [];
      for i := 0 to |log|
        invariant r == Select(log[..i], start, stop)
      {
        assert log[..i + 1][..i] == log[..i];
        if log[i].index >= start && log[i].index < stop {
          r := r + [log[i]];
        }
      }
      assert log[..|log|] == log;
    }

    method DeleteLogsFrom(start: u64, stop: Option<u64>)
      modifies this`log
      ensures State() == Step(f, old(State()), Delete(start, stop))
    {
      var kept: seq<Entry> := [];
      for i := 0 to |log|
        invariant kept == Retain(log[..i], start, stop)
      {
        assert log[..i + 1][..i] == log[..i];
        if Kept(log[i], start, stop) {
          kept := kept + [log[i]];
        }
      }
      assert log[..|log|] == log;
      log := kept;
    }

    method AppendEntryToLog(e: Entry)
      requires Valid()
      modifies this`log, wal
      ensures State() == Step(f, old(State()), Append(e))
    {
      log := log + [e];
      var _ := wal.Append(EntryData(f, e));
    }

    method ReplicateToLog(entries: seq<Entry>)
      requires Valid()
      modifies this`log, wal
      ensures State() == Step(f, old(State()), Replicate(entries))
    {
      log := log + entries;
      ghost var start := State();
      for i := 0 to |entries|
        invariant State() == WriteEntries(f, start, entries[..i])
      {
        assert entries[..i + 1][..i] == entries[..i];
        var _ := wal.Append(EntryData(f, entries[i]));
      }
      assert entries[..|entries|] == entries;
    }
  }

  // ---- the history of a run ----

  function NewEntries(op: Op): seq<Entry> {
    match op
    case Append(e) => [e]
    case Replicate(es) => es
    case _ => []
  }

  function NewRecords(f: Formats, op: Op): seq<Bytes> {
    match op
    case Append(e) => [EntryData(f, e)]
    case Replicate(es) => DataOf(f, es)
    case SaveHard(hs) => [MarkerData(f, hs)]
    case _ => []
  }

  /** Every entry ever appended, in order. */
  function Appended(ops: seq<Op>): seq<Entry> {
    if |ops| == 0 then [] else Appended(Front(ops)) + NewEntries(Last(ops))
  }

  /** Every record ever written, in order. */
  function Written(f: Formats, ops: seq<Op>): seq<Bytes> {
    if |ops| == 0 then [] else Written(f, Front(ops)) + NewRecords(f, Last(ops))
  }

  function DataOf(f: Formats, entries: seq<Entry>): seq<Bytes> {
    seq(|entries|, i requires 0 <= i < |entries| => EntryData(f, entries[i]))
  }

  function LastIndex(log: seq<Entry>): u64 {
    if |log| == 0 then 0 else Last(log).index
  }

  lemma DataSnoc(f: Formats, es: seq<Entry>)
    requires |es| > 0
    ensures DataOf(f, es) == DataOf(f, Front(es)) + [EntryData(f, Last(es))]
  {}

  lemma {:induction false} WriteEntriesAtEnd(f: Formats, s: Store, records: seq<Bytes>, es: seq<Entry>)
    requires Holds(f.crc, s.disk, records)
    ensures Holds(f.crc, WriteEntries(f, s, es).disk, records + DataOf(f, es))
  {
    if |es| == 0 {
      assert records + DataOf(f, es) == records;
    } else {
      WriteEntriesAtEnd(f, s, records, Front(es));
      var before := records + DataOf(f, Front(es));
      WriteAtEnd(f.crc, WriteEntries(f, s, Front(es)).disk, before, EntryData(f, Last(es)));
      Assoc(records, DataOf(f, Front(es)), [EntryData(f, Last(es))]);
      DataSnoc(f, es);
    }
  }

  lemma {:induction false} ReplayAppend(f: Formats, a: seq<Bytes>, b: seq<Bytes>)
    ensures Replay(f, a + b) == Replay(f, a) + Replay(f, b)
  {
    if |b| == 0 {
      assert a + b == a;
    } else {
      assert Front(a + b) == a + Front(b);
      ReplayAppend(f, a, Front(b));
    }
  }

  lemma {:induction false} ReplayData(f: Formats, es: seq<Entry>)
    requires WellBehaved(f)
    ensures Replay(f, DataOf(f, es)) == es
  {
    if |es| > 0 {
      assert Front(DataOf(f, es)) == DataOf(f, Front(es));
      ReplayData(f, Front(es));
      assert f.json.encode(Last(es)).Some?;
      assert es == Front(es) + [Last(es)];
    }
  }

  lemma ReplayOne(f: Formats, data: Bytes)
    ensures Replay(f, [data]) == match f.json.decode(data) case Some(e) => [e] case None => []
  {
    assert [data][..0] == [];
  }

  lemma ReplayNew(f: Formats, op: Op)
    requires WellBehaved(f)
    ensures Replay(f, NewRecords(f, op)) == NewEntries(op)
  {
    match op
    case Append(e) =>
      assert f.json.encode(e).Some?;
      ReplayOne(f, EntryData(f, e));
    case Replicate(es) => ReplayData(f, es);
    case SaveHard(hs) => ReplayOne(f, MarkerData(f, hs));
    case _ =>
  }

  /** Replaying what a run wrote gives what it appended: markers are skipped and nothing else is. */
  lemma {:induction false} ReplayWritten(f: Formats, ops: seq<Op>)
    requires WellBehaved(f)
    ensures Replay(f, Written(f, ops)) == Appended(ops)
  {
    if |ops| > 0 {
      ReplayWritten(f, Front(ops));
      ReplayNew(f, Last(ops));
      ReplayAppend(f, Written(f, Front(ops)), NewRecords(f, Last(ops)));
    }
  }

  lemma StepWrites(f: Formats, s: Store, records: seq<Bytes>, op: Op)
    requires Holds(f.crc, s.disk, records) && !op.Restart?
    ensures Holds(f.crc, Step(f, s, op).disk, records + NewRecords(f, op))
  {
    match op
    case Append(e) => WriteAtEnd(f.crc, s.disk, records, EntryData(f, e));
    case Replicate(es) => WriteEntriesAtEnd(f, s.(log := s.log + es), records, es);
    case SaveHard(hs) => WriteAtEnd(f.crc, s.disk, records, MarkerData(f, hs));
    case Delete(_, _) => assert records + [] == records;
  }

  lemma ReadableNew(f: Formats, op: Op)
    requires WellBehaved(f)
    ensures Readable(NewRecords(f, op))
  {
    match op
    case Append(e) => assert f.json.encode(e).Some?;
    case Replicate(es) =>
      forall i | 0 <= i < |es| ensures |DataOf(f, es)[i]| <= MAX_ENTRY { assert f.json.encode(es[i]).Some?; }
    case _ =>
  }

  /** The file is the encoding of everything written, with the cursor at its end, through deletions and restarts. */
  lemma {:induction false} FileHoldsWritten(f: Formats, ops: seq<Op>)
    requires WellBehaved(f)
    ensures Readable(Written(f, ops))
    ensures Holds(f.crc, Run(f, ops).disk, Written(f, ops))
  {
    if |ops| > 0 {
      FileHoldsWritten(f, Front(ops));
      var s, before := Run(f, Front(ops)), Written(f, Front(ops));
      ReadableNew(f, Last(ops));
      if Last(ops).Restart? {
        AppendedReadsBack(f.crc, before);
        assert before + [] == before;
      } else {
        StepWrites(f, s, before, Last(ops));
      }
    }
  }

  /** Reopening after a run rebuilds every entry ever appended, in order, and forgets the hard state. */
  lemma ReopenRebuilds(f: Formats, ops: seq<Op>)
    requires WellBehaved(f)
    ensures Opened(f, Run(f, ops).disk.file) == Store(Appended(ops), NO_HARD_STATE, Run(f, ops).disk)
  {
    FileHoldsWritten(f, ops);
    AppendedReadsBack(f.crc, Written(f, ops));
    ReplayWritten(f, ops);
  }

  /** Opening any file: the entries among its whole records if fewer than four bytes follow them; otherwise none, and
      the cursor stays where the reader stopped. */
  lemma OpenedExactly(f: Formats, good: seq<Bytes>, rest: Bytes)
    requires Readable(good) && (|rest| < 4 || !Obstacle(f.crc, rest).Entries?)
    ensures var file := EncodeAll(f.crc, good) + rest;
      Opened(f, file) == Store(if |rest| < 4 then Replay(f, good) else [], HardState(0, None),
                               Disk(file, |EncodeAll(f.crc, good)| + StopsAt(f.crc, rest)))
  {
    ReadStops(f.crc, good, rest);
    CursorAfterRead(f.crc, good, rest, 0);
  }

  // ---- the hard state ----

  /** The hard state saved last since the last restart. */
  function LastSaved(ops: seq<Op>): Option<HardState> {
    if |ops| == 0 then None
    else match Last(ops)
      case SaveHard(hs) => Some(hs)
      case Restart => None
      case _ => LastSaved(Front(ops))
  }

  lemma {:induction false} WriteEntriesHard(f: Formats, s: Store, es: seq<Entry>)
    ensures WriteEntries(f, s, es).hard == s.hard
  {
    if |es| > 0 {
      WriteEntriesHard(f, s, Front(es));
    }
  }

  /** In every run the hard state is the one saved last, until a restart forgets it. */
  lemma {:induction false} HardStateIsLastSaved(f: Formats, ops: seq<Op>)
    ensures Run(f, ops).hard == match LastSaved(ops) case Some(hs) => hs case None => HardState(0, None)
  {
    if |ops| > 0 {
      HardStateIsLastSaved(f, Front(ops));
      if Last(ops).Replicate? {
        var s, es := Run(f, Front(ops)), Last(ops).entries;
        WriteEntriesHard(f, s.(log := s.log + es), es);
      }
    }
  }

  /** A marker is the text "__HARDSTATE__:" followed by the JSON form of the hard state. */
  lemma MarkerText(f: Formats, hs: HardState)
    ensures var text, data := "__HARDSTATE__:", MarkerData(f, hs);
      && |data| == |text| + |f.hardJson(hs)| && data[|text|..] == f.hardJson(hs)
      && forall i :: 0 <= i < |text| ==> data[i] as int == text[i] as int
  {}

  // ---- the live log is part of the history ----

  /** a is b with some elements left out. */
  predicate Subsequence<T(==)>(a: seq<T>, b: seq<T>) {
    |a| == 0 ||
    (|b| > 0 && ((Last(a) == Last(b) && Subsequence(Front(a), Front(b))) || Subsequence(a, Front(b))))
  }

  lemma {:induction false} SubsequenceWhole<T>(a: seq<T>)
    ensures Subsequence(a, a)
  {
    if |a| > 0 {
      SubsequenceWhole(Front(a));
    }
  }

  lemma {:induction false} SubsequenceAppend<T>(a: seq<T>, b: seq<T>, more: seq<T>)
    requires Subsequence(a, b)
    ensures Subsequence(a + more, b + more)
  {
    if |more| == 0 {
      assert a + more == a && b + more == b;
    } else {
      SubsequenceAppend(a, b, Front(more));
      assert Front(a + more) == a + Front(more) && Front(b + more) == b + Front(more);
    }
  }

  lemma {:induction false} SubsequenceRetain(a: seq<Entry>, b: seq<Entry>, start: u64, stop: Option<u64>)
    requires Subsequence(a, b)
    ensures Subsequence(Retain(a, start, stop), b)
    decreases |b|
  {
    if |a| > 0 {
      if Last(a) == Last(b) && Subsequence(Front(a), Front(b)) {
        SubsequenceRetain(Front(a), Front(b), start, stop);
        var kept := Retain(Front(a), start, stop);
        if Kept(Last(a), start, stop) {
          assert Front(kept + [Last(a)]) == kept;
        } else {
          assert Retain(a, start, stop) == kept;
        }
      } else {
        SubsequenceRetain(a, Front(b), start, stop);
      }
    }
  }

  /** How often an entry occurs in a log. */
  function Count(log: seq<Entry>, e: Entry): nat {
    if |log| == 0 then 0 else Count(Front(log), e) + if Last(log) == e then 1 else 0
  }

  lemma CountMore(log: seq<Entry>, last: Entry, e: Entry)
    ensures Count(log + [last], e) == Count(log, e) + if last == e then 1 else 0
  {
    assert Front(log + [last]) == log;
  }

  lemma {:induction false} RetainCounts(log: seq<Entry>, start: u64, stop: Option<u64>, e: Entry)
    ensures Count(Retain(log, start, stop), e) ==
      if start <= e.index && (stop.None? || e.index < stop.value) then 0 else Count(log, e)
  {
    if |log| > 0 {
      var kept := Retain(Front(log), start, stop);
      RetainCounts(Front(log), start, stop, e);
      CountMore(kept, Last(log), e);
      assert kept + [] == kept;
    }
  }

  /** Deleting keeps, in order and as often as they occur, exactly the entries outside [start, stop). */
  lemma RetainsExactly(log: seq<Entry>, start: u64, stop: Option<u64>, e: Entry)
    ensures Subsequence(Retain(log, start, stop), log)
    ensures Count(Retain(log, start, stop), e) ==
      if start <= e.index && (stop.None? || e.index < stop.value) then 0 else Count(log, e)
  {
    SubsequenceWhole(log);
    SubsequenceRetain(log, log, start, stop);
    RetainCounts(log, start, stop, e);
  }

  lemma {:induction false} SelectCounts(log: seq<Entry>, start: u64, stop: u64, e: Entry)
    ensures Count(Select(log, start, stop), e) == if start <= e.index < stop then Count(log, e) else 0
  {
    if |log| > 0 {
      var selected := Select(Front(log), start, stop);
      SelectCounts(Front(log), start, stop, e);
      CountMore(selected, Last(log), e);
      assert selected + [] == selected;
    }
  }

  lemma {:induction false} SubsequenceSelect(log: seq<Entry>, start: u64, stop: u64)
    ensures Subsequence(Select(log, start, stop), log)
  {
    if |log| > 0 {
      var selected := Select(Front(log), start, stop);
      SubsequenceSelect(Front(log), start, stop);
      assert log == Front(log) + [Last(log)] && selected + [] == selected;
      SubsequenceAppend(selected, Front(log), [Last(log)]);
    }
  }

  /** Reading selects, in order and as often as they occur, exactly the entries inside [start, stop). */
  lemma SelectsExactly(log: seq<Entry>, start: u64, stop: u64, e: Entry)
    ensures Subsequence(Select(log, start, stop), log)
    ensures Count(Select(log, start, stop), e) == if start <= e.index < stop then Count(log, e) else 0
  {
    SubsequenceSelect(log, start, stop);
    SelectCounts(log, start, stop, e);
  }

  /** In every run the live log is the history of appended entries with some left out. */
  lemma {:induction false} LiveLogFromHistory(f: Formats, ops: seq<Op>)
    requires WellBehaved(f)
    ensures Subsequence(Run(f, ops).log, Appended(ops))
  {
    if |ops| > 0 {
      LiveLogFromHistory(f, Front(ops));
      var s, history := Run(f, Front(ops)), Appended(Front(ops));
      match Last(ops)
      case Append(e) => SubsequenceAppend(s.log, history, [e]);
      case Replicate(es) =>
        SubsequenceAppend(s.log, history, es);
        WriteEntriesLog(f, s.(log := s.log + es), es);
      case SaveHard(_) => assert history + [] == history;
      case Delete(start, stop) =>
        SubsequenceRetain(s.log, history, start, stop);
        assert history + [] == history;
      case Restart =>
        assert history + [] == history;
        SubsequenceWhole(history);
        ReopenRebuilds(f, Front(ops));
    }
  }

  lemma {:induction false} WriteEntriesLog(f: Formats, s: Store, es: seq<Entry>)
    ensures WriteEntries(f, s, es).log == s.log
  {
    if |es| > 0 {
      WriteEntriesLog(f, s, Front(es));
    }
  }

  lemma StepLog(f: Formats, s: Store, op: Op)
    requires !op.Restart? && !op.Delete?
    ensures Step(f, s, op).log == s.log + NewEntries(op)
  {
    match op
    case Append(_) =>
    case Replicate(es) => WriteEntriesLog(f, s.(log := s.log + es), es);
    case SaveHard(_) => assert s.log + [] == s.log;
  }

  /** A deletion with these bounds takes an entry out of the log. */
  predicate Drops(log: seq<Entry>, start: u64, stop: Option<u64>) {
    exists e :: e in log && !Kept(e, start, stop)
  }

  /** A deletion has taken an entry out of the live log since the last restart. */
  predicate EntriesMissing(f: Formats, ops: seq<Op>) {
    |ops| > 0 && !Last(ops).Restart? &&
    (EntriesMissing(f, Front(ops)) ||
     (Last(ops).Delete? && Drops(Run(f, Front(ops)).log, Last(ops).start, Last(ops).stop)))
  }

  lemma {:induction false} RetainShortens(log: seq<Entry>, start: u64, stop: Option<u64>)
    ensures |Retain(log, start, stop)| <= |log|
    ensures |Retain(log, start, stop)| == |log| ==> Retain(log, start, stop) == log
  {
    if |log| > 0 {
      RetainShortens(Front(log), start, stop);
    }
  }

  lemma {:induction false} RetainsAll(log: seq<Entry>, start: u64, stop: Option<u64>)
    requires !Drops(log, start, stop)
    ensures Retain(log, start, stop) == log
  {
    if |log| > 0 {
      assert Kept(Last(log), start, stop) by { assert Last(log) in log; }
      assert !Drops(Front(log), start, stop) by { assert forall e :: e in Front(log) ==> e in log; }
      RetainsAll(Front(log), start, stop);
      assert log == Front(log) + [Last(log)];
    }
  }

  lemma {:induction false} RetainedAreKept(log: seq<Entry>, start: u64, stop: Option<u64>, e: Entry)
    requires e in Retain(log, start, stop)
    ensures Kept(e, start, stop)
  {
    if e in Retain(Front(log), start, stop) {
      RetainedAreKept(Front(log), start, stop, e);
    }
  }

  /** Deleting changes the log exactly when it holds an entry inside the bounds. */
  lemma RetainChangesExactly(log: seq<Entry>, start: u64, stop: Option<u64>)
    ensures Retain(log, start, stop) != log <==> Drops(log, start, stop)
  {
    if Drops(log, start, stop) {
      var e :| e in log && !Kept(e, start, stop);
      if e in Retain(log, start, stop) {
        RetainedAreKept(log, start, stop, e);
      }
    } else {
      RetainsAll(log, start, stop);
    }
  }

  lemma DeleteShortens(log: seq<Entry>, start: u64, stop: Option<u64>)
    ensures if Drops(log, start, stop) then |Retain(log, start, stop)| < |log| else Retain(log, start, stop) == log
  {
    RetainShortens(log, start, stop);
    RetainChangesExactly(log, start, stop);
  }

  lemma {:induction false} LiveLogLength(f: Formats, ops: seq<Op>)
    requires WellBehaved(f)
    ensures EntriesMissing(f, ops) ==> |Run(f, ops).log| < |Appended(ops)|
    ensures !EntriesMissing(f, ops) ==> Run(f, ops).log == Appended(ops)
  {
    if |ops| > 0 {
      var s, history, op := Run(f, Front(ops)), Appended(Front(ops)), Last(ops);
      LiveLogLength(f, Front(ops));
      assert Appended(ops) == history + NewEntries(op);
      if op.Restart? {
        ReopenRebuilds(f, Front(ops));
      } else if op.Delete? {
        DeleteShortens(s.log, op.start, op.stop);
      } else {
        StepLog(f, s, op);
      }
    }
  }

  /** The live log is the whole history exactly when no deletion has taken an entry out since the last restart. */
  lemma LiveLogIsHistoryExactly(f: Formats, ops: seq<Op>)
    requires WellBehaved(f)
    ensures Run(f, ops).log == Appended(ops) <==> !EntriesMissing(f, ops)
  {
    LiveLogLength(f, ops);
  }

  // ---- consecutive indices ----

  /** Indices run 1, 2, 3 and so on. */
  predicate Consecutive(log: seq<Entry>) {
    forall i :: 0 <= i < |log| ==> log[i].index == i + 1
  }

  /** The caller follows the log rule of section 5.3 of the extended Raft paper: it appends after the last index
      and deletes a suffix. */
  predicate ObeysRule(log: seq<Entry>, op: Op) {
    && (forall i :: 0 <= i < |NewEntries(op)| ==> NewEntries(op)[i].index == LastIndex(log) + 1 + i)
    && (op.Delete? ==> op.start >= 1 && (op.stop.None? || op.stop.value > LastIndex(log)))
  }

  predicate RuleRun(f: Formats, ops: seq<Op>) {
    |ops| == 0 || (RuleRun(f, Front(ops)) && ObeysRule(Run(f, Front(ops)).log, Last(ops)))
  }

  /** Every append happened while no deleted entry was missing from the live log. */
  predicate AppendsAreWhole(f: Formats, ops: seq<Op>) {
    |ops| == 0 ||
    (AppendsAreWhole(f, Front(ops)) && (|NewEntries(Last(ops))| > 0 ==> !EntriesMissing(f, Front(ops))))
  }

  /** Every restart happened after appends of that kind only. */
  predicate RestartsAreSafe(f: Formats, ops: seq<Op>) {
    |ops| == 0 ||
    (RestartsAreSafe(f, Front(ops)) && (Last(ops).Restart? ==> AppendsAreWhole(f, Front(ops))))
  }

  lemma {:induction false} RetainPrefix(log: seq<Entry>, start: u64, stop: Option<u64>)
    requires Consecutive(log) && start >= 1 && (stop.None? || stop.value > LastIndex(log))
    ensures Retain(log, start, stop) == log[..if start - 1 <= |log| then start - 1 else |log|]
  {
    if |log| > 0 {
      RetainPrefix(Front(log), start, stop);
    }
  }

  lemma ConsecutiveLast(log: seq<Entry>)
    requires Consecutive(log)
    ensures LastIndex(log) == |log|
  {}

  lemma ConsecutiveExtend(log: seq<Entry>, op: Op)
    requires Consecutive(log) && ObeysRule(log, op)
    ensures Consecutive(log + NewEntries(op))
  {
    ConsecutiveLast(log);
    forall i | |log| <= i < |log + NewEntries(op)|
      ensures (log + NewEntries(op))[i].index == i + 1
    {
      assert NewEntries(op)[i - |log|].index == |log| + 1 + (i - |log|);
    }
  }

  /** One operation that follows the rule keeps the live log consecutive. */
  lemma StepConsecutive(f: Formats, s: Store, op: Op)
    requires Consecutive(s.log) && ObeysRule(s.log, op) && !op.Restart?
    ensures Consecutive(Step(f, s, op).log)
  {
    if op.Delete? {
      RetainPrefix(s.log, op.start, op.stop);
    } else {
      StepLog(f, s, op);
      ConsecutiveExtend(s.log, op);
    }
  }

  /** While every append is made on a whole log, the history is consecutive and the live log is a prefix of it. */
  lemma {:induction false} WholeAppends(f: Formats, ops: seq<Op>)
    requires WellBehaved(f) && RuleRun(f, ops) && AppendsAreWhole(f, ops)
    ensures Consecutive(Appended(ops))
    ensures |Run(f, ops).log| <= |Appended(ops)| && Run(f, ops).log == Appended(ops)[..|Run(f, ops).log|]
  {
    if |ops| > 0 {
      var s, history, op := Run(f, Front(ops)), Appended(Front(ops)), Last(ops);
      WholeAppends(f, Front(ops));
      LiveLogIsHistoryExactly(f, Front(ops));
      WholeAppend(f, s, history, op);
      if op.Restart? {
        ReopenRebuilds(f, Front(ops));
      }
    }
  }

  lemma WholeAppend(f: Formats, s: Store, history: seq<Entry>, op: Op)
    requires Consecutive(history) && |s.log| <= |history| && s.log == history[..|s.log|]
    requires ObeysRule(s.log, op) && (|NewEntries(op)| > 0 ==> s.log == history)
    ensures var history' := history + NewEntries(op);
      && Consecutive(history')
      && (op.Restart? ==> history' == history)
      && (!op.Restart? ==> var log' := Step(f, s, op).log; |log'| <= |history'| && log' == history'[..|log'|])
  {
    if |NewEntries(op)| > 0 {
      ConsecutiveExtend(s.log, op);
      StepLog(f, s, op);
      assert history + NewEntries(op) == (history + NewEntries(op))[..|history + NewEntries(op)|];
    } else {
      assert history + NewEntries(op) == history;
      if op.Delete? {
        RetainPrefix(s.log, op.start, op.stop);
      } else if !op.Restart? {
        StepLog(f, s, op);
        assert s.log + NewEntries(op) == s.log;
      }
    }
  }

  /** An append made while deleted entries are missing repeats an index of the history. */
  lemma {:induction false} OtherAppendsRepeat(f: Formats, ops: seq<Op>)
    requires WellBehaved(f) && RuleRun(f, ops) && !AppendsAreWhole(f, ops)
    ensures !Consecutive(Appended(ops))
  {
    var s, history, op := Run(f, Front(ops)), Appended(Front(ops)), Last(ops);
    if AppendsAreWhole(f, Front(ops)) {
      WholeAppends(f, Front(ops));
      LiveLogIsHistoryExactly(f, Front(ops));
      ConsecutiveLast(s.log);
      assert history[..|history|] == history;
      assert Appended(ops)[|history|] == NewEntries(op)[0];
    } else {
      OtherAppendsRepeat(f, Front(ops));
      assert forall i :: 0 <= i < |history| ==> Appended(ops)[i] == history[i];
    }
  }

  /** After a run that follows the rule, a restart restores a consecutive log exactly when every append of the run
      was made on a whole log. */
  lemma RestartConsecutiveExactly(f: Formats, ops: seq<Op>)
    requires WellBehaved(f) && RuleRun(f, ops)
    ensures Consecutive(Opened(f, Run(f, ops).disk.file).log) <==> AppendsAreWhole(f, ops)
  {
    ReopenRebuilds(f, ops);
    if AppendsAreWhole(f, ops) {
      WholeAppends(f, ops);
    } else {
      OtherAppendsRepeat(f, ops);
    }
  }

  /** Every live log of a run that follows the rule is consecutive, if restarts happen only when that keeps it so;
      in particular in every run without restarts. */
  lemma {:induction false} LiveLogConsecutive(f: Formats, ops: seq<Op>)
    requires WellBehaved(f) && RuleRun(f, ops) && RestartsAreSafe(f, ops)
    ensures Consecutive(Run(f, ops).log)
  {
    if |ops| > 0 {
      LiveLogConsecutive(f, Front(ops));
      if Last(ops).Restart? {
        RestartConsecutiveExactly(f, Front(ops));
      } else {
        StepConsecutive(f, Run(f, Front(ops)), Last(ops));
      }
    }
  }

  function Clamp(k: int, n: nat): nat {
    if k < 0 then 0 else if k > n then n else k
  }

  /** The contiguous part of a log that starts at index 1, between two indices. */
  function Slice(log: seq<Entry>, start: u64, stop: u64): seq<Entry> {
    var lo, hi := Clamp(start - 1, |log|), Clamp(stop - 1, |log|);
    if lo < hi then log[lo..hi] else []
  }

  /** On a consecutive log, filtering by index is slicing. */
  lemma {:induction false} SelectIsSlice(log: seq<Entry>, start: u64, stop: u64)
    requires Consecutive(log)
    ensures Select(log, start, stop) == Slice(log, start, stop)
  {
    if |log| > 0 {
      SelectIsSlice(Front(log), start, stop);
      SliceSnoc(log, start, stop);
    }
  }

  lemma SliceSnoc(log: seq<Entry>, start: u64, stop: u64)
    requires |log| > 0
    ensures Slice(log, start, stop) ==
      Slice(Front(log), start, stop) + if start <= |log| < stop then [Last(log)] else []
  {
    var lo, hi, n := Clamp(start - 1, |log|), Clamp(stop - 1, |log|), |log| - 1;
    if start <= |log| < stop {
      assert log[lo..] == log[lo..n] + [Last(log)] && Front(log)[lo..] == log[lo..n];
    } else if lo < hi {
      assert Front(log)[lo..hi] == log[lo..hi];
    }
  }

  /** A run that follows the rule and still restarts into a log with a repeated index: entry 2 is replaced, and the
      restart brings the replaced one back beside its replacement. */
  lemma ReplacedEntryReturns(f: Formats, a: Entry, b: Entry, c: Entry)
    requires WellBehaved(f) && a.index == 1 && b.index == 2 && c.index == 2
    ensures var ops := [Append(a), Append(b), Delete(2, None), Append(c)];
      && RuleRun(f, ops) && Run(f, ops).log == [a, c]
      && Opened(f, Run(f, ops).disk.file).log == [a, b, c]
      && Select(Opened(f, Run(f, ops).disk.file).log, 2, 3) == [b, c]
  {
    var o1 := [] + [Append(a)];
    var o2 := o1 + [Append(b)];
    var o3 := o2 + [Delete(2, None)];
    var o4 := o3 + [Append(c)];
    assert o4 == [Append(a), Append(b), Delete(2, None), Append(c)];
    OneMore(f, [], Append(a));
    OneMore(f, o1, Append(b));
    assert Run(f, o2).log == [a, b] && Appended(o2) == [a, b] && RuleRun(f, o2);
    OneMore(f, o2, Delete(2, None));
    DeleteSecond(a, b);
    assert Run(f, o3).log == [a] && Appended(o3) == [a, b] && RuleRun(f, o3);
    OneMore(f, o3, Append(c));
    assert Run(f, o4).log == [a, c] && Appended(o4) == [a, b, c];
    ReopenRebuilds(f, o4);
    SelectTwice(a, b, c);
  }

  lemma DeleteSecond(a: Entry, b: Entry)
    requires a.index == 1 && b.index == 2
    ensures Retain([a, b], 2, None) == [a]
  {
    RetainPrefix([a, b], 2, None);
    assert [a, b][..1] == [a];
  }

  /** A run extended by one operation. */
  lemma OneMore(f: Formats, ops: seq<Op>, op: Op)
    ensures Run(f, ops + [op]) == Step(f, Run(f, ops), op)
    ensures Appended(ops + [op]) == Appended(ops) + NewEntries(op)
    ensures RuleRun(f, ops + [op]) <==> RuleRun(f, ops) && ObeysRule(Run(f, ops).log, op)
  {
    assert Front(ops + [op]) == ops;
  }

  lemma SelectTwice(a: Entry, b: Entry, c: Entry)
    requires a.index == 1 && b.index == 2 && c.index == 2
    ensures Select([a, b, c], 2, 3) == [b, c]
  {
    assert [a, b, c][..2] == [a, b] && [a, b][..1] == [a] && [a][..0] == [];
    assert Select([a], 2, 3) == [];
    assert Select([a, b], 2, 3) == [b];
  }
}
