/**
 The storage engine shared by threads.

 Each call is split at its lock operations: an upsert appends under the active-segment lock and publishes the
 pointer in the index before it drops the lock; a rotation takes both locks, swaps the active segment, and pushes the
 old one; a get searches the index, then looks at the active segment, then scans the sealed ones, taking and dropping
 a lock each time. The index is a concurrent map with atomic operations. Every interleaving is a run, and in every run
 a get returns what the plain map held at the moment of its index search.
 */
module EngineConcurrency {
  import opened Base
  import opened Segments
  import opened SegmentTables
  import Sequential = StorageEngine

  type Contents = map<nat, ConnRecord>

  /** Where a thread is in its call, with the call's local variables. A call also remembers when it went through
      some of its steps, by the number of steps taken before: `since` is its first step. */
  datatype Pc =
    | Idle
    | Upserting(record: ConnRecord, since: nat)              // has its txid; next, the first append
    | Publishing(record: ConnRecord, since: nat,             // appended, holds the active lock; next, the index insert
                 ptr: SegmentPtr)
    | Full(record: ConnRecord, since: nat)                   // no room, lock dropped; next, rotation
    | Rotating(record: ConnRecord, since: nat)               // holds the active lock; next, the sealed lock
    | Swapped(record: ConnRecord, since: nat, swap: nat,     // holds both locks; next, the push
              oldSegment: Seg)
    | Retrying(record: ConnRecord, since: nat, swap: nat)    // rotated; next, the second append
    | UpsertOk(record: ConnRecord, since: nat, publish: nat)
    | SegmentFull(record: ConnRecord, since: nat, swap: nat, retry: nat)
    | Found(key: nat, ptr: SegmentPtr, since: nat)           // index searched; next, the active segment
    | NotActive(key: nat, ptr: SegmentPtr, since: nat)       // not in the active segment; next, the sealed ones
    | GetDone(key: nat, since: nat, result: Option<ConnRecord>)

  /** The shared memory, the threads, and the plain map after each step so far. */
  datatype State = State(
    active: Seg, sealed: seq<Seg>, index: map<nat, SegmentPtr>, txid: nat, nextId: nat,
    activeLock: Option<nat>, sealedLock: Option<nat>, threads: map<nat, Pc>, past: seq<Contents>)

  datatype Action =
    | BeginUpsert(connId: nat, metadata: ConnMeta, now: nat) | FirstAppend | Publish
    | TakeActive | Swap | PushSealed | SecondAppend
    | BeginGet(key: nat) | CheckActive | ScanTheSealed
    | Remove(key: nat) | Return | ForeignSegment

  datatype Step = Step(thread: nat, action: Action)

  function PcOf(s: State, t: nat): Pc {
    if t in s.threads then s.threads[t] else Idle
  }

  function Lookup(m: Contents, key: nat): Option<ConnRecord> {
    if key in m then Some(m[key]) else None
  }

  /** The plain map now. */
  function Model(s: State): Contents
    requires |s.past| > 0
  {
    s.past[|s.past| - 1]
  }

  function Initial(limit: nat, id: nat): State {
    State(NewSegment(id, limit), [], map[], 1, id + 1, None, None, map[], [map[]])
  }

  /** A thread can take a step: it is at that point of its call, and the locks it needs are free. */
  predicate Enabled(s: State, step: Step) {
    var pc := PcOf(s, step.thread);
    match step.action
    case BeginUpsert(_, _, _) => pc.Idle?
    case FirstAppend => pc.Upserting? && s.activeLock.None?
    case Publish => pc.Publishing?
    case TakeActive => pc.Full? && s.activeLock.None?
    case Swap => pc.Rotating? && s.sealedLock.None?
    case PushSealed => pc.Swapped?
    case SecondAppend => pc.Retrying? && s.activeLock.None?
    case BeginGet(_) => pc.Idle?
    case CheckActive => pc.Found? && s.activeLock.None? && WellFormed(s.active)
    case ScanTheSealed => pc.NotActive? && s.sealedLock.None? && AllWellFormed(s.sealed)
    case Remove(_) => pc.Idle?
    case Return => pc.UpsertOk? || pc.SegmentFull? || pc.GetDone?
    case ForeignSegment => pc.Idle?   // another engine of the process draws a segment id
  }

  /** Appends under the active lock, and keeps the lock if that worked. */
  function AppendUnderLock(c: RecordCodec, s: State, t: nat, r: ConnRecord, since: nat, otherwise: Pc): State {
    match Appended(c, s.active, r)
    case Some(seg) =>
      s.(active := seg, activeLock := Some(t),
         threads := s.threads[t := Publishing(r, since, SegmentPtr(s.active.id, |s.active.data|))])
    case None => s.(threads := s.threads[t := otherwise])
  }

  /** The shared memory and the threads after a step. */
  function Moved(c: RecordCodec, limit: nat, s: State, step: Step): State
    requires |s.past| > 0 && Enabled(s, step)
  {
    var t, pc, now := step.thread, PcOf(s, step.thread), |s.past| - 1;
    match step.action
    case BeginUpsert(connId, metadata, time) =>
      var r := Sequential.NewRecord(connId, metadata, time, s.txid);
      s.(txid := s.txid + 1, threads := s.threads[t := Upserting(r, now)])
    case FirstAppend => AppendUnderLock(c, s, t, pc.record, pc.since, Full(pc.record, pc.since))
    case Publish =>
      s.(index := s.index[pc.record.connId := pc.ptr], activeLock := None,
         threads := s.threads[t := UpsertOk(pc.record, pc.since, now)])
    case TakeActive => s.(activeLock := Some(t), threads := s.threads[t := Rotating(pc.record, pc.since)])
    case Swap =>
      s.(active := NewSegment(s.nextId, limit), nextId := s.nextId + 1, sealedLock := Some(t),
         threads := s.threads[t := Swapped(pc.record, pc.since, now, s.active.(isSealed := true))])
    case PushSealed =>
      s.(sealed := s.sealed + [pc.oldSegment], activeLock := None, sealedLock := None,
         threads := s.threads[t := Retrying(pc.record, pc.since, pc.swap)])
    case SecondAppend =>
      AppendUnderLock(c, s, t, pc.record, pc.since, SegmentFull(pc.record, pc.since, pc.swap, now))
    case BeginGet(key) =>
      s.(threads := s.threads[t := if key in s.index then Found(key, s.index[key], now) else GetDone(key, now, None)])
    case CheckActive =>
      s.(threads := s.threads[t :=
        if pc.ptr.segmentId == s.active.id then GetDone(pc.key, pc.since, ReadAt(c, s.active, pc.ptr.offset))
        else NotActive(pc.key, pc.ptr, pc.since)])
    case ScanTheSealed => s.(threads := s.threads[t := GetDone(pc.key, pc.since, ScanSealed(c, s.sealed, pc.ptr))])
    case Remove(key) => s.(index := s.index - {key})
    case Return => s.(threads := s.threads[t := Idle])
    case ForeignSegment => s.(nextId := s.nextId + 1)
  }

  /** What a step does to the plain map: a publication sets a key, a removal drops one. */
  function NextModel(s: State, step: Step): Contents
    requires |s.past| > 0 && Enabled(s, step)
  {
    var pc := PcOf(s, step.thread);
    match step.action
    case Publish => Model(s)[pc.record.connId := pc.record]
    case Remove(key) => Model(s) - {key}
    case _ => Model(s)
  }

  function Apply(c: RecordCodec, limit: nat, s: State, step: Step): State
    requires |s.past| > 0 && Enabled(s, step)
  {
    Moved(c, limit, s, step).(past := s.past + [NextModel(s, step)])
  }

  // ---- the invariant ----

  /** The segment a rotation has taken out of the active slot and not yet pushed. */
  function InFlight(s: State): seq<Seg> {
    if s.sealedLock.Some? && PcOf(s, s.sealedLock.value).Swapped? then [PcOf(s, s.sealedLock.value).oldSegment] else []
  }

  function Segs(s: State): seq<Seg> {
    s.sealed + InFlight(s) + [s.active]
  }

  predicate HoldsActiveLock(pc: Pc) {
    pc.Publishing? || pc.Rotating? || pc.Swapped?
  }

  /** The locks are held by exactly the threads that are between taking and dropping them. */
  ghost predicate Locked(s: State) {
    && (forall t: nat :: HoldsActiveLock(PcOf(s, t)) <==> s.activeLock == Some(t))
    && (forall t: nat :: PcOf(s, t).Swapped? <==> s.sealedLock == Some(t))
  }

  /** What each point of a call may rely on. */
  ghost predicate PcInv(c: RecordCodec, s: State, pc: Pc) {
    match pc
    case Publishing(r, _, ptr) => Holds(c, Segs(s), ptr, r)
    case UpsertOk(r, _, publish) =>
      publish + 1 < |s.past| && s.past[publish + 1] == s.past[publish][r.connId := r]
    case Found(key, ptr, since) =>
      since < |s.past| && key in s.past[since] && Holds(c, Segs(s), ptr, s.past[since][key])
    case NotActive(key, ptr, since) =>
      since < |s.past| && key in s.past[since] && Holds(c, s.sealed, ptr, s.past[since][key])
    case GetDone(key, since, result) => since < |s.past| && result == Lookup(s.past[since], key)
    case _ => true
  }

  ghost predicate TableInv(s: State) {
    AllWellFormed(Segs(s)) && IncreasingIds(Segs(s)) && s.active.id < s.nextId
  }

  ghost predicate Inv(c: RecordCodec, s: State) {
    && |s.past| > 0 && TableInv(s) && Locked(s)
    && IndexHolds(c, Segs(s), s.index, Model(s))
    && (forall t: nat :: PcInv(c, s, PcOf(s, t)))
  }

  /** A later state: later tables, and a longer past. */
  ghost predicate Later(c: RecordCodec, s: State, s': State) {
    && Grows(c, Segs(s), Segs(s')) && Grows(c, s.sealed, s'.sealed)
    && |s.past| < |s'.past| && (forall i :: 0 <= i < |s.past| ==> s'.past[i] == s.past[i])
  }

  /** What a call relies on stays true while other threads move. */
  lemma PcStays(c: RecordCodec, s: State, s': State, pc: Pc)
    requires PcInv(c, s, pc) && Later(c, s, s')
    ensures PcInv(c, s', pc)
  {
    match pc
    case Publishing(r, _, ptr) => HoldsGrows(c, Segs(s), Segs(s'), ptr, r);
    case Found(key, ptr, since) => HoldsGrows(c, Segs(s), Segs(s'), ptr, s.past[since][key]);
    case NotActive(key, ptr, since) => HoldsGrows(c, s.sealed, s'.sealed, ptr, s.past[since][key]);
    case _ =>
  }

  lemma GrowsSame(c: RecordCodec, segs: seq<Seg>)
    requires AllWellFormed(segs)
    ensures Grows(c, segs, segs)
  {}

  /** With the sealed lock free there is no segment in flight. */
  lemma NoneInFlight(s: State)
    requires Locked(s) && s.sealedLock.None?
    ensures InFlight(s) == [] && Segs(s) == s.sealed + [s.active]
  {
    assert s.sealed + [] == s.sealed;
  }

  /** The sealed lock is only held together with the active lock. */
  lemma SealedNeedsActive(s: State)
    requires Locked(s) && s.activeLock.None?
    ensures s.sealedLock.None?
  {
    if s.sealedLock.Some? {
      assert HoldsActiveLock(PcOf(s, s.sealedLock.value));
    }
  }

  lemma SealedTable(s: State)
    requires TableInv(s)
    ensures AllWellFormed(s.sealed) && IncreasingIds(s.sealed) && WellFormed(s.active)
  {
    assert forall i :: 0 <= i < |s.sealed| ==> Segs(s)[i] == s.sealed[i];
    assert Segs(s)[|Segs(s)| - 1] == s.active;
  }

  // ---- every step keeps the invariant ----

  /** A step that touches no segment and is not taken by the thread in mid-rotation. */
  ghost predicate Quiet(s: State, s': State, t: nat) {
    && s'.active == s.active && s'.sealed == s.sealed && s'.sealedLock == s.sealedLock && s.sealedLock != Some(t)
    && (forall u: nat :: u != t ==> PcOf(s', u) == PcOf(s, u)) && s'.nextId >= s.nextId
  }

  lemma QuietTables(c: RecordCodec, s: State, s': State, t: nat)
    requires TableInv(s) && Quiet(s, s', t)
    requires |s.past| < |s'.past| && forall i :: 0 <= i < |s.past| ==> s'.past[i] == s.past[i]
    ensures Segs(s') == Segs(s) && TableInv(s') && Later(c, s, s')
  {
    SealedTable(s);
    assert InFlight(s') == InFlight(s);
    GrowsSame(c, Segs(s));
    GrowsSame(c, s.sealed);
  }

  lemma AppendTables(c: RecordCodec, s: State, t: nat, r: ConnRecord, since: nat, pc: Pc, s': State)
    requires Lawful(c) && TableInv(s) && Locked(s) && s.activeLock.None? && Appended(c, s.active, r).Some?
    requires s' == AppendUnderLock(c, s, t, r, since, pc).(past := s'.past)
    requires |s.past| < |s'.past| && forall i :: 0 <= i < |s.past| ==> s'.past[i] == s.past[i]
    ensures TableInv(s') && Later(c, s, s') && Holds(c, Segs(s'), SegmentPtr(s.active.id, |s.active.data|), r)
  {
    SealedNeedsActive(s);
    NoneInFlight(s);
    SealedTable(s);
    assert InFlight(s') == [] && s'.sealed + [] == s'.sealed;
    AppendedReads(c, s.active, r);
    AppendLast(c, s.sealed, s.active, r);
    GrowsSame(c, s.sealed);
  }

  lemma SwapTables(c: RecordCodec, limit: nat, s: State, step: Step, s': State)
    requires |s.past| > 0 && TableInv(s) && Locked(s) && step.action.Swap? && Enabled(s, step)
    requires s' == Apply(c, limit, s, step)
    ensures TableInv(s') && Later(c, s, s')
  {
    NoneInFlight(s);
    SealedTable(s);
    assert PcOf(s', step.thread).Swapped? && PcOf(s', step.thread).oldSegment == s.active.(isSealed := true);
    assert InFlight(s') == [s.active.(isSealed := true)];
    RotateLast(c, s.sealed, s.active, s.nextId, limit);
    GrowsSame(c, s.sealed);
  }

  lemma PushTables(c: RecordCodec, limit: nat, s: State, step: Step, s': State)
    requires |s.past| > 0 && TableInv(s) && Locked(s) && step.action.PushSealed? && Enabled(s, step)
    requires s' == Apply(c, limit, s, step)
    ensures Segs(s') == Segs(s) && TableInv(s') && Later(c, s, s')
  {
    SealedTable(s);
    assert s.sealedLock == Some(step.thread);
    assert InFlight(s') == [] && s'.sealed + [] == s'.sealed;
    GrowsSame(c, Segs(s));
    assert forall i :: 0 <= i < |s.sealed| ==> s'.sealed[i] == s.sealed[i];
    GrowsSame(c, s.sealed);
  }

  /** Tables only grow. */
  lemma StepTables(c: RecordCodec, limit: nat, s: State, step: Step)
    requires Lawful(c) && |s.past| > 0 && TableInv(s) && Locked(s) && Enabled(s, step)
    ensures var s' := Apply(c, limit, s, step); TableInv(s') && Later(c, s, s')
  {
    var s', t, pc := Apply(c, limit, s, step), step.thread, PcOf(s, step.thread);
    if step.action.Swap? {
      SwapTables(c, limit, s, step, s');
    } else if step.action.PushSealed? {
      PushTables(c, limit, s, step, s');
    } else if (step.action.FirstAppend? || step.action.SecondAppend?) && Appended(c, s.active, pc.record).Some? {
      AppendTables(c, s, t, pc.record, pc.since, pc, s');
    } else {
      QuietStep(c, limit, s, step);
      QuietTables(c, s, s', t);
    }
  }

  lemma QuietStep(c: RecordCodec, limit: nat, s: State, step: Step)
    requires |s.past| > 0 && Locked(s) && Enabled(s, step) && !step.action.Swap? && !step.action.PushSealed?
    requires step.action.FirstAppend? || step.action.SecondAppend? ==>
      Appended(c, s.active, PcOf(s, step.thread).record).None?
    ensures Quiet(s, Apply(c, limit, s, step), step.thread)
  {}

  lemma StepLocks(c: RecordCodec, limit: nat, s: State, step: Step)
    requires |s.past| > 0 && Locked(s) && Enabled(s, step)
    ensures Locked(Apply(c, limit, s, step))
  {
    var s', t := Apply(c, limit, s, step), step.thread;
    assert forall u: nat :: u != t ==> PcOf(s', u) == PcOf(s, u);
    assert HoldsActiveLock(PcOf(s, t)) <==> s.activeLock == Some(t);
    assert PcOf(s, t).Swapped? <==> s.sealedLock == Some(t);
  }

  /** Only a publication and a removal touch the index or the plain map. */
  lemma StepIndexSame(c: RecordCodec, limit: nat, s: State, step: Step)
    requires |s.past| > 0 && Enabled(s, step)
    ensures var s' := Apply(c, limit, s, step);
      && Model(s') == NextModel(s, step)
      && (step.action.Publish? ==> var pc := PcOf(s, step.thread); s'.index == s.index[pc.record.connId := pc.ptr])
      && (step.action.Remove? ==> s'.index == s.index - {step.action.key})
      && (!step.action.Publish? && !step.action.Remove? ==> s'.index == s.index)
  {}

  lemma StepIndex(c: RecordCodec, s: State, segs: seq<Seg>, step: Step)
    requires Inv(c, s) && Grows(c, Segs(s), segs) && Enabled(s, step)
    ensures IndexHolds(c, segs,
      if step.action.Publish? then s.index[PcOf(s, step.thread).record.connId := PcOf(s, step.thread).ptr]
      else if step.action.Remove? then s.index - {step.action.key} else s.index, NextModel(s, step))
  {
    var pc := PcOf(s, step.thread);
    IndexGrows(c, Segs(s), segs, s.index, Model(s));
    if step.action.Publish? {
      assert PcInv(c, s, pc);
      HoldsGrows(c, Segs(s), segs, pc.ptr, pc.record);
      IndexInsert(c, segs, s.index, Model(s), pc.record.connId, pc.ptr, pc.record);
    } else if step.action.Remove? {
      IndexRemove(c, segs, s.index, Model(s), step.action.key);
    }
  }

  /** The active segment answers for its own pointers; any other pointer is already in a sealed segment. */
  lemma CheckActiveAnswers(c: RecordCodec, s: State, ptr: SegmentPtr, r: ConnRecord)
    requires TableInv(s) && Locked(s) && s.activeLock.None? && Holds(c, Segs(s), ptr, r)
    ensures if ptr.segmentId == s.active.id then WellFormed(s.active) && ReadAt(c, s.active, ptr.offset) == Some(r)
            else Holds(c, s.sealed, ptr, r)
  {
    SealedNeedsActive(s);
    NoneInFlight(s);
    HoldsSplit(c, s.sealed, s.active, ptr, r);
  }

  lemma AppendPc(c: RecordCodec, limit: nat, s: State, step: Step)
    requires Lawful(c) && Inv(c, s) && Enabled(s, step) && (step.action.FirstAppend? || step.action.SecondAppend?)
    ensures var s' := Apply(c, limit, s, step); PcInv(c, s', PcOf(s', step.thread))
  {
    var s', t, pc := Apply(c, limit, s, step), step.thread, PcOf(s, step.thread);
    if Appended(c, s.active, pc.record).Some? {
      AppendTables(c, s, t, pc.record, pc.since, pc, s');
    }
  }

  /** A get finds the pointer of a key exactly when the plain map has the key. */
  lemma SearchFinds(c: RecordCodec, s: State, segs: seq<Seg>, key: nat)
    requires Inv(c, s) && Grows(c, Segs(s), segs)
    ensures key in s.index <==> key in Model(s)
    ensures key in s.index ==> Holds(c, segs, s.index[key], Model(s)[key])
  {
    if key in s.index {
      HoldsGrows(c, Segs(s), segs, s.index[key], Model(s)[key]);
    }
  }

  lemma SearchPc(c: RecordCodec, limit: nat, s: State, step: Step)
    requires Lawful(c) && Inv(c, s) && Enabled(s, step) && step.action.BeginGet?
    ensures var s' := Apply(c, limit, s, step); PcInv(c, s', PcOf(s', step.thread))
  {
    var s', key, now := Apply(c, limit, s, step), step.action.key, |s.past| - 1;
    StepTables(c, limit, s, step);
    SearchFinds(c, s, Segs(s'), key);
    assert s'.past[now] == Model(s);
    assert PcOf(s', step.thread) == if key in s.index then Found(key, s.index[key], now) else GetDone(key, now, None);
  }

  lemma ReadPc(c: RecordCodec, limit: nat, s: State, step: Step)
    requires Lawful(c) && Inv(c, s) && Enabled(s, step) && (step.action.CheckActive? || step.action.ScanTheSealed?)
    ensures var s' := Apply(c, limit, s, step); PcInv(c, s', PcOf(s', step.thread))
  {
    var s', pc := Apply(c, limit, s, step), PcOf(s, step.thread);
    assert PcInv(c, s, pc);
    SealedTable(s);
    if step.action.CheckActive? {
      CheckActiveAnswers(c, s, pc.ptr, s.past[pc.since][pc.key]);
    } else {
      ScanFinds(c, s.sealed, pc.ptr, s.past[pc.since][pc.key]);
    }
  }

  /** The thread that moves can rely on what its next point needs. */
  lemma StepPc(c: RecordCodec, limit: nat, s: State, step: Step)
    requires Lawful(c) && Inv(c, s) && Enabled(s, step)
    ensures var s' := Apply(c, limit, s, step); PcInv(c, s', PcOf(s', step.thread))
  {
    match step.action
    case FirstAppend => AppendPc(c, limit, s, step);
    case SecondAppend => AppendPc(c, limit, s, step);
    case BeginGet(_) => SearchPc(c, limit, s, step);
    case CheckActive => ReadPc(c, limit, s, step);
    case ScanTheSealed => ReadPc(c, limit, s, step);
    case _ =>
  }

  lemma OtherPcs(c: RecordCodec, limit: nat, s: State, step: Step, u: nat)
    requires |s.past| > 0 && Enabled(s, step) && u != step.thread
    ensures PcOf(Apply(c, limit, s, step), u) == PcOf(s, u)
  {}

  /** The invariant from its parts. */
  lemma Assemble(c: RecordCodec, s: State, s': State, t: nat)
    requires Inv(c, s) && |s'.past| > 0 && TableInv(s') && Later(c, s, s') && Locked(s')
    requires IndexHolds(c, Segs(s'), s'.index, Model(s')) && PcInv(c, s', PcOf(s', t))
    requires forall u: nat :: u != t ==> PcOf(s', u) == PcOf(s, u)
    ensures Inv(c, s')
  {
    forall u: nat
      ensures PcInv(c, s', PcOf(s', u))
    {
      if u != t {
        PcStays(c, s, s', PcOf(s, u));
      }
    }
  }

  lemma StepInv(c: RecordCodec, limit: nat, s: State, step: Step)
    requires Lawful(c) && Inv(c, s) && Enabled(s, step)
    ensures Inv(c, Apply(c, limit, s, step))
  {
    var s' := Apply(c, limit, s, step);
    StepTables(c, limit, s, step);
    StepLocks(c, limit, s, step);
    StepIndex(c, s, Segs(s'), step);
    StepIndexSame(c, limit, s, step);
    StepPc(c, limit, s, step);
    forall u: nat | u != step.thread
      ensures PcOf(s', u) == PcOf(s, u)
    {
      OtherPcs(c, limit, s, step, u);
    }
    Assemble(c, s, s', step.thread);
  }

  // ---- a call that runs alone is the sequential call ----

  /** The engine a single thread sees. */
  function View(limit: nat, s: State): Sequential.Engine {
    Sequential.Engine(s.active, s.sealed, s.index, s.txid, s.nextId, limit)
  }

  /** The state after some steps, if each is enabled in turn. */
  function Follow(c: RecordCodec, limit: nat, s: State, steps: seq<Step>): Option<State>
    decreases |steps|
  {
    if |steps| == 0 then Some(s)
    else if |s.past| > 0 && Enabled(s, steps[0]) then Follow(c, limit, Apply(c, limit, s, steps[0]), steps[1..])
    else None
  }

  lemma FollowOne(c: RecordCodec, limit: nat, s: State, step: Step, rest: seq<Step>)
    requires |s.past| > 0 && Enabled(s, step)
    ensures Follow(c, limit, s, [step] + rest) == Follow(c, limit, Apply(c, limit, s, step), rest)
  {
    assert ([step] + rest)[1..] == rest;
  }

  function StepsOf(t: nat, actions: seq<Action>): seq<Step> {
    seq(|actions|, i requires 0 <= i < |actions| => Step(t, actions[i]))
  }

  /** The state after some actions of one thread, if each is enabled in turn. */
  function Alone(c: RecordCodec, limit: nat, s: State, t: nat, actions: seq<Action>): Option<State> {
    Follow(c, limit, s, StepsOf(t, actions))
  }

  lemma AloneStep(c: RecordCodec, limit: nat, s: State, t: nat, a: Action, rest: seq<Action>)
    requires |s.past| > 0 && Enabled(s, Step(t, a))
    ensures Alone(c, limit, s, t, [a] + rest) == Alone(c, limit, Apply(c, limit, s, Step(t, a)), t, rest)
  {
    assert StepsOf(t, [a] + rest) == [Step(t, a)] + StepsOf(t, rest);
    FollowOne(c, limit, s, Step(t, a), StepsOf(t, rest));
  }

  /** No lock is held and the thread is at rest. */
  predicate AtRest(s: State, t: nat) {
    |s.past| > 0 && PcOf(s, t).Idle? && s.activeLock.None? && s.sealedLock.None?
  }

  /** An upsert has returned this: its transaction id, or the error for a full segment. */
  predicate Returns(pc: Pc, txid: Option<nat>) {
    match txid
    case Some(n) => pc.UpsertOk? && pc.record.txid == n
    case None => pc.SegmentFull?
  }

  /** An append and the publication of its pointer. */
  lemma AppendAlone(c: RecordCodec, limit: nat, s: State, t: nat, a: Action)
    requires |s.past| > 0 && s.activeLock.None? && Enabled(s, Step(t, a)) && (a.FirstAppend? || a.SecondAppend?)
    requires Sequential.TryAppend(c, View(limit, s), PcOf(s, t).record).Some?
    ensures var r := PcOf(s, t).record;
      var s' := Alone(c, limit, s, t, [a, Publish]);
      && s'.Some? && View(limit, s'.value) == Sequential.TryAppend(c, View(limit, s), r).value
      && PcOf(s'.value, t).UpsertOk? && PcOf(s'.value, t).record == r
  {
    AloneStep(c, limit, s, t, a, [Publish]);
    var s1 := Apply(c, limit, s, Step(t, a));
    AloneStep(c, limit, s1, t, Publish, []);
    assert [a] + [Publish] == [a, Publish] && [Publish] + [] == [Publish];
  }

  /** The rotation of an upsert that found no room. */
  lemma RotateAlone(c: RecordCodec, limit: nat, s: State, t: nat, rest: seq<Action>) returns (s': State)
    requires |s.past| > 0 && s.activeLock.None? && s.sealedLock.None? && PcOf(s, t).Full?
    ensures Alone(c, limit, s, t, [TakeActive, Swap, PushSealed] + rest) == Alone(c, limit, s', t, rest)
    ensures |s'.past| > 0 && s'.activeLock.None? && s'.sealedLock.None?
    ensures PcOf(s', t).Retrying? && PcOf(s', t).record == PcOf(s, t).record
    ensures View(limit, s') == Sequential.Rotated(View(limit, s))
  {
    var s1 := Apply(c, limit, s, Step(t, TakeActive));
    var s2 := Apply(c, limit, s1, Step(t, Swap));
    s' := Apply(c, limit, s2, Step(t, PushSealed));
    assert [TakeActive, Swap, PushSealed] + rest == [TakeActive] + ([Swap] + ([PushSealed] + rest));
    AloneStep(c, limit, s, t, TakeActive, [Swap] + ([PushSealed] + rest));
    AloneStep(c, limit, s1, t, Swap, [PushSealed] + rest);
    AloneStep(c, limit, s2, t, PushSealed, rest);
  }

  /** Rotation and the second try. */
  lemma RetryAlone(c: RecordCodec, limit: nat, s: State, t: nat) returns (actions: seq<Action>)
    requires |s.past| > 0 && s.activeLock.None? && s.sealedLock.None? && PcOf(s, t).Full?
    ensures var r := PcOf(s, t).record;
      var rotated := Sequential.Rotated(View(limit, s));
      var tried := Sequential.TryAppend(c, rotated, r);
      var s' := Alone(c, limit, s, t, actions);
      && s'.Some? && View(limit, s'.value) == (if tried.Some? then tried.value else rotated)
      && Returns(PcOf(s'.value, t), if tried.Some? then Some(r.txid) else None)
  {
    var r := PcOf(s, t).record;
    var room := Sequential.TryAppend(c, Sequential.Rotated(View(limit, s)), r).Some?;
    var last := if room then [SecondAppend, Publish] else [SecondAppend] + [];
    var s1 := RotateAlone(c, limit, s, t, last);
    if room {
      AppendAlone(c, limit, s1, t, SecondAppend);
    } else {
      AloneStep(c, limit, s1, t, SecondAppend, []);
    }
    actions := [TakeActive, Swap, PushSealed] + last;
  }

  /** The steps of an upsert that no other thread interrupts do what the sequential upsert does. */
  lemma UpsertAlone(c: RecordCodec, limit: nat, s: State, t: nat, connId: nat, metadata: ConnMeta, now: nat)
    returns (actions: seq<Action>)
    requires AtRest(s, t)
    ensures var (e, txid) := Sequential.Upserted(c, View(limit, s), connId, metadata, now);
      var s' := Alone(c, limit, s, t, actions);
      && s'.Some? && View(limit, s'.value) == e
      && Returns(PcOf(s'.value, t), txid)
  {
    var begin := BeginUpsert(connId, metadata, now);
    var s1 := Apply(c, limit, s, Step(t, begin));
    if Sequential.TryAppend(c, View(limit, s1), PcOf(s1, t).record).Some? {
      AloneStep(c, limit, s, t, begin, [FirstAppend, Publish]);
      AppendAlone(c, limit, s1, t, FirstAppend);
      actions := [begin] + [FirstAppend, Publish];
    } else {
      var s2 := Apply(c, limit, s1, Step(t, FirstAppend));
      var rest := RetryAlone(c, limit, s2, t);
      AloneStep(c, limit, s, t, begin, [FirstAppend] + rest);
      AloneStep(c, limit, s1, t, FirstAppend, rest);
      actions := [begin] + ([FirstAppend] + rest);
    }
  }

  /** The steps of a get that no other thread interrupts return what the sequential get returns. */
  lemma GetAlone(c: RecordCodec, limit: nat, s: State, t: nat, key: nat) returns (actions: seq<Action>)
    requires AtRest(s, t) && AllWellFormed(Sequential.Segs(View(limit, s)))
    ensures var s' := Alone(c, limit, s, t, actions);
      && s'.Some? && View(limit, s'.value) == View(limit, s) && PcOf(s'.value, t).GetDone?
      && PcOf(s'.value, t).result == Sequential.Get(c, View(limit, s), key)
  {
    assert Sequential.Segs(View(limit, s))[|s.sealed|] == s.active;
    assert forall i :: 0 <= i < |s.sealed| ==> Sequential.Segs(View(limit, s))[i] == s.sealed[i];
    var begin := BeginGet(key);
    var s1 := Apply(c, limit, s, Step(t, begin));
    var rest: seq<Action> := [];
    if key in s.index {
      if s.index[key].segmentId != s.active.id {
        rest := [ScanTheSealed] + [];
        AloneStep(c, limit, Apply(c, limit, s1, Step(t, CheckActive)), t, ScanTheSealed, []);
      }
      AloneStep(c, limit, s1, t, CheckActive, rest);
      rest := [CheckActive] + rest;
    }
    AloneStep(c, limit, s, t, begin, rest);
    actions := [begin] + rest;
  }
}
