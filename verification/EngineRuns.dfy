/**
 What holds over whole runs of the shared engine: every call is linearizable, an upsert publishes once or not at all,
 and every call in progress can be finished.
 */
module EngineRuns {
  import opened Base
  import opened Segments
  import opened SegmentTables
  import opened EngineConcurrency
  import Sequential = StorageEngine

  /** A run: any number of threads, any interleaving. */
  ghost predicate IsRun(c: RecordCodec, limit: nat, id: nat, states: seq<State>, steps: seq<Step>) {
    && |states| == |steps| + 1 && states[0] == Initial(limit, id)
    && forall i :: 0 <= i < |steps| ==>
         |states[i].past| > 0 && Enabled(states[i], steps[i]) && states[i + 1] == Apply(c, limit, states[i], steps[i])
  }

  lemma InitialInv(c: RecordCodec, limit: nat, id: nat)
    ensures Inv(c, Initial(limit, id))
  {
    assert Segs(Initial(limit, id)) == [NewSegment(id, limit)];
  }

  lemma {:induction false} RunInv(c: RecordCodec, limit: nat, id: nat, states: seq<State>, steps: seq<Step>, i: nat)
    requires Lawful(c) && IsRun(c, limit, id, states, steps) && i < |states|
    ensures Inv(c, states[i])
    ensures |states[i].past| == i + 1
  {
    if i == 0 {
      InitialInv(c, limit, id);
    } else {
      RunInv(c, limit, id, states, steps, i - 1);
      StepInv(c, limit, states[i - 1], steps[i - 1]);
      assert states[i].past == states[i - 1].past + [NextModel(states[i - 1], steps[i - 1])];
    }
  }

  /** The remembered maps are the maps of the earlier states. */
  lemma {:induction false} PastIsPast(c: RecordCodec, limit: nat, id: nat, states: seq<State>, steps: seq<Step>,
                                      i: nat, j: nat)
    requires Lawful(c) && IsRun(c, limit, id, states, steps) && j <= i < |states|
    ensures |states[j].past| > 0 && |states[i].past| == i + 1 && states[i].past[j] == Model(states[j])
  {
    RunInv(c, limit, id, states, steps, j);
    RunInv(c, limit, id, states, steps, i);
    if j < i {
      PastIsPast(c, limit, id, states, steps, i - 1, j);
      assert states[i].past == states[i - 1].past + [NextModel(states[i - 1], steps[i - 1])];
    }
  }

  // ---- what a call remembers is its own doing ----

  /** The thread has not returned from a call in these steps. */
  predicate SameCall(steps: seq<Step>, from: nat, to: nat, t: nat)
    requires to <= |steps|
  {
    forall k :: from <= k < to ==> steps[k] != Step(t, Return)
  }

  predicate NoPublish(steps: seq<Step>, from: nat, to: nat, t: nat)
    requires to <= |steps|
  {
    forall k :: from <= k < to ==> steps[k] != Step(t, Publish)
  }

  /** All the thread does in these steps is push the segment it has swapped out. */
  predicate OnlyPushes(steps: seq<Step>, from: nat, to: nat, t: nat)
    requires to <= |steps|
  {
    forall k :: from <= k < to && steps[k].thread == t ==> steps[k].action.PushSealed?
  }

  /** The call of this upsert is still the thread's call at state i, and the record is the one it drew. */
  predicate Upserts(states: seq<State>, steps: seq<Step>, i: nat, t: nat, r: ConnRecord, since: nat)
    requires i <= |steps| < |states|
  {
    && since < i && steps[since].thread == t && steps[since].action.BeginUpsert?
    && (var a := steps[since].action;
        && r.connId == a.connId && r.metadata == a.metadata && r.createdAt == a.now && r.lastActive == a.now
        && r.accessCount == 1 && r.txid == states[since].txid)
    && SameCall(steps, since, i, t)
  }

  predicate Gets(steps: seq<Step>, i: nat, t: nat, key: nat, since: nat)
    requires i <= |steps|
  {
    since < i && steps[since] == Step(t, BeginGet(key)) && SameCall(steps, since, i, t)
  }

  predicate Swaps(steps: seq<Step>, i: nat, t: nat, since: nat, swap: nat)
    requires i <= |steps|
  {
    since < swap < i && steps[swap] == Step(t, Swap) && OnlyPushes(steps, swap + 1, i, t)
  }

  /** What the thread remembers at state i is what it did. */
  predicate Own(c: RecordCodec, states: seq<State>, steps: seq<Step>, i: nat, t: nat, pc: Pc)
    requires i <= |steps| < |states|
  {
    match pc
    case Idle => true
    case Upserting(r, b) => Upserts(states, steps, i, t, r, b) && NoPublish(steps, b, i, t)
    case Publishing(r, b, _) => Upserts(states, steps, i, t, r, b) && NoPublish(steps, b, i, t)
    case Full(r, b) => Upserts(states, steps, i, t, r, b) && NoPublish(steps, b, i, t)
    case Rotating(r, b) => Upserts(states, steps, i, t, r, b) && NoPublish(steps, b, i, t)
    case Swapped(r, b, w, _) =>
      Upserts(states, steps, i, t, r, b) && NoPublish(steps, b, i, t) && Swaps(steps, i, t, b, w)
    case Retrying(r, b, w) =>
      Upserts(states, steps, i, t, r, b) && NoPublish(steps, b, i, t) && Swaps(steps, i, t, b, w)
    case UpsertOk(r, b, p) =>
      && Upserts(states, steps, i, t, r, b)
      && b < p < i && steps[p] == Step(t, Publish) && NoPublish(steps, b, p, t) && NoPublish(steps, p + 1, i, t)
    case SegmentFull(r, b, w, y) =>
      && Upserts(states, steps, i, t, r, b) && NoPublish(steps, b, i, t)
      && y < i && Swaps(steps, y, t, b, w) && steps[y] == Step(t, SecondAppend)
      && Appended(c, states[y].active, r).None?
    case Found(key, _, b) => Gets(steps, i, t, key, b)
    case NotActive(key, _, b) => Gets(steps, i, t, key, b)
    case GetDone(key, b, _) => Gets(steps, i, t, key, b)
  }

  lemma OthersDoNotMatter(c: RecordCodec, states: seq<State>, steps: seq<Step>, i: nat, t: nat, pc: Pc)
    requires i < |steps| < |states| && Own(c, states, steps, i, t, pc) && steps[i].thread != t
    ensures Own(c, states, steps, i + 1, t, pc)
  {}

  /** The thread takes step i, remembering its own doings. */
  predicate Moves(c: RecordCodec, limit: nat, states: seq<State>, steps: seq<Step>, i: nat, t: nat) {
    && i < |steps| < |states| && |states[i].past| == i + 1
    && steps[i].thread == t && Enabled(states[i], steps[i]) && states[i + 1] == Apply(c, limit, states[i], steps[i])
    && Own(c, states, steps, i, t, PcOf(states[i], t))
  }

  lemma OwnGet(c: RecordCodec, limit: nat, states: seq<State>, steps: seq<Step>, i: nat, t: nat)
    requires Moves(c, limit, states, steps, i, t)
    requires steps[i].action.BeginGet? || steps[i].action.CheckActive? || steps[i].action.ScanTheSealed?
    ensures Own(c, states, steps, i + 1, t, PcOf(states[i + 1], t))
  {}

  lemma OwnAppend(c: RecordCodec, limit: nat, states: seq<State>, steps: seq<Step>, i: nat, t: nat)
    requires Moves(c, limit, states, steps, i, t) && (steps[i].action.FirstAppend? || steps[i].action.SecondAppend?)
    ensures Own(c, states, steps, i + 1, t, PcOf(states[i + 1], t))
  {}

  lemma OwnRotation(c: RecordCodec, limit: nat, states: seq<State>, steps: seq<Step>, i: nat, t: nat)
    requires Moves(c, limit, states, steps, i, t)
    requires steps[i].action.TakeActive? || steps[i].action.Swap? || steps[i].action.PushSealed?
    ensures Own(c, states, steps, i + 1, t, PcOf(states[i + 1], t))
  {}

  lemma OwnRest(c: RecordCodec, limit: nat, states: seq<State>, steps: seq<Step>, i: nat, t: nat)
    requires Moves(c, limit, states, steps, i, t)
    requires var a := steps[i].action; a.BeginUpsert? || a.Publish? || a.Remove? || a.Return? || a.ForeignSegment?
    ensures Own(c, states, steps, i + 1, t, PcOf(states[i + 1], t))
  {}

  lemma OwnStep(c: RecordCodec, limit: nat, states: seq<State>, steps: seq<Step>, i: nat, t: nat)
    requires Moves(c, limit, states, steps, i, t)
    ensures Own(c, states, steps, i + 1, t, PcOf(states[i + 1], t))
  {
    match steps[i].action
    case BeginGet(_) => OwnGet(c, limit, states, steps, i, t);
    case CheckActive => OwnGet(c, limit, states, steps, i, t);
    case ScanTheSealed => OwnGet(c, limit, states, steps, i, t);
    case FirstAppend => OwnAppend(c, limit, states, steps, i, t);
    case SecondAppend => OwnAppend(c, limit, states, steps, i, t);
    case TakeActive => OwnRotation(c, limit, states, steps, i, t);
    case Swap => OwnRotation(c, limit, states, steps, i, t);
    case PushSealed => OwnRotation(c, limit, states, steps, i, t);
    case _ => OwnRest(c, limit, states, steps, i, t);
  }

  lemma {:induction false} RunOwn(c: RecordCodec, limit: nat, id: nat, states: seq<State>, steps: seq<Step>,
                                  i: nat, t: nat)
    requires Lawful(c) && IsRun(c, limit, id, states, steps) && i < |states|
    ensures Own(c, states, steps, i, t, PcOf(states[i], t))
  {
    if i > 0 {
      RunOwn(c, limit, id, states, steps, i - 1, t);
      RunInv(c, limit, id, states, steps, i - 1);
      if steps[i - 1].thread == t {
        OwnStep(c, limit, states, steps, i - 1, t);
      } else {
        OtherPcs(c, limit, states[i - 1], steps[i - 1], t);
        OthersDoNotMatter(c, states, steps, i - 1, t, PcOf(states[i - 1], t));
      }
    }
  }

  // ---- linearizability ----

  /** In every interleaving, a get returns what the plain map held for its key at the moment of its index search,
      which lies inside the call. A get that found a pointer therefore never comes back empty, or with a record that
      was not the key's. */
  lemma GetsAreLinearizable(c: RecordCodec, limit: nat, id: nat, states: seq<State>, steps: seq<Step>, i: nat, t: nat)
    requires Lawful(c) && IsRun(c, limit, id, states, steps) && i < |states|
    requires PcOf(states[i], t).GetDone?
    ensures var pc := PcOf(states[i], t);
      && pc.since < i && steps[pc.since] == Step(t, BeginGet(pc.key)) && SameCall(steps, pc.since, i, t)
      && |states[pc.since].past| > 0 && pc.result == Lookup(Model(states[pc.since]), pc.key)
  {
    RunInv(c, limit, id, states, steps, i);
    RunOwn(c, limit, id, states, steps, i, t);
    assert PcInv(c, states[i], PcOf(states[i], t));
    PastIsPast(c, limit, id, states, steps, i, PcOf(states[i], t).since);
  }

  /** The index search of a get finds a pointer exactly when the plain map has the key. */
  lemma SearchMeansPresent(c: RecordCodec, limit: nat, id: nat, states: seq<State>, steps: seq<Step>, i: nat, key: nat)
    requires Lawful(c) && IsRun(c, limit, id, states, steps) && i < |states|
    ensures |states[i].past| > 0 && (key in states[i].index <==> key in Model(states[i]))
  {
    RunInv(c, limit, id, states, steps, i);
  }

  /** An upsert that succeeded has published exactly once since it began, and that step put its record, with the
      transaction id it drew at the start, into the plain map. */
  lemma UpsertsAreLinearizable(c: RecordCodec, limit: nat, id: nat, states: seq<State>, steps: seq<Step>,
                               i: nat, t: nat)
    requires Lawful(c) && IsRun(c, limit, id, states, steps) && i < |states|
    requires PcOf(states[i], t).UpsertOk?
    ensures var pc := PcOf(states[i], t);
      && Upserts(states, steps, i, t, pc.record, pc.since) && pc.since < pc.publish < i
      && (forall k :: pc.since <= k < i ==> (steps[k] == Step(t, Publish) <==> k == pc.publish))
      && |states[pc.publish].past| > 0 && |states[pc.publish + 1].past| > 0
      && Model(states[pc.publish + 1]) == Model(states[pc.publish])[pc.record.connId := pc.record]
  {
    var pc := PcOf(states[i], t);
    RunInv(c, limit, id, states, steps, i);
    RunOwn(c, limit, id, states, steps, i, t);
    assert PcInv(c, states[i], pc);
    PastIsPast(c, limit, id, states, steps, i, pc.publish);
    PastIsPast(c, limit, id, states, steps, i, pc.publish + 1);
  }

  /** A removal takes its key out of the plain map and nothing else; no other step but a publication changes it. */
  lemma MapChangesOnlyBy(c: RecordCodec, limit: nat, id: nat, states: seq<State>, steps: seq<Step>, i: nat, key: nat)
    requires Lawful(c) && IsRun(c, limit, id, states, steps) && i < |steps|
    ensures |states[i].past| > 0 && |states[i + 1].past| > 0
    ensures steps[i].action == Remove(key) ==> key !in Model(states[i + 1]) && key !in states[i + 1].index
    ensures steps[i].action != Remove(key) && !steps[i].action.Publish? ==>
      Lookup(Model(states[i + 1]), key) == Lookup(Model(states[i]), key)
  {
    RunInv(c, limit, id, states, steps, i);
    RunInv(c, limit, id, states, steps, i + 1);
    StepIndexSame(c, limit, states[i], steps[i]);
  }

  // ---- transaction ids ----

  lemma {:induction false} TxidsGrow(c: RecordCodec, limit: nat, id: nat, states: seq<State>, steps: seq<Step>,
                                     i: nat, j: nat)
    requires IsRun(c, limit, id, states, steps) && i < j < |states|
    ensures states[i].txid + (if steps[i].action.BeginUpsert? then 1 else 0) <= states[j].txid
  {
    assert states[j] == Apply(c, limit, states[j - 1], steps[j - 1]);
    if i < j - 1 {
      TxidsGrow(c, limit, id, states, steps, i, j - 1);
    }
  }

  /** The transaction ids of a run are 1, 2, 3 and so on, in the order in which upserts begin. */
  function Begun(steps: seq<Step>): nat {
    if |steps| == 0 then 0 else Begun(Front(steps)) + if Last(steps).action.BeginUpsert? then 1 else 0
  }

  lemma {:induction false} TxidCountsUpserts(c: RecordCodec, limit: nat, id: nat, states: seq<State>,
                                             steps: seq<Step>, i: nat)
    requires IsRun(c, limit, id, states, steps) && i < |states|
    ensures states[i].txid == 1 + Begun(steps[..i])
  {
    if i > 0 {
      TxidCountsUpserts(c, limit, id, states, steps, i - 1);
      assert Front(steps[..i]) == steps[..i - 1] && states[i] == Apply(c, limit, states[i - 1], steps[i - 1]);
    }
  }

  /** Of two successful upserts, the one that publishes later has the smaller transaction id exactly when its call
      began first, which takes two calls that overlap. With one key it is then the older record that stays. */
  lemma OlderStaysExactly(c: RecordCodec, limit: nat, id: nat, states: seq<State>, steps: seq<Step>,
                          i: nat, t: nat, j: nat, u: nat)
    requires Lawful(c) && IsRun(c, limit, id, states, steps) && i < |states| && j < |states|
    requires PcOf(states[i], t).UpsertOk? && PcOf(states[j], u).UpsertOk?
    requires PcOf(states[i], t).publish < PcOf(states[j], u).publish
    ensures var first, last := PcOf(states[i], t), PcOf(states[j], u);
      last.record.txid < first.record.txid <==> last.since < first.since
  {
    var first, last := PcOf(states[i], t), PcOf(states[j], u);
    RunOwn(c, limit, id, states, steps, i, t);
    RunOwn(c, limit, id, states, steps, j, u);
    if last.since < first.since {
      TxidsGrow(c, limit, id, states, steps, last.since, first.since);
    } else if first.since < last.since {
      TxidsGrow(c, limit, id, states, steps, first.since, last.since);
    }
  }

  // ---- when an upsert fails ----

  /** The record has an encoding, and it fits after what the segment already holds. */
  predicate HasRoom(c: RecordCodec, limit: nat, used: nat, r: ConnRecord) {
    c.encode(r).Some? && used + |c.encode(r).value| <= limit
  }

  /** The active segment is open and has the configured size. */
  predicate ActiveOpen(limit: nat, s: State) {
    !s.active.isSealed && s.active.sizeLimit == limit
  }

  /** Every segment taken out of the active slot is closed. */
  ghost predicate OthersSealed(s: State) {
    && (forall i :: 0 <= i < |s.sealed| ==> s.sealed[i].isSealed)
    && (forall t: nat :: PcOf(s, t).Swapped? ==> PcOf(s, t).oldSegment.isSealed)
  }

  lemma {:induction false} RunSealed(c: RecordCodec, limit: nat, id: nat, states: seq<State>, steps: seq<Step>, i: nat)
    requires IsRun(c, limit, id, states, steps) && i < |states|
    ensures OthersSealed(states[i])
  {
    if i > 0 {
      RunSealed(c, limit, id, states, steps, i - 1);
      StepSealed(c, limit, states[i - 1], steps[i - 1]);
    }
  }

  lemma StepSealed(c: RecordCodec, limit: nat, s: State, step: Step)
    requires |s.past| > 0 && Enabled(s, step) && OthersSealed(s)
    ensures OthersSealed(Apply(c, limit, s, step))
  {
    forall t: nat | t != step.thread
      ensures PcOf(Apply(c, limit, s, step), t) == PcOf(s, t)
    {
      OtherPcs(c, limit, s, step, t);
    }
  }

  lemma StepOpen(c: RecordCodec, limit: nat, s: State, step: Step)
    requires |s.past| > 0 && Enabled(s, step) && ActiveOpen(limit, s)
    ensures ActiveOpen(limit, Apply(c, limit, s, step))
  {}

  lemma {:induction false} RunOpen(c: RecordCodec, limit: nat, id: nat, states: seq<State>, steps: seq<Step>, i: nat)
    requires IsRun(c, limit, id, states, steps) && i < |states|
    ensures ActiveOpen(limit, states[i])
  {
    if i > 0 {
      RunOpen(c, limit, id, states, steps, i - 1);
      StepOpen(c, limit, states[i - 1], steps[i - 1]);
    }
  }

  /** An attempt to append fails exactly when the active segment has no room at that moment; the first failure leads
      to a rotation, the second to the error. */
  lemma AttemptFailsExactly(c: RecordCodec, limit: nat, id: nat, states: seq<State>, steps: seq<Step>, i: nat)
    requires IsRun(c, limit, id, states, steps) && i < |steps|
    requires steps[i].action.FirstAppend? || steps[i].action.SecondAppend?
    ensures var t := steps[i].thread;
      var before, after := PcOf(states[i], t), PcOf(states[i + 1], t);
      && (before.Upserting? || before.Retrying?)
      && if HasRoom(c, limit, |states[i].active.data|, before.record) then after.Publishing?
         else if before.Upserting? then after.Full? else after.SegmentFull?
  {
    RunOpen(c, limit, id, states, steps, i);
  }

  /** This step appends a record to the active segment. */
  predicate Appends(states: seq<State>, steps: seq<Step>, k: nat)
    requires k < |steps| < |states|
  {
    (steps[k].action.FirstAppend? || steps[k].action.SecondAppend?) && PcOf(states[k + 1], steps[k].thread).Publishing?
  }

  lemma OnlyAppendsFill(c: RecordCodec, limit: nat, id: nat, states: seq<State>, steps: seq<Step>, k: nat)
    requires IsRun(c, limit, id, states, steps) && k < |steps| && !Appends(states, steps, k)
    ensures |states[k + 1].active.data| <= |states[k].active.data|
  {}

  /** A segment that was empty and is not any more was appended to. */
  lemma {:induction false} FilledBySomeone(c: RecordCodec, limit: nat, id: nat, states: seq<State>, steps: seq<Step>,
                                           i: nat, j: nat) returns (k: nat)
    requires IsRun(c, limit, id, states, steps) && i <= j < |states|
    requires states[i].active.data == [] && states[j].active.data != []
    ensures i <= k < j && Appends(states, steps, k)
  {
    if Appends(states, steps, j - 1) {
      k := j - 1;
    } else {
      OnlyAppendsFill(c, limit, id, states, steps, j - 1);
      assert states[j - 1].active.data != [];
      k := FilledBySomeone(c, limit, id, states, steps, i, j - 1);
    }
  }

  /** An upsert that failed has published nothing since it began; its second attempt found no room in the active
      segment. If its record fits an empty segment, another thread has filled the segment it had just put in place. */
  lemma FailedUpsert(c: RecordCodec, limit: nat, id: nat, states: seq<State>, steps: seq<Step>, i: nat, t: nat)
    requires Lawful(c) && IsRun(c, limit, id, states, steps) && i < |states|
    requires PcOf(states[i], t).SegmentFull?
    ensures var pc := PcOf(states[i], t);
      && Upserts(states, steps, i, t, pc.record, pc.since) && NoPublish(steps, pc.since, i, t)
      && pc.since < pc.swap < pc.retry < i
      && steps[pc.swap] == Step(t, Swap) && steps[pc.retry] == Step(t, SecondAppend)
      && !HasRoom(c, limit, |states[pc.retry].active.data|, pc.record)
      && (HasRoom(c, limit, 0, pc.record) ==>
            exists k :: pc.swap < k < pc.retry && Appends(states, steps, k) && steps[k].thread != t)
  {
    var pc := PcOf(states[i], t);
    RunOwn(c, limit, id, states, steps, i, t);
    RunOpen(c, limit, id, states, steps, pc.retry);
    if HasRoom(c, limit, 0, pc.record) {
      assert states[pc.swap + 1].active.data == [];
      var k := FilledBySomeone(c, limit, id, states, steps, pc.swap + 1, pc.retry);
      assert steps[k].thread != t;
    }
  }

  // ---- every call in progress can be finished ----

  /** The next action of a call in progress. */
  function Waiting(pc: Pc): Action
    requires !pc.Idle?
  {
    match pc
    case Upserting(_, _) => FirstAppend
    case Publishing(_, _, _) => Publish
    case Full(_, _) => TakeActive
    case Rotating(_, _) => Swap
    case Swapped(_, _, _, _) => PushSealed
    case Retrying(_, _, _) => SecondAppend
    case Found(_, _, _) => CheckActive
    case NotActive(_, _, _) => ScanTheSealed
    case _ => Return
  }

  /** A call is in progress and its next step is possible now. */
  predicate CanStep(s: State, t: nat) {
    !PcOf(s, t).Idle? && Enabled(s, Step(t, Waiting(PcOf(s, t))))
  }

  /** The holder of the lock that a call needs for its next step. */
  function Awaited(s: State, pc: Pc): Option<nat> {
    if pc.Rotating? || pc.NotActive? then s.sealedLock else s.activeLock
  }

  lemma StepOrHolder(c: RecordCodec, s: State, t: nat)
    requires Inv(c, s) && !PcOf(s, t).Idle?
    ensures CanStep(s, t) ||
      var u := Awaited(s, PcOf(s, t)); u.Some? && u == s.activeLock && u.value != t && CanStep(s, u.value)
  {
    SealedTable(s);
    if !CanStep(s, t) {
      assert s.sealedLock.Some? ==> HoldsActiveLock(PcOf(s, s.sealedLock.value));
      assert s.activeLock.Some?;
      assert HoldsActiveLock(PcOf(s, s.activeLock.value));
    }
  }

  /** No deadlock: in every state of every run, a call in progress can take its next step, or the thread that holds
      the lock it needs can. */
  lemma NoDeadlock(c: RecordCodec, limit: nat, id: nat, states: seq<State>, steps: seq<Step>, i: nat, t: nat)
    requires Lawful(c) && IsRun(c, limit, id, states, steps) && i < |states|
    requires !PcOf(states[i], t).Idle?
    ensures CanStep(states[i], t) ||
      var u := Awaited(states[i], PcOf(states[i], t)); u.Some? && u.value != t && CanStep(states[i], u.value)
  {
    RunInv(c, limit, id, states, steps, i);
    StepOrHolder(c, states[i], t);
  }

  /** How many steps a call has left at most. */
  function StepsLeft(pc: Pc): nat {
    match pc
    case Idle => 0
    case Upserting(_, _) => 7
    case Full(_, _) => 6
    case Rotating(_, _) => 5
    case Swapped(_, _, _, _) => 4
    case Retrying(_, _, _) => 3
    case Publishing(_, _, _) => 2
    case Found(_, _, _) => 3
    case NotActive(_, _, _) => 2
    case _ => 1
  }

  /** How many steps the holder of the active lock has left, if that is another thread. */
  function HolderLeft(s: State, t: nat): nat {
    if s.activeLock.Some? && s.activeLock.value != t then StepsLeft(PcOf(s, s.activeLock.value)) else 0
  }

  lemma StepsRunOut(c: RecordCodec, limit: nat, s: State, t: nat)
    requires |s.past| > 0 && CanStep(s, t)
    ensures StepsLeft(PcOf(Apply(c, limit, s, Step(t, Waiting(PcOf(s, t)))), t)) < StepsLeft(PcOf(s, t))
  {}

  /** Either step brings the call nearer to its end. */
  lemma Nearer(c: RecordCodec, limit: nat, s: State, t: nat, u: nat)
    requires Inv(c, s) && CanStep(s, u) && (u == t || s.activeLock == Some(u))
    ensures var s' := Apply(c, limit, s, Step(u, Waiting(PcOf(s, u))));
      StepsLeft(PcOf(s', t)) + HolderLeft(s', t) < StepsLeft(PcOf(s, t)) + HolderLeft(s, t)
  {
    var step := Step(u, Waiting(PcOf(s, u)));
    StepsRunOut(c, limit, s, u);
    if u == t {
      if s.activeLock.Some? && s.activeLock.value != t {
        OtherPcs(c, limit, s, step, s.activeLock.value);
      }
    } else {
      OtherPcs(c, limit, s, step, t);
    }
  }

  /** From every state, some further steps finish a call that is in progress: steps of its own and, before that, steps
      of the thread it waits for. */
  lemma {:induction false} CanFinish(c: RecordCodec, limit: nat, s: State, t: nat) returns (more: seq<Step>)
    requires Lawful(c) && Inv(c, s)
    ensures Follow(c, limit, s, more).Some? && PcOf(Follow(c, limit, s, more).value, t).Idle?
    ensures |more| <= StepsLeft(PcOf(s, t)) + HolderLeft(s, t)
    decreases StepsLeft(PcOf(s, t)) + HolderLeft(s, t)
  {
    if PcOf(s, t).Idle? {
      more := [];
    } else {
      StepOrHolder(c, s, t);
      var u := if CanStep(s, t) then t else s.activeLock.value;
      var step := Step(u, Waiting(PcOf(s, u)));
      Nearer(c, limit, s, t, u);
      StepInv(c, limit, s, step);
      more := CanFinish(c, limit, Apply(c, limit, s, step), t);
      FollowOne(c, limit, s, step, more);
      more := [step] + more;
    }
  }

  /** In every state of every run, every call in progress can be finished within twelve steps. */
  lemma CallsCanFinish(c: RecordCodec, limit: nat, id: nat, states: seq<State>, steps: seq<Step>, i: nat, t: nat)
    returns (more: seq<Step>)
    requires Lawful(c) && IsRun(c, limit, id, states, steps) && i < |states|
    ensures |more| <= 12
    ensures Follow(c, limit, states[i], more).Some? && PcOf(Follow(c, limit, states[i], more).value, t).Idle?
  {
    RunInv(c, limit, id, states, steps, i);
    assert HolderLeft(states[i], t) <= 5 by {
      assert forall u: nat :: HoldsActiveLock(PcOf(states[i], u)) <==> states[i].activeLock == Some(u);
    }
    more := CanFinish(c, limit, states[i], t);
  }

  // ---- a record that fits can still be refused ----

  const SOME_META := ConnMeta([], 0, 0, 0, [])

  function SomeRecord(txid: nat): ConnRecord {
    ConnRecord(0, SOME_META, 0, 0, 1, txid)
  }

  /** Encodes a few records, each as one byte. */
  function OneByteCodec(): RecordCodec {
    Codec(
      (r: ConnRecord) => if r == SomeRecord(r.txid) && r.txid < 256 then Some([r.txid as Byte]) else None,
      (s: Bytes) => if |s| == 1 then Some(SomeRecord(s[0] as nat)) else None)
  }

  lemma OneByteLawful()
    ensures Lawful(OneByteCodec())
  {}

  lemma Extend(c: RecordCodec, limit: nat, id: nat, states: seq<State>, steps: seq<Step>, step: Step)
    returns (states': seq<State>, steps': seq<Step>)
    requires IsRun(c, limit, id, states, steps) && |Last(states).past| > 0 && Enabled(Last(states), step)
    ensures IsRun(c, limit, id, states', steps') && Last(states') == Apply(c, limit, Last(states), step)
  {
    states', steps' := states + [Apply(c, limit, Last(states), step)], steps + [step];
  }

  /** A run in one-byte segments has come to a state with no lock held and so many bytes in the active segment. */
  ghost predicate Reached(states: seq<State>, steps: seq<Step>, used: nat, txid: nat) {
    && IsRun(OneByteCodec(), 1, 0, states, steps)
    && (var s := Last(states);
        && |s.past| > 0 && s.activeLock.None? && s.sealedLock.None? && s.txid == txid
        && ActiveOpen(1, s) && |s.active.data| == used)
  }

  /** A whole upsert that finds the segment empty. */
  lemma Fill(states: seq<State>, steps: seq<Step>, t: nat, txid: nat)
    returns (states': seq<State>, steps': seq<Step>)
    requires Reached(states, steps, 0, txid) && txid < 256 && PcOf(Last(states), t).Idle?
    ensures Reached(states', steps', 1, txid + 1)
    ensures forall u: nat :: u != t ==> PcOf(Last(states'), u) == PcOf(Last(states), u)
  {
    states', steps' := Extend(OneByteCodec(), 1, 0, states, steps, Step(t, BeginUpsert(0, SOME_META, 0)));
    assert PcOf(Last(states'), t).record == SomeRecord(txid);
    states', steps' := Extend(OneByteCodec(), 1, 0, states', steps', Step(t, FirstAppend));
    states', steps' := Extend(OneByteCodec(), 1, 0, states', steps', Step(t, Publish));
  }

  /** An upsert that finds the segment full, up to its second attempt. */
  lemma Displace(states: seq<State>, steps: seq<Step>, t: nat, txid: nat)
    returns (states': seq<State>, steps': seq<Step>)
    requires Reached(states, steps, 1, txid) && txid < 256 && PcOf(Last(states), t).Idle?
    ensures Reached(states', steps', 0, txid + 1)
    ensures PcOf(Last(states'), t).Retrying? && PcOf(Last(states'), t).record == SomeRecord(txid)
    ensures forall u: nat :: u != t ==> PcOf(Last(states'), u) == PcOf(Last(states), u)
  {
    states', steps' := Extend(OneByteCodec(), 1, 0, states, steps, Step(t, BeginUpsert(0, SOME_META, 0)));
    assert PcOf(Last(states'), t).record == SomeRecord(txid);
    states', steps' := Extend(OneByteCodec(), 1, 0, states', steps', Step(t, FirstAppend));
    states', steps' := Extend(OneByteCodec(), 1, 0, states', steps', Step(t, TakeActive));
    states', steps' := Extend(OneByteCodec(), 1, 0, states', steps', Step(t, Swap));
    states', steps' := Extend(OneByteCodec(), 1, 0, states', steps', Step(t, PushSealed));
  }

  /** A run in which an upsert of a record that fits an empty segment ends in the error: between its rotation and its
      second attempt another thread fills the new segment. */
  lemma FittingRecordRefused() returns (states: seq<State>, steps: seq<Step>)
    ensures Lawful(OneByteCodec()) && IsRun(OneByteCodec(), 1, 0, states, steps)
    ensures var pc := PcOf(Last(states), 1); pc.SegmentFull? && HasRoom(OneByteCodec(), 1, 0, pc.record)
  {
    OneByteLawful();
    states, steps := [Initial(1, 0)], [];
    states, steps := Fill(states, steps, 0, 1);
    states, steps := Displace(states, steps, 1, 2);
    states, steps := Fill(states, steps, 2, 3);
    states, steps := Extend(OneByteCodec(), 1, 0, states, steps, Step(1, SecondAppend));
  }

  /** The lock is free and the active segment, of two bytes, has so many in use. */
  predicate Open(s: State, used: nat) {
    |s.past| > 0 && s.activeLock.None? && ActiveOpen(2, s) && |s.active.data| == used
  }

  /** The rest of an upsert that has room. */
  lemma Store(states: seq<State>, steps: seq<Step>, t: nat, txid: nat, used: nat)
    returns (states': seq<State>, steps': seq<Step>)
    requires IsRun(OneByteCodec(), 2, 0, states, steps) && Open(Last(states), used) && used < 2 && txid < 256
    requires PcOf(Last(states), t).Upserting? && PcOf(Last(states), t).record == SomeRecord(txid)
    ensures IsRun(OneByteCodec(), 2, 0, states', steps') && Open(Last(states'), used + 1)
    ensures Model(Last(states')) == Model(Last(states))[0 := SomeRecord(txid)]
    ensures PcOf(Last(states'), t).UpsertOk? && PcOf(Last(states'), t).record == SomeRecord(txid)
    ensures forall u: nat :: u != t ==> PcOf(Last(states'), u) == PcOf(Last(states), u)
  {
    states', steps' := Extend(OneByteCodec(), 2, 0, states, steps, Step(t, FirstAppend));
    states', steps' := Extend(OneByteCodec(), 2, 0, states', steps', Step(t, Publish));
  }

  /** A run in which the record with the smaller transaction id stays: the first call publishes after the second. */
  lemma OlderRecordStays() returns (states: seq<State>, steps: seq<Step>)
    ensures Lawful(OneByteCodec()) && IsRun(OneByteCodec(), 2, 0, states, steps)
    ensures var s := Last(states);
      && |s.past| > 0 && Model(s) == map[0 := SomeRecord(1)]
      && PcOf(s, 1).UpsertOk? && PcOf(s, 1).record == SomeRecord(2)
  {
    OneByteLawful();
    var begin := BeginUpsert(0, SOME_META, 0);
    states, steps := [Initial(2, 0)], [];
    states, steps := Extend(OneByteCodec(), 2, 0, states, steps, Step(0, begin));
    states, steps := Extend(OneByteCodec(), 2, 0, states, steps, Step(1, begin));
    assert Model(Last(states)) == map[] && Open(Last(states), 0);
    states, steps := Store(states, steps, 1, 2, 0);
    states, steps := Store(states, steps, 0, 1, 1);
  }
}
