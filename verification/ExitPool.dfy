/** The pool of exit nodes: round-robin within a group, passing over nodes that are down or do not answer. */
module ExitPool {
  import opened Base

  /** What happens when a packet is posted to a node. Only a failed send marks the node unhealthy. */
  datatype Answer = Delivered | SendFailed | HttpError | NotSerializable

  datatype Failure = NoGroup | NoClients | AllFailed

  datatype Outcome = Via(client: nat) | Failed(failure: Failure)

  // ---- the attempt loop ----

  /** The slot tried at an attempt. */
  function Slot(start: nat, attempt: nat, n: nat): (slot: nat)
    requires n > 0
    ensures slot < n
  {
    (start + attempt) % n
  }

  /** The health flags and the outcome of the attempts from a given one on. */
  function Attempts(healthy: seq<bool>, answers: nat -> Answer, start: nat, attempt: nat): (seq<bool>, Outcome)
    requires attempt <= |healthy|
    decreases |healthy| - attempt
  {
    if attempt == |healthy| then (healthy, Failed(AllFailed))
    else
      var i := Slot(start, attempt, |healthy|);
      if !healthy[i] then Attempts(healthy, answers, start, attempt + 1)
      else match answers(i)
        case Delivered => (healthy, Via(i))
        case SendFailed => Attempts(healthy[i := false], answers, start, attempt + 1)
        case _ => Attempts(healthy, answers, start, attempt + 1)
  }

  /** A group of clients: their health flags and the counter that start slots are drawn from. */
  datatype Group = Group(healthy: seq<bool>, counter: nat)

  /** One forward through a group: draws a start slot and tries the clients from there. */
  function Forwarded(g: Group, answers: nat -> Answer): (Group, Outcome) {
    if |g.healthy| == 0 then (g, Failed(NoClients))
    else
      var (healthy, r) := Attempts(g.healthy, answers, g.counter % |g.healthy|, 0);
      (Group(healthy, NextCounter(g.counter)), r)
  }

  /** The health flags after a check of every client. */
  function Checked(n: nat, up: nat -> bool): (h: seq<bool>)
    ensures |h| == n
  {
    seq(n, i requires 0 <= i < n => up(i))
  }

  function CountHealthy(healthy: seq<bool>): nat {
    if |healthy| == 0 then 0 else CountHealthy(Front(healthy)) + if Last(healthy) then 1 else 0
  }

  /** The count is the number of healthy clients. */
  lemma {:induction false} CountIsNumber(healthy: seq<bool>)
    ensures CountHealthy(healthy) == |set i | 0 <= i < |healthy| && healthy[i]|
  {
    var all := set i | 0 <= i < |healthy| && healthy[i];
    if |healthy| == 0 {
      assert all == {};
    } else {
      var n, front := |healthy| - 1, Front(healthy);
      CountIsNumber(front);
      var before := set i | 0 <= i < |front| && front[i];
      assert all == if healthy[n] then before + {n} else before;
    }
  }

  class ExitClient {
    var healthy: bool

    constructor ()
      ensures healthy
    {
      healthy := true;
    }

    method Forward(answer: Answer) returns (ok: bool)
      modifies this
      ensures ok <==> old(healthy) && answer.Delivered?
      ensures healthy == (old(healthy) && !answer.SendFailed?)
    {
      if !healthy {
        return false;
      }
      if answer.SendFailed? {
        healthy := false;
      }
      ok := answer.Delivered?;
    }

    method HealthCheck(up: bool) returns (r: bool)
      modifies this
      ensures healthy == r == up
    {
      healthy := up;
      r := up;
    }
  }

  class GroupPool {
    var clients: seq<ExitClient>
    var nextIndex: nat

    ghost predicate Valid()
      reads this
    {
      nextIndex < TWO_64 && forall i, j :: 0 <= i < j < |clients| ==> clients[i] != clients[j]
    }

    ghost function State(): Group
      reads this, clients
    {
      Group(Health(), nextIndex)
    }

    ghost function Health(): (h: seq<bool>)
      reads this, clients
      ensures |h| == |clients| && forall i :: 0 <= i < |h| ==> h[i] == clients[i].healthy
    {
      seq(|clients|, i requires 0 <= i < |clients| reads this, clients => clients[i].healthy)
    }

    constructor ()
      ensures Valid() && clients == [] && nextIndex == 0
    {
      clients, nextIndex := [], 0;
    }

    method Add(client: ExitClient)
      requires Valid() && client !in clients
      modifies this`clients
      ensures Valid() && clients == old(clients) + [client]
    {
      clients := clients + [client];
    }

    method TryClient(index: nat, answer: Answer) returns (ok: bool)
      requires Valid() && index < |clients|
      modifies clients
      ensures ok <==> old(clients[index].healthy) && answer.Delivered?
      ensures Health() == AfterTry(old(Health()), index, answer)
    {
      ok := false;
      if clients[index].healthy {
        ok := clients[index].Forward(answer);
      }
      assert Health() == AfterTry(old(Health()), index, answer);
    }

    /** Tries each client once, in cyclic order from a slot. */
    method TryAll(start: nat, answers: nat -> Answer) returns (r: Outcome)
      requires Valid() && |clients| > 0
      modifies clients
      ensures (Health(), r) == Attempts(old(Health()), answers, start, 0)
    {
      var n := |clients|;
      var attempts := 0;
      while attempts < n
        invariant 0 <= attempts <= n
        invariant Attempts(old(Health()), answers, start, 0) == Attempts(Health(), answers, start, attempts)
      {
        var index := Slot(start, attempts, n);
        ghost var before := Health();
        var ok := TryClient(index, answers(index));
        OneAttempt(before, answers, start, attempts);
        if ok {
          assert Health() == before;
          return Via(index);
        }
        attempts := attempts + 1;
      }
      r := Failed(AllFailed);
    }

    /** Draws a start slot from the wrapping counter and tries the clients from there. */
    method Forward(answers: nat -> Answer) returns (r: Outcome)
      requires Valid()
      modifies this`nextIndex, clients
      ensures Valid()
      ensures (State(), r) == Forwarded(old(State()), answers)
    {
      if |clients| == 0 {
        return Failed(NoClients);
      }
      var start := nextIndex % |clients|;
      nextIndex := NextCounter(nextIndex);
      assert Health() == old(Health());
      r := TryAll(start, answers);
    }

    /** Checks every client of the group and counts those that are up. */
    method CheckAll(up: nat -> bool) returns (healthyCount: nat, totalCount: nat)
      requires Valid()
      modifies clients
      ensures Health() == Checked(|clients|, up)
      ensures healthyCount == CountHealthy(Health()) && totalCount == |clients|
    {
      healthyCount, totalCount := 0, 0;
      for i := 0 to |clients|
        invariant totalCount == i
        invariant forall j :: 0 <= j < i ==> clients[j].healthy == up(j)
        invariant healthyCount == CountHealthy(Checked(|clients|, up)[..i])
      {
        assert Front(Checked(|clients|, up)[..i + 1]) == Checked(|clients|, up)[..i];
        var ok := clients[i].HealthCheck(up(i));
        if ok {
          healthyCount := healthyCount + 1;
        }
        totalCount := totalCount + 1;
      }
      assert Checked(|clients|, up)[..|clients|] == Checked(|clients|, up) == Health();
    }
  }

  /** The health flags after a client was tried. */
  function AfterTry(healthy: seq<bool>, i: nat, answer: Answer): (h: seq<bool>)
    requires i < |healthy|
    ensures |h| == |healthy|
  {
    if answer.SendFailed? then healthy[i := false] else healthy
  }

  lemma OneAttempt(healthy: seq<bool>, answers: nat -> Answer, start: nat, attempt: nat)
    requires attempt < |healthy|
    ensures var i := Slot(start, attempt, |healthy|);
      Attempts(healthy, answers, start, attempt) ==
        if Works(healthy, answers, i) then (healthy, Via(i))
        else Attempts(AfterTry(healthy, i, answers(i)), answers, start, attempt + 1)
  {
    var i := Slot(start, attempt, |healthy|);
    if !healthy[i] {
      assert healthy[i := false] == healthy;
    }
  }

  /** A 64-bit counter after a wrapping increment. */
  function NextCounter(counter: nat): nat {
    if counter + 1 == TWO_64 then 0 else counter + 1
  }

  /** The group that serves a request: the one asked for, or the default group 0. */
  function Chosen(groups: set<int>, groupId: int): Option<int> {
    if groupId in groups then Some(groupId) else if 0 in groups then Some(0) else None
  }

  class Pool {
    var groups: map<int, GroupPool>

    ghost predicate Valid()
      reads this, groups.Values
    {
      && (forall g :: g in groups ==> groups[g].Valid())
      && (forall g, g' :: g in groups && g' in groups && g != g' ==> groups[g] != groups[g'])
    }

    ghost function Clients(): set<ExitClient>
      reads this, groups.Values
    {
      set g, c | g in groups && c in groups[g].clients :: c
    }

    constructor ()
      ensures Valid() && groups == map[]
    {
      groups := map[];
    }

    /** Forwards through the chosen group; no other group's counter moves. */
    method Forward(groupId: int, answers: nat -> Answer) returns (r: Outcome)
      requires Valid()
      modifies groups.Values, Clients()
      ensures Valid() && groups == old(groups)
      ensures groupId !in groups && 0 !in groups ==> r == Failed(NoGroup)
      ensures forall g :: g in groups && (g == groupId || (g == 0 && groupId !in groups)) ==>
        var pool := groups[g];
        pool.clients == old(pool.clients) && (pool.State(), r) == Forwarded(old(pool.State()), answers)
      ensures forall g :: g in groups && g != groupId && (g != 0 || groupId in groups) ==> unchanged(groups[g])
    {
      var chosen := Chosen(groups.Keys, groupId);
      if chosen.None? {
        return Failed(NoGroup);
      }
      assert groups[chosen.value] in groups.Values;
      assert forall c :: c in groups[chosen.value].clients ==> c in Clients();
      r := groups[chosen.value].Forward(answers);
    }

    /** Adds a client at the end of a group, which is created if need be; counters stay as they are. */
    method AddNode(client: ExitClient, groupId: int)
      requires Valid() && forall g :: g in groups ==> client !in groups[g].clients
      modifies this, groups.Values
      ensures Valid() && groups.Keys == old(groups).Keys + {groupId}
      ensures groupId in old(groups) ==>
        && groups == old(groups)
        && groups[groupId].clients == old(groups[groupId].clients) + [client]
        && groups[groupId].nextIndex == old(groups[groupId].nextIndex)
      ensures groupId !in old(groups) ==> groups[groupId].clients == [client] && groups[groupId].nextIndex == 0
      ensures forall g :: g in old(groups) && g != groupId ==> groups[g] == old(groups)[g] && unchanged(old(groups)[g])
    {
      if groupId !in groups {
        var fresh' := new GroupPool();
        fresh'.Add(client);
        groups := groups[groupId := fresh'];
      } else {
        assert groups[groupId] in groups.Values;
        groups[groupId].Add(client);
      }
    }
  }

  // ---- which client gets the packet ----

  /** The client in a slot would take the packet. */
  predicate Works(healthy: seq<bool>, answers: nat -> Answer, i: nat)
    requires i < |healthy|
  {
    healthy[i] && answers(i).Delivered?
  }

  /** Numbers closer than n leave different remainders. */
  lemma RemaindersDiffer(a: nat, b: nat, n: nat)
    requires a < b < a + n
    ensures a % n != b % n
  {
    if a % n == b % n {
      QuotientDistributes(b / n, a / n, n);
      NoMultipleBetween(n, b / n - a / n);
    }
  }

  lemma QuotientDistributes(p: int, q: int, n: int)
    ensures n * p - n * q == n * (p - q)
  {}

  /** No multiple of n other than zero lies between -n and n. */
  lemma NoMultipleBetween(n: int, d: int)
    requires 0 - n < n * d < n
    ensures d == 0
  {
    assert n * d == -(n * -d);
    if d >= 1 {
      AtLeast(n, d);
    } else if d <= -1 {
      AtLeast(n, -d);
    }
  }

  lemma AtLeast(n: int, d: int)
    requires n > 0 && d >= 1
    ensures n * d >= n
  {
    assert n * d == n * (d - 1) + n;
  }

  /** The slots are tried in cyclic order, each at most once. */
  lemma EachOnce(start: nat, a: nat, b: nat, n: nat)
    requires a < b < n
    ensures Slot(start, a, n) != Slot(start, b, n)
  {
    RemaindersDiffer(start + a, start + b, n);
  }

  /** Client i is tried at an attempt in [from, upto). */
  ghost predicate TriedBetween(start: nat, n: nat, from: nat, upto: nat, i: nat)
    requires n > 0
  {
    exists a: nat :: from <= a < upto && Slot(start, a, n) == i
  }

  /** From an attempt on: the packet goes to the first client that works, and exactly the clients tried before that
      whose send failed are marked down. */
  lemma {:induction false} AttemptsExactly(healthy: seq<bool>, answers: nat -> Answer, start: nat, from: nat, k: nat)
    requires |healthy| > 0 && from <= k <= |healthy|
    requires forall a: nat :: from <= a < k ==> !Works(healthy, answers, Slot(start, a, |healthy|))
    requires k < |healthy| ==> Works(healthy, answers, Slot(start, k, |healthy|))
    ensures var (healthy', r) := Attempts(healthy, answers, start, from);
      && r == (if k < |healthy| then Via(Slot(start, k, |healthy|)) else Failed(AllFailed))
      && |healthy'| == |healthy|
      && (forall i: nat :: i < |healthy| ==>
            (healthy'[i] <==> healthy[i] && !(answers(i).SendFailed? && TriedBetween(start, |healthy|, from, k, i))))
    decreases k - from
  {
    var n := |healthy|;
    if from < k {
      var i := Slot(start, from, n);
      var next := AfterTry(healthy, i, answers(i));
      OneAttempt(healthy, answers, start, from);
      forall a: nat | from + 1 <= a < k
        ensures !Works(next, answers, Slot(start, a, n))
      {
        assert !Works(healthy, answers, Slot(start, a, n));
      }
      if k < n {
        EachOnce(start, from, k, n);
      }
      AttemptsExactly(next, answers, start, from + 1, k);
      forall j: nat | j < n
        ensures TriedBetween(start, n, from, k, j) <==> j == i || TriedBetween(start, n, from + 1, k, j)
      {
        assert Slot(start, from, n) == i;
      }
    }
  }

  /** The attempt at which the first working client is tried, or the number of clients. */
  lemma FirstWorking(healthy: seq<bool>, answers: nat -> Answer, start: nat) returns (k: nat)
    requires |healthy| > 0
    ensures k <= |healthy| && forall a: nat :: a < k ==> !Works(healthy, answers, Slot(start, a, |healthy|))
    ensures k < |healthy| ==> Works(healthy, answers, Slot(start, k, |healthy|))
  {
    k := 0;
    while k < |healthy| && !Works(healthy, answers, Slot(start, k, |healthy|))
      invariant k <= |healthy| && forall a: nat :: a < k ==> !Works(healthy, answers, Slot(start, a, |healthy|))
    {
      k := k + 1;
    }
  }

  /** A packet goes through the first client, in cyclic order from the start slot, that is healthy and answers; it
      fails exactly when there is none. */
  lemma ForwardExactly(healthy: seq<bool>, answers: nat -> Answer, start: nat)
    requires |healthy| > 0
    ensures var r := Attempts(healthy, answers, start, 0).1;
      && (r.Failed? <==> forall i: nat :: i < |healthy| ==> !Works(healthy, answers, i))
      && (r.Via? ==> exists k: nat ::
            && k < |healthy| && r.client == Slot(start, k, |healthy|) && Works(healthy, answers, r.client)
            && forall a: nat :: a < k ==> !Works(healthy, answers, Slot(start, a, |healthy|)))
  {
    var n := |healthy|;
    var k := FirstWorking(healthy, answers, start);
    AttemptsExactly(healthy, answers, start, 0, k);
    if k == n {
      forall i: nat | i < n
        ensures !Works(healthy, answers, i)
      {
        var a := AttemptOf(start, i, n);
      }
    } else {
      assert Works(healthy, answers, Slot(start, k, n));
    }
  }

  /** Every slot is reached by some attempt. */
  lemma AttemptOf(start: nat, i: nat, n: nat) returns (a: nat)
    requires i < n
    ensures a < n && Slot(start, a, n) == i
  {
    var r, q := start % n, start / n;
    assert start == n * q + r;
    if i >= r {
      a := i - r;
      ModOf(q, i, n);
    } else {
      a := i + n - r;
      ModOf(q + 1, i, n);
      assert n * (q + 1) == n * q + n;
    }
  }

  lemma ModOf(q: nat, r: nat, n: nat)
    requires r < n
    ensures (n * q + r) % n == r
  {
    var x := n * q + r;
    assert x == n * (x / n) + x % n;
    QuotientDistributes(x / n, q, n);
    NoMultipleBetween(n, x / n - q);
  }

  // ---- whole runs of a group ----

  /** What happens to a group: a forward, a round of health checks, or an answer to one client's request for its
      return stream. */
  datatype Event =
    | Forward(answers: nat -> Answer)
    | CheckAll(up: nat -> bool)
    | StreamOpened(client: nat)
    | StreamRefused(client: nat)

  function SetHealth(g: Group, i: nat, up: bool): Group {
    if i < |g.healthy| then g.(healthy := g.healthy[i := up]) else g
  }

  function After(g: Group, e: Event): Group {
    match e
    case Forward(answers) => Forwarded(g, answers).0
    case CheckAll(up) => g.(healthy := Checked(|g.healthy|, up))
    case StreamOpened(i) => SetHealth(g, i, true)
    case StreamRefused(i) => SetHealth(g, i, false)
  }

  function AfterAll(g: Group, events: seq<Event>): Group {
    if |events| == 0 then g else After(AfterAll(g, Front(events)), Last(events))
  }

  /** The event may mark the client healthy. */
  predicate Revives(e: Event, i: nat) {
    (e.CheckAll? && e.up(i)) || (e.StreamOpened? && e.client == i)
  }

  lemma AttemptsPassOver(healthy: seq<bool>, answers: nat -> Answer, start: nat, i: nat)
    requires i < |healthy| && !healthy[i]
    ensures var (healthy', r) := Attempts(healthy, answers, start, 0);
      |healthy'| == |healthy| && !healthy'[i] && r != Via(i)
  {
    var n := |healthy|;
    var k := FirstWorking(healthy, answers, start);
    AttemptsExactly(healthy, answers, start, 0, k);
    if k < n {
      assert Works(healthy, answers, Slot(start, k, n));
    }
  }

  lemma {:induction false} SizeStays(g: Group, events: seq<Event>)
    ensures |AfterAll(g, events).healthy| == |g.healthy|
  {
    if |events| > 0 {
      var before := AfterAll(g, Front(events));
      SizeStays(g, Front(events));
      if Last(events).Forward? && |before.healthy| > 0 {
        var start := before.counter % |before.healthy|;
        var k := FirstWorking(before.healthy, Last(events).answers, start);
        AttemptsExactly(before.healthy, Last(events).answers, start, 0, k);
      }
    }
  }

  lemma DownStep(g: Group, e: Event, i: nat)
    requires i < |g.healthy| && !g.healthy[i] && !Revives(e, i)
    ensures i < |After(g, e).healthy| && !After(g, e).healthy[i]
    ensures e.Forward? ==> Forwarded(g, e.answers).1 != Via(i)
  {
    if e.Forward? {
      AttemptsPassOver(g.healthy, e.answers, g.counter % |g.healthy|, i);
    }
  }

  /** A client that is down stays down, and no packet goes through it, until a health check finds it up or its stream
      opens again: nothing a forward does can bring it back. */
  lemma {:induction false} DownUntilRevived(g: Group, events: seq<Event>, i: nat)
    requires i < |g.healthy| && !g.healthy[i]
    requires forall k :: 0 <= k < |events| ==> !Revives(events[k], i)
    ensures i < |AfterAll(g, events).healthy| && !AfterAll(g, events).healthy[i]
    ensures forall k :: 0 <= k < |events| && events[k].Forward? ==>
      Forwarded(AfterAll(g, events[..k]), events[k].answers).1 != Via(i)
  {
    if |events| > 0 {
      DownUntilRevived(g, Front(events), i);
      DownStep(AfterAll(g, Front(events)), Last(events), i);
      forall k | 0 <= k < |events| && events[k].Forward?
        ensures Forwarded(AfterAll(g, events[..k]), events[k].answers).1 != Via(i)
      {
        if k < |events| - 1 {
          assert Front(events)[k] == events[k] && Front(events)[..k] == events[..k];
        }
      }
    }
  }

  /** Right after a round of checks, a packet goes through some client exactly when one that was found up answers. */
  lemma ForwardAfterCheck(g: Group, up: nat -> bool, answers: nat -> Answer)
    ensures Forwarded(After(g, CheckAll(up)), answers).1.Via? <==>
      exists i :: 0 <= i < |g.healthy| && up(i) && answers(i).Delivered?
  {
    var n, h := |g.healthy|, Checked(|g.healthy|, up);
    if n > 0 {
      ForwardExactly(h, answers, g.counter % n);
      if i :| 0 <= i < n && up(i) && answers(i).Delivered? {
        assert Works(h, answers, i);
      }
      if i: nat :| i < n && Works(h, answers, i) {
        assert up(i) && answers(i).Delivered?;
      }
    }
  }

  /** A client is up after a check that finds it up, or when its stream opens. */
  lemma UpWhenRevived(g: Group, e: Event, i: nat)
    requires i < |g.healthy| && Revives(e, i)
    ensures i < |After(g, e).healthy| && After(g, e).healthy[i]
  {}

  /** The event may mark the client down: a send to it fails, a check finds it down, or its stream is refused. */
  predicate Downs(e: Event, i: nat) {
    || (e.Forward? && e.answers(i).SendFailed?)
    || (e.CheckAll? && !e.up(i))
    || (e.StreamRefused? && e.client == i)
  }

  lemma UpStep(g: Group, e: Event, i: nat)
    requires i < |g.healthy| && g.healthy[i] && !Downs(e, i)
    ensures i < |After(g, e).healthy| && After(g, e).healthy[i]
  {
    if e.Forward? {
      var start := g.counter % |g.healthy|;
      var k := FirstWorking(g.healthy, e.answers, start);
      AttemptsExactly(g.healthy, e.answers, start, 0, k);
    }
  }

  /** A client that is up stays up until a send to it fails, a check finds it down, or its stream is refused. */
  lemma {:induction false} UpUntilDowned(g: Group, events: seq<Event>, i: nat)
    requires i < |g.healthy| && g.healthy[i]
    requires forall k :: 0 <= k < |events| ==> !Downs(events[k], i)
    ensures i < |AfterAll(g, events).healthy| && AfterAll(g, events).healthy[i]
  {
    if |events| > 0 {
      UpUntilDowned(g, Front(events), i);
      UpStep(AfterAll(g, Front(events)), Last(events), i);
    }
  }

  // ---- start slots ----

  /** The counter after some calls. */
  function CounterAfter(counter: nat, calls: nat): nat {
    if calls == 0 then counter else NextCounter(CounterAfter(counter, calls - 1))
  }

  /** Counting up with the wrap is adding modulo 2^64. */
  lemma {:induction false} CounterWraps(counter: u64, calls: nat)
    ensures CounterAfter(counter, calls) == (counter + calls) % TWO_64
  {
    if calls == 0 {
      SmallMod(counter, TWO_64);
    } else {
      CounterWraps(counter, calls - 1);
      NextIsModulo(counter + calls - 1);
    }
  }

  lemma NextIsModulo(x: nat)
    ensures NextCounter(x % TWO_64) == (x + 1) % TWO_64
  {
    var q, r := x / TWO_64, x % TWO_64;
    if r + 1 == TWO_64 {
      ModOf(q + 1, 0, TWO_64);
    } else {
      ModOf(q, r + 1, TWO_64);
    }
  }

  function Forwards(events: seq<Event>): nat {
    if |events| == 0 then 0 else Forwards(Front(events)) + if Last(events).Forward? then 1 else 0
  }

  /** In every run the counter has advanced once for each forward and for nothing else. */
  lemma {:induction false} CounterCountsForwards(g: Group, events: seq<Event>)
    requires |g.healthy| > 0
    ensures AfterAll(g, events).counter == CounterAfter(g.counter, Forwards(events))
  {
    if |events| > 0 {
      CounterCountsForwards(g, Front(events));
      SizeStays(g, Front(events));
    }
  }

  /** The start slot of the i-th call from now, with a counter that wraps at m. */
  function StartSlot(counter: nat, i: nat, n: nat, m: nat): nat
    requires n > 0 && m > 0
  {
    (counter + i) % m % n
  }

  ghost predicate StartsDiffer(counter: nat, n: nat, m: nat)
    requires n > 0 && m > 0
  {
    forall i, j :: 0 <= i < j < n ==> StartSlot(counter, i, n, m) != StartSlot(counter, j, n, m)
  }

  lemma WrapOnce(x: nat, m: nat)
    requires m > 0 && x < 2 * m
    ensures x % m == if x < m then x else x - m
  {
    if x >= m {
      ModOf(1, x - m, m);
    }
  }

  lemma DividedOut(x: nat, m: nat, n: nat)
    requires n > 0 && m % n == 0 && x >= m
    ensures (x - m) % n == x % n
  {
    var q, p := (x - m) / n, m / n;
    assert m == n * p;
    assert x - m == n * q + (x - m) % n;
    assert n * (q + p) == n * q + n * p;
    ModOf(q + p, (x - m) % n, n);
  }

  lemma StartsDifferUnlessWrapped(counter: nat, n: nat, m: nat)
    requires 0 < n <= m && counter < m && (counter + n <= m || m % n == 0)
    ensures StartsDiffer(counter, n, m)
  {
    forall i, j | 0 <= i < j < n
      ensures StartSlot(counter, i, n, m) != StartSlot(counter, j, n, m)
    {
      WrapOnce(counter + i, m);
      WrapOnce(counter + j, m);
      RemaindersDiffer(counter + i, counter + j, n);
      if counter + n > m {
        if counter + i >= m {
          DividedOut(counter + i, m, n);
        }
        if counter + j >= m {
          DividedOut(counter + j, m, n);
        }
      }
    }
  }

  /** The counter m - r starts at slot 0, and so does the counter 0 after the wrap. */
  lemma WrapRepeatsZero(counter: nat, n: nat, m: nat, r: nat, q: nat)
    requires 0 < n <= m && counter < m < counter + n && m == n * q + r && 0 < r <= m - counter
    ensures !StartsDiffer(counter, n, m)
  {
    var w := m - counter;
    WrapOnce(counter + (w - r), m);
    WrapOnce(counter + w, m);
    ModOf(q, 0, n);
    ModOf(0, 0, n);
    assert StartSlot(counter, w - r, n, m) == 0 == StartSlot(counter, w, n, m);
  }

  /** The counter m - w starts at slot r - w, and so does the counter r - w after the wrap. */
  lemma WrapRepeatsFirst(counter: nat, n: nat, m: nat, r: nat, q: nat)
    requires 0 < n <= m && counter < m < counter + n && m == n * q + r && m - counter < r < n
    ensures !StartsDiffer(counter, n, m)
  {
    var w := m - counter;
    WrapOnce(counter, m);
    WrapOnce(counter + r, m);
    ModOf(q, r - w, n);
    ModOf(0, r - w, n);
    assert counter == n * q + (r - w) && counter + r - m == r - w;
    assert StartSlot(counter, 0, n, m) == r - w == StartSlot(counter, r, n, m);
  }

  /** Where the wrap makes two calls start at the same slot. */
  lemma WrapRepeats(counter: nat, n: nat, m: nat)
    requires 0 < n <= m && counter < m && counter + n > m && m % n != 0
    ensures !StartsDiffer(counter, n, m)
  {
    var r, q := m % n, m / n;
    if r <= m - counter {
      WrapRepeatsZero(counter, n, m, r, q);
    } else {
      WrapRepeatsFirst(counter, n, m, r, q);
    }
  }

  /** The start slot of the i-th forward from now. */
  function CallStart(counter: nat, i: nat, n: nat): nat
    requires n > 0
  {
    CounterAfter(counter, i) % n
  }

  /** In every run a forward goes through the first working client, in cyclic order from the slot that the counter has
      come to, and fails exactly when none works. */
  lemma ForwardInRun(g: Group, events: seq<Event>, answers: nat -> Answer) returns (k: nat)
    requires |g.healthy| > 0
    ensures |AfterAll(g, events).healthy| == |g.healthy| && k <= |g.healthy|
    ensures var n, s := |g.healthy|, AfterAll(g, events);
      var start := CallStart(g.counter, Forwards(events), n);
      && (forall a: nat :: a < k ==> !Works(s.healthy, answers, Slot(start, a, n)))
      && (k < n ==> Works(s.healthy, answers, (start + k) % n))
      && Forwarded(s, answers).1 == if k < n then Via((start + k) % n) else Failed(AllFailed)
  {
    var n, s := |g.healthy|, AfterAll(g, events);
    SizeStays(g, events);
    CounterCountsForwards(g, events);
    k := FirstWorking(s.healthy, answers, s.counter % n);
    AttemptsExactly(s.healthy, answers, s.counter % n, 0, k);
  }

  lemma NoClientsNoChange(g: Group, answers: nat -> Answer)
    requires |g.healthy| == 0
    ensures Forwarded(g, answers) == (g, Failed(NoClients))
  {}

  /** n calls in a row on n clients start at n different slots exactly when the counter does not wrap among them, or
      n divides its range. */
  lemma StartsDifferExactly(counter: u64, n: nat)
    requires 0 < n <= TWO_64
    ensures (forall i, j :: 0 <= i < j < n ==> CallStart(counter, i, n) != CallStart(counter, j, n)) <==>
      counter + n <= TWO_64 || TWO_64 % n == 0
  {
    forall i | 0 <= i < n
      ensures CallStart(counter, i, n) == StartSlot(counter, i, n, TWO_64)
    {
      CounterWraps(counter, i);
    }
    if counter + n <= TWO_64 || TWO_64 % n == 0 {
      StartsDifferUnlessWrapped(counter, n, TWO_64);
    } else {
      WrapRepeats(counter, n, TWO_64);
    }
  }
}
