/** The replay cache: it remembers each accepted key for a fixed time. */
module ReplayCache {
  import opened Base

  /** A key's expiry is the time from which it may be accepted again. */
  function Checked<K(==)>(seen: map<K, nat>, ttl: nat, key: K, now: nat): (map<K, nat>, bool) {
    if key in seen && seen[key] > now then (seen, false) else (seen[key := now + ttl], true)
  }

  function Cleaned<K(==)>(seen: map<K, nat>, now: nat): map<K, nat> {
    map k | k in seen && seen[k] > now :: seen[k]
  }

  /** The caches of 32-byte nonces and of 16-byte token ids. */
  class Cache<K(==)> {
    var seen: map<K, nat>
    const ttl: nat

    constructor (ttl: nat)
      ensures seen == map[] && this.ttl == ttl
    {
      this.ttl := ttl;
      seen := map[];
    }

    method CheckAndInsert(key: K, now: nat) returns (isNew: bool)
      modifies this
      ensures (seen, isNew) == Checked(old(seen), ttl, key, now)
    {
      var expiry := now + ttl;
      if key in seen {
        if seen[key] > now {
          return false;
        }
      }
      seen := seen[key := expiry];
      isNew := true;
    }

    method Contains(key: K, now: nat) returns (r: bool)
      ensures r <==> !Checked(seen, ttl, key, now).1
    {
      r := key in seen && seen[key] > now;
    }

    method Cleanup(now: nat)
      modifies this
      ensures seen == Cleaned(old(seen), now)
    {
      seen := map k | k in seen && seen[k] > now :: seen[k];
    }

    method Clear()
      modifies this
      ensures seen == map[]
    {
      seen := map[];
    }
  }

  // ---- the cache agrees with the history of acceptances ----

  datatype Event<K> = Check(key: K, at: nat) | Cleanup(at: nat) | Clear

  function Run<K(==)>(ttl: nat, events: seq<Event<K>>): map<K, nat> {
    if |events| == 0 then map[]
    else
      var seen := Run(ttl, Front(events));
      match Last(events)
      case Check(key, at) => Checked(seen, ttl, key, at).0
      case Cleanup(at) => Cleaned(seen, at)
      case Clear => map[]
  }

  /** The cache's answers, in order. */
  function Verdicts<K(==)>(ttl: nat, events: seq<Event<K>>): seq<bool> {
    if |events| == 0 then []
    else
      Verdicts(ttl, Front(events)) +
      if Last(events).Check? then [Checked(Run(ttl, Front(events)), ttl, Last(events).key, Last(events).at).1] else []
  }

  /** The time of the latest event. */
  function Now<K>(events: seq<Event<K>>): nat {
    if |events| == 0 then 0 else if Last(events).Clear? then Now(Front(events)) else Last(events).at
  }

  predicate Ordered<K>(events: seq<Event<K>>) {
    |events| == 0 || (Ordered(Front(events)) && (Last(events).Clear? || Now(Front(events)) <= Last(events).at))
  }

  /** When a key was last accepted, by the rule that a key is accepted unless it was accepted less than one TTL ago.
      Cleanups play no part in it. */
  function LastAcceptance<K(==)>(ttl: nat, events: seq<Event<K>>, key: K): Option<nat> {
    if |events| == 0 then None
    else
      var before := LastAcceptance(ttl, Front(events), key);
      match Last(events)
      case Check(k, at) => if k == key && Acceptable(before, ttl, at) then Some(at) else before
      case Cleanup(_) => before
      case Clear => None
  }

  predicate Acceptable(lastAcceptance: Option<nat>, ttl: nat, now: nat) {
    lastAcceptance.None? || lastAcceptance.value + ttl <= now
  }

  /** What the cache stores for a key against its history: the expiry, or nothing once that has passed. */
  lemma {:induction false} StoresExpiry<K>(ttl: nat, events: seq<Event<K>>, key: K)
    requires Ordered(events)
    ensures var seen, before := Run(ttl, events), LastAcceptance(ttl, events, key);
      if key in seen then before.Some? && seen[key] == before.value + ttl
      else Acceptable(before, ttl, Now(events))
  {
    if |events| > 0 {
      StoresExpiry(ttl, Front(events), key);
    }
  }

  /** A key is accepted exactly when its last acceptance is at least one TTL old. */
  lemma AcceptedExactly<K>(ttl: nat, events: seq<Event<K>>, key: K, now: nat)
    requires Ordered(events) && Now(events) <= now
    ensures Checked(Run(ttl, events), ttl, key, now).1 <==> Acceptable(LastAcceptance(ttl, events, key), ttl, now)
  {
    StoresExpiry(ttl, events, key);
  }

  /** After a cleanup a key is still remembered exactly when it was accepted less than one TTL ago. */
  lemma RememberedExactly<K>(ttl: nat, events: seq<Event<K>>, key: K, now: nat)
    requires Ordered(events) && Now(events) <= now
    ensures key in Cleaned(Run(ttl, events), now) <==> !Acceptable(LastAcceptance(ttl, events, key), ttl, now)
  {
    StoresExpiry(ttl, events, key);
  }

  function WithoutCleanups<K>(events: seq<Event<K>>): seq<Event<K>> {
    if |events| == 0 then []
    else WithoutCleanups(Front(events)) + if Last(events).Cleanup? then [] else [Last(events)]
  }

  lemma WithoutCleanupsSplit<K>(events: seq<Event<K>>)
    requires |events| > 0
    ensures Last(events).Cleanup? ==> WithoutCleanups(events) == WithoutCleanups(Front(events))
    ensures !Last(events).Cleanup? ==> |WithoutCleanups(events)| > 0 && Last(WithoutCleanups(events)) == Last(events)
    ensures !Last(events).Cleanup? ==> Front(WithoutCleanups(events)) == WithoutCleanups(Front(events))
  {}

  lemma {:induction false} CleanupsNotInOrder<K>(events: seq<Event<K>>)
    requires Ordered(events)
    ensures Ordered(WithoutCleanups(events)) && Now(WithoutCleanups(events)) <= Now(events)
  {
    if |events| > 0 {
      WithoutCleanupsSplit(events);
      CleanupsNotInOrder(Front(events));
    }
  }

  lemma {:induction false} CleanupsNotInHistory<K>(ttl: nat, events: seq<Event<K>>, key: K)
    ensures LastAcceptance(ttl, WithoutCleanups(events), key) == LastAcceptance(ttl, events, key)
  {
    if |events| > 0 {
      WithoutCleanupsSplit(events);
      CleanupsNotInHistory(ttl, Front(events), key);
    }
  }

  /** Cleanups, wherever they happen in a run, change no answer. */
  lemma {:induction false} CleanupsAreInvisible<K>(ttl: nat, events: seq<Event<K>>)
    requires Ordered(events)
    ensures Verdicts(ttl, WithoutCleanups(events)) == Verdicts(ttl, events)
  {
    if |events| > 0 {
      var before, e := Front(events), Last(events);
      CleanupsAreInvisible(ttl, before);
      WithoutCleanupsSplit(events);
      if e.Cleanup? {
        assert Verdicts(ttl, before) + [] == Verdicts(ttl, before);
      } else if e.Check? {
        CleanupsNotInOrder(before);
        CleanupsNotInHistory(ttl, before, e.key);
        AcceptedExactly(ttl, before, e.key, e.at);
        AcceptedExactly(ttl, WithoutCleanups(before), e.key, e.at);
      }
    }
  }
}
