/** Signing keys that are rotated on schedule or on demand, with a grace period for the key that was replaced. */
module KeyRotation {
  import opened Base

  type Key = Bytes

  /** The signature scheme. */
  datatype Scheme<!Sig> = Scheme(
    publicKey: Key -> Bytes, sign: (Key, Bytes) -> Sig, verifies: (Bytes, Bytes, Sig) -> bool) {
    /** The signature verifies with the public half of this key. */
    predicate Verify(k: Key, message: Bytes, signature: Sig) {
      verifies(publicKey(k), message, signature)
    }
  }

  /** An ideal scheme: a signature verifies with the key that made it and with no other. */
  ghost predicate Ideal<Sig>(s: Scheme<Sig>) {
    forall k: Key, k': Key, m: Bytes :: s.Verify(k', m, s.sign(k, m)) <==> k' == k
  }

  datatype Config = Config(rotationInterval: nat, gracePeriod: nat)

  datatype KeyEntry = KeyEntry(key: Key, createdAt: nat, expiresAt: Option<nat>)

  // ---- what each call does ----

  datatype Manager = Manager(current: KeyEntry, previous: Option<KeyEntry>, force: bool)

  function Fresh(key: Key, now: nat): Manager {
    Manager(KeyEntry(key, now, None), None, false)
  }

  /** The old key's grace period starts at one reading of the clock, the new key's age at a second one. */
  function Rotated(config: Config, m: Manager, newKey: Key, at: nat, installed: nat): Manager {
    Manager(KeyEntry(newKey, installed, None), Some(m.current.(expiresAt := Some(at + config.gracePeriod))), false)
  }

  function CleanedUp(m: Manager, now: nat): Manager {
    if m.previous.Some? && (m.previous.value.expiresAt.None? || now >= m.previous.value.expiresAt.value)
    then m.(previous := None) else m
  }

  /** Whether a signature is accepted: by the current key, or by the previous one before it expires. */
  predicate Accepts<Sig>(s: Scheme<Sig>, m: Manager, message: Bytes, signature: Sig, now: nat) {
    || s.Verify(m.current.key, message, signature)
    || (m.previous.Some? && m.previous.value.expiresAt.Some? && now < m.previous.value.expiresAt.value
        && s.Verify(m.previous.value.key, message, signature))
  }

  predicate Due(config: Config, m: Manager, now: nat) {
    m.force || now - m.current.createdAt >= config.rotationInterval
  }

  class KeyManager<Sig> {
    const scheme: Scheme<Sig>
    const config: Config
    var current: KeyEntry
    var previous: Option<KeyEntry>
    var forceRotation: bool

    function State(): Manager
      reads this
    {
      Manager(current, previous, forceRotation)
    }

    constructor (scheme: Scheme<Sig>, config: Config, key: Key, now: nat)
      ensures this.scheme == scheme && this.config == config && State() == Fresh(key, now)
    {
      this.scheme, this.config := scheme, config;
      current, previous, forceRotation := KeyEntry(key, now, None), None, false;
    }

    /** With an ideal scheme the signature is accepted at once, at whatever time, and by the current key only. */
    method Sign(message: Bytes) returns (signature: Sig)
      ensures signature == scheme.sign(current.key, message)
      ensures Ideal(scheme) ==> forall now: nat :: Accepts(scheme, State(), message, signature, now)
      ensures Ideal(scheme) ==> forall k: Key :: scheme.Verify(k, message, signature) ==> k == current.key
    {
      signature := scheme.sign(current.key, message);
    }

    method Verify(message: Bytes, signature: Sig, now: nat) returns (ok: bool)
      ensures ok <==> Accepts(scheme, State(), message, signature, now)
    {
      if scheme.verifies(scheme.publicKey(current.key), message, signature) {
        return true;
      }
      if previous.Some? {
        var prev := previous.value;
        if prev.expiresAt.Some? && now < prev.expiresAt.value {
          if scheme.verifies(scheme.publicKey(prev.key), message, signature) {
            return true;
          }
        }
      }
      return false;
    }

    method ShouldRotate(now: nat) returns (r: bool)
      ensures r <==> Due(config, State(), now)
    {
      if forceRotation {
        return true;
      }
      r := now - current.createdAt >= config.rotationInterval;
    }

    method ForceRotate()
      modifies this`forceRotation
      ensures State() == old(State()).(force := true)
    {
      forceRotation := true;
    }

    /** Returns the new public key. */
    method Rotate(newKey: Key, at: nat, installed: nat) returns (pk: Bytes)
      modifies this
      ensures State() == Rotated(config, old(State()), newKey, at, installed)
      ensures pk == scheme.publicKey(current.key)
    {
      var oldEntry := KeyEntry(current.key, current.createdAt, Some(at + config.gracePeriod));
      pk := scheme.publicKey(newKey);
      current := KeyEntry(newKey, installed, None);
      previous := Some(oldEntry);
      forceRotation := false;
    }

    method CleanUp(now: nat)
      modifies this`previous
      ensures State() == CleanedUp(old(State()), now)
    {
      if previous.Some? {
        var prev := previous.value;
        if prev.expiresAt.None? || now >= prev.expiresAt.value {
          previous := None;
        }
      }
    }
  }

  // ---- whole runs ----

  datatype Event = Rotate(newKey: Key, at: nat, installed: nat) | Force(at: nat) | CleanUp(at: nat)

  function Run(config: Config, key: Key, start: nat, events: seq<Event>): Manager {
    if |events| == 0 then Fresh(key, start)
    else
      var m := Run(config, key, start, Front(events));
      match Last(events)
      case Rotate(newKey, at, installed) => Rotated(config, m, newKey, at, installed)
      case Force(_) => m.(force := true)
      case CleanUp(at) => CleanedUp(m, at)
  }

  /** When an event is over. */
  function End(e: Event): nat {
    if e.Rotate? then e.installed else e.at
  }

  function Now(start: nat, events: seq<Event>): nat {
    if |events| == 0 then start else End(Last(events))
  }

  /** The clock never goes back, neither between events nor inside a rotation. */
  predicate Ordered(start: nat, events: seq<Event>) {
    |events| == 0 ||
    (Ordered(start, Front(events)) && Now(start, Front(events)) <= Last(events).at <= End(Last(events)))
  }

  /** The rotations of a run, in order. */
  function Rotations(events: seq<Event>): seq<Event> {
    if |events| == 0 then []
    else Rotations(Front(events)) + if Last(events).Rotate? then [Last(events)] else []
  }

  lemma {:induction false} RotationsRotate(events: seq<Event>)
    ensures forall e :: e in Rotations(events) ==> e.Rotate?
  {
    if |events| > 0 {
      RotationsRotate(Front(events));
    }
  }

  /** The key in use after some rotations. */
  function KeyAfter(key: Key, rotations: seq<Event>): Key {
    if |rotations| > 0 && Last(rotations).Rotate? then Last(rotations).newKey else key
  }

  /** A key is honoured at a time: it is in use, or the latest rotation replaced it less than a grace period ago. */
  predicate Honoured(config: Config, key: Key, rotations: seq<Event>, k: Key, now: nat) {
    || k == KeyAfter(key, rotations)
    || (|rotations| > 0 && k == KeyAfter(key, Front(rotations)) && now < Last(rotations).at + config.gracePeriod)
  }

  /** When the key in use was installed. */
  function InUseSince(start: nat, rotations: seq<Event>): nat {
    if |rotations| > 0 then End(Last(rotations)) else start
  }

  /** A rotation was asked for after the latest one. */
  predicate ForcedSinceRotation(events: seq<Event>) {
    |events| > 0 && !Last(events).Rotate? && (Last(events).Force? || ForcedSinceRotation(Front(events)))
  }

  /** The key slots agree with the history. A missing previous key was never there, or its grace period has passed. */
  predicate Follows(config: Config, key: Key, start: nat, m: Manager, rotations: seq<Event>, forced: bool, now: nat) {
    && m.current.key == KeyAfter(key, rotations) && m.current.expiresAt.None? && m.force == forced
    && m.current.createdAt == InUseSince(start, rotations)
    && (m.previous.Some? ==> |rotations| > 0 && m.previous.value.key == KeyAfter(key, Front(rotations))
                             && m.previous.value.expiresAt == Some(Last(rotations).at + config.gracePeriod))
    && (m.previous.None? ==> |rotations| == 0 || Last(rotations).at + config.gracePeriod <= now)
  }

  lemma RotationFollows(config: Config, key: Key, start: nat, m: Manager, rotations: seq<Event>, forced: bool,
                        now: nat, e: Event)
    requires Follows(config, key, start, m, rotations, forced, now) && e.Rotate?
    ensures Follows(config, key, start, Rotated(config, m, e.newKey, e.at, e.installed), rotations + [e], false, End(e))
  {
    assert Front(rotations + [e]) == rotations;
  }

  lemma {:induction false} SlotsFollowHistory(config: Config, key: Key, start: nat, events: seq<Event>)
    requires Ordered(start, events)
    ensures Follows(config, key, start, Run(config, key, start, events), Rotations(events),
                    ForcedSinceRotation(events), Now(start, events))
  {
    if |events| > 0 {
      var before, m := Rotations(Front(events)), Run(config, key, start, Front(events));
      SlotsFollowHistory(config, key, start, Front(events));
      if Last(events).Rotate? {
        RotationFollows(config, key, start, m, before, ForcedSinceRotation(Front(events)),
                        Now(start, Front(events)), Last(events));
      } else {
        assert Rotations(events) == before;
      }
    }
  }

  /** After every run, a signature verifies exactly when some honoured key verifies it. */
  lemma AcceptsExactly<Sig>(s: Scheme<Sig>, config: Config, key: Key, start: nat, events: seq<Event>,
                            message: Bytes, signature: Sig, now: nat)
    requires Ordered(start, events) && Now(start, events) <= now
    ensures Accepts(s, Run(config, key, start, events), message, signature, now) <==>
      exists k: Key :: Honoured(config, key, Rotations(events), k, now) && s.Verify(k, message, signature)
  {
    SlotsFollowHistory(config, key, start, events);
    var m, rotations := Run(config, key, start, events), Rotations(events);
    if Accepts(s, m, message, signature, now) {
      var k := if s.Verify(m.current.key, message, signature) then m.current.key else m.previous.value.key;
      assert Honoured(config, key, Rotations(events), k, now) && s.Verify(k, message, signature);
    }
  }

  /** With an ideal scheme: a signature of key k verifies exactly while k is honoured. */
  lemma SignatureVerifiesWhile<Sig>(s: Scheme<Sig>, config: Config, key: Key, start: nat, events: seq<Event>,
                                    k: Key, message: Bytes, now: nat)
    requires Ideal(s) && Ordered(start, events) && Now(start, events) <= now
    ensures Accepts(s, Run(config, key, start, events), message, s.sign(k, message), now) <==>
      Honoured(config, key, Rotations(events), k, now)
  {
    AcceptsExactly(s, config, key, start, events, message, s.sign(k, message), now);
  }

  lemma {:induction false} RotationsAppend(events: seq<Event>, later: seq<Event>)
    ensures Rotations(events + later) == Rotations(events) + Rotations(later)
  {
    if |later| == 0 {
      assert events + later == events;
    } else {
      assert Front(events + later) == events + Front(later);
      RotationsAppend(events, Front(later));
    }
  }

  lemma {:induction false} OrderedPrefix(start: nat, events: seq<Event>, later: seq<Event>)
    requires Ordered(start, events + later)
    ensures Ordered(start, events)
  {
    if |later| == 0 {
      assert events + later == events;
    } else {
      assert Front(events + later) == events + Front(later);
      OrderedPrefix(start, events, Front(later));
    }
  }

  lemma KeyAfterMore(key: Key, before: seq<Event>, after: seq<Event>)
    requires |after| > 0 ==> Last(after).Rotate?
    ensures KeyAfter(key, before + after) == KeyAfter(KeyAfter(key, before), after)
  {
    if |after| == 0 {
      assert before + after == before;
    } else {
      assert Last(before + after) == Last(after);
    }
  }

  predicate AllToOtherKeys(rotations: seq<Event>, k: Key) {
    forall e :: e in rotations && e.Rotate? ==> e.newKey != k
  }

  /** The key in use before some more rotations is honoured after them exactly when there were none, or one, less
      than a grace period ago. */
  lemma HonouredLater(config: Config, key: Key, before: seq<Event>, after: seq<Event>, now: nat)
    requires AllToOtherKeys(after, KeyAfter(key, before)) && |after| > 0 && forall e :: e in after ==> e.Rotate?
    ensures Honoured(config, key, before + after, KeyAfter(key, before), now) <==>
      |after| == 1 && now < after[0].at + config.gracePeriod
  {
    assert Front(before + after) == before + Front(after) && Last(before + after) == Last(after);
    assert Last(after) in after && (|after| > 1 ==> Last(Front(after)) in after);
    KeyAfterMore(key, before, after);
    KeyAfterMore(key, before, Front(after));
  }

  /** What signing is worth: after any run and any further events, the signature made in between is accepted exactly
      when the key has not been rotated since, or once, less than a grace period ago. Newly generated keys differ from
      the one that signed. */
  lemma SignatureLastsExactly<Sig>(s: Scheme<Sig>, config: Config, key: Key, start: nat, events: seq<Event>,
                                   later: seq<Event>, message: Bytes, now: nat)
    requires Ideal(s) && Ordered(start, events + later) && Now(start, events + later) <= now
    requires AllToOtherKeys(Rotations(later), KeyAfter(key, Rotations(events)))
    ensures var signature := s.sign(Run(config, key, start, events).current.key, message);
      Accepts(s, Run(config, key, start, events + later), message, signature, now) <==>
        |Rotations(later)| == 0 || (|Rotations(later)| == 1 && now < Rotations(later)[0].at + config.gracePeriod)
  {
    OrderedPrefix(start, events, later);
    SlotsFollowHistory(config, key, start, events);
    SignatureVerifiesWhile(s, config, key, start, events + later, KeyAfter(key, Rotations(events)), message, now);
    RotationsAppend(events, later);
    RotationsRotate(later);
    if |Rotations(later)| > 0 {
      HonouredLater(config, key, Rotations(events), Rotations(later), now);
    } else {
      assert Rotations(events + later) == Rotations(events);
    }
  }

  function WithoutCleanUps(events: seq<Event>): seq<Event> {
    if |events| == 0 then []
    else WithoutCleanUps(Front(events)) + if Last(events).CleanUp? then [] else [Last(events)]
  }

  lemma WithoutCleanUpsSplit(events: seq<Event>)
    requires |events| > 0
    ensures Last(events).CleanUp? ==> WithoutCleanUps(events) == WithoutCleanUps(Front(events))
    ensures !Last(events).CleanUp? ==> |WithoutCleanUps(events)| > 0 && Last(WithoutCleanUps(events)) == Last(events)
    ensures !Last(events).CleanUp? ==> Front(WithoutCleanUps(events)) == WithoutCleanUps(Front(events))
  {}

  lemma {:induction false} CleanUpsNotInOrder(start: nat, events: seq<Event>)
    requires Ordered(start, events)
    ensures Ordered(start, WithoutCleanUps(events)) && Now(start, WithoutCleanUps(events)) <= Now(start, events)
  {
    if |events| > 0 {
      WithoutCleanUpsSplit(events);
      CleanUpsNotInOrder(start, Front(events));
    }
  }

  lemma {:induction false} CleanUpsNotInHistory(events: seq<Event>)
    ensures Rotations(WithoutCleanUps(events)) == Rotations(events)
  {
    if |events| > 0 {
      WithoutCleanUpsSplit(events);
      CleanUpsNotInHistory(Front(events));
      if Last(events).CleanUp? {
        assert Rotations(events) == Rotations(Front(events));
      }
    }
  }

  /** After a cleanup the previous key is still kept exactly when its grace period has not passed. */
  lemma KeptExactly(config: Config, key: Key, start: nat, events: seq<Event>, now: nat)
    requires Ordered(start, events) && Now(start, events) <= now
    ensures CleanedUp(Run(config, key, start, events), now).previous.Some? <==>
      |Rotations(events)| > 0 && now < Last(Rotations(events)).at + config.gracePeriod
  {
    SlotsFollowHistory(config, key, start, events);
  }

  /** Cleanups, wherever they happen in a run, change no present or later verdict on any signature. */
  lemma CleanUpsAreInvisible<Sig>(s: Scheme<Sig>, config: Config, key: Key, start: nat, events: seq<Event>,
                                  message: Bytes, signature: Sig, now: nat)
    requires Ordered(start, events) && Now(start, events) <= now
    ensures Accepts(s, Run(config, key, start, WithoutCleanUps(events)), message, signature, now) <==>
      Accepts(s, Run(config, key, start, events), message, signature, now)
  {
    CleanUpsNotInOrder(start, events);
    CleanUpsNotInHistory(events);
    AcceptsExactly(s, config, key, start, events, message, signature, now);
    AcceptsExactly(s, config, key, start, WithoutCleanUps(events), message, signature, now);
    assert Rotations(WithoutCleanUps(events)) == Rotations(events);
  }

  /** A rotation is due exactly when one was asked for since the last, or the key in use is old enough. */
  lemma DueExactly(config: Config, key: Key, start: nat, events: seq<Event>, now: nat)
    requires Ordered(start, events) && Now(start, events) <= now
    ensures Due(config, Run(config, key, start, events), now) <==>
      || ForcedSinceRotation(events)
      || now >= InUseSince(start, Rotations(events)) + config.rotationInterval
  {
    SlotsFollowHistory(config, key, start, events);
  }
}
