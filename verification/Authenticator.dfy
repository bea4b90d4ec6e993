/**
 The authenticator: time-windowed requests with a nonce, and one-time tokens.

 Requests are checked against the system clock and remembered against a monotonic one. Both are modelled as readings,
 in milliseconds, of one clock that never goes back; a call reads the first before the second.
 */
module Authentication {
  import opened Base
  import opened ReplayCache

  const MAX_DRIFT: int := 30_000
  const NONCE_TTL: nat := 120_000
  const TOKEN_MARGIN: nat := 60_000

  const TWO_63: int := 0x8000_0000_0000_0000

  /** Thirty-two bytes. */
  type Nonce = n: Bytes | |n| == 32 witness seq(32, _ => 0)

  datatype AuthRequest = AuthRequest(
    hmacBase: Bytes, hmacSignature: Bytes, clientPk: Bytes, nonce: Nonce, timestamp: u64)

  datatype TokenPayload = TokenPayload(userId: u64, nonce: Nonce, issuedAt: nat, validUntil: nat)

  /** How many bytes the program takes off the end of a token as its signature (`SPLIT_SIZE`), and how many a
      signature of the scheme has (`SCHEME_SIZE`). */
  const SPLIT_SIZE: nat := 3293
  const SCHEME_SIZE: nat := 3309

  /** The foreign parts: HMAC, the user id in the HMAC base, base64, the signature scheme with the size of signature
      that is split off a token, and the serialiser. */
  datatype Foreign = Foreign(
    hmacOk: AuthRequest -> bool, userId: Bytes -> Option<u64>,
    base64Encode: Bytes -> Bytes, base64Decode: Bytes -> Option<Bytes>,
    signatureSize: nat, sign: Bytes -> Bytes, signatureOk: (Bytes, Bytes) -> bool,
    encode: TokenPayload -> Bytes, decode: Bytes -> Option<TokenPayload>)

  datatype Outcome =
    | Ok(userId: u64)
    | InvalidTimestamp(drift: int) | NonceReused | InvalidHmac
    | TokenExpired | TokenAlreadyUsed | InvalidSignature | CryptoError

  // ---- 64-bit arithmetic ----

  /** An integer reduced to 64 signed bits. */
  function ToI64(x: int): int {
    (x + TWO_63) % 0x1_0000_0000_0000_0000 - TWO_63
  }

  function Drift(wall: nat, timestamp: u64): int {
    ToI64(ToI64(wall) - ToI64(timestamp))
  }

  /** Absolute value in 64 signed bits, where the least number is its own. */
  function AbsI64(x: int): int {
    if x == -TWO_63 then x else if x < 0 then -x else x
  }

  // ---- what each call does ----

  datatype Auth = Auth(nonces: map<Bytes, nat>, tokens: map<Bytes, nat>)

  function Verified(f: Foreign, s: Auth, r: AuthRequest, wall: nat, mono: nat): (Auth, Outcome) {
    var drift := Drift(wall, r.timestamp);
    if AbsI64(drift) > MAX_DRIFT then (s, InvalidTimestamp(drift))
    else
      var (nonces, isNew) := Checked(s.nonces, NONCE_TTL, r.nonce, mono);
      var s' := s.(nonces := nonces);
      if !isNew then (s', NonceReused)
      else if !f.hmacOk(r) then (s', InvalidHmac)
      else match f.userId(r.hmacBase)
        case None => (s', InvalidHmac)
        case Some(user) => (s', Ok(user))
  }

  /** What a token says, if it is well-formed and its signature verifies. */
  function Opened(f: Foreign, token: Bytes): (Outcome, Option<TokenPayload>) {
    match f.base64Decode(token)
    case None => (InvalidSignature, None)
    case Some(decoded) =>
      if |decoded| < f.signatureSize then (InvalidSignature, None)
      else
        var n := |decoded| - f.signatureSize;
        if !f.signatureOk(decoded[..n], decoded[n..]) then (InvalidSignature, None)
        else match f.decode(decoded[..n])
          case None => (CryptoError, None)
          case Some(payload) => (Ok(payload.userId), Some(payload))
  }

  /** Tokens are remembered by the first 16 bytes of their nonce. */
  function TokenKey(p: TokenPayload): Bytes {
    p.nonce[..16]
  }

  function TokenTtl(ttlSecs: nat): nat {
    ttlSecs * 1000 + TOKEN_MARGIN
  }

  function Consumed(f: Foreign, ttlSecs: nat, s: Auth, token: Bytes, wall: nat, mono: nat): (Auth, Outcome) {
    var (outcome, contents) := Opened(f, token);
    match contents
    case None => (s, outcome)
    case Some(payload) =>
      if wall > payload.validUntil then (s, TokenExpired)
      else
        var (tokens, isNew) := Checked(s.tokens, TokenTtl(ttlSecs), TokenKey(payload), mono);
        (s.(tokens := tokens), if isNew then Ok(payload.userId) else TokenAlreadyUsed)
  }

  function NewPayload(ttlSecs: nat, userId: u64, nonce: Nonce, wall: nat): TokenPayload {
    TokenPayload(userId, nonce, wall, wall + ttlSecs * 1000)
  }

  /** The token that carries a payload: its bytes and their signature. */
  function TokenOf(f: Foreign, p: TokenPayload): Bytes {
    f.base64Encode(f.encode(p) + f.sign(f.encode(p)))
  }

  /** The foreign parts do their work: what was encoded decodes, and the scheme makes signatures of one size, accepts
      those it made, and refuses any other size. */
  ghost predicate TokenLaws(f: Foreign, schemeSize: nat) {
    && (forall b: Bytes :: f.base64Decode(f.base64Encode(b)) == Some(b))
    && (forall p: TokenPayload :: f.decode(f.encode(p)) == Some(p))
    && (forall b: Bytes :: |f.sign(b)| == schemeSize && f.signatureOk(b, f.sign(b)))
    && (forall b: Bytes, s: Bytes :: f.signatureOk(b, s) ==> |s| == schemeSize)
  }

  /** A generated token opens to its payload exactly when the size that is split off is the size of a signature;
      otherwise it is refused as badly signed. */
  lemma TokenOpensExactly(f: Foreign, schemeSize: nat, p: TokenPayload)
    requires TokenLaws(f, schemeSize)
    ensures Opened(f, TokenOf(f, p)) ==
      if f.signatureSize == schemeSize then (Ok(p.userId), Some(p)) else (InvalidSignature, None)
  {
    var bytes := f.encode(p);
    assert f.base64Decode(TokenOf(f, p)) == Some(bytes + f.sign(bytes));
    Parts(bytes, f.sign(bytes));
  }

  /** With the two sizes in the program, no token it generates is accepted. */
  lemma NoTokenOpens(f: Foreign, p: TokenPayload)
    requires TokenLaws(f, SCHEME_SIZE) && f.signatureSize == SPLIT_SIZE
    ensures Opened(f, TokenOf(f, p)) == (InvalidSignature, None)
  {
    TokenOpensExactly(f, SCHEME_SIZE, p);
  }

  function CleanedUp(s: Auth, mono: nat): Auth {
    Auth(Cleaned(s.nonces, mono), Cleaned(s.tokens, mono))
  }

  class Authenticator {
    const f: Foreign
    const ttlSecs: nat
    const nonceCache: Cache<Bytes>
    const tokenCache: Cache<Bytes>

    ghost predicate Valid() {
      nonceCache != tokenCache && nonceCache.ttl == NONCE_TTL && tokenCache.ttl == TokenTtl(ttlSecs)
    }

    ghost function State(): Auth
      reads nonceCache, tokenCache
    {
      Auth(nonceCache.seen, tokenCache.seen)
    }

    /** Fails for a server key of the wrong length. The key fixes the signature scheme. */
    static method Create(foreign: Bytes -> Foreign, serverKey: Bytes, ttlSecs: nat) returns (r: Option<Authenticator>)
      ensures r.Some? <==> |serverKey| == 32
      ensures r.Some? ==>
        && fresh(r.value) && r.value.Valid() && fresh(r.value.nonceCache) && fresh(r.value.tokenCache)
        && r.value.f == foreign(serverKey) && r.value.ttlSecs == ttlSecs && r.value.State() == Auth(map[], map[])
    {
      if |serverKey| != 32 {
        return None;
      }
      var authenticator := new Authenticator(foreign(serverKey), ttlSecs);
      r := Some(authenticator);
    }

    constructor (f: Foreign, ttlSecs: nat)
      ensures Valid() && fresh(nonceCache) && fresh(tokenCache)
      ensures this.f == f && this.ttlSecs == ttlSecs && State() == Auth(map[], map[])
    {
      this.f, this.ttlSecs := f, ttlSecs;
      nonceCache := new Cache(120 * 1000);
      tokenCache := new Cache((ttlSecs + 60) * 1000);
    }

    method Verify(r: AuthRequest, wall: nat, mono: nat) returns (outcome: Outcome)
      requires Valid()
      modifies nonceCache
      ensures (State(), outcome) == Verified(f, old(State()), r, wall, mono)
    {
      var drift := Drift(wall, r.timestamp);
      if AbsI64(drift) > MAX_DRIFT {
        return InvalidTimestamp(drift);
      }
      var isNew := nonceCache.CheckAndInsert(r.nonce, mono);
      if !isNew {
        return NonceReused;
      }
      if !f.hmacOk(r) {
        return InvalidHmac;
      }
      var user := f.userId(r.hmacBase);
      outcome := if user.Some? then Ok(user.value) else InvalidHmac;
    }

    /** If signatures have the size that is split off a token, the token opens to this user and nonce and a validity
        of one TTL. */
    method GenerateToken(userId: u64, nonce: Nonce, wall: nat) returns (token: Bytes)
      ensures token == TokenOf(f, NewPayload(ttlSecs, userId, nonce, wall))
      ensures TokenLaws(f, f.signatureSize) ==>
        && Opened(f, token).1.Some?
        && var p := Opened(f, token).1.value;
           p.userId == userId && p.nonce == nonce && p.issuedAt == wall && p.validUntil == wall + ttlSecs * 1000
    {
      var payload := TokenPayload(userId, nonce, wall, wall + ttlSecs * 1000);
      var bytes := f.encode(payload);
      token := f.base64Encode(bytes + f.sign(bytes));
      if TokenLaws(f, f.signatureSize) {
        TokenOpensExactly(f, f.signatureSize, payload);
      }
    }

    method VerifyAndConsumeToken(token: Bytes, wall: nat, mono: nat) returns (outcome: Outcome)
      requires Valid()
      modifies tokenCache
      ensures (State(), outcome) == Consumed(f, ttlSecs, old(State()), token, wall, mono)
    {
      var decoded := f.base64Decode(token);
      if decoded.None? || |decoded.value| < f.signatureSize {
        return InvalidSignature;
      }
      var n := |decoded.value| - f.signatureSize;
      var payloadBytes, signature := decoded.value[..n], decoded.value[n..];
      if !f.signatureOk(payloadBytes, signature) {
        return InvalidSignature;
      }
      var payload := f.decode(payloadBytes);
      if payload.None? {
        return CryptoError;
      }
      if wall > payload.value.validUntil {
        return TokenExpired;
      }
      var isNew := tokenCache.CheckAndInsert(TokenKey(payload.value), mono);
      outcome := if isNew then Ok(payload.value.userId) else TokenAlreadyUsed;
    }

    method CleanUp(mono: nat)
      requires Valid()
      modifies nonceCache, tokenCache
      ensures State() == CleanedUp(old(State()), mono)
    {
      nonceCache.Cleanup(mono);
      tokenCache.Cleanup(mono);
    }
  }

  // ---- whole runs ----

  /** A call, with its readings of the clock. */
  datatype Call =
    | Verify(request: AuthRequest, wall: nat, mono: nat)
    | Generate(userId: u64, nonce: Nonce, wall: nat, mono: nat)
    | Consume(token: Bytes, wall: nat, mono: nat)
    | CleanUp(wall: nat, mono: nat)

  function Step(f: Foreign, ttlSecs: nat, s: Auth, call: Call): Auth {
    match call
    case Verify(r, wall, mono) => Verified(f, s, r, wall, mono).0
    case Generate(_, _, _, _) => s
    case Consume(token, wall, mono) => Consumed(f, ttlSecs, s, token, wall, mono).0
    case CleanUp(_, mono) => CleanedUp(s, mono)
  }

  function Run(f: Foreign, ttlSecs: nat, calls: seq<Call>): Auth {
    if |calls| == 0 then Auth(map[], map[]) else Step(f, ttlSecs, Run(f, ttlSecs, Front(calls)), Last(calls))
  }

  /** One clock that never goes back; within a call the second reading comes less than `delay` after the first. The
      system time stays far below 2^63 milliseconds. */
  predicate OneClock(calls: seq<Call>, delay: nat) {
    && (forall i :: 0 <= i < |calls| ==>
          calls[i].wall <= calls[i].mono < calls[i].wall + delay && calls[i].wall < 0x4000_0000_0000_0000)
    && (forall i, j :: 0 <= i < j < |calls| ==> calls[i].wall <= calls[j].wall && calls[i].mono <= calls[j].mono)
  }

  /** Call i is a request that got past the timestamp and nonce checks, as every accepted one does. */
  predicate PassedNonce(f: Foreign, ttlSecs: nat, calls: seq<Call>, i: nat)
    requires i < |calls|
  {
    calls[i].Verify? &&
    var outcome := Verified(f, Run(f, ttlSecs, calls[..i]), calls[i].request, calls[i].wall, calls[i].mono).1;
    !outcome.InvalidTimestamp? && !outcome.NonceReused?
  }

  /** Call i consumed a token with this payload. */
  predicate ConsumedToken(f: Foreign, ttlSecs: nat, calls: seq<Call>, i: nat, payload: TokenPayload)
    requires i < |calls|
  {
    calls[i].Consume? && Opened(f, calls[i].token).1 == Some(payload) &&
    Consumed(f, ttlSecs, Run(f, ttlSecs, calls[..i]), calls[i].token, calls[i].wall, calls[i].mono).1.Ok?
  }

  /** Call g issued this payload. */
  predicate Issued(ttlSecs: nat, calls: seq<Call>, g: nat, payload: TokenPayload)
    requires g < |calls|
  {
    calls[g].Generate? && payload == NewPayload(ttlSecs, calls[g].userId, calls[g].nonce, calls[g].wall)
  }

  lemma InWindow(wall: nat, timestamp: u64)
    requires wall < 0x4000_0000_0000_0000
    ensures AbsI64(Drift(wall, timestamp)) <= MAX_DRIFT <==>
      wall - MAX_DRIFT <= timestamp <= wall + MAX_DRIFT || timestamp == wall + TWO_63
        || timestamp >= 0x1_0000_0000_0000_0000 + wall - MAX_DRIFT
  {}

  /** Two readings that accept one timestamp are at most a minute apart. */
  lemma WindowIsAMinute(wall: nat, later: nat, timestamp: u64)
    requires wall <= later < 0x4000_0000_0000_0000
    requires AbsI64(Drift(wall, timestamp)) <= MAX_DRIFT && AbsI64(Drift(later, timestamp)) <= MAX_DRIFT
    ensures later <= wall + 60_000
  {
    InWindow(wall, timestamp);
    InWindow(later, timestamp);
  }

  // ---- what every call answers ----

  /** The timestamps that are accepted at a time: 30 seconds either way, and in wrapping arithmetic the one that is
      exactly 2^63 ahead and those that wrap around to the last 30 seconds. */
  predicate Timely(wall: nat, timestamp: u64) {
    || wall - 30_000 <= timestamp <= wall + 30_000
    || timestamp == wall + 0x8000_0000_0000_0000
    || timestamp >= 0x1_0000_0000_0000_0000 + wall - 30_000
  }

  /** When a nonce was last accepted, by the rule that a timely request is, unless its nonce was less than two minutes
      ago. */
  function LastPass(calls: seq<Call>, nonce: Bytes): Option<nat> {
    if |calls| == 0 then None
    else
      var before, call := LastPass(Front(calls), nonce), Last(calls);
      if call.Verify? && call.request.nonce == nonce && Timely(call.wall, call.request.timestamp)
         && Acceptable(before, 120_000, call.mono)
      then Some(call.mono) else before
  }

  predicate Ordered(calls: seq<Call>) {
    forall i, j :: 0 <= i < j < |calls| ==> calls[i].mono <= calls[j].mono
  }

  function Latest(calls: seq<Call>): nat {
    if |calls| == 0 then 0 else Last(calls).mono
  }

  /** System times stay far below 2^63 milliseconds. */
  predicate EarlyEnough(calls: seq<Call>) {
    forall i :: 0 <= i < |calls| ==> calls[i].wall < 0x4000_0000_0000_0000
  }

  lemma TimelyExactly(wall: nat, timestamp: u64)
    requires wall < 0x4000_0000_0000_0000
    ensures AbsI64(Drift(wall, timestamp)) <= MAX_DRIFT <==> Timely(wall, timestamp)
  {
    InWindow(wall, timestamp);
  }

  /** A cache stores the expiry of a key's last acceptance, or nothing once that has passed. */
  predicate Stores(seen: map<Bytes, nat>, key: Bytes, last: Option<nat>, ttl: nat, now: nat) {
    if key in seen then last.Some? && seen[key] == last.value + ttl else Acceptable(last, ttl, now)
  }

  lemma StoresCheck(seen: map<Bytes, nat>, key: Bytes, last: Option<nat>, ttl: nat, then': nat, k: Bytes, now: nat)
    requires Stores(seen, key, last, ttl, then') && then' <= now
    ensures Checked(seen, ttl, key, now).1 <==> Acceptable(last, ttl, now)
    ensures Stores(Checked(seen, ttl, k, now).0, key,
                   if k == key && Acceptable(last, ttl, now) then Some(now) else last, ttl, now)
  {}

  lemma StoresClean(seen: map<Bytes, nat>, key: Bytes, last: Option<nat>, ttl: nat, then': nat, now: nat)
    requires Stores(seen, key, last, ttl, then') && then' <= now
    ensures Stores(seen, key, last, ttl, now) && Stores(Cleaned(seen, now), key, last, ttl, now)
  {}

  lemma {:induction false} NonceStored(f: Foreign, ttlSecs: nat, calls: seq<Call>, nonce: Bytes)
    requires Ordered(calls) && EarlyEnough(calls)
    ensures Stores(Run(f, ttlSecs, calls).nonces, nonce, LastPass(calls, nonce), 120_000, Latest(calls))
  {
    if |calls| > 0 {
      var before, call := Front(calls), Last(calls);
      var s, last := Run(f, ttlSecs, before), LastPass(before, nonce);
      assert Latest(before) <= call.mono;
      NonceStored(f, ttlSecs, before, nonce);
      StoresClean(s.nonces, nonce, last, 120_000, Latest(before), call.mono);
      if call.Verify? {
        StoresCheck(s.nonces, nonce, last, 120_000, Latest(before), call.request.nonce, call.mono);
        TimelyExactly(call.wall, call.request.timestamp);
      }
    }
  }

  /** What the verification at a position of a run answers. */
  function VerifyAnswer(f: Foreign, ttlSecs: nat, calls: seq<Call>, i: nat): Outcome
    requires i < |calls| && calls[i].Verify?
  {
    Verified(f, Run(f, ttlSecs, calls[..i]), calls[i].request, calls[i].wall, calls[i].mono).1
  }

  lemma PrefixOrdered(calls: seq<Call>, i: nat)
    requires Ordered(calls) && EarlyEnough(calls) && i < |calls|
    ensures Ordered(calls[..i]) && EarlyEnough(calls[..i]) && Latest(calls[..i]) <= calls[i].mono
  {}

  /** In every run a request is accepted for a user exactly when it is timely, its nonce was not accepted in the last
      two minutes, its HMAC is right, and its base names that user; each error has its exact condition, in this
      order. */
  lemma VerifiedExactly(f: Foreign, ttlSecs: nat, calls: seq<Call>, i: nat)
    requires Ordered(calls) && EarlyEnough(calls) && i < |calls| && calls[i].Verify?
    ensures var r, answer := calls[i].request, VerifyAnswer(f, ttlSecs, calls, i);
      var timely := Timely(calls[i].wall, r.timestamp);
      var unused := Acceptable(LastPass(calls[..i], r.nonce), 120_000, calls[i].mono);
      && (forall user: u64 :: answer == Ok(user) <==>
            timely && unused && f.hmacOk(r) && f.userId(r.hmacBase) == Some(user))
      && (answer.InvalidTimestamp? <==> !timely)
      && (answer.NonceReused? <==> timely && !unused)
      && (answer.InvalidHmac? <==> timely && unused && (!f.hmacOk(r) || f.userId(r.hmacBase).None?))
  {
    var call := calls[i];
    PrefixOrdered(calls, i);
    NonceStored(f, ttlSecs, calls[..i], call.request.nonce);
    StoresCheck(Run(f, ttlSecs, calls[..i]).nonces, call.request.nonce, LastPass(calls[..i], call.request.nonce),
                120_000, Latest(calls[..i]), call.request.nonce, call.mono);
    TimelyExactly(call.wall, call.request.timestamp);
    VerifiedCases(f, Run(f, ttlSecs, calls[..i]), call.request, call.wall, call.mono);
  }

  lemma VerifiedCases(f: Foreign, s: Auth, r: AuthRequest, wall: nat, mono: nat)
    ensures var answer := Verified(f, s, r, wall, mono).1;
      var timely := AbsI64(Drift(wall, r.timestamp)) <= MAX_DRIFT;
      var unused := Checked(s.nonces, NONCE_TTL, r.nonce, mono).1;
      && (forall user: u64 :: answer == Ok(user) <==>
            timely && unused && f.hmacOk(r) && f.userId(r.hmacBase) == Some(user))
      && (answer.InvalidTimestamp? <==> !timely)
      && (answer.NonceReused? <==> timely && !unused)
      && (answer.InvalidHmac? <==> timely && unused && (!f.hmacOk(r) || f.userId(r.hmacBase).None?))
  {}

  /** The drift an untimely request is refused with is its distance from the clock, in 64 signed bits. */
  lemma DriftReported(f: Foreign, ttlSecs: nat, calls: seq<Call>, i: nat)
    requires i < |calls| && calls[i].Verify? && VerifyAnswer(f, ttlSecs, calls, i).InvalidTimestamp?
    ensures var drift := VerifyAnswer(f, ttlSecs, calls, i).drift;
      && -0x8000_0000_0000_0000 <= drift < 0x8000_0000_0000_0000
      && (drift - (calls[i].wall - calls[i].request.timestamp)) % 0x1_0000_0000_0000_0000 == 0
  {
    DriftIsDistance(calls[i].wall, calls[i].request.timestamp);
  }

  lemma ToI64Is(x: int)
    ensures -0x8000_0000_0000_0000 <= ToI64(x) < 0x8000_0000_0000_0000
    ensures exists k: int :: ToI64(x) == x + k * 0x1_0000_0000_0000_0000
  {
    var k := -((x + TWO_63) / 0x1_0000_0000_0000_0000);
    assert ToI64(x) == x + k * 0x1_0000_0000_0000_0000;
  }

  lemma DriftIsDistance(wall: nat, timestamp: u64)
    ensures var drift := Drift(wall, timestamp);
      && -0x8000_0000_0000_0000 <= drift < 0x8000_0000_0000_0000
      && (drift - (wall - timestamp)) % 0x1_0000_0000_0000_0000 == 0
  {
    ToI64Is(wall);
    ToI64Is(timestamp);
    ToI64Is(ToI64(wall) - ToI64(timestamp));
    var a: int :| ToI64(wall) == wall + a * 0x1_0000_0000_0000_0000;
    var b: int :| ToI64(timestamp) == timestamp + b * 0x1_0000_0000_0000_0000;
    var c: int :| Drift(wall, timestamp) == ToI64(wall) - ToI64(timestamp) + c * 0x1_0000_0000_0000_0000;
    assert Drift(wall, timestamp) - (wall - timestamp) == (a - b + c) * 0x1_0000_0000_0000_0000;
  }

  /** A token is a payload's bytes with a signature of the expected size that verifies. */
  ghost predicate SignedBy(f: Foreign, token: Bytes, bytes: Bytes, signature: Bytes) {
    && f.base64Decode(token) == Some(bytes + signature)
    && |signature| == f.signatureSize && f.signatureOk(bytes, signature)
  }

  ghost predicate WellSigned(f: Foreign, token: Bytes) {
    exists bytes, signature :: SignedBy(f, token, bytes, signature)
  }

  /** A well-signed token with this payload. */
  ghost predicate Carries(f: Foreign, token: Bytes, p: TokenPayload) {
    exists bytes, signature :: SignedBy(f, token, bytes, signature) && f.decode(bytes) == Some(p)
  }

  lemma SameSplit(f: Foreign, token: Bytes, bytes: Bytes, signature: Bytes)
    requires SignedBy(f, token, bytes, signature)
    ensures var decoded := f.base64Decode(token).value;
      var n := |decoded| - f.signatureSize; n >= 0 && bytes == decoded[..n] && signature == decoded[n..]
  {
    Parts(bytes, signature);
  }

  /** A token opens exactly to the payload it carries; without a good signature, or with one over bytes that are no
      payload, it opens to an error. */
  lemma OpenedExactly(f: Foreign, token: Bytes)
    ensures var (outcome, contents) := Opened(f, token);
      && (forall p :: contents == Some(p) <==> Carries(f, token, p))
      && (outcome.InvalidSignature? <==> !WellSigned(f, token))
      && (outcome.CryptoError? <==> WellSigned(f, token) && contents.None?)
      && (contents.None? ==> outcome.InvalidSignature? || outcome.CryptoError?)
  {
    if WellSigned(f, token) {
      var bytes, signature :| SignedBy(f, token, bytes, signature);
      SameSplit(f, token, bytes, signature);
      forall p
        ensures f.decode(bytes) == Some(p) <==> Carries(f, token, p)
      {
        if Carries(f, token, p) {
          var b, s :| SignedBy(f, token, b, s) && f.decode(b) == Some(p);
          SameSplit(f, token, b, s);
        }
      }
    } else if Opened(f, token).1.Some? || Opened(f, token).0.CryptoError? {
      var decoded := f.base64Decode(token).value;
      var n := |decoded| - f.signatureSize;
      SplitAt(decoded, n);
      assert SignedBy(f, token, decoded[..n], decoded[n..]);
    }
  }

  /** When a token id was last used up, by the rule that an unexpired token is, unless its id was less than the memory
      of tokens ago: their TTL and a minute. */
  function LastUse(f: Foreign, ttlSecs: nat, calls: seq<Call>, id: Bytes): Option<nat> {
    if |calls| == 0 then None
    else
      var before, call := LastUse(f, ttlSecs, Front(calls), id), Last(calls);
      if !call.Consume? then before
      else match Opened(f, call.token).1
        case None => before
        case Some(p) =>
          if p.nonce[..16] == id && call.wall <= p.validUntil
             && Acceptable(before, (ttlSecs + 60) * 1000, call.mono)
          then Some(call.mono) else before
  }

  lemma {:induction false} TokenStored(f: Foreign, ttlSecs: nat, calls: seq<Call>, id: Bytes)
    requires Ordered(calls)
    ensures Stores(Run(f, ttlSecs, calls).tokens, id, LastUse(f, ttlSecs, calls, id), (ttlSecs + 60) * 1000,
                   Latest(calls))
  {
    if |calls| > 0 {
      var before, call, ttl := Front(calls), Last(calls), (ttlSecs + 60) * 1000;
      var s, last := Run(f, ttlSecs, before), LastUse(f, ttlSecs, before, id);
      assert Latest(before) <= call.mono;
      TokenStored(f, ttlSecs, before, id);
      StoresClean(s.tokens, id, last, ttl, Latest(before), call.mono);
      if call.Consume? && Opened(f, call.token).1.Some? {
        StoresCheck(s.tokens, id, last, ttl, Latest(before), TokenKey(Opened(f, call.token).1.value), call.mono);
      }
    }
  }

  /** What the consumption at a position of a run answers. */
  function ConsumeAnswer(f: Foreign, ttlSecs: nat, calls: seq<Call>, i: nat): Outcome
    requires i < |calls| && calls[i].Consume?
  {
    Consumed(f, ttlSecs, Run(f, ttlSecs, calls[..i]), calls[i].token, calls[i].wall, calls[i].mono).1
  }

  /** In every run a token is accepted, for the user it names, exactly when it is well-signed, unexpired, and the first
      sixteen bytes of its nonce were not used up within the memory of tokens; each error has its exact condition. */
  lemma ConsumedExactly(f: Foreign, ttlSecs: nat, calls: seq<Call>, i: nat)
    requires Ordered(calls) && i < |calls| && calls[i].Consume?
    ensures var token, answer := calls[i].token, ConsumeAnswer(f, ttlSecs, calls, i);
      && (answer.InvalidSignature? <==> !WellSigned(f, token))
      && (answer.CryptoError? <==> WellSigned(f, token) && forall p: TokenPayload :: !Carries(f, token, p))
      && (forall p: TokenPayload :: Carries(f, token, p) ==>
            answer == if calls[i].wall > p.validUntil then TokenExpired
                      else if Acceptable(LastUse(f, ttlSecs, calls[..i], p.nonce[..16]), (ttlSecs + 60) * 1000,
                                         calls[i].mono) then Ok(p.userId)
                      else TokenAlreadyUsed)
  {
    var call, s := calls[i], Run(f, ttlSecs, calls[..i]);
    OpenedExactly(f, call.token);
    if Opened(f, call.token).1.Some? {
      var p := Opened(f, call.token).1.value;
      var id, ttl := p.nonce[..16], (ttlSecs + 60) * 1000;
      assert Ordered(calls[..i]) && Latest(calls[..i]) <= call.mono;
      TokenStored(f, ttlSecs, calls[..i], id);
      StoresCheck(s.tokens, id, LastUse(f, ttlSecs, calls[..i], id), ttl, Latest(calls[..i]), id, call.mono);
      assert Carries(f, call.token, p);
    }
  }

  /** A cleanup leaves exactly the nonces accepted in the last two minutes and the token ids used up within the memory
      of tokens. */
  lemma CleanUpLeaves(f: Foreign, ttlSecs: nat, calls: seq<Call>, mono: nat, key: Bytes)
    requires Ordered(calls) && EarlyEnough(calls) && Latest(calls) <= mono
    ensures var s := CleanedUp(Run(f, ttlSecs, calls), mono);
      && (key in s.nonces <==> !Acceptable(LastPass(calls, key), 120_000, mono))
      && (key in s.tokens <==> !Acceptable(LastUse(f, ttlSecs, calls, key), (ttlSecs + 60) * 1000, mono))
  {
    NonceStored(f, ttlSecs, calls, key);
    TokenStored(f, ttlSecs, calls, key);
  }

  // ---- at most once ----

  lemma StepRemembers(f: Foreign, ttlSecs: nat, s: Auth, call: Call, key: Bytes, until: nat)
    requires call.mono < until
    ensures key in s.nonces && s.nonces[key] >= until ==>
      var s' := Step(f, ttlSecs, s, call); key in s'.nonces && s'.nonces[key] >= until
    ensures key in s.tokens && s.tokens[key] >= until ==>
      var s' := Step(f, ttlSecs, s, call); key in s'.tokens && s'.tokens[key] >= until
  {}

  lemma {:induction false} NonceRemembered(f: Foreign, ttlSecs: nat, calls: seq<Call>, delay: nat, i: nat, j: nat)
    requires OneClock(calls, delay) && i < j < |calls| && PassedNonce(f, ttlSecs, calls, i)
    requires calls[j].mono < calls[i].mono + NONCE_TTL
    ensures var seen := Run(f, ttlSecs, calls[..j]).nonces; var key := calls[i].request.nonce;
      key in seen && seen[key] >= calls[i].mono + NONCE_TTL
  {
    assert Front(calls[..j]) == calls[..j - 1] && Last(calls[..j]) == calls[j - 1];
    if i < j - 1 {
      NonceRemembered(f, ttlSecs, calls, delay, i, j - 1);
      StepRemembers(f, ttlSecs, Run(f, ttlSecs, calls[..j - 1]), calls[j - 1],
                    calls[i].request.nonce, calls[i].mono + NONCE_TTL);
    }
  }

  /** In every run, of all requests with one nonce and one timestamp at most one passes, provided a call takes less
      than a minute between its two readings of the clock. */
  lemma NonceOnce(f: Foreign, ttlSecs: nat, calls: seq<Call>, i: nat, j: nat)
    requires OneClock(calls, 60_000) && i < j < |calls| && calls[i].Verify? && calls[j].Verify?
    requires calls[i].request.nonce == calls[j].request.nonce
    requires calls[i].request.timestamp == calls[j].request.timestamp
    ensures !(PassedNonce(f, ttlSecs, calls, i) && PassedNonce(f, ttlSecs, calls, j))
  {
    if PassedNonce(f, ttlSecs, calls, i) && PassedNonce(f, ttlSecs, calls, j) {
      WindowIsAMinute(calls[i].wall, calls[j].wall, calls[i].request.timestamp);
      NonceRemembered(f, ttlSecs, calls, 60_000, i, j);
    }
  }

  lemma {:induction false} TokenRemembered(f: Foreign, ttlSecs: nat, calls: seq<Call>, delay: nat, i: nat, j: nat,
                                           p: TokenPayload)
    requires OneClock(calls, delay) && i < j < |calls| && ConsumedToken(f, ttlSecs, calls, i, p)
    requires calls[j].mono < calls[i].mono + TokenTtl(ttlSecs)
    ensures var seen := Run(f, ttlSecs, calls[..j]).tokens;
      TokenKey(p) in seen && seen[TokenKey(p)] >= calls[i].mono + TokenTtl(ttlSecs)
  {
    assert Front(calls[..j]) == calls[..j - 1] && Last(calls[..j]) == calls[j - 1];
    if i < j - 1 {
      TokenRemembered(f, ttlSecs, calls, delay, i, j - 1, p);
      StepRemembers(f, ttlSecs, Run(f, ttlSecs, calls[..j - 1]), calls[j - 1],
                    TokenKey(p), calls[i].mono + TokenTtl(ttlSecs));
    }
  }

  /** In every run, a token issued in it is consumed at most once, under the same proviso. */
  lemma TokenOnce(f: Foreign, ttlSecs: nat, calls: seq<Call>, g: nat, i: nat, j: nat, p: TokenPayload)
    requires OneClock(calls, 60_000) && g < i < j < |calls| && Issued(ttlSecs, calls, g, p)
    ensures !(ConsumedToken(f, ttlSecs, calls, i, p) && ConsumedToken(f, ttlSecs, calls, j, p))
  {
    if ConsumedToken(f, ttlSecs, calls, i, p) && ConsumedToken(f, ttlSecs, calls, j, p) {
      assert calls[j].wall <= p.validUntil == calls[g].wall + ttlSecs * 1000;
      TokenRemembered(f, ttlSecs, calls, 60_000, i, j, p);
    }
  }

  /** The minute is exact: with one more millisecond allowed, a request passes twice. */
  lemma AMinuteIsTooLong(f: Foreign, ttlSecs: nat, r: AuthRequest)
    requires r.timestamp == 100_000
    ensures var calls := [Verify(r, 70_000, 70_000), Verify(r, 130_000, 190_000)];
      && OneClock(calls, 60_001)
      && PassedNonce(f, ttlSecs, calls, 0) && PassedNonce(f, ttlSecs, calls, 1)
  {
    var calls := [Verify(r, 70_000, 70_000), Verify(r, 130_000, 190_000)];
    InWindow(70_000, r.timestamp);
    InWindow(130_000, r.timestamp);
    assert calls[..0] == [] && calls[..1] == [calls[0]];
    assert Front([calls[0]]) == [];
    assert Run(f, ttlSecs, [calls[0]]).nonces == map[r.nonce := 190_000];
  }

  /** The same for a token, consumed when it is issued and again at the end of its validity. */
  lemma AMinuteIsTooLongForTokens(f: Foreign, ttlSecs: nat, userId: u64, nonce: Nonce, token: Bytes)
    requires ttlSecs * 1000 < 0x4000_0000_0000_0000
    requires Opened(f, token) == (Ok(userId), Some(NewPayload(ttlSecs, userId, nonce, 0)))
    ensures var ttl, p := ttlSecs * 1000, NewPayload(ttlSecs, userId, nonce, 0);
      var calls := [Generate(userId, nonce, 0, 0), Consume(token, 0, 0), Consume(token, ttl, ttl + 60_000)];
      && OneClock(calls, 60_001) && Issued(ttlSecs, calls, 0, p)
      && ConsumedToken(f, ttlSecs, calls, 1, p) && ConsumedToken(f, ttlSecs, calls, 2, p)
  {
    var ttl, p := ttlSecs * 1000, NewPayload(ttlSecs, userId, nonce, 0);
    var calls := [Generate(userId, nonce, 0, 0), Consume(token, 0, 0), Consume(token, ttl, ttl + 60_000)];
    assert calls[..1] == [calls[0]] && Front([calls[0]]) == [];
    assert Run(f, ttlSecs, calls[..1]) == Auth(map[], map[]);
    assert Front(calls[..2]) == calls[..1] && Last(calls[..2]) == calls[1];
    assert Run(f, ttlSecs, calls[..2]).tokens == map[TokenKey(p) := ttl + 60_000];
  }
}
