/** Padding that disguises packet sizes: the target length of a packet, and adding and removing the padding. */
module Padding {
  import opened Base

  const SIZE_DISTRIBUTION: seq<nat> := [512, 1024, 2048, 4096, 8192, 16384]
  const LARGEST_SIZE: nat := 16384
  const JITTER_PERCENT: nat := 10

  /** Where the target size comes from. The weights that accompany the sizes play no part in padding. */
  datatype SizeDistribution =
    | Fixed(sizes: seq<nat>)
    | Learned(sizes: seq<nat>)
    | Random(min: nat, max: nat)
    | Normal(mean: nat, stdDev: nat)

  datatype Strategy = Strategy(jitter: bool, minSize: nat, distribution: SizeDistribution)

  const DEFAULT := Strategy(true, 64, Fixed(SIZE_DISTRIBUTION))

  /** The random numbers one call consumes: a sampled size, a jitter, and the padding bytes. */
  datatype Draw = Draw(size: nat, jitter: nat, noise: nat -> Byte)

  function Max(a: nat, b: nat): nat { if a < b then b else a }

  /** The first listed size above n, or the largest size. */
  function FirstAbove(sizes: seq<nat>, n: nat): nat {
    if sizes == [] then LARGEST_SIZE
    else if sizes[0] > n then sizes[0]
    else FirstAbove(sizes[1..], n)
  }

  /** The target before jitter. A normal sample is an arbitrary number. */
  function BaseTarget(s: Strategy, len: nat, size: nat): nat {
    Max(s.minSize,
        match s.distribution
        case Fixed(sizes) => FirstAbove(sizes, len)
        case Learned(sizes) => FirstAbove(sizes, len)
        case Random(_, max) => if len >= max then max else size
        case Normal(_, _) => Max(size, len))
  }

  /** The draws the generator can return for a payload of this length. */
  predicate Possible(s: Strategy, len: nat, d: Draw) {
    && (s.distribution.Random? && len < s.distribution.max ==>
          Max(len, s.distribution.min) <= d.size < s.distribution.max)
    && d.jitter <= BaseTarget(s, len, d.size) / JITTER_PERCENT * 2
  }

  function TargetSize(s: Strategy, len: nat, d: Draw): nat {
    var target := BaseTarget(s, len, d.size);
    if s.jitter then target - target / JITTER_PERCENT + d.jitter else target
  }

  function PaddingLen(s: Strategy, len: nat, d: Draw): nat {
    var target := TargetSize(s, len, d);
    if target >= len then target - len else 0
  }

  function Noise(noise: nat -> Byte, n: nat): (s: Bytes)
    ensures |s| == n
  {
    seq<Byte>(n, i requires 0 <= i < n => noise(i))
  }

  /** A padded packet: the payload length as 32 little-endian bits, the payload, then noise. */
  function Padded(s: Strategy, data: Bytes, d: Draw): Bytes {
    Le(|data| % TWO_32, WIDTH_32) + data + Noise(d.noise, PaddingLen(s, |data|, d))
  }

  method Pad(s: Strategy, data: Bytes, d: Draw) returns (result: Bytes)
    ensures result == Padded(s, data, d)
  {
    var paddingLen := PaddingLen(s, |data|, d);
    result := Le(|data| % TWO_32, WIDTH_32) + data;
    ghost var head := result;
    for i := 0 to paddingLen
      invariant result == head + Noise(d.noise, i)
    {
      result := result + [d.noise(i)];
    }
  }

  function Unpad(data: Bytes): Option<Bytes> {
    if |data| < 4 then None
    else
      var originalLen := FromLe(data[..4]);
      if |data| < 4 + originalLen then None else Some(data[4..4 + originalLen])
  }

  /** Padding is undone exactly for payloads whose length fits its 32-bit field. */
  lemma UnpadPadded(s: Strategy, data: Bytes, d: Draw)
    ensures Unpad(Padded(s, data, d)) == Some(data) <==> |data| < TWO_32
  {
    var p := Padded(s, data, d);
    var n := |data| % TWO_32;
    Widths();
    if |data| < TWO_32 {
      SmallMod(|data|, TWO_32);
    }
    LeRoundTrip(n, WIDTH_32);
    assert p[..4] == Le(n, WIDTH_32);
    assert n <= |data|;
    assert p[4..4 + n] == data[..n];
    assert n == |data| ==> data[..n] == data;
  }

  /** A length field holds a number exactly when it is that number's 32-bit form. */
  lemma LengthField(field: Bytes, n: nat)
    requires |field| == WIDTH_32
    ensures FromLe(field) == n <==> n < TWO_32 && field == Le(n, WIDTH_32)
  {
    Widths();
    LeOfFromLe(field);
    if n < TWO_32 {
      LeRoundTrip(n, WIDTH_32);
    }
  }

  /** What unpadding accepts, on any bytes: a length field followed by at least that many bytes. */
  lemma UnpadAccepts(data: Bytes, payload: Bytes)
    ensures Unpad(data) == Some(payload) <==>
      && |payload| < TWO_32 && 4 + |payload| <= |data|
      && data[..4] == Le(|payload|, WIDTH_32) && data[4..4 + |payload|] == payload
  {
    if |data| >= 4 {
      LengthField(data[..4], |payload|);
    }
  }

  /** A padded packet byte by byte: the digits of the length, lowest first, the payload, and the drawn noise. */
  lemma PaddedBytes(s: Strategy, data: Bytes, d: Draw, i: nat)
    requires i < |Padded(s, data, d)|
    ensures Padded(s, data, d)[i] ==
      if i < 4 then Digit(|data| % TWO_32, i)
      else if i < 4 + |data| then data[i - 4]
      else d.noise(i - 4 - |data|)
  {
    if i < 4 {
      LeDigit(|data| % TWO_32, WIDTH_32, i);
    }
  }

  /** The first listed size above a length, or 16384 if there is none. */
  ghost predicate FirstListed(sizes: seq<nat>, len: nat, size: nat) {
    if forall i :: 0 <= i < |sizes| ==> sizes[i] <= len then size == 16384
    else exists i :: 0 <= i < |sizes| && sizes[i] == size && size > len && forall j :: 0 <= j < i ==> sizes[j] <= len
  }

  lemma {:induction false} FirstAboveIsListed(sizes: seq<nat>, len: nat)
    ensures FirstListed(sizes, len, FirstAbove(sizes, len))
  {
    if |sizes| > 0 && sizes[0] <= len {
      var rest, size := sizes[1..], FirstAbove(sizes, len);
      FirstAboveIsListed(rest, len);
      if i :| 0 <= i < |rest| && rest[i] > len {
        assert sizes[i + 1] > len;
        var k :| 0 <= k < |rest| && rest[k] == size && size > len && forall j :: 0 <= j < k ==> rest[j] <= len;
        assert sizes[k + 1] == size && forall j :: 0 <= j < k + 1 ==> sizes[j] <= len by {
          assert forall j :: 0 < j < k + 1 ==> sizes[j] == rest[j - 1];
        }
      } else {
        assert forall i :: 0 < i < |sizes| ==> sizes[i] == rest[i - 1];
      }
    }
  }

  /** What each distribution asks for, before the minimum and the jitter. */
  ghost predicate Asked(dist: SizeDistribution, len: nat, size: nat) {
    match dist
    case Fixed(sizes) => FirstListed(sizes, len, size)
    case Learned(sizes) => FirstListed(sizes, len, size)
    case Random(min, max) => if len >= max then size == max else len <= size && min <= size < max
    case Normal(_, _) => len <= size
  }

  /** The target before jitter is what the distribution asks for, or the minimum if that is more. */
  lemma BaseTargetExactly(s: Strategy, len: nat, d: Draw) returns (size: nat)
    requires Possible(s, len, d)
    ensures Asked(s.distribution, len, size)
    ensures BaseTarget(s, len, d.size) == if size < s.minSize then s.minSize else size
  {
    match s.distribution
    case Fixed(sizes) =>
      FirstAboveIsListed(sizes, len);
      size := FirstAbove(sizes, len);
    case Learned(sizes) =>
      FirstAboveIsListed(sizes, len);
      size := FirstAbove(sizes, len);
    case Random(_, max) => size := if len >= max then max else d.size;
    case Normal(_, _) => size := Max(d.size, len);
  }

  /** The buckets of the default strategy. */
  lemma DefaultBuckets(len: nat, size: nat)
    ensures BaseTarget(DEFAULT, len, size) ==
      if len < 512 then 512 else if len < 1024 then 1024 else if len < 2048 then 2048
      else if len < 4096 then 4096 else if len < 8192 then 8192 else 16384
  {
    var all := SIZE_DISTRIBUTION;
    assert all[1..] == [1024, 2048, 4096, 8192, 16384] && all[2..] == [2048, 4096, 8192, 16384];
    assert all[3..] == [4096, 8192, 16384] && all[4..] == [8192, 16384] && all[5..] == [16384] && all[6..] == [];
    assert all[1..][1..] == all[2..] && all[2..][1..] == all[3..] && all[3..][1..] == all[4..];
    assert all[4..][1..] == all[5..] && all[5..][1..] == all[6..];
    assert FirstAbove(all[5..], len) == 16384;
    assert FirstAbove(all[3..], len) == if len < 4096 then 4096 else if len < 8192 then 8192 else 16384;
    assert FirstAbove(all[1..], len) == if len < 1024 then 1024 else if len < 2048 then 2048
                                        else FirstAbove(all[3..], len);
  }

  /** The packet grows to its target, or not at all; the target stays within a tenth of the base, and without jitter is
      the base. */
  lemma PaddedLength(s: Strategy, data: Bytes, d: Draw)
    requires Possible(s, |data|, d)
    ensures |Padded(s, data, d)| == 4 + Max(|data|, TargetSize(s, |data|, d))
    ensures !s.jitter ==> TargetSize(s, |data|, d) == BaseTarget(s, |data|, d.size)
    ensures var base := BaseTarget(s, |data|, d.size);
      base - base / 10 <= TargetSize(s, |data|, d) <= base + base / 10
  {}

  /** Packet lengths an observer can see for a payload of a given length. */
  ghost predicate Observable(s: Strategy, len: nat, n: nat) {
    exists d: Draw :: Possible(s, len, d) && n == 4 + Max(len, TargetSize(s, len, d))
  }

  /** With jitter over listed sizes, the observable lengths are exactly one interval. */
  lemma ObservableInterval(s: Strategy, len: nat, n: nat)
    requires s.jitter && (s.distribution.Fixed? || s.distribution.Learned?)
    ensures var base := BaseTarget(s, len, 0);
      Observable(s, len, n) <==> 4 + Max(len, base - base / 10) <= n <= 4 + Max(len, base + base / 10)
  {
    var base := BaseTarget(s, len, 0);
    var low := base - base / 10;
    if 4 + Max(len, low) <= n <= 4 + Max(len, base + base / 10) {
      var jitter := if n - 4 < low then 0 else if n - 4 - low <= base / 10 * 2 then n - 4 - low else base / 10 * 2;
      var d := Draw(0, jitter, _ => 0);
      assert Possible(s, len, d) && n == 4 + Max(len, TargetSize(s, len, d));
    }
  }

  /** Random sizes without jitter: the observable lengths are exactly the range asked for, from the minimum up. */
  lemma ObservableRandom(s: Strategy, len: nat, n: nat)
    requires !s.jitter && s.distribution.Random? && Max(len, s.distribution.min) < s.distribution.max
    ensures Observable(s, len, n) <==>
      4 + Max(s.minSize, Max(len, s.distribution.min)) <= n <= 4 + Max(s.minSize, s.distribution.max - 1)
  {
    var low, high := Max(len, s.distribution.min), s.distribution.max - 1;
    if 4 + Max(s.minSize, low) <= n <= 4 + Max(s.minSize, high) {
      var d := Draw(if n - 4 < low then low else if n - 4 > high then high else n - 4, 0, _ => 0);
      assert Possible(s, len, d) && n == 4 + Max(len, TargetSize(s, len, d));
    }
  }

  /** Two payload lengths in one bucket look alike exactly when both are at most the smallest jittered target. */
  lemma BucketsLookAlike(s: Strategy, a: nat, b: nat)
    requires s.jitter && (s.distribution.Fixed? || s.distribution.Learned?)
    requires BaseTarget(s, a, 0) == BaseTarget(s, b, 0) && a != b
    requires a < BaseTarget(s, a, 0) && b < BaseTarget(s, b, 0)
    ensures var base := BaseTarget(s, a, 0);
      (forall n: nat :: Observable(s, a, n) <==> Observable(s, b, n)) <==> Max(a, b) <= base - base / 10
  {
    var base := BaseTarget(s, a, 0);
    forall n: nat
      ensures Observable(s, a, n) <==> 4 + Max(a, base - base / 10) <= n <= 4 + base + base / 10
      ensures Observable(s, b, n) <==> 4 + Max(b, base - base / 10) <= n <= 4 + base + base / 10
    {
      ObservableInterval(s, a, n);
      ObservableInterval(s, b, n);
    }
    if Max(a, b) > base - base / 10 {
      var n := 4 + Max(if a < b then a else b, base - base / 10);
      assert Observable(s, a, n) != Observable(s, b, n);
    }
  }
}
