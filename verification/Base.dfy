/** Bytes, optional values, fixed-width integers and foreign serialisers, shared by every component. */
module Base {

  datatype Option<+T> = None | Some(value: T)

  newtype Byte = x: int | 0 <= x < 256
  type Bytes = seq<Byte>

  const TWO_32: nat := 0x1_0000_0000
  const TWO_64: nat := 0x1_0000_0000_0000_0000

  /** Widths in bytes of 32-bit and 64-bit fields. */
  const WIDTH_32: nat := 4
  const WIDTH_64: nat := 8

  type Bytes16 = a: Bytes | |a| == 16 witness seq(16, _ => 0)

  type u16 = x: nat | x < 65536
  type u32 = x: nat | x < TWO_32
  type u64 = x: nat | x < TWO_64

  /** A serialiser the program calls but does not define (rkyv, serde_json, zstd). Encoding may fail. */
  datatype Codec<!T> = Codec(encode: T -> Option<Bytes>, decode: Bytes -> Option<T>)

  /** What the program relies on: whatever was encoded is not empty and decodes to what it was. */
  ghost predicate Lawful<T(!new)>(c: Codec<T>) {
    forall x: T :: c.encode(x).Some? ==>
      c.encode(x).value != [] && c.decode(c.encode(x).value) == Some(x)
  }

  function Front<T>(s: seq<T>): seq<T>
    requires |s| > 0
  {
    s[..|s| - 1]
  }

  function Last<T>(s: seq<T>): T
    requires |s| > 0
  {
    s[|s| - 1]
  }

  lemma Assoc<T>(a: seq<T>, b: seq<T>, c: seq<T>)
    ensures (a + b) + c == a + (b + c)
  {}

  /** The two parts of a concatenation. */
  lemma Parts<T>(a: seq<T>, b: seq<T>)
    ensures (a + b)[..|a|] == a && (a + b)[|a|..] == b
  {}

  /** A sequence split at an index. */
  lemma SplitAt<T>(s: seq<T>, i: nat)
    requires i <= |s|
    ensures s == s[..i] + s[i..]
  {}

  lemma PrefixRest<T>(a: seq<T>, s: seq<T>)
    requires a <= s
    ensures s == a + s[|a|..]
  {}

  lemma TakePast<T>(a: seq<T>, b: seq<T>, n: nat)
    requires n <= |b|
    ensures (a + b)[..|a| + n] == a + b[..n]
  {}

  lemma TakeWithin<T>(a: seq<T>, b: seq<T>, n: nat)
    requires n <= |a|
    ensures (a + b)[..n] == a[..n]
  {}

  // ---- fixed-width integers ----

  lemma SmallMod(n: nat, m: nat)
    requires n < m
    ensures n % m == n
  {}

  function Pow256(width: nat): (p: nat)
    ensures p > 0
  {
    if width == 0 then 1 else 256 * Pow256(width - 1)
  }

  lemma Widths()
    ensures Pow256(WIDTH_32) == TWO_32 && Pow256(WIDTH_64) == TWO_64
  {
    assert Pow256(2) == 65536;
    assert Pow256(4) == 65536 * Pow256(2);
    assert Pow256(6) == 65536 * Pow256(4);
    assert Pow256(8) == 65536 * Pow256(6);
  }

  lemma DivMod256(q: nat, r: nat)
    requires r < 256
    ensures (q * 256 + r) / 256 == q && (q * 256 + r) % 256 == r
  {}

  lemma SplitByte(n: nat, p: nat)
    requires n < 256 * p
    ensures n / 256 < p && n == n / 256 * 256 + n % 256
  {}

  /** Little-endian bytes of n, lowest first. */
  function Le(n: nat, width: nat): (s: Bytes)
    ensures |s| == width
  {
    if width == 0 then [] else [(n % 256) as Byte] + Le(n / 256, width - 1)
  }

  function FromLe(s: Bytes): (n: nat)
    ensures n < Pow256(|s|)
  {
    if s == [] then 0 else s[0] as nat + 256 * FromLe(s[1..])
  }

  /** Big-endian bytes of n, highest first. */
  function Be(n: nat, width: nat): (s: Bytes)
    ensures |s| == width
  {
    if width == 0 then [] else Be(n / 256, width - 1) + [(n % 256) as Byte]
  }

  function FromBe(s: Bytes): (n: nat)
    ensures n < Pow256(|s|)
  {
    if s == [] then 0 else FromBe(s[..|s| - 1]) * 256 + s[|s| - 1] as nat
  }

  lemma {:induction false} LeRoundTrip(n: nat, width: nat)
    requires n < Pow256(width)
    ensures FromLe(Le(n, width)) == n
  {
    if width > 0 {
      var s := Le(n, width);
      SplitByte(n, Pow256(width - 1));
      assert s[1..] == Le(n / 256, width - 1);
      LeRoundTrip(n / 256, width - 1);
    }
  }

  lemma {:induction false} LeOfFromLe(s: Bytes)
    ensures Le(FromLe(s), |s|) == s
  {
    if s != [] {
      LeOfFromLe(s[1..]);
      DivMod256(FromLe(s[1..]), s[0] as nat);
      assert s == [s[0]] + s[1..];
    }
  }

  lemma FromBeSnoc(s: Bytes, last: Byte)
    ensures FromBe(s + [last]) == FromBe(s) * 256 + last as nat
  {
    assert (s + [last])[..|s|] == s;
  }

  lemma {:induction false} BeRoundTrip(n: nat, width: nat)
    requires n < Pow256(width)
    ensures FromBe(Be(n, width)) == n
  {
    if width > 0 {
      var rest, last := n / 256, n % 256;
      SplitByte(n, Pow256(width - 1));
      BeRoundTrip(rest, width - 1);
      FromBeSnoc(Be(rest, width - 1), last as Byte);
    }
  }

  lemma {:induction false} BeOfFromBe(s: Bytes)
    ensures Be(FromBe(s), |s|) == s
  {
    if s != [] {
      var rest, last := s[..|s| - 1], s[|s| - 1];
      BeOfFromBe(rest);
      DivMod256(FromBe(rest), last as nat);
      assert s == rest + [last];
    }
  }

  /** The i-th digit of a number in base 256, lowest first. */
  function Digit(n: nat, i: nat): Byte {
    if i == 0 then (n % 256) as Byte else Digit(n / 256, i - 1)
  }

  /** Little-endian bytes are the digits, lowest first; big-endian ones are the digits, highest first. */
  lemma {:induction false} LeDigit(n: nat, width: nat, i: nat)
    requires i < width
    ensures Le(n, width)[i] == Digit(n, i)
  {
    if i > 0 {
      LeDigit(n / 256, width - 1, i - 1);
    }
  }

  lemma {:induction false} BeDigit(n: nat, width: nat, i: nat)
    requires i < width
    ensures Be(n, width)[width - 1 - i] == Digit(n, i)
  {
    if i > 0 {
      BeDigit(n / 256, width - 1, i - 1);
    }
  }

  // ---- bitwise exclusive or ----

  function Pow2(width: nat): (p: nat)
    ensures p > 0
  {
    if width == 0 then 1 else 2 * Pow2(width - 1)
  }

  /** Exclusive or of the lowest bits of two numbers. */
  function XorBits(a: nat, b: nat, width: nat): (r: nat)
    ensures r < Pow2(width)
  {
    if width == 0 then 0 else (a + b) % 2 + 2 * XorBits(a / 2, b / 2, width - 1)
  }

  function XorByte(a: Byte, b: Byte): Byte {
    assert Pow2(4) == 16 && Pow2(8) == 16 * Pow2(4);
    XorBits(a as nat, b as nat, 8) as Byte
  }

  lemma Halves(a: nat, b: nat)
    ensures a == b <==> a / 2 == b / 2 && a % 2 == b % 2
  {}

  lemma Parities(d: nat, m: nat, k: nat, x: nat)
    requires x % 2 == (d + m) % 2
    ensures (x + k) % 2 == d % 2 <==> m % 2 == k % 2
  {}

  lemma HalfOf(bit: nat, rest: nat)
    requires bit < 2
    ensures (bit + 2 * rest) / 2 == rest && (bit + 2 * rest) % 2 == bit
  {}

  lemma XorStep(a: nat, b: nat, width: nat)
    requires width > 0
    ensures XorBits(a, b, width) / 2 == XorBits(a / 2, b / 2, width - 1)
    ensures XorBits(a, b, width) % 2 == (a + b) % 2
  {
    HalfOf((a + b) % 2, XorBits(a / 2, b / 2, width - 1));
  }

  /** The lowest bit of two exclusive ors, given what the other bits do. */
  lemma XorTwiceBit(d: nat, m: nat, k: nat, x: nat, y: nat)
    requires x % 2 == (d + m) % 2 && y % 2 == (x + k) % 2
    requires y / 2 == d / 2 <==> m / 2 == k / 2
    ensures y == d <==> m == k
  {
    Parities(d, m, k, x);
    Halves(y, d);
    Halves(m, k);
  }

  lemma {:induction false} XorBitsTwice(d: nat, m: nat, k: nat, width: nat)
    requires d < Pow2(width) && m < Pow2(width) && k < Pow2(width)
    ensures XorBits(XorBits(d, m, width), k, width) == d <==> m == k
  {
    if width > 0 {
      XorBitsTwice(d / 2, m / 2, k / 2, width - 1);
      var x := XorBits(d, m, width);
      XorStep(d, m, width);
      var y := XorBits(x, k, width);
      XorStep(x, k, width);
      XorTwiceBit(d, m, k, x, y);
    }
  }

  /** The i-th bit of a number, lowest first. */
  function Bit(n: nat, i: nat): bool {
    if i == 0 then n % 2 == 1 else Bit(n / 2, i - 1)
  }

  lemma ParityOfSum(a: nat, b: nat)
    ensures (a + b) % 2 == 1 <==> (a % 2 == 1) != (b % 2 == 1)
  {}

  lemma {:induction false} XorBitsBit(a: nat, b: nat, width: nat, i: nat)
    requires i < width
    ensures Bit(XorBits(a, b, width), i) <==> Bit(a, i) != Bit(b, i)
  {
    var x := XorBits(a, b, width);
    XorStep(a, b, width);
    if i == 0 {
      ParityOfSum(a, b);
    } else {
      XorBitsBit(a / 2, b / 2, width - 1, i - 1);
      assert Bit(x, i) == Bit(x / 2, i - 1);
    }
  }

  /** A bit of the result is set exactly when the two bits differ. */
  lemma XorByteBit(a: Byte, b: Byte, i: nat)
    requires i < 8
    ensures Bit(XorByte(a, b) as nat, i) <==> Bit(a as nat, i) != Bit(b as nat, i)
  {
    XorBitsBit(a as nat, b as nat, 8, i);
  }

  /** Masking a byte twice restores it exactly when both masks are the same byte. */
  lemma XorByteTwice(d: Byte, m: Byte, k: Byte)
    ensures XorByte(XorByte(d, m), k) == d <==> m == k
  {
    assert Pow2(4) == 16 && Pow2(8) == 16 * Pow2(4);
    XorBitsTwice(d as nat, m as nat, k as nat, 8);
  }
}
