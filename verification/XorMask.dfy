/**
 The time-windowed XOR mask: an xorshift64 generator, and the loops that apply its bytes to a buffer.

 The generator is linear over XOR. Two consequences are proved here: a step can be undone, so seeds never
 merge; and nine mask bytes determine the seed, so unmasking in another time window never restores nine or
 more bytes.
 */
module XorMask {
  import opened Base

  // ---- XOR and shifts, one function per distance in use ----

  function Xor(x: bv64, y: bv64): bv64 { x ^ y }

  function Shl13(x: bv64): bv64 { x << 13 }
  function Shl17(x: bv64): bv64 { x << 17 }
  function Shl26(x: bv64): bv64 { x << 26 }
  function Shl34(x: bv64): bv64 { x << 34 }
  function Shl52(x: bv64): bv64 { x << 52 }
  function Shr7(x: bv64): bv64 { x >> 7 }
  function Shr14(x: bv64): bv64 { x >> 14 }
  function Shr28(x: bv64): bv64 { x >> 28 }
  function Shr56(x: bv64): bv64 { x >> 56 }

  function XorShl13(x: bv64): bv64 { Xor(x, Shl13(x)) }
  function XorShl17(x: bv64): bv64 { Xor(x, Shl17(x)) }
  function XorShl26(x: bv64): bv64 { Xor(x, Shl26(x)) }
  function XorShl34(x: bv64): bv64 { Xor(x, Shl34(x)) }
  function XorShl52(x: bv64): bv64 { Xor(x, Shl52(x)) }
  function XorShr7(x: bv64): bv64 { Xor(x, Shr7(x)) }
  function XorShr14(x: bv64): bv64 { Xor(x, Shr14(x)) }
  function XorShr28(x: bv64): bv64 { Xor(x, Shr28(x)) }
  function XorShr56(x: bv64): bv64 { Xor(x, Shr56(x)) }

  // ---- the generator ----

  /** One xorshift64 step. */
  function Step(s: bv64): bv64 {
    XorShl17(XorShr7(XorShl13(s)))
  }

  /** The generator's state after n steps. */
  function StateAt(seed: bv64, n: nat): bv64 {
    if n == 0 then seed else Step(StateAt(seed, n - 1))
  }

  function LowByte(s: bv64): Byte {
    ((s & 0xFF) as bv8) as Byte
  }

  /** The mask of a given length: the low byte of each state that follows the seed. */
  function Mask(seed: bv64, n: nat): (m: Bytes)
    ensures |m| == n
  {
    seq(n, i requires 0 <= i < n => LowByte(StateAt(seed, i + 1)))
  }

  // ---- the algebra of XOR and shifts ----

  lemma XorFlatLeft(a: bv64, b: bv64, c: bv64) ensures Xor(Xor(a, b), c) == a ^ b ^ c {}
  lemma XorFlatRight(a: bv64, b: bv64, c: bv64) ensures Xor(a, Xor(b, c)) == a ^ b ^ c {}
  lemma XorComm(a: bv64, b: bv64) ensures Xor(a, b) == Xor(b, a) {}
  lemma XorSelf(a: bv64, b: bv64) ensures Xor(a, Xor(a, b)) == b {}

  lemma XorAssoc(a: bv64, b: bv64, c: bv64)
    ensures Xor(Xor(a, b), c) == Xor(a, Xor(b, c))
  {
    XorFlatLeft(a, b, c);
    XorFlatRight(a, b, c);
  }

  lemma XorCancel(a: bv64, b: bv64, c: bv64)
    ensures Xor(Xor(a, b), Xor(b, c)) == Xor(a, c)
  {
    XorAssoc(a, b, Xor(b, c));
    XorSelf(b, c);
  }

  lemma XorSwap(a: bv64, b: bv64, c: bv64, d: bv64)
    ensures Xor(Xor(a, b), Xor(c, d)) == Xor(Xor(a, c), Xor(b, d))
  {
    XorAssoc(a, b, Xor(c, d));
    XorAssoc(b, c, d);
    XorComm(b, c);
    XorAssoc(c, b, d);
    XorAssoc(a, c, Xor(b, d));
  }

  // A shift distributes over XOR; one lemma per distance in use.
  lemma Shl13OfXor(a: bv64, b: bv64) ensures Shl13(Xor(a, b)) == Xor(Shl13(a), Shl13(b)) {}
  lemma Shl26OfXor(a: bv64, b: bv64) ensures Shl26(Xor(a, b)) == Xor(Shl26(a), Shl26(b)) {}
  lemma Shl17OfXor(a: bv64, b: bv64) ensures Shl17(Xor(a, b)) == Xor(Shl17(a), Shl17(b)) {}
  lemma Shr7OfXor(a: bv64, b: bv64) ensures Shr7(Xor(a, b)) == Xor(Shr7(a), Shr7(b)) {}
  lemma Shr14OfXor(a: bv64, b: bv64) ensures Shr14(Xor(a, b)) == Xor(Shr14(a), Shr14(b)) {}
  lemma Shr28OfXor(a: bv64, b: bv64) ensures Shr28(Xor(a, b)) == Xor(Shr28(a), Shr28(b)) {}

  // Shifting twice shifts by the sum.
  lemma Shl13Twice(x: bv64) ensures Shl13(Shl13(x)) == Shl26(x) {}
  lemma Shl26Twice(x: bv64) ensures Shl26(Shl26(x)) == Shl52(x) {}
  lemma Shl17Twice(x: bv64) ensures Shl17(Shl17(x)) == Shl34(x) {}
  lemma Shr7Twice(x: bv64) ensures Shr7(Shr7(x)) == Shr14(x) {}
  lemma Shr14Twice(x: bv64) ensures Shr14(Shr14(x)) == Shr28(x) {}
  lemma Shr28Twice(x: bv64) ensures Shr28(Shr28(x)) == Shr56(x) {}

  // ---- stepping is a bijection ----

  /** Undoes a step: a shift-and-xor is cancelled by repeating it at doubled distances until nothing is left. */
  function Unstep(s: bv64): bv64 {
    var b := XorShl34(XorShl17(s));
    var a := XorShr56(XorShr28(XorShr14(XorShr7(b))));
    XorShl52(XorShl26(XorShl13(a)))
  }

  // One doubling: two equal shift-and-xors make one at twice the distance.
  lemma Shl13Doubles(x: bv64)
    ensures XorShl13(XorShl13(x)) == XorShl26(x)
  {
    Shl13OfXor(x, Shl13(x));
    Shl13Twice(x);
    XorCancel(x, Shl13(x), Shl26(x));
  }

  lemma Shl26Doubles(x: bv64)
    ensures XorShl26(XorShl26(x)) == XorShl52(x)
  {
    Shl26OfXor(x, Shl26(x));
    Shl26Twice(x);
    XorCancel(x, Shl26(x), Shl52(x));
  }

  lemma Shl17Doubles(x: bv64)
    ensures XorShl17(XorShl17(x)) == XorShl34(x)
  {
    Shl17OfXor(x, Shl17(x));
    Shl17Twice(x);
    XorCancel(x, Shl17(x), Shl34(x));
  }

  lemma Shr7Doubles(x: bv64)
    ensures XorShr7(XorShr7(x)) == XorShr14(x)
  {
    Shr7OfXor(x, Shr7(x));
    Shr7Twice(x);
    XorCancel(x, Shr7(x), Shr14(x));
  }

  lemma Shr14Doubles(x: bv64)
    ensures XorShr14(XorShr14(x)) == XorShr28(x)
  {
    Shr14OfXor(x, Shr14(x));
    Shr14Twice(x);
    XorCancel(x, Shr14(x), Shr28(x));
  }

  lemma Shr28Doubles(x: bv64)
    ensures XorShr28(XorShr28(x)) == XorShr56(x)
  {
    Shr28OfXor(x, Shr28(x));
    Shr28Twice(x);
    XorCancel(x, Shr28(x), Shr56(x));
  }

  // At these distances the second shift leaves no bits.
  lemma Shl52Cancels(x: bv64) ensures XorShl52(XorShl52(x)) == x {}
  lemma Shl34Cancels(x: bv64) ensures XorShl34(XorShl34(x)) == x {}
  lemma Shr56Cancels(x: bv64) ensures XorShr56(XorShr56(x)) == x {}

  /** Stepping is injective: it has a left inverse. */
  lemma UnstepOfStep(x: bv64)
    ensures Unstep(Step(x)) == x
  {
    var a := XorShl13(x);
    var b := XorShr7(a);
    Shl17Doubles(b);
    Shl34Cancels(b);
    Shr7Doubles(a);
    Shr14Doubles(a);
    Shr28Doubles(a);
    Shr56Cancels(a);
    Shl13Doubles(x);
    Shl26Doubles(x);
    Shl52Cancels(x);
  }

  /** A right inverse: the same factors, applied in the opposite order. */
  function Preimage(s: bv64): bv64 {
    var b := XorShl17(XorShl34(s));
    var a := XorShr7(XorShr14(XorShr28(XorShr56(b))));
    XorShl13(XorShl26(XorShl52(a)))
  }

  /** Stepping is surjective, and the left inverse is the inverse on both sides. */
  lemma StepOfUnstep(s: bv64)
    ensures Step(Unstep(s)) == s
  {
    var b := XorShl17(XorShl34(s));
    var a := XorShr7(XorShr14(XorShr28(XorShr56(b))));
    Shl34Cancels(s);
    Shl17Doubles(XorShl34(s));
    Shr56Cancels(b);
    Shr28Doubles(XorShr56(b));
    Shr14Doubles(XorShr28(XorShr56(b)));
    Shr7Doubles(XorShr14(XorShr28(XorShr56(b))));
    Shl52Cancels(a);
    Shl26Doubles(XorShl52(a));
    Shl13Doubles(XorShl26(XorShl52(a)));
    assert Step(Preimage(s)) == s;
    UnstepOfStep(Preimage(s));
  }

  lemma StepZero()
    ensures Step(0) == 0
  {}

  /** Different seeds have different states at every position. */
  lemma {:induction false} SeedsNeverMerge(x: bv64, y: bv64, n: nat)
    ensures StateAt(x, n) == StateAt(y, n) <==> x == y
  {
    if n > 0 {
      UnstepOfStep(StateAt(x, n - 1));
      UnstepOfStep(StateAt(y, n - 1));
      SeedsNeverMerge(x, y, n - 1);
    }
  }

  lemma {:induction false} ZeroStays(n: nat)
    ensures StateAt(0, n) == 0
  {
    if n > 0 {
      ZeroStays(n - 1);
      StepZero();
    }
  }

  /** A non-zero seed never reaches the all-zero state, and the zero seed never leaves it. */
  lemma ZeroOnlyFromZero(seed: bv64, n: nat)
    ensures StateAt(seed, n) == 0 <==> seed == 0
  {
    ZeroStays(n);
    SeedsNeverMerge(seed, 0, n);
  }

  // ---- nine mask bytes determine the seed ----

  lemma XorShl13Linear(x: bv64, y: bv64)
    ensures XorShl13(Xor(x, y)) == Xor(XorShl13(x), XorShl13(y))
  {
    Shl13OfXor(x, y);
    XorSwap(x, y, Shl13(x), Shl13(y));
  }

  lemma XorShr7Linear(x: bv64, y: bv64)
    ensures XorShr7(Xor(x, y)) == Xor(XorShr7(x), XorShr7(y))
  {
    Shr7OfXor(x, y);
    XorSwap(x, y, Shr7(x), Shr7(y));
  }

  lemma XorShl17Linear(x: bv64, y: bv64)
    ensures XorShl17(Xor(x, y)) == Xor(XorShl17(x), XorShl17(y))
  {
    Shl17OfXor(x, y);
    XorSwap(x, y, Shl17(x), Shl17(y));
  }

  lemma {:induction false} StateLinear(x: bv64, y: bv64, n: nat)
    ensures StateAt(Xor(x, y), n) == Xor(StateAt(x, n), StateAt(y, n))
  {
    if n > 0 {
      StateLinear(x, y, n - 1);
      var p, q := StateAt(x, n - 1), StateAt(y, n - 1);
      XorShl13Linear(p, q);
      XorShr7Linear(XorShl13(p), XorShl13(q));
      XorShl17Linear(XorShr7(XorShl13(p)), XorShr7(XorShl13(q)));
    }
  }

  lemma {:induction false} StateShift(x: bv64, n: nat)
    ensures StateAt(Step(x), n) == StateAt(x, n + 1)
  {
    if n > 0 {
      StateShift(x, n - 1);
    }
  }

  /** The lowest 8 + 7 * level bits are zero. */
  predicate LowBitsZero(x: bv64, level: nat)
    requires level <= 8
  {
    match level
    case 0 => x & 0xFF == 0
    case 1 => x & 0x7FFF == 0
    case 2 => x & 0x3F_FFFF == 0
    case 3 => x & 0x1FFF_FFFF == 0
    case 4 => x & 0xF_FFFF_FFFF == 0
    case 5 => x & 0x7FF_FFFF_FFFF == 0
    case 6 => x & 0x3_FFFF_FFFF_FFFF == 0
    case 7 => x & 0x1FF_FFFF_FFFF_FFFF == 0
    case 8 => x & 0xFFFF_FFFF_FFFF_FFFF == 0
  }

  /** The next two lemmas with the intermediate values of a step named, first in the machine's operations. */
  lemma SevenMoreBitsOfWords(x: bv64, p: bv64, a: bv64, q: bv64, b: bv64, w: bv64, s: bv64, level: nat)
    requires p == x << 13 && a == x ^ p && q == a >> 7 && b == a ^ q && w == b << 17 && s == b ^ w
    requires level < 8
    requires LowBitsZero(x, level) && LowBitsZero(s, level)
    ensures LowBitsZero(x, level + 1)
  {}

  lemma IsXor(x: bv64, y: bv64, z: bv64) requires z == Xor(x, y) ensures z == x ^ y {}
  lemma IsShl13(x: bv64, y: bv64) requires y == Shl13(x) ensures y == x << 13 {}
  lemma IsShr7(x: bv64, y: bv64) requires y == Shr7(x) ensures y == x >> 7 {}
  lemma IsShl17(x: bv64, y: bv64) requires y == Shl17(x) ensures y == x << 17 {}

  lemma SevenMoreBitsNamed(x: bv64, p: bv64, a: bv64, q: bv64, b: bv64, w: bv64, s: bv64, level: nat)
    requires p == Shl13(x) && a == Xor(x, p) && q == Shr7(a) && b == Xor(a, q) && w == Shl17(b) && s == Xor(b, w)
    requires level < 8
    requires LowBitsZero(x, level) && LowBitsZero(s, level)
    ensures LowBitsZero(x, level + 1)
  {
    IsShl13(x, p);
    IsXor(x, p, a);
    IsShr7(a, q);
    IsXor(a, q, b);
    IsShl17(b, w);
    IsXor(b, w, s);
    SevenMoreBitsOfWords(x, p, a, q, b, w, s, level);
  }

  lemma XorIs(x: bv64, y: bv64, z: bv64) requires z == x ^ y ensures z == Xor(x, y) {}
  lemma Shl13Is(x: bv64, y: bv64) requires y == x << 13 ensures y == Shl13(x) {}
  lemma Shr7Is(x: bv64, y: bv64) requires y == x >> 7 ensures y == Shr7(x) {}
  lemma Shl17Is(x: bv64, y: bv64) requires y == x << 17 ensures y == Shl17(x) {}

  /** A step in the machine's operations: the shifts are 13 left, 7 right and 17 left, in this order. */
  lemma StepIsXorshift(x: bv64, p: bv64, a: bv64, q: bv64, b: bv64, w: bv64, s: bv64)
    requires p == x << 13 && a == x ^ p && q == a >> 7 && b == a ^ q && w == b << 17 && s == b ^ w
    ensures Step(x) == s
  {
    Shl13Is(x, p);
    XorIs(x, p, a);
    Shr7Is(a, q);
    XorIs(a, q, b);
    Shl17Is(b, w);
    XorIs(b, w, s);
  }

  /** If a state and its successor are zero in their low bits, the state is zero in seven bits more. */
  lemma SevenMoreBits(x: bv64, level: nat)
    requires level < 8
    requires LowBitsZero(x, level) && LowBitsZero(Step(x), level)
    ensures LowBitsZero(x, level + 1)
  {
    var a := XorShl13(x);
    var b := XorShr7(a);
    SevenMoreBitsNamed(x, Shl13(x), a, Shr7(a), b, Shl17(b), Step(x), level);
  }

  /** A run of states whose low bytes are all zero starts from a state with that many low bits zero. */
  lemma {:induction false} ZeroBytesSpread(x: bv64, level: nat)
    requires level <= 8
    requires forall i: nat :: i <= level ==> LowBitsZero(StateAt(x, i), 0)
    ensures LowBitsZero(x, level)
    decreases level
  {
    if level == 0 {
      assert LowBitsZero(StateAt(x, 0), 0);
    } else {
      forall i: nat | i <= level - 1
        ensures LowBitsZero(StateAt(Step(x), i), 0)
      {
        StateShift(x, i);
      }
      ZeroBytesSpread(x, level - 1);
      ZeroBytesSpread(Step(x), level - 1);
      SevenMoreBits(x, level - 1);
    }
  }

  lemma EqualLowBytes(a: bv64, b: bv64)
    requires LowByte(a) == LowByte(b)
    ensures LowBitsZero(Xor(a, b), 0)
  {
    BitsOfByte((a & 0xFF) as bv8);
    BitsOfByte((b & 0xFF) as bv8);
    EqualLowBits(a, b);
  }

  lemma BitsOfByte(b: bv8)
    ensures (b as Byte) as bv8 == b
  {}

  lemma EqualLowBits(a: bv64, b: bv64)
    requires (a & 0xFF) as bv8 == (b & 0xFF) as bv8
    ensures LowBitsZero(Xor(a, b), 0)
  {}

  lemma AllBitsZero(x: bv64)
    requires LowBitsZero(x, 8)
    ensures x == 0
  {}

  lemma XorZero(a: bv64, b: bv64)
    requires Xor(a, b) == 0
    ensures a == b
  {}

  /** Two masks of at least nine bytes agree exactly when their seeds do. */
  lemma MaskDeterminesSeed(x: bv64, y: bv64, n: nat)
    requires n >= 9
    ensures Mask(x, n) == Mask(y, n) <==> x == y
  {
    if Mask(x, n) == Mask(y, n) {
      var d := Xor(x, y);
      forall i: nat | i <= 8
        ensures LowBitsZero(StateAt(Step(d), i), 0)
      {
        SameMaskByte(x, y, n, i);
      }
      ZeroBytesSpread(Step(d), 8);
      OnlyZeroSpreads(d);
      XorZero(x, y);
    }
  }

  lemma SameMaskByte(x: bv64, y: bv64, n: nat, i: nat)
    requires i < n && Mask(x, n)[i] == Mask(y, n)[i]
    ensures LowBitsZero(StateAt(Step(Xor(x, y)), i), 0)
  {
    EqualLowBytes(StateAt(x, i + 1), StateAt(y, i + 1));
    StateLinear(x, y, i + 1);
    StateShift(Xor(x, y), i);
  }

  lemma OnlyZeroSpreads(d: bv64)
    requires LowBitsZero(Step(d), 8)
    ensures d == 0
  {
    AllBitsZero(Step(d));
    ZeroOnlyFromZero(d, 1);
    assert StateAt(d, 1) == Step(StateAt(d, 0));
  }

  /** A seed whose first eight states end in a zero byte. */
  const SPARSE: bv64 := 0xF9F3_C78E_1C30_6081

  lemma SparseStates()
    ensures StateAt(SPARSE, 1) == 0x8000_0000_0000_0000 && StateAt(SPARSE, 2) == 0x8100_0000_0000_0000
    ensures StateAt(SPARSE, 3) == 0x8002_0000_0000_0000 && StateAt(SPARSE, 4) == 0xC982_0400_0000_0000
    ensures StateAt(SPARSE, 5) == 0x8800_0008_0000_0000 && StateAt(SPARSE, 6) == 0x8D01_2208_1000_0000
    ensures StateAt(SPARSE, 7) == 0xE882_A008_0020_0000 && StateAt(SPARSE, 8) == 0xF362_970C_9820_4000
  {
    assert StateAt(SPARSE, 0) == SPARSE;
  }

  /** Nine is tight: this seed and the zero seed share their first eight mask bytes. */
  lemma EightBytesAreNotEnough()
    ensures Mask(SPARSE, 8) == Mask(0, 8) && SPARSE != 0
  {
    SparseStates();
    forall i | 0 <= i < 8
      ensures Mask(SPARSE, 8)[i] == Mask(0, 8)[i]
    {
      ZeroStays(i + 1);
    }
  }

  // ---- applying the mask ----

  /** Byte-wise XOR of a buffer with a mask; bytes past the end of the mask stay as they are. */
  function Masked(data: Bytes, mask: Bytes): (r: Bytes)
    ensures |r| == |data|
  {
    seq(|data|, i requires 0 <= i < |data| => if i < |mask| then XorByte(data[i], mask[i]) else data[i])
  }

  /** The generator seed in a time window: the window's number mixed with the session key. */
  function Seed(window: bv64, key: bv64): bv64 {
    window ^ key
  }

  method XorScalar(data: array<Byte>, mask: Bytes)
    modifies data
    ensures data[..] == Masked(old(data[..]), mask)
  {
    var i := 0;
    while i < data.Length && i < |mask|
      invariant 0 <= i <= data.Length && i <= |mask|
      invariant forall j :: 0 <= j < i ==> data[j] == XorByte(old(data[j]), mask[j])
      invariant forall j :: i <= j < data.Length ==> data[j] == old(data[j])
    {
      data[i] := XorByte(data[i], mask[i]);
      i := i + 1;
    }
  }

  /** The vector loops: whole blocks of 32 (AVX2) or 16 (NEON) lanes at a time, then the bytes left over. */
  method XorBlocked(data: array<Byte>, mask: Bytes, lanes: nat)
    requires lanes > 0
    requires |mask| == data.Length
    modifies data
    ensures data[..] == Masked(old(data[..]), mask)
  {
    var i := 0;
    while i + lanes <= data.Length
      invariant 0 <= i <= data.Length
      invariant forall j :: 0 <= j < i ==> data[j] == XorByte(old(data[j]), mask[j])
      invariant forall j :: i <= j < data.Length ==> data[j] == old(data[j])
    {
      forall j | i <= j < i + lanes {
        data[j] := XorByte(data[j], mask[j]);
      }
      i := i + lanes;
    }
    while i < data.Length
      invariant 0 <= i <= data.Length
      invariant forall j :: 0 <= j < i ==> data[j] == XorByte(old(data[j]), mask[j])
      invariant forall j :: i <= j < data.Length ==> data[j] == old(data[j])
    {
      data[i] := XorByte(data[i], mask[i]);
      i := i + 1;
    }
  }

  method GenerateMask(key: bv64, timeStep: bv64, now: bv64, n: nat) returns (mask: Bytes)
    requires timeStep != 0
    ensures mask == Mask(Seed(now / timeStep, key), n)
  {
    var seed := (now / timeStep) ^ key;
    var state := seed;
    mask := [];
    for i := 0 to n
      invariant state == StateAt(seed, i)
      invariant |mask| == i
      invariant forall j :: 0 <= j < i ==> mask[j] == LowByte(StateAt(seed, j + 1))
    {
      state := XorShl13(state);
      state := XorShr7(state);
      state := XorShl17(state);
      mask := mask + [LowByte(state)];
    }
  }

  method ApplyInPlace(data: array<Byte>, key: bv64, timeStep: bv64, now: bv64)
    requires timeStep != 0
    modifies data
    ensures data[..] == Masked(old(data[..]), Mask(Seed(now / timeStep, key), data.Length))
  {
    var mask := GenerateMask(key, timeStep, now, data.Length);
    XorScalar(data, mask);
  }

  lemma SeedsAgree(a: bv64, b: bv64, key: bv64)
    ensures Seed(a, key) == Seed(b, key) <==> a == b
  {}

  /** A window and a key mix to the same number as another pair. */
  predicate SameMix(window: bv64, key: bv64, window': bv64, key': bv64) {
    window ^ key == window' ^ key'
  }

  lemma SeedsAgreeWhen(window: bv64, key: bv64, window': bv64, key': bv64)
    ensures Seed(window, key) == Seed(window', key') <==> SameMix(window, key, window', key')
    ensures SameMix(window, key, window', key') <==> SameMix(window', key', window, key)
  {}

  /** With one key only the same window mixes to the same number, and in one window only the same key. */
  lemma SameWindow(window: bv64, window': bv64, key: bv64)
    ensures SameMix(window, key, window', key) <==> window == window'
  {
    SeedsAgreeWhen(window, key, window', key);
    SeedsAgree(window, window', key);
  }

  lemma KeysAgree(window: bv64, key: bv64, key': bv64)
    ensures Seed(window, key) == Seed(window, key') <==> key == key'
  {}

  lemma SameKey(window: bv64, key: bv64, key': bv64)
    ensures SameMix(window, key, window, key') <==> key == key'
  {
    SeedsAgreeWhen(window, key, window, key');
    KeysAgree(window, key, key');
  }

  /** The bytes of the mask are xored in; bytes past its end stay as they are. */
  lemma MaskedByte(data: Bytes, mask: Bytes, i: nat, bit: nat)
    requires i < |data| && bit < 8
    ensures i < |mask| ==>
      (Bit(Masked(data, mask)[i] as nat, bit) <==> Bit(data[i] as nat, bit) != Bit(mask[i] as nat, bit))
    ensures i >= |mask| ==> Masked(data, mask)[i] == data[i]
  {
    if i < |mask| {
      XorByteBit(data[i], mask[i], bit);
    }
  }

  /** A second mask undoes a first exactly when it is the same mask. */
  lemma UnmaskNeedsMask(data: Bytes, m: Bytes, k: Bytes)
    requires |m| == |k| == |data|
    ensures Masked(Masked(data, m), k) == data <==> m == k
  {
    forall i | 0 <= i < |data|
      ensures Masked(Masked(data, m), k)[i] == data[i] <==> m[i] == k[i]
    {
      XorByteTwice(data[i], m[i], k[i]);
    }
    if Masked(Masked(data, m), k) == data {
      assert forall i :: 0 <= i < |data| ==> Masked(Masked(data, m), k)[i] == data[i];
    }
  }

  /** Masking twice inside one time window restores the data, whatever its length. */
  lemma UnmaskInWindow(data: Bytes, seed: bv64)
    ensures Masked(Masked(data, Mask(seed, |data|)), Mask(seed, |data|)) == data
  {
    UnmaskNeedsMask(data, Mask(seed, |data|), Mask(seed, |data|));
  }

  /** For nine bytes or more, unmasking restores the data exactly when both ends are in the same time window. */
  lemma UnmaskOnlyInWindow(data: Bytes, key: bv64, window: bv64, window': bv64)
    requires |data| >= 9
    ensures Masked(Masked(data, Mask(Seed(window, key), |data|)), Mask(Seed(window', key), |data|)) == data
      <==> window == window'
  {
    UnmaskNeedsMask(data, Mask(Seed(window, key), |data|), Mask(Seed(window', key), |data|));
    MaskDeterminesSeed(Seed(window, key), Seed(window', key), |data|);
    SeedsAgree(window, window', key);
  }

  /** With other keys as well: unmasking restores nine bytes or more exactly when window and key mix to the same number
      at both ends. */
  lemma UnmaskOnlyWithSeed(data: Bytes, key: bv64, key': bv64, window: bv64, window': bv64)
    requires |data| >= 9
    ensures Masked(Masked(data, Mask(Seed(window, key), |data|)), Mask(Seed(window', key'), |data|)) == data
      <==> SameMix(window, key, window', key')
  {
    UnmaskNeedsMask(data, Mask(Seed(window, key), |data|), Mask(Seed(window', key'), |data|));
    MaskDeterminesSeed(Seed(window, key), Seed(window', key'), |data|);
    SeedsAgreeWhen(window, key, window', key');
  }

  /** The first bytes of one mask, worked out: window 5 and key 4 mix to seed 1. */
  lemma MaskOfSeedOne()
    ensures Mask(Seed(5, 4), 4) == [0x41, 0x41, 0x29, 0x25]
  {
    assert Seed(5, 4) == 1;
    assert StateAt(1, 1) == 0x4082_2041;
    assert StateAt(1, 2) == 0x1000_4106_0C01_1441;
    assert StateAt(1, 3) == 0x9B1E_842F_6E86_2629;
    assert StateAt(1, 4) == 0xF554_F503_555D_8025;
  }

  /** A shorter mask is a prefix of a longer one, so a prefix of masked data is the masked prefix. */
  lemma MaskedPrefix(seed: bv64, data: Bytes, n: nat)
    requires n <= |data|
    ensures Masked(data[..n], Mask(seed, n)) == Masked(data, Mask(seed, |data|))[..n]
  {
    assert Mask(seed, |data|)[..n] == Mask(seed, n);
  }
}
