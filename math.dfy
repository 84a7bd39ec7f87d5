/** The integer helpers of alflib/math/math.hpp. Unsigned values are naturals below their
    type's modulus; the bitwise AND the helpers use is defined here on naturals, one binary digit
    at a time. */
module Math {
  import opened Common

  /** Min(a, b) is `a < b ? a : b`: one of its arguments and no larger than either. */
  function Min(a: int, b: int): (r: int)
    ensures r == a || r == b
    ensures r <= a && r <= b
  {
    if a < b then a else b
  }

  /** Max(a, b) is `a > b ? a : b`: one of its arguments and no smaller than either. */
  function Max(a: int, b: int): (r: int)
    ensures r == a || r == b
    ensures r >= a && r >= b
  {
    if a > b then a else b
  }

  /** 2^k. */
  function Pow2(k: nat): (r: nat)
    ensures r >= 1
  {
    if k == 0 then 1 else 2 * Pow2(k - 1)
  }

  /** `x & y`: bit i of the result is set exactly when bit i is set in both, so the result is
      no larger than either operand. */
  function And(x: nat, y: nat): (r: nat)
    ensures r <= x && r <= y
    decreases x
  {
    if x == 0 || y == 0 then 0
    else 2 * And(x / 2, y / 2) + (if x % 2 == 1 && y % 2 == 1 then 1 else 0)
  }

  /** `-a` on a u32: the unsigned negation, 2^32 - a for a > 0. */
  function NegU32(a: u32): u32 {
    (U32_MODULUS - a) % U32_MODULUS
  }

  /** `value && !(value & value - 1)` on a u64: the source's test for a power of two. */
  predicate IsPowerOfTwo(value: u64) {
    value != 0 && And(value, value - 1) == 0
  }

  /** The bit test holds exactly for the 64 powers of two 2^0 .. 2^63 (and so not for 0). */
  lemma PowerOfTwoIff(value: u64)
    ensures IsPowerOfTwo(value) <==> exists k :: k < 64 && value == Pow2(k)
  {
    if IsPowerOfTwo(value) {
      var k := Exponent(value);
      Pow2Of64();
      ExponentBelow(k, 64);
    }
    forall k | k < 64 && value == Pow2(k)
      ensures IsPowerOfTwo(value)
    {
      PowerPassesTest(k);
    }
  }

  /** Every power of two passes the bit test. */
  lemma {:induction false} PowerPassesTest(k: nat)
    ensures And(Pow2(k), Pow2(k) - 1) == 0
  {
    if k > 0 {
      PowerPassesTest(k - 1);
      assert Pow2(k) / 2 == Pow2(k - 1) && (Pow2(k) - 1) / 2 == Pow2(k - 1) - 1;
    }
  }

  /** `x & x == x`. */
  lemma {:induction false} AndSelf(x: nat)
    ensures And(x, x) == x
  {
    if x > 0 {
      AndSelf(x / 2);
    }
  }

  /** The powers of two grow: 2^64 and above do not fit in a u64. */
  lemma {:induction false} Pow2Grows(j: nat, k: nat)
    requires j <= k
    ensures Pow2(j) <= Pow2(k)
    decreases k - j
  {
    if j < k {
      Pow2Grows(j, k - 1);
    }
  }

  /** A value passing the bit test is 2^k for some k (found by halving it). */
  lemma {:induction false} Exponent(v: nat) returns (k: nat)
    requires v != 0 && And(v, v - 1) == 0
    ensures v == Pow2(k)
  {
    if v == 1 {
      k := 0;
    } else if v % 2 == 1 {
      assert And(v, v - 1) == 2 * And(v / 2, v / 2);
      AndSelf(v / 2);
      assert false;
    } else {
      assert (v - 1) / 2 == v / 2 - 1;
      var k' := Exponent(v / 2);
      k := k' + 1;
    }
  }

  /** The exponent of a power of two below 2^n is below n. */
  lemma ExponentBelow(k: nat, n: nat)
    requires Pow2(k) < Pow2(n)
    ensures k < n
  {
    if n <= k {
      Pow2Grows(n, k);
    }
  }

  /** Eight more doublings multiply by 256. */
  lemma {:induction false} Pow2Plus8(k: nat)
    ensures Pow2(k + 8) == 256 * Pow2(k)
  {
    if k == 0 {
      assert Pow2(2) == 4;
      assert Pow2(4) == 16;
      assert Pow2(6) == 64;
    } else {
      Pow2Plus8(k - 1);
    }
  }

  /** 2^32 is the modulus of u32 ... */
  lemma Pow2Of32()
    ensures Pow2(32) == U32_MODULUS
  {
    Pow2Plus8(0);
    Pow2Plus8(8);
    Pow2Plus8(16);
    Pow2Plus8(24);
  }

  /** ... and 2^64 that of u64. */
  lemma Pow2Of64()
    ensures Pow2(64) == U64_MODULUS
  {
    Pow2Of32();
    Pow2Plus8(32);
    Pow2Plus8(40);
    Pow2Plus8(48);
    Pow2Plus8(56);
  }

  /** The low n bits of x, that is x mod 2^n, built one binary digit at a time. */
  function Low(x: nat, n: nat): nat {
    if n == 0 then 0 else 2 * Low(x / 2, n - 1) + x % 2
  }

  /** The low n bits are below 2^n and no more than x. */
  lemma {:induction false} LowBelow(x: nat, n: nat)
    ensures Low(x, n) < Pow2(n) && Low(x, n) <= x
  {
    if n > 0 {
      LowBelow(x / 2, n - 1);
    }
  }

  /** A value below 2^n is its own low n bits. */
  lemma {:induction false} LowOfSmall(x: nat, n: nat)
    requires x < Pow2(n)
    ensures Low(x, n) == x
  {
    if n > 0 {
      LowOfSmall(x / 2, n - 1);
    }
  }

  /** 2^n has no bits below bit n. */
  lemma {:induction false} LowOfPower(n: nat)
    ensures Low(Pow2(n), n) == 0
  {
    if n > 0 {
      LowOfPower(n - 1);
    }
  }

  /** Removing the low k bits leaves no bits below bit k. */
  lemma {:induction false} LowOfRest(y: nat, k: nat)
    ensures Low(y, k) <= y && Low(y - Low(y, k), k) == 0
  {
    LowBelow(y, k);
    if k > 0 {
      LowOfRest(y / 2, k - 1);
      assert (y - Low(y, k)) / 2 == y / 2 - Low(y / 2, k - 1);
    }
  }

  /** For k <= n the low k bits of the low n bits are the low k bits. */
  lemma {:induction false} LowOfLow(x: nat, n: nat, k: nat)
    requires k <= n
    ensures Low(Low(x, n), k) == Low(x, k)
  {
    if k > 0 {
      LowOfLow(x / 2, n - 1, k - 1);
    }
  }

  /** Adding fewer than 2^k to a value with no bits below bit k sets exactly those bits. */
  lemma {:induction false} LowOfSum(y: nat, z: nat, k: nat)
    requires Low(y, k) == 0 && z < Pow2(k)
    ensures Low(y + z, k) == z
  {
    if k > 0 {
      LowOfSum(y / 2, z / 2, k - 1);
    }
  }

  /** A value below 2^n with no bits below bit k, k <= n, is at most 2^n - 2^k. */
  lemma {:induction false} AlignedBelow(y: nat, n: nat, k: nat)
    requires k <= n && Low(y, k) == 0 && y < Pow2(n)
    ensures y + Pow2(k) <= Pow2(n)
  {
    if k > 0 {
      AlignedBelow(y / 2, n - 1, k - 1);
    }
  }

  /** Masking with 2^n - 1 keeps the low n bits. */
  lemma {:induction false} AndLowMask(x: nat, n: nat)
    ensures And(x, Pow2(n) - 1) == Low(x, n)
  {
    if n > 0 {
      assert (Pow2(n) - 1) / 2 == Pow2(n - 1) - 1 && (Pow2(n) - 1) % 2 == 1;
      AndLowMask(x / 2, n - 1);
    }
  }

  /** Masking with m = 2^n - 2^k keeps bits k .. n - 1: the low n bits less the low k bits. */
  lemma {:induction false} AndMiddleMask(x: nat, n: nat, k: nat, m: nat)
    requires k <= n && m + Pow2(k) == Pow2(n)
    ensures And(x, m) == Low(x, n) - Low(x, k)
  {
    if k == 0 {
      AndLowMask(x, n);
    } else {
      AndMiddleMask(x / 2, n - 1, k - 1, m / 2);
    }
  }

  /** A u64 is a multiple of a power of two `alignment` when its bits below the alignment's
      single set bit are zero. */
  predicate IsAligned(value: u64, alignment: u64)
    requires alignment > 0
  {
    And(value, alignment - 1) == 0
  }

  /** `(base + alignment - 1) & -alignment`: the sum wraps at 2^64, and `-alignment` is negated
      as a u32 and then zero-extended to 64 bits, so the mask also clears bits 32..63. Its
      properties are the lemmas below. */
  function AlignPowerOfTwo(base: u64, alignment: u32): (r: u64)
    requires alignment > 0 && IsPowerOfTwo(alignment)
    ensures r < U32_MODULUS
    ensures r <= (base + alignment - 1) % U64_MODULUS
  {
    And((base + alignment - 1) % U64_MODULUS, NegU32(alignment))
  }

  /** The result is the low 32 bits of the (wrapped) sum with its bits below the alignment
      cleared. */
  lemma AlignClearsLowBits(base: u64, alignment: u32) returns (k: nat)
    requires alignment > 0 && IsPowerOfTwo(alignment)
    ensures k < 32 && alignment == Pow2(k)
    ensures var x := (base + alignment - 1) % U64_MODULUS;
      AlignPowerOfTwo(base, alignment) == Low(x, 32) - Low(x, k)
  {
    k := Exponent(alignment);
    Pow2Of32();
    ExponentBelow(k, 32);
    var m := NegU32(alignment);
    assert m == U32_MODULUS - alignment by {
      assert 0 < U32_MODULUS - alignment < U32_MODULUS;
    }
    var x := (base + alignment - 1) % U64_MODULUS;
    AndMiddleMask(x, 32, k, m);
    assert AlignPowerOfTwo(base, alignment) == And(x, m);
  }


  /** The result is always a multiple of the alignment. */
  lemma AlignIsAligned(base: u64, alignment: u32)
    requires alignment > 0 && IsPowerOfTwo(alignment)
    ensures IsAligned(AlignPowerOfTwo(base, alignment), alignment)
  {
    var k := AlignClearsLowBits(base, alignment);
    var y := Low((base + alignment - 1) % U64_MODULUS, 32);
    LowOfLow((base + alignment - 1) % U64_MODULUS, 32, k);
    LowOfRest(y, k);
    AndLowMask(AlignPowerOfTwo(base, alignment), k);
  }

  /** While `base + alignment - 1` fits in 32 bits the result is no smaller than `base` ... */
  lemma AlignRoundsUp(base: u64, alignment: u32)
    requires alignment > 0 && IsPowerOfTwo(alignment)
    requires base <= U32_MODULUS - alignment
    ensures base <= AlignPowerOfTwo(base, alignment)
  {
    assert (base + alignment - 1) % U64_MODULUS == base + alignment - 1;
    var k := AlignClearsLowBits(base, alignment);
    Pow2Of32();
    LowOfSmall(base + alignment - 1, 32);
    LowBelow(base + alignment - 1, k);
  }

  /** ... and less than `base + alignment`: the smallest multiple at or above `base`. */
  lemma AlignStaysClose(base: u64, alignment: u32)
    requires alignment > 0 && IsPowerOfTwo(alignment)
    requires base <= U32_MODULUS - alignment
    ensures AlignPowerOfTwo(base, alignment) < base + alignment
  {
    assert (base + alignment - 1) % U64_MODULUS == base + alignment - 1;
    var k := AlignClearsLowBits(base, alignment);
    Pow2Of32();
    LowOfSmall(base + alignment - 1, 32);
  }

  /** A 32-bit base that is already aligned is returned unchanged. */
  lemma AlignedBaseIsFixed(base: u64, alignment: u32)
    requires alignment > 0 && IsPowerOfTwo(alignment)
    requires base < U32_MODULUS && IsAligned(base, alignment)
    ensures AlignPowerOfTwo(base, alignment) == base
  {
    assert (base + alignment - 1) % U64_MODULUS == base + alignment - 1;
    var k := AlignClearsLowBits(base, alignment);
    Pow2Of32();
    AndLowMask(base, k);
    AlignedBelow(base, 32, k);
    LowOfSmall(base + alignment - 1, 32);
    LowOfSum(base, alignment - 1, k);
  }

  /** Aligning twice is aligning once. */
  lemma AlignIsIdempotent(base: u64, alignment: u32)
    requires alignment > 0 && IsPowerOfTwo(alignment)
    ensures AlignPowerOfTwo(AlignPowerOfTwo(base, alignment), alignment) == AlignPowerOfTwo(base, alignment)
  {
    AlignIsAligned(base, alignment);
    AlignedBaseIsFixed(AlignPowerOfTwo(base, alignment), alignment);
  }

  /** Above the bound the high bits of the base are lost: 2^32 aligns to 0. */
  lemma HighBitsAreLost()
    ensures IsPowerOfTwo(1) && AlignPowerOfTwo(U32_MODULUS, 1) == 0
  {
    assert And(1, 0) == 0;
    var k := AlignClearsLowBits(U32_MODULUS, 1);
    Pow2Of32();
    LowOfPower(32);
  }
}
