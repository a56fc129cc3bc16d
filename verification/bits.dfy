/**
 Unsigned 32-bit arithmetic as Go performs it, stated over unbounded integers.

 A `uint32` is an integer in [0, 2^32); subtraction wraps modulo 2^32 and the
 bitwise AND `&` is defined bit by bit, so that the facts the padding code
 relies on (a power-of-two mask selects a remainder, `m & (m - 1) == 0` tests
 for a power of two) are proved by induction rather than taken on trust.
 */
module Bits {

  type byte = b: int | 0 <= b < 0x100
  type uint32 = x: int | 0 <= x < 0x1_0000_0000

  const MaxUint32: uint32 := 0xFFFF_FFFF

  /** 2^k */
  function Pow2(k: nat): (p: nat)
    ensures p >= 1
  {
    if k == 0 then 1 else 2 * Pow2(k - 1)
  }

  /** n is 2^k for some k. */
  ghost predicate IsPowerOfTwo(n: int) {
    exists k: nat :: n == Pow2(k)
  }

  /** Go's `a - b` on uint32: the difference wrapped into [0, 2^32). */
  function Sub(a: uint32, b: uint32): (r: uint32)
    ensures b <= a ==> r == a - b
    ensures a < b ==> r == a - b + 0x1_0000_0000
  {
    (a - b) % 0x1_0000_0000
  }

  /** Bitwise AND of two naturals, least significant bit first. */
  function And(a: nat, b: nat): (r: nat)
    ensures r <= a && r <= b
    decreases a
  {
    if a == 0 || b == 0 then 0
    else 2 * And(a / 2, b / 2) + (if a % 2 == 1 && b % 2 == 1 then 1 else 0)
  }

  lemma {:induction false} AndSelf(a: nat)
    ensures And(a, a) == a
    decreases a
  {
    if a != 0 {
      AndSelf(a / 2);
    }
  }

  lemma MulAtLeast(d: nat, x: int)
    requires d >= 1 && x >= 1
    ensures d * x >= d
  {}

  /** Quotient and remainder are determined by any split of the dividend. */
  lemma DivModUnique(a: nat, d: nat, t: nat, r: nat)
    requires d >= 1 && 0 <= r < d && a == d * t + r
    ensures a / d == t && a % d == r
  {
    var q := a / d;
    assert d * (t - q) == a % d - r;
    if t - q >= 1 { MulAtLeast(d, t - q); }
    if q - t >= 1 { MulAtLeast(d, q - t); }
  }

  /** Dropping the lowest bit: a mod 2p is twice (a/2 mod p) plus the low bit. */
  lemma ModDouble(a: nat, p: nat)
    requires p >= 1
    ensures a % (2 * p) == 2 * ((a / 2) % p) + a % 2
  {
    var q, s := a / 2, a % 2;
    var t, u := q / p, q % p;
    assert a == 2 * q + s;
    assert q == p * t + u;
    assert a == (2 * p) * t + (2 * u + s);
    DivModUnique(a, 2 * p, t, 2 * u + s);
  }

  lemma {:induction false} Pow2Add(i: nat, j: nat)
    ensures Pow2(i + j) == Pow2(i) * Pow2(j)
    decreases i
  {
    if i != 0 {
      Pow2Add(i - 1, j);
      assert Pow2(i + j) == 2 * Pow2((i - 1) + j) == 2 * (Pow2(i - 1) * Pow2(j));
      assert 2 * (Pow2(i - 1) * Pow2(j)) == (2 * Pow2(i - 1)) * Pow2(j);
    }
  }

  /** 2^32, the modulus of uint32 arithmetic. */
  lemma Pow2Of32()
    ensures Pow2(32) == 0x1_0000_0000
  {
    assert Pow2(8) == 0x100;
    Pow2Add(8, 8);
    Pow2Add(16, 16);
  }

  /** ANDing with 2^k - 1 keeps the low k bits, which is the remainder mod 2^k. */
  lemma {:induction false} AndLowMask(a: nat, k: nat)
    ensures And(a, Pow2(k) - 1) == a % Pow2(k)
    decreases k
  {
    if k == 0 {
    } else if a == 0 {
    } else {
      var m, h := Pow2(k) - 1, Pow2(k - 1);
      assert Pow2(k) == 2 * h;
      DivModUnique(m, 2, h - 1, 1);
      var rest := And(a / 2, h - 1);
      assert And(a, m) == 2 * rest + a % 2;
      AndLowMask(a / 2, k - 1);
      ModDouble(a, h);
    }
  }

  /** A power of two shares no bit with its predecessor. */
  lemma PowerOfTwoMaskZero(k: nat)
    ensures And(Pow2(k), Pow2(k) - 1) == 0
  {
    AndLowMask(Pow2(k), k);
    DivModUnique(Pow2(k), Pow2(k), 1, 0);
  }

  /** An odd m >= 3 keeps every bit above the lowest in m & (m - 1). */
  lemma OddMaskNonZero(m: nat)
    requires m >= 3 && m % 2 == 1
    ensures And(m, m - 1) == 2 * (m / 2) != 0
  {
    assert (m - 1) / 2 == m / 2 && (m - 1) % 2 == 0;
    AndSelf(m / 2);
  }

  /** For an even m >= 2, m & (m - 1) is twice (m/2) & (m/2 - 1). */
  lemma EvenMaskHalves(m: nat)
    requires m >= 2 && m % 2 == 0
    ensures And(m, m - 1) == 2 * And(m / 2, m / 2 - 1)
  {
    assert (m - 1) / 2 == m / 2 - 1 && (m - 1) % 2 == 1;
  }

  /** For m >= 1, m & (m - 1) == 0 only if m is a power of two. */
  lemma {:induction false} MaskZeroIsPowerOfTwo(m: nat)
    requires m >= 1 && And(m, m - 1) == 0
    ensures IsPowerOfTwo(m)
    decreases m
  {
    if m == 1 {
      assert m == Pow2(0);
    } else if m % 2 == 1 {
      OddMaskNonZero(m);
    } else {
      EvenMaskHalves(m);
      MaskZeroIsPowerOfTwo(m / 2);
      var j: nat :| m / 2 == Pow2(j);
      assert m == Pow2(j + 1);
    }
  }

  /** For m >= 1, the test `m & (m - 1) == 0` holds exactly of the powers of two. */
  lemma PowerOfTwoTest(m: nat)
    requires m >= 1
    ensures And(m, m - 1) == 0 <==> IsPowerOfTwo(m)
  {
    if IsPowerOfTwo(m) {
      var k: nat :| m == Pow2(k);
      PowerOfTwoMaskZero(k);
    } else if And(m, m - 1) == 0 {
      MaskZeroIsPowerOfTwo(m);
    }
  }

  /** The masked value is the remainder: `a & (m - 1) == a % m` for a power of two m. */
  lemma MaskIsRemainder(a: nat, m: nat)
    requires m >= 1 && IsPowerOfTwo(m)
    ensures And(a, m - 1) == a % m
    ensures And(a, m - 1) < m
  {
    var k: nat :| m == Pow2(k);
    AndLowMask(a, k);
  }

  /** The all-ones mask 2^32 - 1 leaves every uint32 unchanged. */
  lemma AllOnesMask(a: uint32)
    ensures And(a, MaxUint32) == a
  {
    Pow2Of32();
    AndLowMask(a, 32);
    DivModUnique(a, 0x1_0000_0000, 0, a);
  }
}
