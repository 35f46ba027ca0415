/** Arbitrary-precision integer operations that the conversion performs on
    `BigInteger`s and `UInt`s: powers of two (the shifts `shl`/`shr`), the bit
    length, and bitwise `or`. Every integer here is unbounded. */
module Bits {

  /** 2^n. `x shl n` is `x * Pow2(n)` and, for a non-negative `x`, `x shr n` is `x / Pow2(n)`. */
  function Pow2(n: nat): (r: nat)
    ensures r >= 1
  {
    if n == 0 then 1 else 2 * Pow2(n - 1)
  }

  /** 10^n, the unit of a decimal scale. */
  function Pow10(n: nat): (r: nat)
    ensures r >= 1
  {
    if n == 0 then 1 else 10 * Pow10(n - 1)
  }

  /** `x shl k`: k doublings of x. */
  function Shl(x: nat, k: nat): nat
  {
    if k == 0 then x else 2 * Shl(x, k - 1)
  }

  /** `BigInteger.bitLength()` of a non-negative value: the number of digits of
      its binary representation, 0 for 0. */
  function BitLength(x: nat): nat
  {
    if x == 0 then 0 else 1 + BitLength(x / 2)
  }

  /** `x shr k` of a non-negative x: x / 2^k, rounding down. */
  function Shr(x: nat, k: nat): nat
  {
    Truncate(x, Pow2(k))
  }

  /** n / unit for a positive unit, truncating: the integer part of a
      non-negative magnitude at that unit. */
  function Truncate(n: nat, unit: nat): nat
    requires unit > 0
  {
    n / unit
  }

  /** Bitwise `or` of two non-negative integers. */
  function Or(a: nat, b: nat): nat
  {
    if a == 0 then b
    else if b == 0 then a
    else 2 * Or(a / 2, b / 2) + (if a % 2 == 1 || b % 2 == 1 then 1 else 0)
  }

  lemma {:induction false} Pow2Add(a: nat, b: nat)
    ensures Pow2(a + b) == Pow2(a) * Pow2(b)
  {
    if a > 0 {
      Pow2Add(a - 1, b);
    }
  }

  lemma {:induction false} Pow2Monotone(a: nat, b: nat)
    requires a <= b
    ensures Pow2(a) <= Pow2(b)
  {
    if a < b {
      Pow2Monotone(a, b - 1);
    }
  }

  lemma {:induction false} Pow10Add(a: nat, b: nat)
    ensures Pow10(a + b) == Pow10(a) * Pow10(b)
  {
    if a > 0 {
      Pow10Add(a - 1, b);
    }
  }

  lemma {:induction false} Pow10Monotone(a: nat, b: nat)
    requires a <= b
    ensures Pow10(a) <= Pow10(b)
  {
    if a < b {
      Pow10Monotone(a, b - 1);
    }
  }

  /** `x shl k` is x * 2^k. */
  lemma {:induction false} ShlIsMul(x: nat, k: nat)
    ensures Shl(x, k) == x * Pow2(k)
  {
    if k > 0 {
      ShlIsMul(x, k - 1);
      MulTwice(x, Pow2(k - 1));
    }
  }

  lemma {:induction false} ShlOfZero(k: nat)
    ensures Shl(0, k) == 0
  {
    if k > 0 {
      ShlOfZero(k - 1);
    }
  }

  /** The bit length L of a positive x is the unique L with 2^(L-1) <= x < 2^L. */
  lemma {:induction false} BitLengthBounds(x: nat)
    requires x > 0
    ensures BitLength(x) >= 1
    ensures Pow2(BitLength(x) - 1) <= x < Pow2(BitLength(x))
  {
    if x > 1 {
      BitLengthBounds(x / 2);
    }
  }

  /** Clearing the top bit of a positive x leaves x - 2^(L-1) < 2^(L-1),
      where L is its bit length. */
  lemma TopBitCleared(x: nat)
    requires x > 0
    ensures BitLength(x) >= 1 && Pow2(BitLength(x) - 1) <= x
    ensures x - Pow2(BitLength(x) - 1) < Pow2(BitLength(x) - 1)
  {
    BitLengthBounds(x);
  }

  /** A value below 2^k has at most k bits. */
  lemma {:induction false} BitLengthAtMost(x: nat, k: nat)
    requires x < Pow2(k)
    ensures BitLength(x) <= k
  {
    if x > 0 {
      BitLengthAtMost(x / 2, k - 1);
    }
  }

  /** A value at or above 2^k has more than k bits. */
  lemma {:induction false} BitLengthAtLeast(x: nat, k: nat)
    requires Pow2(k) <= x
    ensures BitLength(x) > k
  {
    if k > 0 {
      BitLengthAtLeast(x / 2, k - 1);
    }
  }

  /** The bit length is determined by the power-of-two interval holding x. */
  lemma BitLengthUnique(x: nat, k: nat)
    requires Pow2(k) <= x < Pow2(k + 1)
    ensures BitLength(x) == k + 1
  {
    BitLengthAtLeast(x, k);
    BitLengthAtMost(x, k + 1);
  }

  /** `or` of a value shifted left by k with a value below 2^k sets disjoint
      bits, so it is plain addition. */
  lemma {:induction false} OrDisjoint(a: nat, b: nat, k: nat)
    requires b < Pow2(k)
    ensures Or(a * Pow2(k), b) == a * Pow2(k) + b
  {
    if a != 0 && b != 0 {
      assert k > 0;
      var h := a * Pow2(k - 1);
      assert a * Pow2(k) == 2 * h;
      OrDisjoint(a, b / 2, k - 1);
      assert Or(h, b / 2) == h + b / 2;
      assert Or(2 * h, b) == 2 * Or(h, b / 2) + b % 2;
    }
  }

  /** `or` sets at least the bits of either operand, so it is at least each of them. */
  lemma {:induction false} OrAtLeast(a: nat, b: nat)
    ensures Or(a, b) >= a && Or(a, b) >= b
  {
    if a != 0 && b != 0 {
      OrAtLeast(a / 2, b / 2);
    }
  }

  /** `or` of two values below 2^k stays below 2^k. */
  lemma {:induction false} OrBelow(a: nat, b: nat, k: nat)
    requires a < Pow2(k) && b < Pow2(k)
    ensures Or(a, b) < Pow2(k)
  {
    if a != 0 && b != 0 {
      OrBelow(a / 2, b / 2, k - 1);
    }
  }

  /** Shifting both operands left by k shifts their `or`. */
  lemma {:induction false} OrShifted(a: nat, b: nat, k: nat)
    ensures Or(a * Pow2(k), b * Pow2(k)) == Or(a, b) * Pow2(k)
  {
    if k > 0 {
      var p := Pow2(k - 1);
      var pk := Pow2(k);
      assert pk == 2 * p;
      var c := Or(a, b);
      var sa, sb := a * p, b * p;
      OrShifted(a, b, k - 1);
      MulTwice(a, p);
      MulTwice(b, p);
      MulTwice(c, p);
      assert a * pk == 2 * sa && b * pk == 2 * sb;
      OrDouble(sa, sb);
      assert Or(a * pk, b * pk) == 2 * (c * p);
    }
  }

  lemma MulTwice(x: nat, p: nat)
    ensures x * (2 * p) == 2 * (x * p)
  {
  }

  lemma OrDouble(x: nat, y: nat)
    ensures Or(2 * x, 2 * y) == 2 * Or(x, y)
  {
    if x != 0 && y != 0 {
      assert (2 * x) / 2 == x && (2 * y) / 2 == y;
      assert (2 * x) % 2 == 0 && (2 * y) % 2 == 0;
    }
  }

  /** `x shr k shr j` is `x shr (k + j)`. */
  lemma ShrShr(x: nat, k: nat, j: nat)
    ensures Shr(Shr(x, k), j) == Shr(x, k + j)
  {
    Pow2Add(k, j);
    DivDiv(x, Pow2(k), Pow2(j));
  }

  lemma DivDiv(x: nat, p: nat, q: nat)
    requires p > 0 && q > 0
    ensures x / p / q == x / (p * q)
  {
    var a := x / p;
    var b := a / q;
    var r := (a % q) * p + x % p;
    assert x == a * p + x % p;
    assert a == b * q + a % q;
    assert a * p == b * (p * q) + (a % q) * p;
    assert (a % q) * p <= (q - 1) * p by {
      MulLe(a % q, q - 1, p);
    }
    assert (q - 1) * p == p * q - p;
    DivUnique(x, p * q, b, r);
  }

  /** Euclidean division of naturals, spelled out. */
  lemma DivBounds(n: nat, d: nat)
    requires d > 0
    ensures n == (n / d) * d + n % d && 0 <= n % d < d
    ensures (n / d) * d <= n < (n / d + 1) * d
  {
  }

  lemma MulLe(a: nat, b: nat, c: nat)
    requires a <= b
    ensures a * c <= b * c
  {
  }

  /** The two regroupings of a product of three naturals. */
  lemma MulAssocNat(a: nat, b: nat, c: nat)
    ensures a * b * c == a * (b * c) && a * b * c == a * c * b
  {
  }

  lemma MulLt(a: nat, b: nat, c: nat)
    requires a < b && c > 0
    ensures a * c < b * c
  {
    MulLe(a + 1, b, c);
  }

  lemma DivUnique(x: nat, d: nat, q: nat, r: nat)
    requires d > 0 && r < d && x == q * d + r
    ensures x / d == q && x % d == r
  {
    var q0, r0 := x / d, x % d;
    assert x == q0 * d + r0;
    if q0 > q {
      MulLe(q + 1, q0, d);
      assert false;
    } else if q0 < q {
      MulLe(q0 + 1, q, d);
      assert false;
    }
  }

  /** Euclidean division of a product, with the product formed here so that
      callers need not show it is a natural. */
  lemma ProductDivision(a: nat, b: nat, d: nat, q: nat, r: nat)
    requires d > 0 && r < d && a * b == q * d + r
    ensures (a * b) / d == q && (a * b) % d == r
  {
    DivUnique(a * b, d, q, r);
  }

  /** Shifting left by k and then right by k gives back a. */
  lemma ShlShr(a: nat, k: nat)
    ensures Shr(Shl(a, k), k) == a
  {
    ShlIsMul(a, k);
    ProductDivision(a, Pow2(k), Pow2(k), a, 0);
  }

  /** The powers of two that name the binary32 constants. */
  lemma Pow2Constants()
    ensures Pow2(22) == 0x40_0000 && Pow2(23) == 0x80_0000 && Pow2(24) == 0x100_0000
    ensures Pow2(31) == 0x8000_0000 && Pow2(32) == 0x1_0000_0000
  {
    assert Pow2(8) == 0x100;
    Pow2Add(8, 8);
    Pow2Add(16, 6);
    Pow2Add(16, 7);
    Pow2Add(16, 8);
    Pow2Add(16, 15);
    Pow2Add(16, 16);
  }
}
