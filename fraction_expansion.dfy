/** The binary expansion of the fractional part by repeated doubling: each
    step doubles the remainder, takes its integer part as the next bit and
    keeps its fractional part, until the remainder is zero or the budget of
    F32_EXPONENT_AREA (254) bits is spent. Bits are produced most significant
    first. */
module FractionExpansion {
  import opened Bits
  import opened ExactDecimal
  import opened Float32

  /** `fractionBits` (the bits read as a binary integer, first bit highest)
      and `fractionBitLen` (how many bits were produced). */
  datatype Expansion = Expansion(bits: nat, len: nat)

  /** What the loop's `remainder` can be: a fractional decimal of value at
      most one. (The fraction rounded to 45 places can reach exactly one.) */
  predicate IsRemainder(d: Decimal) {
    IsFractional(d) && d.unscaled <= Pow10(d.scale)
  }

  /** The doubling loop from a given state, as a function: `bits` holds the
      bits produced so far, read MSB first. */
  function Expand(remainder: Decimal, bits: nat, len: nat): Expansion
    requires IsRemainder(remainder) && len <= F32_EXPONENT_AREA
    decreases F32_EXPONENT_AREA - len
  {
    if len < F32_EXPONENT_AREA && !IsZero(remainder) then
      var mul := Twice(remainder);
      var next := FractionPart(mul);
      Expand(next, 2 * bits + WholePart(mul), len + 1)
    else
      Expansion(bits, len)
  }

  /** The expansion of a fraction, from the loop's initial state. */
  function ExpandFraction(fraction: Decimal): Expansion
    requires IsRemainder(fraction)
  {
    Expand(fraction, 0, 0)
  }

  /** Doubling a remainder u / D, with unit D = 10^scale, in integers: the
      integer part is 2u / D and the fraction left is (2u % D) / D at the
      same scale. */
  lemma DoubleRemainder(remainder: Decimal, unit: nat)
    requires IsFractional(remainder) && unit == Pow10(remainder.scale)
    ensures WholePart(Twice(remainder)) == 2 * remainder.unscaled / unit
    ensures FractionPart(Twice(remainder)) == Decimal(2 * remainder.unscaled % unit, remainder.scale)
  {
  }

  /** One doubling step in integers: u * 2^k == B * D + r becomes
      u * 2^(k+1) == (2B + 2r / D) * D + 2r % D. */
  lemma DoublingStep(u: nat, unit: nat, bits: nat, rem: nat, k: nat)
    requires unit > 0
    requires u * Pow2(k) == bits * unit + rem
    ensures u * Pow2(k + 1) == (2 * bits + 2 * rem / unit) * unit + (2 * rem) % unit
  {
    var p := Pow2(k);
    var bit, r := 2 * rem / unit, (2 * rem) % unit;
    DivBounds(2 * rem, unit);
    MulTwice(u, p);
    assert u * Pow2(k + 1) == 2 * (u * p);
    assert (2 * bits + bit) * unit == 2 * (bits * unit) + bit * unit;
  }

  /** The loop keeps `fraction * 2^len == bits + remainder`, stated over the
      integers with unit D = 10^scale and the fraction u / D:
      u * 2^len == bits * D + remainder.unscaled. From any state with that
      invariant the expansion ends with 0 <= remainder < 1 (so bits is the
      floor of fraction * 2^len), within the budget, with an exact product
      when it ends before the budget, and it does not end while the remainder
      is nonzero. */
  lemma {:induction false} ExpandInvariant(u: nat, unit: nat, remainder: Decimal, bits: nat, len: nat)
    requires IsRemainder(remainder) && unit == Pow10(remainder.scale) && len <= F32_EXPONENT_AREA
    requires u * Pow2(len) == bits * unit + remainder.unscaled
    requires len > 0 ==> remainder.unscaled < unit
    requires len < F32_EXPONENT_AREA || remainder.unscaled < unit
    ensures var x := Expand(remainder, bits, len);
      len <= x.len <= F32_EXPONENT_AREA &&
      x.bits * unit <= u * Pow2(x.len) < x.bits * unit + unit &&
      (x.len < F32_EXPONENT_AREA ==> u * Pow2(x.len) == x.bits * unit)
    decreases F32_EXPONENT_AREA - len
  {
    var r := remainder.unscaled;
    if len < F32_EXPONENT_AREA && !IsZero(remainder) {
      DoubleRemainder(remainder, unit);
      var next := Decimal(2 * r % unit, remainder.scale);
      var bits' := 2 * bits + 2 * r / unit;
      DoublingStep(u, unit, bits, r, len);
      assert Expand(remainder, bits, len) == Expand(next, bits', len + 1);
      ExpandInvariant(u, unit, next, bits', len + 1);
    }
  }

  /** The expansion stops at the first length where the remainder vanishes:
      for every length k it passes, u * 2^k is not a multiple of D. */
  lemma {:induction false} ExpandMinimal(u: nat, unit: nat, remainder: Decimal, bits: nat, len: nat, k: nat)
    requires IsRemainder(remainder) && unit == Pow10(remainder.scale) && len <= F32_EXPONENT_AREA
    requires u * Pow2(len) == bits * unit + remainder.unscaled && remainder.unscaled < unit
    requires len <= k < Expand(remainder, bits, len).len
    ensures (u * Pow2(k)) % unit != 0
    decreases F32_EXPONENT_AREA - len
  {
    var r := remainder.unscaled;
    assert len < F32_EXPONENT_AREA && !IsZero(remainder);
    if k == len {
      ProductDivision(u, Pow2(len), unit, bits, r);
    } else {
      DoubleRemainder(remainder, unit);
      var next := Decimal(2 * r % unit, remainder.scale);
      var bits' := 2 * bits + 2 * r / unit;
      DoublingStep(u, unit, bits, r, len);
      assert Expand(remainder, bits, len) == Expand(next, bits', len + 1);
      ExpandMinimal(u, unit, next, bits', len + 1, k);
    }
  }

  /** The loop's invariant holds before the first step: u * 2^0 == 0 * D + u. */
  lemma StartInvariant(u: nat, unit: nat)
    ensures u * Pow2(0) == 0 * unit + u
  {
  }

  /** The bounds of the doubling loop from its initial state, where n is
      `fractionBitLen`, B is `fractionBits` and D = 10^scale:
      - n <= 254;
      - B <= fraction * 2^n < B + 1, that is, fraction * 2^n == B + remainder
        with 0 <= remainder < 1;
      - if n < 254 the expansion is exact (the remainder reached zero);
      - B < 2^n for a fraction below one, B == 2^n for the fraction one. */
  lemma ExpansionBounds(fraction: Decimal)
    requires IsRemainder(fraction)
    ensures var x := ExpandFraction(fraction);
      var unit := Pow10(fraction.scale);
      x.len <= F32_EXPONENT_AREA &&
      x.bits * unit <= fraction.unscaled * Pow2(x.len) < x.bits * unit + unit &&
      (x.len < F32_EXPONENT_AREA ==> fraction.unscaled * Pow2(x.len) == x.bits * unit) &&
      (fraction.unscaled < unit ==> x.bits < Pow2(x.len)) &&
      (fraction.unscaled == unit ==> x.bits == Pow2(x.len))
  {
    var x := ExpandFraction(fraction);
    var unit := Pow10(fraction.scale);
    var u := fraction.unscaled;
    StartInvariant(u, unit);
    ExpandInvariant(u, unit, fraction, 0, 0);
    if u < unit {
      BelowPowerOfTwo(x.bits, unit, u, Pow2(x.len));
    } else {
      OneExpandsOnce(fraction);
      assert Pow2(1) == 2;
    }
  }

  /** For a fraction below one, no length shorter than the expansion's is
      exact: u * 2^k is not a multiple of D for k < n. */
  lemma ExpansionMinimal(fraction: Decimal, k: nat)
    requires IsRemainder(fraction) && fraction.unscaled < Pow10(fraction.scale)
    requires k < ExpandFraction(fraction).len
    ensures (fraction.unscaled * Pow2(k)) % Pow10(fraction.scale) != 0
  {
    ExpandMinimal(fraction.unscaled, Pow10(fraction.scale), fraction, 0, 0, k);
  }

  /** The specification of the doubling loop from its initial state: the
      bounds above, and for a fraction below one, no shorter expansion is
      exact. */
  lemma ExpansionSpec(fraction: Decimal)
    requires IsRemainder(fraction)
    ensures var x := ExpandFraction(fraction);
      var unit := Pow10(fraction.scale);
      x.len <= F32_EXPONENT_AREA &&
      x.bits * unit <= fraction.unscaled * Pow2(x.len) < x.bits * unit + unit &&
      (x.len < F32_EXPONENT_AREA ==> fraction.unscaled * Pow2(x.len) == x.bits * unit) &&
      (fraction.unscaled < unit ==> x.bits < Pow2(x.len)) &&
      (fraction.unscaled == unit ==> x.bits == Pow2(x.len))
    ensures fraction.unscaled < Pow10(fraction.scale) ==>
      forall k :: 0 <= k < ExpandFraction(fraction).len ==>
        (fraction.unscaled * Pow2(k)) % Pow10(fraction.scale) != 0
  {
    ExpansionBounds(fraction);
    if fraction.unscaled < Pow10(fraction.scale) {
      forall k | 0 <= k < ExpandFraction(fraction).len
        ensures (fraction.unscaled * Pow2(k)) % Pow10(fraction.scale) != 0
      {
        ExpansionMinimal(fraction, k);
      }
    }
  }

  /** An exact dyadic fraction m / 2^k with m odd, within the budget, expands
      to exactly m at length k: the loop stops at the first exact length, and
      no shorter length is exact because m is odd. */
  lemma DyadicExpansion(fraction: Decimal, m: nat, k: nat)
    requires IsRemainder(fraction) && fraction.unscaled < Pow10(fraction.scale)
    requires k < F32_EXPONENT_AREA && m % 2 == 1
    requires fraction.unscaled * Pow2(k) == m * Pow10(fraction.scale)
    ensures ExpandFraction(fraction) == Expansion(m, k)
  {
    var x := ExpandFraction(fraction);
    var unit := Pow10(fraction.scale);
    var u := fraction.unscaled;
    ExpansionBounds(fraction);
    if k < x.len {
      ExpansionMinimal(fraction, k);
      ProductDivision(u, Pow2(k), unit, m, 0);
      assert false;
    }
    if x.len < k {
      ShorterExactIsEven(u, unit, x.bits, x.len, m, k);
      assert false;
    }
    CancelEq(m, x.bits, unit);
  }

  /** If u * 2^n == B * D and u * 2^k == m * D for n < k, then m is even. */
  lemma ShorterExactIsEven(u: nat, unit: nat, bits: nat, len: nat, m: nat, k: nat)
    requires unit > 0 && len < k
    requires u * Pow2(len) == bits * unit && u * Pow2(k) == m * unit
    ensures m % 2 == 0
  {
    var j: nat := k - len;
    Pow2Add(len, j);
    assert Pow2(j) == 2 * Pow2(j - 1);
    ExactMultipleIsEven(u, unit, bits, m, Pow2(len), Pow2(j), Pow2(j - 1));
  }

  /** u * p == B * D and u * (p * 2h) == m * D give m == 2 * B * h. */
  lemma ExactMultipleIsEven(u: nat, unit: nat, bits: nat, m: nat, p: nat, q: nat, h: nat)
    requires unit > 0 && q == 2 * h
    requires u * p == bits * unit && u * (p * q) == m * unit
    ensures m % 2 == 0
  {
    MulAssocNat(u, p, q);
    MulAssocNat(bits, unit, q);
    CancelEq(m, bits * q, unit);
    MulTwice(bits, h);
  }

  /** x * p == y * p with p > 0 gives x == y. */
  lemma CancelEq(x: nat, y: nat, p: nat)
    requires p > 0 && x * p == y * p
    ensures x == y
  {
    DivUnique(x * p, p, x, 0);
    DivUnique(y * p, p, y, 0);
  }

  /** From B * D <= u * P and u < D follows B < P. */
  lemma BelowPowerOfTwo(b: nat, unit: nat, u: nat, p: nat)
    requires unit > 0 && p > 0 && b * unit <= u * p && u < unit
    ensures b < p
  {
    if b >= p {
      MulLe(p, b, unit);
      MulLe(u + 1, unit, p);
      assert false;
    }
  }

  /** The fraction one (a rounding carry) gives the single "bit" 2 at length 1. */
  lemma OneExpandsOnce(fraction: Decimal)
    requires IsRemainder(fraction) && fraction.unscaled == Pow10(fraction.scale)
    ensures ExpandFraction(fraction) == Expansion(2, 1)
  {
    var mul := Twice(fraction);
    var unit := Pow10(fraction.scale);
    DivUnique(2 * fraction.unscaled, unit, 2, 0);
    assert WholePart(mul) == 2;
    assert FractionPart(mul).unscaled == 0;
  }
}
