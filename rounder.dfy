/** Fitting a mantissa of `mantissaBitLen` significant bits into the 23 bits
    of binary32: short mantissas are padded with zeros on the right, long ones
    are cut after 23 bits and rounded on the first bit cut off. */
module Rounder {
  import opened Bits
  import opened Float32

  /** The mantissa adjustment of the conversion. When the rounding bit is set
      the truncated mantissa is incremented, and if that carries into a 24th
      bit the result is shifted right once (the exponent is left as it is). */
  function RoundMantissa(mantissa: nat, mantissaBitLen: nat): nat {
    if mantissaBitLen < F32_EXPONENT_BIT_LEN then
      mantissa * Pow2(F32_EXPONENT_BIT_LEN - mantissaBitLen)
    else if mantissaBitLen > F32_EXPONENT_BIT_LEN then
      var offsetTilRoundingBit := mantissaBitLen - F32_EXPONENT_BIT_LEN - 1;
      var withRoundingBit := Shr(mantissa, offsetTilRoundingBit);
      var roundingBit := withRoundingBit % 2;
      var truncated := withRoundingBit / 2;
      if roundingBit == 1 then RoundUp(truncated) else truncated
    else
      mantissa
  }

  /** The increment of a truncated mantissa; a carry into a 24th bit is
      undone by halving. */
  function RoundUp(truncated: nat): nat {
    var incremented := truncated + 1;
    if BitLength(incremented) > F32_EXPONENT_BIT_LEN then incremented / 2 else incremented
  }

  /** Incrementing a 23-bit mantissa gives the successor while it fits, and
      2^22 when it carries out to 2^23. */
  lemma RoundUpSpec(truncated: nat)
    requires truncated < Pow2(F32_EXPONENT_BIT_LEN)
    ensures RoundUp(truncated) ==
      if truncated + 1 < Pow2(F32_EXPONENT_BIT_LEN) then truncated + 1 else Pow2(F32_EXPONENT_BIT_LEN - 1)
  {
    var incremented := truncated + 1;
    assert Pow2(F32_EXPONENT_BIT_LEN) == 2 * Pow2(F32_EXPONENT_BIT_LEN - 1);
    if incremented < Pow2(F32_EXPONENT_BIT_LEN) {
      BitLengthAtMost(incremented, F32_EXPONENT_BIT_LEN);
    } else {
      BitLengthAtLeast(incremented, F32_EXPONENT_BIT_LEN);
    }
  }

  /** Rounding on the first bit cut off is rounding half up: for d cut-off
      bits, the quotient (m + 2^(d-1)) / 2^d is m / 2^d rounded to the nearest
      integer, halves upward. */
  function RoundHalfUp(m: nat, d: nat): nat
    requires d >= 1
  {
    Shr(m + Pow2(d - 1), d)
  }

  /** What the adjustment computes, for a mantissa below 2^mantissaBitLen:
      - the result fits the 23-bit field;
      - a mantissa of at most 23 bits is scaled up exactly to 23 bits;
      - a longer one is rounded half up to 23 bits, and a rounding that
        carries out to 2^23 gives 2^22 (the carried value halved, rather
        than 0 with the exponent incremented). */
  lemma RoundMantissaSpec(mantissa: nat, mantissaBitLen: nat)
    requires mantissa < Pow2(mantissaBitLen)
    ensures RoundMantissa(mantissa, mantissaBitLen) < Pow2(F32_EXPONENT_BIT_LEN)
    ensures mantissaBitLen <= F32_EXPONENT_BIT_LEN ==>
      RoundMantissa(mantissa, mantissaBitLen) * Pow2(mantissaBitLen) ==
      mantissa * Pow2(F32_EXPONENT_BIT_LEN)
    ensures mantissaBitLen > F32_EXPONENT_BIT_LEN ==>
      var q := RoundHalfUp(mantissa, mantissaBitLen - F32_EXPONENT_BIT_LEN);
      RoundMantissa(mantissa, mantissaBitLen) ==
        if q < Pow2(F32_EXPONENT_BIT_LEN) then q else Pow2(F32_EXPONENT_BIT_LEN - 1)
  {
    if mantissaBitLen <= F32_EXPONENT_BIT_LEN {
      RoundShort(mantissa, mantissaBitLen);
    } else {
      RoundLong(mantissa, mantissaBitLen - F32_EXPONENT_BIT_LEN);
    }
  }

  /** The adjusted mantissa fits the 23-bit field of the word. */
  lemma RoundedFits(mantissa: nat, mantissaBitLen: nat)
    requires mantissa < Pow2(mantissaBitLen)
    ensures RoundMantissa(mantissa, mantissaBitLen) < F32_MANTISSA_MASK + 1
  {
    RoundMantissaSpec(mantissa, mantissaBitLen);
    Pow2Constants();
  }

  /** A mantissa of at most 23 bits is shifted left into place, exactly. */
  lemma RoundShort(mantissa: nat, mantissaBitLen: nat)
    requires mantissa < Pow2(mantissaBitLen) && mantissaBitLen <= F32_EXPONENT_BIT_LEN
    ensures var r := RoundMantissa(mantissa, mantissaBitLen);
      r < Pow2(F32_EXPONENT_BIT_LEN) &&
      r * Pow2(mantissaBitLen) == mantissa * Pow2(F32_EXPONENT_BIT_LEN)
  {
    Pow2Add(F32_EXPONENT_BIT_LEN - mantissaBitLen, mantissaBitLen);
    ScaleInto(mantissa, Pow2(mantissaBitLen), Pow2(F32_EXPONENT_BIT_LEN - mantissaBitLen),
      Pow2(F32_EXPONENT_BIT_LEN));
  }

  /** m < p scaled by k lands below the field f == k * p, and scaling back by
      p gives m * f. */
  lemma ScaleInto(m: nat, p: nat, k: nat, f: nat)
    requires m < p && k > 0 && f == k * p
    ensures m * k < f && (m * k) * p == m * f
  {
    BelowTimes(m, p, k);
    MulAssoc(m, k, p);
  }

  /** The bits of a mantissa around the rounding position: with h = 2^(d-1),
      mantissa == t * 2h + b * h + low, where t is the truncated mantissa, b
      the rounding bit and low < h the bits below it; then the rounded-half-up
      quotient is t + b. */
  lemma GuardBit(mantissa: nat, d: nat)
    requires d >= 1
    ensures var h := Pow2(d - 1);
      var withRoundingBit := Shr(mantissa, d - 1);
      withRoundingBit / 2 == Shr(mantissa, d) &&
      RoundHalfUp(mantissa, d) == withRoundingBit / 2 + withRoundingBit % 2
  {
    var half := Pow2(d - 1);
    assert Pow2(d) == 2 * half;
    HalfUpQuotient(mantissa, half);
  }

  /** With half a unit h: m / h splits into the truncated quotient m / 2h and
      the rounding bit, and adding h before dividing by 2h adds that bit. */
  lemma HalfUpQuotient(m: nat, h: nat)
    requires h > 0
    ensures var w := m / h;
      w / 2 == m / (2 * h) && (m + h) / (2 * h) == w / 2 + w % 2
  {
    var w := m / h;
    var t := w / 2;
    var b := w % 2;
    var low := m % h;
    DivBounds(m, h);
    DivBounds(w, 2);
    assert m == (2 * t + b) * h + low;
    SplitProduct(t, b, h);
    DivUnique(m, 2 * h, t, b * h + low);
    if b == 1 {
      DivUnique(m + h, 2 * h, t + 1, low);
    } else {
      DivUnique(m + h, 2 * h, t, h + low);
    }
  }

  /** The truncated mantissa of 23 + d bits has at most 23 bits. */
  lemma TruncatedFits(mantissa: nat, d: nat)
    requires mantissa < Pow2(F32_EXPONENT_BIT_LEN + d)
    ensures Shr(mantissa, d) < Pow2(F32_EXPONENT_BIT_LEN)
  {
    Pow2Add(d, F32_EXPONENT_BIT_LEN);
    QuotientBelowField(mantissa, Pow2(d), Pow2(F32_EXPONENT_BIT_LEN));
  }

  lemma QuotientBelowField(m: nat, u: nat, p: nat)
    requires u > 0 && m < u * p
    ensures m / u < p
  {
    DivBounds(m, u);
    TimesBelow(m / u, u, m, p);
  }

  /** The rounding of a mantissa of 23 + d bits. */
  lemma RoundLong(mantissa: nat, d: nat)
    requires d >= 1 && mantissa < Pow2(F32_EXPONENT_BIT_LEN + d)
    ensures var q := RoundHalfUp(mantissa, d);
      var r := RoundMantissa(mantissa, F32_EXPONENT_BIT_LEN + d);
      r < Pow2(F32_EXPONENT_BIT_LEN) &&
      r == if q < Pow2(F32_EXPONENT_BIT_LEN) then q else Pow2(F32_EXPONENT_BIT_LEN - 1)
  {
    GuardBit(mantissa, d);
    TruncatedFits(mantissa, d);
    var withRoundingBit := Shr(mantissa, d - 1);
    if withRoundingBit % 2 == 1 {
      RoundUpSpec(withRoundingBit / 2);
    }
    assert Pow2(F32_EXPONENT_BIT_LEN) == 2 * Pow2(F32_EXPONENT_BIT_LEN - 1);
  }

  lemma MulAssoc(a: nat, b: nat, c: nat)
    ensures a * b * c == a * (b * c)
  {
  }

  lemma SplitProduct(t: nat, b: nat, h: nat)
    ensures (2 * t + b) * h == t * (2 * h) + b * h
  {
  }

  /** x < p implies x * k < p * k for a positive k. */
  lemma BelowTimes(x: nat, p: nat, k: nat)
    requires x < p && k > 0
    ensures x * k < p * k && x * k <= p * k - k
  {
    MulLe(x + 1, p, k);
  }

  /** t * u <= m < p * u implies t < p. */
  lemma TimesBelow(t: nat, u: nat, m: nat, p: nat)
    requires u > 0 && t * u <= m && m < u * p
    ensures t < p
  {
    if t >= p {
      MulLe(p, t, u);
      assert false;
    }
  }

  /** Ties round up, away from binary32's roundTiesToEven: an exact half of
      the last place, 2^-24 here, is rounded up to 1 rather than down to 0. */
  lemma TieRoundsUp()
    ensures RoundMantissa(1, F32_EXPONENT_BIT_LEN + 1) == 1
  {
    assert Pow2(0) == 1;
  }

  /** A mantissa of 24 ones rounds up into a carry; the result is 2^22, the
      carry halved, not the 0 of the next power of two. */
  lemma CarryGivesHalf()
    ensures RoundMantissa(Pow2(F32_EXPONENT_BIT_LEN + 1) - 1, F32_EXPONENT_BIT_LEN + 1) ==
      Pow2(F32_EXPONENT_BIT_LEN - 1)
  {
    Pow2Constants();
    RoundLong(Pow2(F32_EXPONENT_BIT_LEN + 1) - 1, 1);
    assert RoundHalfUp(Pow2(F32_EXPONENT_BIT_LEN + 1) - 1, 1) == Pow2(F32_EXPONENT_BIT_LEN) by {
      DivUnique(Pow2(F32_EXPONENT_BIT_LEN + 1), 2, Pow2(F32_EXPONENT_BIT_LEN), 0);
    }
  }
}
