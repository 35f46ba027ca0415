/** What the conversion produces, class by class: which words can come out
    (never a NaN from a number), the sign, the overflow to infinity, and the
    split between normal and subnormal results, including the proof that the
    second disjunct of the normal-branch test, exponent -127 with a normal
    fraction, is never what selects the branch. */
module Classification {
  import opened Bits
  import opened ExactDecimal
  import opened Float32
  import opened FractionExpansion
  import opened Normalizer
  import opened Rounder
  import opened DecimalParser
  import opened Conversion

  /** The signed zero `okSignBit`: sign as given, exponent and mantissa 0. */
  lemma SignedZeroFields(sign: nat)
    requires sign <= 1
    ensures var f := AdHocFloat32(SignBit(sign));
      f.Sign() == sign && f.BiasedExponent() == 0 && f.Mantissa() == 0
  {
  }

  /** Every word `PackNormalized` builds carries the given sign, and an
      all-ones exponent only comes with a zero mantissa (an infinity). */
  lemma PackNormalizedFields(sign: nat, r: Normalized)
    requires sign <= 1
    requires r.Finite? ==> r.biasedExponent < 255 && r.mantissa < Pow2(r.mantissaBitLen)
    ensures var f := AdHocFloat32(PackNormalized(sign, r));
      f.Sign() == sign &&
      (r.Vanished? ==> f.BiasedExponent() == 0 && f.Mantissa() == 0) &&
      (r.Overflow? ==> f.BiasedExponent() == 255 && f.Mantissa() == 0) &&
      (r.Finite? ==> (f.BiasedExponent() == r.biasedExponent &&
        f.Mantissa() == RoundMantissa(r.mantissa, r.mantissaBitLen)))
  {
    match r
    case Vanished =>
      SignedZeroFields(sign);
    case Overflow =>
      InfinityIsPacked(sign);
      FieldsOfPack(sign, 255, 0);
    case Finite(biasedExponent, mantissa, mantissaBitLen) =>
      RoundedFits(mantissa, mantissaBitLen);
      FieldsOfPack(sign, biasedExponent, RoundMantissa(mantissa, mantissaBitLen));
  }

  /** An encoded magnitude keeps the sign it was given and is never a NaN:
      a biased exponent of 255 only comes with mantissa 0. */
  lemma EncodeFields(sign: nat, magnitude: Decimal)
    requires sign <= 1
    ensures var f := AdHocFloat32(Encode(sign, magnitude));
      f.Sign() == sign && (f.BiasedExponent() == 255 ==> f.Mantissa() == 0)
  {
    if IsZero(magnitude) {
      SignedZeroFields(sign);
    } else {
      var isNormalFraction := IsNormalF32(FractionPart(magnitude));
      PackNormalizedFields(sign,
        Normalize(WholePart(magnitude), FractionBits(magnitude), isNormalFraction));
    }
  }

  /** The conversion gives the quiet NaN exactly when `BigDecimal` rejects the
      normalised text. */
  lemma NaNIffUnparsable(text: string, decimalSeparator: char, minusSign: char)
    ensures Convert(text, decimalSeparator, minusSign) == F32_QNAN_BITS <==>
      Parse(NormalizeText(text, decimalSeparator, minusSign)).None?
  {
    var normalizedText := NormalizeText(text, decimalSeparator, minusSign);
    match Parse(normalizedText)
    case None =>
    case Some(parsed) =>
      EncodeFields(if StartsWithMinus(normalizedText) then 1 else 0, parsed.magnitude);
      QuietNaNFields();
  }

  /** For text that parses, the sign bit of the result is set exactly when the
      normalised text starts with '-', which is the sign the parse read. */
  lemma SignFromText(text: string, decimalSeparator: char, minusSign: char)
    requires Parse(NormalizeText(text, decimalSeparator, minusSign)).Some?
    ensures var normalizedText := NormalizeText(text, decimalSeparator, minusSign);
      var f := AdHocFloat32(Convert(text, decimalSeparator, minusSign));
      (f.Sign() == 1 <==> StartsWithMinus(normalizedText)) &&
      (f.Sign() == 1 <==> Parse(normalizedText).value.negative)
  {
    var normalizedText := NormalizeText(text, decimalSeparator, minusSign);
    ParseSign(normalizedText);
    EncodeFields(if StartsWithMinus(normalizedText) then 1 else 0, Parse(normalizedText).value.magnitude);
  }

  /** Text whose value is zero gives a zero word, signed by its leading '-':
      "-0" gives the negative zero. */
  lemma ZeroFromText(text: string, decimalSeparator: char, minusSign: char)
    requires Parse(NormalizeText(text, decimalSeparator, minusSign)).Some?
    requires IsZero(Parse(NormalizeText(text, decimalSeparator, minusSign)).value.magnitude)
    ensures var f := AdHocFloat32(Convert(text, decimalSeparator, minusSign));
      f.BiasedExponent() == 0 && f.Mantissa() == 0 &&
      (f.Sign() == 1 <==> StartsWithMinus(NormalizeText(text, decimalSeparator, minusSign)))
  {
    var normalizedText := NormalizeText(text, decimalSeparator, minusSign);
    SignedZeroFields(if StartsWithMinus(normalizedText) then 1 else 0);
  }

  /** Below one, the result is normal exactly when the fraction is normal:
      a fraction at or above the split gives a biased exponent of at least 1,
      one below it a zero or subnormal word. */
  lemma FractionClassification(sign: nat, magnitude: Decimal)
    requires sign <= 1 && !IsZero(magnitude) && WholePart(magnitude) == 0
    ensures var f := AdHocFloat32(Encode(sign, magnitude));
      f.BiasedExponent() >= 1 <==> IsNormalF32(FractionPart(magnitude))
  {
    var isNormalFraction := IsNormalF32(FractionPart(magnitude));
    var x := FractionBits(magnitude);
    var r := Normalize(0, x, isNormalFraction);
    NormalizeSpec(0, x, isNormalFraction);
    FractionOnlyBits(x);
    PackNormalizedFields(sign, r);
    if isNormalFraction {
      NormalFractionExponent(magnitude);
    } else {
      SubnormalFractionExponent(magnitude);
    }
  }

  /** The second disjunct of the normal-branch test, exponent -127 together
      with a normal fraction, never holds once the snap has run: a nonzero
      integer part gives an exponent of at least 0, and a normal fraction
      alone one of at least -126. The branch is decided by exponent >= -126
      alone. */
  lemma SecondDisjunctUnreachable(magnitude: Decimal)
    ensures var isNormalFraction := IsNormalF32(FractionPart(magnitude));
      var e := UnbiasedExponent(WholePart(magnitude), FractionBits(magnitude));
      TakesNormalBranch(e, isNormalFraction) <==> e >= F32_EXPONENT_SUBNORMAL_OR_ZERO
  {
    var whole := WholePart(magnitude);
    var x := FractionBits(magnitude);
    var isNormalFraction := IsNormalF32(FractionPart(magnitude));
    NormalFractionAboveSnap(magnitude);
    DisjunctRedundant(UnbiasedExponent(whole, x), isNormalFraction);
  }

  /** When the snap fires on a magnitude below one, the word is the signed
      smallest normal 2^-126: biased exponent 1 and mantissa 0. */
  lemma SnapGivesNormalMin(sign: nat, magnitude: Decimal)
    requires sign <= 1 && !IsZero(magnitude) && WholePart(magnitude) == 0
    requires IsNormalF32(FractionPart(magnitude))
    requires LeadingZeroCount(ExpandFraction(StartFraction(magnitude))) == F32_EXPONENT_BIAS - 1
    ensures Encode(sign, magnitude) == sign * 0x8000_0000 + 0x80_0000
  {
    var x := FractionBits(magnitude);
    assert x == Expansion(1, F32_EXPONENT_BIAS - 1);
    FractionOnlyBits(x);
    assert BitLength(1) == 1;
    assert Normalize(0, x, true) == Finite(1, 0, 0);
    ZeroTimes(Pow2(F32_EXPONENT_BIT_LEN));
    assert RoundMantissa(0, 0) == 0;
  }

  /** For a normal fraction the exponent is at least -126, whatever the
      integer part. */
  lemma NormalFractionAboveSnap(magnitude: Decimal)
    ensures IsNormalF32(FractionPart(magnitude)) ==>
      UnbiasedExponent(WholePart(magnitude), FractionBits(magnitude)) >= F32_EXPONENT_SUBNORMAL_OR_ZERO
  {
    var whole := WholePart(magnitude);
    var x := FractionBits(magnitude);
    if whole > 0 {
      WholeGivesNonNegativeExponent(whole, x);
    } else if IsNormalF32(FractionPart(magnitude)) {
      assert whole == 0;
      NormalFractionExponent(magnitude);
    }
  }

  lemma DisjunctRedundant(e: int, isNormalFraction: bool)
    requires isNormalFraction ==> e >= F32_EXPONENT_SUBNORMAL_OR_ZERO
    ensures TakesNormalBranch(e, isNormalFraction) <==> e >= F32_EXPONENT_SUBNORMAL_OR_ZERO
  {
  }

  /** A nonzero integer part below 2^128 gives a normal word with biased
      exponent at least 127, that is a value of at least one. */
  lemma WholeIsNormal(sign: nat, magnitude: Decimal)
    requires sign <= 1 && WholePart(magnitude) > 0 && WholePart(magnitude) < Pow2(128)
    ensures AdHocFloat32(Encode(sign, magnitude)).BiasedExponent() >= F32_EXPONENT_BIAS
  {
    var whole := WholePart(magnitude);
    var isNormalFraction := IsNormalF32(FractionPart(magnitude));
    var x := FractionBits(magnitude);
    ZeroHasNoWholePart(magnitude);
    assert Encode(sign, magnitude) == PackNormalized(sign, Normalize(whole, x, isNormalFraction));
    WholeGivesNonNegativeExponent(whole, x);
    NoOverflowBelow(magnitude);
    NormalBranchExponent(sign, whole, x, isNormalFraction);
  }

  /** A decimal of value zero has integer part zero. */
  lemma ZeroHasNoWholePart(d: Decimal)
    ensures IsZero(d) ==> WholePart(d) == 0
  {
  }

  /** Once the exponent e lies in [-126, 127], the word is normal with biased
      exponent e + 127. */
  lemma NormalBranchExponent(sign: nat, whole: nat, x: Expansion, isNormalFraction: bool)
    requires sign <= 1 && NormalizedBits(whole, x) > 0
    requires F32_EXPONENT_SUBNORMAL_OR_ZERO <= UnbiasedExponent(whole, x) <= F32_EXPONENT_BIAS
    ensures AdHocFloat32(PackNormalized(sign, Normalize(whole, x, isNormalFraction))).BiasedExponent()
      == UnbiasedExponent(whole, x) + F32_EXPONENT_BIAS
  {
    var r := Normalize(whole, x, isNormalFraction);
    NormalizeSpec(whole, x, isNormalFraction);
    PackNormalizedFields(sign, r);
  }

  /** The fraction bits never exceed 2^n: they are below it for a fraction
      below one, equal to it for the fraction one, and 1 <= 2^126 after the
      snap. */
  lemma FractionBitsAtMostOne(magnitude: Decimal)
    ensures FractionBits(magnitude).bits <= Pow2(FractionBits(magnitude).len)
  {
    var g := StartFraction(magnitude);
    var x0 := ExpandFraction(g);
    ExpansionBounds(g);
    if FractionBits(magnitude) != x0 {
      assert FractionBits(magnitude) == Expansion(1, F32_EXPONENT_BIAS - 1);
    }
  }

  /** An integer part below 2^128 keeps the exponent at most 127. */
  lemma NoOverflowBelow(magnitude: Decimal)
    requires WholePart(magnitude) < Pow2(128)
    ensures UnbiasedExponent(WholePart(magnitude), FractionBits(magnitude)) <= F32_EXPONENT_BIAS
  {
    var whole := WholePart(magnitude);
    var x := FractionBits(magnitude);
    FractionBitsAtMostOne(magnitude);
    ExponentBelow(whole, x, 128);
  }

  /** whole < 2^k and B <= 2^n give an exponent of at most k - 1. */
  lemma ExponentBelow(whole: nat, x: Expansion, k: nat)
    requires whole < Pow2(k) && x.bits <= Pow2(x.len) && k >= 1
    ensures UnbiasedExponent(whole, x) <= k - 1
  {
    var n := x.len;
    Pow2Add(k, n);
    ShlIsMul(whole, n);
    MulLt(whole, Pow2(k), Pow2(n));
    Pow2Monotone(n + 1, k + n);
    OrBelow(Shl(whole, n), x.bits, k + n);
    BitLengthAtMost(NormalizedBits(whole, x), k + n);
  }

  /** An integer part of at least 2^k gives an exponent of at least k. */
  lemma ExponentAbove(whole: nat, x: Expansion, k: nat)
    requires whole >= Pow2(k)
    ensures UnbiasedExponent(whole, x) >= k
  {
    ShlIsMul(whole, x.len);
    OrAtLeast(Shl(whole, x.len), x.bits);
    Pow2Add(k, x.len);
    MulLe(Pow2(k), whole, Pow2(x.len));
    BitLengthAtLeast(NormalizedBits(whole, x), k + x.len);
  }

  /** The result is the signed infinity exactly when the integer part is at
      least 2^128: the exponent then exceeds 127. */
  lemma OverflowIffLarge(sign: nat, magnitude: Decimal)
    requires sign <= 1
    ensures Encode(sign, magnitude) == Pack(sign, 255, 0) <==> WholePart(magnitude) >= Pow2(128)
  {
    var whole := WholePart(magnitude);
    FieldsOfPack(sign, 255, 0);
    EncodeFields(sign, magnitude);
    if IsZero(magnitude) {
      SignedZeroFields(sign);
      assert whole == 0;
    } else {
      var isNormalFraction := IsNormalF32(FractionPart(magnitude));
      var x := FractionBits(magnitude);
      var r := Normalize(whole, x, isNormalFraction);
      NormalizeSpec(whole, x, isNormalFraction);
      PackNormalizedFields(sign, r);
      if whole >= Pow2(128) {
        ExponentAbove(whole, x, 128);
        InfinityIsPacked(sign);
      } else {
        NoOverflowBelow(magnitude);
      }
    }
  }

  /** With no integer part and a normal fraction (at or above the split),
      the fraction bits after the snap are nonzero and their exponent lies in
      [-126, 0]: the fraction rounded to 45 places is at least
      11754942 * 10^-45 >= 2^-127, so its expansion has exponent at least
      -127, and the snap lifts -127 to -126. The exponent 0 is the fraction
      that rounds to one. */
  lemma NormalFractionExponent(magnitude: Decimal)
    requires IsNormalF32(FractionPart(magnitude))
    ensures var x := FractionBits(magnitude);
      x.bits > 0 && F32_EXPONENT_SUBNORMAL_OR_ZERO <= UnbiasedExponent(0, x) <= 0
  {
    var fraction := FractionPart(magnitude);
    var g := StartFraction(magnitude);
    assert g == SetScaleHalfEven(fraction, F32_NORMAL_SCALE_MAX);
    SplitAboveThreshold();
    AtLeastTransitive(fraction, F32_SPLIT, Decimal(11754942, F32_NORMAL_SCALE_MAX));
    SetScaleAtLeast(fraction, 11754942, F32_NORMAL_SCALE_MAX);
    var u := g.unscaled;
    var unit := Pow10(g.scale);
    var x0 := ExpandFraction(g);
    var x := FractionBits(magnitude);
    assert x == Snap(true, x0);
    FractionOnlyBits(x);
    ExpansionBounds(g);
    if u == unit {
      OneExpandsOnce(g);
      assert BitLength(2) == 2;
      assert x == x0;
    } else {
      SplitAboveThreshold();
      MulLe(11754942, u, Pow2(127));
      NormalExpansionExponent(x0, u, unit);
    }
  }

  /** The expansion of a value u / D in [2^-127, 1), snapped: nonzero bits
      with exponent in [-126, -1]. */
  lemma NormalExpansionExponent(x0: Expansion, u: nat, unit: nat)
    requires 0 < u < unit && u * Pow2(127) >= unit
    requires x0.bits * unit <= u * Pow2(x0.len) < x0.bits * unit + unit
    requires x0.len < F32_EXPONENT_AREA ==> u * Pow2(x0.len) == x0.bits * unit
    requires x0.bits < Pow2(x0.len)
    ensures var x := Snap(true, x0);
      x.bits > 0 && F32_EXPONENT_SUBNORMAL_OR_ZERO <= UnbiasedExponent(0, x) <= -1
  {
    var x := Snap(true, x0);
    ExponentAtLeast(x0.bits, x0.len, u, unit, 127);
    BitLengthAtMost(x0.bits, x0.len);
    PositiveExpansion(u, unit, x0.bits, x0.len, 127);
    FractionOnlyBits(x0);
    if LeadingZeroCount(x0) == F32_EXPONENT_BIAS - 1 {
      assert x == Expansion(1, F32_EXPONENT_BIAS - 1);
      FractionOnlyBits(x);
      assert BitLength(1) == 1;
    }
  }

  /** An expansion of a value of at least 2^-k, for k within the budget, has
      a nonzero bit: it is exact below the budget, and from k bits on the
      value times 2^n is at least one. */
  lemma PositiveExpansion(u: nat, unit: nat, bits: nat, len: nat, k: nat)
    requires unit > 0 && u > 0 && k <= F32_EXPONENT_AREA && u * Pow2(k) >= unit
    requires u * Pow2(len) < bits * unit + unit
    requires len < F32_EXPONENT_AREA ==> u * Pow2(len) == bits * unit
    ensures bits > 0
  {
    if bits == 0 {
      ZeroTimes(unit);
      if len >= k {
        ScaledMonotone(u, k, len);
      } else {
        ScaledUp(u, len);
      }
    }
  }

  lemma ZeroTimes(x: nat)
    ensures 0 * x == 0
  {
  }

  /** A fraction below the split has, while its bits are nonzero, an exponent
      of at most -127: it is below 2^-126 and it is not rounded first. */
  lemma SubnormalFractionExponent(magnitude: Decimal)
    requires !IsNormalF32(FractionPart(magnitude))
    ensures var x := FractionBits(magnitude);
      x.bits > 0 ==> UnbiasedExponent(0, x) <= F32_EXPONENT_SUBNORMAL_OR_ZERO - 1
  {
    var fraction := FractionPart(magnitude);
    var x := FractionBits(magnitude);
    assert StartFraction(magnitude) == fraction;
    assert x == ExpandFraction(fraction);
    FractionOnlyBits(x);
    ExpansionBounds(fraction);
    BelowSplitScaled(fraction);
    if x.bits > 0 {
      ExponentAtMost(x.bits, x.len, fraction.unscaled, Pow10(fraction.scale), 126);
    }
  }

  /** Bits B of length n with B * D <= u * 2^n, for a value u / D below
      2^-k, have bit length at most n - k: the exponent
      bitLength(B) - n - 1 is at most -k - 1. */
  lemma ExponentAtMost(bits: nat, len: nat, u: nat, unit: nat, k: nat)
    requires unit > 0 && bits > 0
    requires bits * unit <= u * Pow2(len) && u * Pow2(k) < unit
    ensures BitLength(bits) + k <= len
  {
    var bl := BitLength(bits);
    if bl + k > len {
      BitLengthBounds(bits);
      var low := Pow2(bl - 1);
      Pow2Add(bl - 1, k);
      Pow2Monotone(len, bl - 1 + k);
      ScaledBelow(low, bits, unit, u, Pow2(k), Pow2(len));
      assert false;
    }
  }

  /** low <= B, B * D <= u * p and u * q < D give low * q < p. */
  lemma ScaledBelow(low: nat, bits: nat, unit: nat, u: nat, q: nat, p: nat)
    requires p > 0 && low <= bits && bits * unit <= u * p && u * q < unit
    ensures low * q < p
  {
    MulLe(low, bits, q);
    MulLe(low * q, bits * q, unit);
    MulAssocNat(bits, q, unit);
    MulLe(bits * unit, u * p, q);
    MulAssocNat(u, p, q);
    MulLe(u * q + 1, unit, p);
    assert (u * q + 1) * p == u * q * p + p;
    if low * q >= p {
      MulLe(p, low * q, unit);
      assert false;
    }
  }

  /** Bits B of length n with u * 2^n < (B + 1) * D, for a value u / D of
      at least 2^-k, have bit length above n - k: the exponent
      bitLength(B) - n - 1 is at least -k. */
  lemma ExponentAtLeast(bits: nat, len: nat, u: nat, unit: nat, k: nat)
    requires unit > 0
    requires u * Pow2(len) < bits * unit + unit && u * Pow2(k) >= unit
    ensures BitLength(bits) + k > len
  {
    var bl := BitLength(bits);
    assert (bits + 1) * unit == bits * unit + unit;
    if bl + k <= len {
      if bits > 0 {
        BitLengthBounds(bits);
      }
      var high := Pow2(bl);
      assert bits + 1 <= high;
      Pow2Add(bl, k);
      Pow2Monotone(bl + k, len);
      MulLe(bits + 1, high, unit);
      ScaledAbove(u, Pow2(len), high, unit, Pow2(k));
      assert false;
    }
  }

  /** u * p < h * D and h * q <= p give u * q < D. */
  lemma ScaledAbove(u: nat, p: nat, high: nat, unit: nat, q: nat)
    requires u * p < high * unit && high * q <= p
    ensures u * q < unit
  {
    MulLe(u * p + 1, high * unit, q);
    MulLe(high * q, p, unit);
    MulAssocNat(high, unit, q);
    assert (u * p + 1) * q == u * q * p + q;
    if q > 0 {
      CancelLt(u * q, unit, p);
    }
  }

  /** x * p < y * p gives x < y. */
  lemma CancelLt(x: nat, y: nat, p: nat)
    requires x * p < y * p
    ensures x < y
  {
    if x >= y {
      MulLe(y, x, p);
      assert false;
    }
  }

  /** `compareTo` is transitive on fractional decimals. */
  lemma AtLeastTransitive(a: Decimal, b: Decimal, c: Decimal)
    requires IsFractional(a) && IsFractional(b) && IsFractional(c)
    requires AtLeast(a, b) && AtLeast(b, c)
    ensures AtLeast(a, c)
  {
    var pa, pb, pc := Pow10(a.scale), Pow10(b.scale), Pow10(c.scale);
    MulLe(b.unscaled * pa, a.unscaled * pb, pc);
    MulLe(c.unscaled * pb, b.unscaled * pc, pa);
    MulAssocNat(a.unscaled, pb, pc);
    MulAssocNat(b.unscaled, pa, pc);
    MulAssocNat(c.unscaled, pb, pa);
    CancelLe(c.unscaled * pa, a.unscaled * pc, pb);
  }

  /** x * p <= y * p with p > 0 gives x <= y. */
  lemma CancelLe(x: nat, y: nat, p: nat)
    requires p > 0 && x * p <= y * p
    ensures x <= y
  {
    if x > y {
      MulLe(y + 1, x, p);
      assert false;
    }
  }

  /** A fraction at or above t / 10^scale keeps at least t units when it is
      set to that scale, rounding up or down. */
  lemma SetScaleAtLeast(f: Decimal, t: nat, scale: nat)
    requires IsFractional(f) && AtLeast(f, Decimal(t, scale))
    ensures SetScaleHalfEven(f, scale).unscaled >= t
  {
    var s: nat := f.scale;
    if scale >= s {
      Pow10Add(scale - s, s);
      ScaleUpAtLeast(f.unscaled, t, Pow10(scale - s), Pow10(s));
    } else {
      Pow10Add(s - scale, scale);
      ScaleDownAtLeast(f.unscaled, t, Pow10(s - scale), Pow10(scale));
    }
  }

  lemma ScaleUpAtLeast(u: nat, t: nat, k: nat, p: nat)
    requires p > 0 && u * (k * p) >= t * p
    ensures u * k >= t
  {
    assert u * (k * p) == (u * k) * p;
    CancelLe(t, u * k, p);
  }

  /** The half-even quotient is at least the truncated one, which is at least
      t when u >= t * d. */
  lemma ScaleDownAtLeast(u: nat, t: nat, d: nat, p: nat)
    requires p > 0 && d > 0 && u * p >= t * (d * p)
    ensures DivHalfEven(u, d) >= t
  {
    assert t * (d * p) == (t * d) * p;
    CancelLe(t * d, u, p);
    DivBounds(u, d);
    if u / d < t {
      MulLe(u / d + 1, t, d);
      assert false;
    }
  }

  /** 0.000000000000000000000000000000000000011754942 (11754942 units of the
      45th place) is below the split, and already at least 2^-127. */
  lemma SplitAboveThreshold()
    ensures AtLeast(F32_SPLIT, Decimal(11754942, F32_NORMAL_SCALE_MAX))
    ensures 11754942 * Pow2(127) >= Pow10(F32_NORMAL_SCALE_MAX)
  {
    SplitValue();
    Pow2Known();
    Pow10Known();
  }

  /** A fraction of at least 2^-126, the smallest normal magnitude, is
      normal. */
  lemma AtLeastNormalMin(f: Decimal, k: nat)
    requires IsFractional(f) && k <= F32_EXPONENT_BIAS - 1
    requires f.unscaled * Pow2(k) >= Pow10(f.scale)
    ensures IsNormalF32(f)
  {
    ScaledMonotone(f.unscaled, k, F32_EXPONENT_BIAS - 1);
    if !IsNormalF32(f) {
      BelowSplitScaled(f);
      assert false;
    }
  }

  /** A fraction of at most 2^-127, half the smallest normal magnitude,
      lies below the split and is not normal. */
  lemma AtMostHalfNormalMin(f: Decimal)
    requires IsFractional(f) && f.unscaled * Pow2(F32_EXPONENT_BIAS) <= Pow10(f.scale)
    ensures !IsNormalF32(f)
  {
    SplitBetween();
    SmallBelowSplit(f.unscaled, Pow10(149), F32_SPLIT.unscaled, Pow10(f.scale), Pow2(F32_EXPONENT_BIAS));
  }

  /** u * t <= q and p < s * t give u * p < s * q. */
  lemma SmallBelowSplit(u: nat, p: nat, s: nat, q: nat, t: nat)
    requires t > 0 && q > 0
    requires u * t <= q && p < s * t
    ensures u * p < s * q
  {
    MulLe(u * t, q, p);
    MulLe(p + 1, s * t, q);
    assert (p + 1) * q == p * q + q;
    MulAssocNat(u, p, t);
    MulAssocNat(s, q, t);
    CancelLt(u * p, s * q, t);
  }

  /** u * 2^j <= u * 2^k for j <= k. */
  lemma ScaledUp(u: nat, k: nat)
    ensures u <= u * Pow2(k)
  {
    MulLe(1, Pow2(k), u);
  }

  lemma ScaledMonotone(u: nat, j: nat, k: nat)
    requires j <= k
    ensures u * Pow2(j) <= u * Pow2(k)
  {
    Pow2Monotone(j, k);
    MulLe(Pow2(j), Pow2(k), u);
  }

  /** A fraction below the split is below 2^-126:
      fraction.unscaled * 2^126 < 10^scale. */
  lemma BelowSplitScaled(f: Decimal)
    requires IsFractional(f) && !AtLeast(f, F32_SPLIT)
    ensures f.unscaled * Pow2(126) < Pow10(f.scale)
  {
    SplitBetween();
    ScaledAbove(f.unscaled, Pow10(149), F32_SPLIT.unscaled, Pow10(f.scale), Pow2(126));
  }
}
