/** `AdHocFloat32.fromText`: text to binary32 bits, by exact decimal
    arithmetic. `Encode` and `Convert` state what the conversion computes, one
    step per function; `FromText` is the conversion itself, step by step, with
    the doubling loop, and is proved to compute `Convert`. */
module Conversion {
  import opened Bits
  import opened ExactDecimal
  import opened Float32
  import opened FractionExpansion
  import opened Normalizer
  import opened Rounder
  import opened DecimalParser

  /** The fraction the doubling loop starts from: the fractional part, rounded
      to 45 places when it is at least F32_SPLIT. */
  function StartFraction(magnitude: Decimal): (f: Decimal)
    ensures IsFractional(f) && f.unscaled <= Pow10(f.scale)
  {
    var fraction := FractionPart(magnitude);
    if IsNormalF32(fraction) then
      SetScaleAtMostOne(fraction, F32_NORMAL_SCALE_MAX);
      SetScaleHalfEven(fraction, F32_NORMAL_SCALE_MAX)
    else
      fraction
  }

  /** The fraction bits after the loop and the snap. */
  function FractionBits(magnitude: Decimal): Expansion {
    Snap(IsNormalF32(FractionPart(magnitude)), ExpandFraction(StartFraction(magnitude)))
  }

  /** The word for a normalisation result: the signed zero when the value
      vanished, the signed infinity on overflow, and otherwise the sign, the
      biased exponent and the rounded mantissa packed together. */
  function PackNormalized(sign: nat, r: Normalized): UInt32
    requires sign <= 1
    requires r.Finite? ==> r.biasedExponent < 255 && r.mantissa < Pow2(r.mantissaBitLen)
  {
    match r
    case Vanished => SignBit(sign)
    case Overflow =>
      InfinityIsPacked(sign);
      Or(SignBit(sign), F32_INFINITY_BITS)
    case Finite(biasedExponent, mantissa, mantissaBitLen) =>
      RoundedFits(mantissa, mantissaBitLen);
      Pack(sign, biasedExponent, RoundMantissa(mantissa, mantissaBitLen))
  }

  /** The bits for a parsed magnitude and the sign taken from the text. */
  function Encode(sign: nat, magnitude: Decimal): UInt32
    requires sign <= 1
  {
    if IsZero(magnitude) then
      SignBit(sign)
    else
      var isNormalFraction := IsNormalF32(FractionPart(magnitude));
      PackNormalized(sign, Normalize(WholePart(magnitude), FractionBits(magnitude), isNormalFraction))
  }

  /** The whole conversion: NaN for text `BigDecimal` rejects, otherwise the
      encoding of the magnitude with the sign of a leading '-'. */
  function Convert(text: string, decimalSeparator: char, minusSign: char): UInt32 {
    var normalizedText := NormalizeText(text, decimalSeparator, minusSign);
    match Parse(normalizedText)
    case None => F32_QNAN_BITS
    case Some(parsed) => Encode(if StartsWithMinus(normalizedText) then 1 else 0, parsed.magnitude)
  }

  /** One loop step on the accumulated bits: the old bits, already shifted one
      place further, `or` the new bit at its place is the accumulation
      2 * acc + bit at that place. A bit of 2 only ever comes first. */
  lemma AccumulateBit(acc: nat, bit: nat, k: nat)
    requires bit <= 1 || acc == 0
    ensures Or(acc * Pow2(k + 1), bit * Pow2(k)) == (2 * acc + bit) * Pow2(k)
  {
    var p := Pow2(k);
    assert Pow2(k + 1) == 2 * p;
    assert acc * Pow2(k + 1) == (2 * acc) * p by { MulAssoc(acc, 2, p); }
    OrShifted(2 * acc, bit, k);
    if acc == 0 {
      assert Or(0, bit) == bit;
    } else {
      assert Pow2(1) == 2;
      OrDisjoint(acc, bit, 1);
    }
  }

  /** Doubling a remainder below one gives an integer part of 0 or 1. */
  lemma DoubledBit(remainder: Decimal)
    requires IsFractional(remainder) && remainder.unscaled < Pow10(remainder.scale)
    ensures WholePart(Twice(remainder)) <= 1
  {
    var unit := Pow10(remainder.scale);
    if 2 * remainder.unscaled / unit >= 2 {
      DivBounds(2 * remainder.unscaled, unit);
      MulLe(2, 2 * remainder.unscaled / unit, unit);
      assert false;
    }
  }

  /** One pass of the doubling loop keeps the loop computing the same
      expansion, with the remainder below one afterwards. */
  lemma LoopStepExpansion(fraction: Decimal, remainder: Decimal, acc: nat, len: nat, bit: nat)
    requires IsRemainder(fraction) && IsRemainder(remainder)
    requires len < F32_EXPONENT_AREA && !IsZero(remainder)
    requires Expand(remainder, acc, len) == ExpandFraction(fraction)
    requires bit == WholePart(Twice(remainder))
    ensures var next := FractionPart(Twice(remainder));
      IsRemainder(next) && next.unscaled < Pow10(next.scale) &&
      Expand(next, 2 * acc + bit, len + 1) == ExpandFraction(fraction)
  {
    var next := FractionPart(Twice(remainder));
    assert Expand(remainder, acc, len) == Expand(next, 2 * acc + bit, len + 1);
  }

  /** One pass of the doubling loop keeps `fractionBits` equal to the
      accumulated bits shifted to position 254 - fractionBitLen. */
  lemma LoopStepBits(remainder: Decimal, acc: nat, len: nat, fractionBits: nat, bit: nat, shiftedBit: nat)
    requires IsFractional(remainder) && len < F32_EXPONENT_AREA
    requires len > 0 ==> remainder.unscaled < Pow10(remainder.scale)
    requires len == 0 ==> acc == 0
    requires fractionBits == Shl(acc, F32_EXPONENT_AREA - len)
    requires bit == WholePart(Twice(remainder))
    requires shiftedBit == Shl(bit, F32_EXPONENT_AREA - (len + 1))
    ensures Or(fractionBits, shiftedBit) == Shl(2 * acc + bit, F32_EXPONENT_AREA - (len + 1))
  {
    if len > 0 {
      DoubledBit(remainder);
    }
    var k := F32_EXPONENT_AREA - (len + 1);
    assert F32_EXPONENT_AREA - len == k + 1;
    ShlIsMul(acc, k + 1);
    ShlIsMul(bit, k);
    ShlIsMul(2 * acc + bit, k);
    AccumulateBit(acc, bit, k);
  }

  /** The doubling loop of `fromText` and the shift after it. `fractionBits`
      keeps each new bit at position 254 - fractionBitLen and is shifted down
      once the loop ends; the ghost `acc` is the same bits read as an integer
      so far. */
  method ExpandFractionBits(fraction: Decimal) returns (fractionBits: nat, fractionBitLen: nat)
    requires IsRemainder(fraction)
    ensures Expansion(fractionBits, fractionBitLen) == ExpandFraction(fraction)
  {
    var remainder := fraction;
    fractionBits := 0;
    fractionBitLen := 0;
    ghost var acc: nat := 0;
    ShlOfZero(F32_EXPONENT_AREA);

    while fractionBitLen < F32_EXPONENT_AREA && !IsZero(remainder)
      invariant IsRemainder(remainder) && fractionBitLen <= F32_EXPONENT_AREA
      invariant fractionBitLen > 0 ==> remainder.unscaled < Pow10(remainder.scale)
      invariant fractionBitLen == 0 ==> acc == 0
      invariant fractionBits == Shl(acc, F32_EXPONENT_AREA - fractionBitLen)
      invariant Expand(remainder, acc, fractionBitLen) == ExpandFraction(fraction)
      decreases F32_EXPONENT_AREA - fractionBitLen
    {
      ghost var previous, previousLen := remainder, fractionBitLen;
      var mul := Twice(remainder);
      remainder := FractionPart(mul);
      var currentFractionBit := WholePart(mul);
      fractionBitLen := fractionBitLen + 1;
      var shiftedBit := Shl(currentFractionBit, F32_EXPONENT_AREA - fractionBitLen);
      LoopStepExpansion(fraction, previous, acc, previousLen, currentFractionBit);
      LoopStepBits(previous, acc, previousLen, fractionBits, currentFractionBit, shiftedBit);
      fractionBits := Or(fractionBits, shiftedBit);
      acc := 2 * acc + currentFractionBit;
    }

    ShlShr(acc, F32_EXPONENT_AREA - fractionBitLen);
    fractionBits := Shr(fractionBits, F32_EXPONENT_AREA - fractionBitLen);
  }

  /** The mantissa adjustment of `fromText`, statement by statement. */
  method FitMantissa(unrounded: nat, unroundedBitLen: nat) returns (mantissa: nat)
    ensures mantissa == RoundMantissa(unrounded, unroundedBitLen)
  {
    mantissa := unrounded;
    var mantissaBitLen := unroundedBitLen;
    if mantissaBitLen < F32_EXPONENT_BIT_LEN {
      mantissa := mantissa * Pow2(F32_EXPONENT_BIT_LEN - mantissaBitLen);
    } else if mantissaBitLen > F32_EXPONENT_BIT_LEN {
      var offsetTilRoundingBit := mantissaBitLen - F32_EXPONENT_BIT_LEN - 1;
      var mantissaWithRoundingBit := Shr(mantissa, offsetTilRoundingBit);
      var roundingBit := mantissaWithRoundingBit % 2;
      mantissa := mantissaWithRoundingBit / 2;
      if roundingBit == 1 {
        mantissa := mantissa + 1;
        mantissaBitLen := BitLength(mantissa);
        if mantissaBitLen > F32_EXPONENT_BIT_LEN {
          mantissa := mantissa / 2;
        }
      }
    }
  }

  /** The part of `fromText` after the doubling loop: the snap, the combined
      bits, the exponent with the overflow to infinity, the normal and
      subnormal branches, the mantissa adjustment and the packing. */
  method NormalizeAndPack(sign: nat, okSignBit: UInt32, whole: nat, expandedBits: nat,
                          expandedBitLen: nat, isNormalFraction: bool) returns (bits: UInt32)
    requires sign <= 1 && okSignBit == SignBit(sign)
    ensures bits == PackNormalized(sign,
      Normalize(whole, Snap(isNormalFraction, Expansion(expandedBits, expandedBitLen)), isNormalFraction))
  {
    var fractionBits, fractionBitLen := expandedBits, expandedBitLen;
    if isNormalFraction && fractionBitLen - BitLength(fractionBits) == F32_EXPONENT_BIAS - 1 {
      fractionBitLen := F32_EXPONENT_BIAS - 1;
      fractionBits := 1;
    }
    ghost var x := Expansion(fractionBits, fractionBitLen);

    var normalizedBits := Or(Shl(whole, fractionBitLen), fractionBits);
    assert Normalize(whole, x, isNormalFraction) ==
      Classify(normalizedBits, fractionBitLen, isNormalFraction);
    if normalizedBits == 0 {
      return okSignBit;
    }

    var mantissaBitLen := BitLength(normalizedBits);
    var exponent := mantissaBitLen - fractionBitLen - 1;
    if exponent > F32_EXPONENT_BIAS {
      InfinityIsPacked(sign);
      return Or(okSignBit, F32_INFINITY_BITS);
    }
    var biasedExponentBits, mantissa, unroundedBitLen :=
      SplitMantissa(normalizedBits, fractionBitLen, isNormalFraction, mantissaBitLen, exponent);
    RoundedFits(mantissa, unroundedBitLen);
    mantissa := FitMantissa(mantissa, unroundedBitLen);
    bits := Pack(sign, biasedExponentBits, mantissa);
  }

  /** The two branches of `fromText` on a finite exponent: the normal one
      (exponent at least -126, or -127 for a normal fraction) biases the
      exponent and clears the implicit leading one; the subnormal one sets the
      biased exponent to 0 and shifts the bits right, counting the places
      shifted out as leading zeros of the mantissa. */
  method SplitMantissa(normalizedBits: nat, fractionBitLen: nat, isNormalFraction: bool,
                       bitLen: nat, exponent: int)
      returns (biasedExponentBits: nat, mantissa: nat, mantissaBitLen: nat)
    requires normalizedBits > 0 && bitLen == BitLength(normalizedBits)
    requires exponent == bitLen - fractionBitLen - 1 && exponent <= F32_EXPONENT_BIAS
    ensures Classify(normalizedBits, fractionBitLen, isNormalFraction) ==
      Finite(biasedExponentBits, mantissa, mantissaBitLen)
  {
    // `toUInt()` would wrap a negative value, but the value is only kept on
    // the normal branch, where it is at least 0.
    var biased: int := exponent + F32_EXPONENT_BIAS;
    if exponent >= F32_EXPONENT_SUBNORMAL_OR_ZERO ||
       (exponent == F32_EXPONENT_SUBNORMAL_OR_ZERO - 1 && isNormalFraction)
    {
      biasedExponentBits := biased;
      mantissaBitLen := bitLen - 1;
      BitLengthBounds(normalizedBits);
      mantissa := normalizedBits - Pow2(mantissaBitLen);
    } else {
      biasedExponentBits := 0;
      var leadingZeros := F32_EXPONENT_SUBNORMAL_OR_ZERO - exponent - 1;
      var mantissaWithImplicitZero := Shr(normalizedBits, leadingZeros);
      mantissaBitLen := BitLength(mantissaWithImplicitZero) + leadingZeros;
      mantissa := mantissaWithImplicitZero;
    }
  }

  /** `fromText`, statement by statement, with the loop and the mantissa
      adjustment in the two methods above. */
  method FromText(text: string, decimalSeparator: char, minusSign: char) returns (f: AdHocFloat32)
    ensures f.bits == Convert(text, decimalSeparator, minusSign)
  {
    var normalizedText := NormalizeText(text, decimalSeparator, minusSign);
    var parsed := Parse(normalizedText);
    if parsed.None? {
      return QNAN;
    }
    var absDecimal := parsed.value.magnitude;
    var sign: nat := if StartsWithMinus(normalizedText) then 1 else 0;
    var okSignBit := SignBit(sign);
    if IsZero(absDecimal) {
      return AdHocFloat32(okSignBit);
    }

    var whole := WholePart(absDecimal);
    var fraction := FractionPart(absDecimal);
    var isNormalFraction := IsNormalF32(fraction);
    if isNormalFraction {
      SetScaleAtMostOne(fraction, F32_NORMAL_SCALE_MAX);
      fraction := SetScaleHalfEven(fraction, F32_NORMAL_SCALE_MAX);
    }
    assert fraction == StartFraction(absDecimal);
    var fractionBits, fractionBitLen := ExpandFractionBits(fraction);

    assert FractionBits(absDecimal) == Snap(isNormalFraction, Expansion(fractionBits, fractionBitLen));
    var bits := NormalizeAndPack(sign, okSignBit, whole, fractionBits, fractionBitLen, isNormalFraction);
    f := AdHocFloat32(bits);
  }
}
