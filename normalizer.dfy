/** Putting the integer part and the fraction bits together and reading off
    the binary exponent: the snap to the smallest normal, the combined
    `normalizedBits`, and the choice between a normal mantissa (implicit one
    removed) and a subnormal one (implicit leading zeros added). */
module Normalizer {
  import opened Bits
  import opened Float32
  import opened FractionExpansion

  /** What normalisation leaves: nothing (the value vanished in the bit budget),
      an exponent too large for binary32, or a biased exponent with a mantissa
      of `mantissaBitLen` significant bits still to be rounded. */
  datatype Normalized =
    | Vanished
    | Overflow
    | Finite(biasedExponent: nat, mantissa: nat, mantissaBitLen: nat)

  /** The exponent of the fraction bits alone, n - bitLength(B) steps below
      zero, counted as the source does. */
  function LeadingZeroCount(x: Expansion): int {
    x.len - BitLength(x.bits)
  }

  /** A normal fraction whose bits start 126 places after the point, that is
      one with binary exponent -127, is replaced by 2^-126 itself: length 126,
      bits 1. */
  function Snap(isNormalFraction: bool, x: Expansion): Expansion {
    if isNormalFraction && LeadingZeroCount(x) == F32_EXPONENT_BIAS - 1 then
      Expansion(1, F32_EXPONENT_BIAS - 1)
    else
      x
  }

  /** `(whole shl fractionBitLen) or fractionBits`. */
  function NormalizedBits(whole: nat, x: Expansion): nat {
    Or(Shl(whole, x.len), x.bits)
  }

  /** `bitLength(normalizedBits) - fractionBitLen - 1`: the binary exponent of
      normalizedBits / 2^fractionBitLen. */
  function UnbiasedExponent(whole: nat, x: Expansion): int {
    BitLength(NormalizedBits(whole, x)) - x.len - 1
  }

  /** The branch that removes the implicit one: exponent at least -126, or -127
      for a normal fraction. */
  predicate TakesNormalBranch(e: int, isNormalFraction: bool) {
    e >= F32_EXPONENT_SUBNORMAL_OR_ZERO ||
    (e == F32_EXPONENT_SUBNORMAL_OR_ZERO - 1 && isNormalFraction)
  }

  /** Normalisation after the snap. In the normal branch the biased exponent
      is exponent + 127 and the leading one is cleared from normalizedBits (its
      `xor` with the top bit, which is set, is that subtraction). In the
      subnormal branch the biased exponent is 0, normalizedBits is shifted right
      by -127 - exponent, and the mantissa length counts those shifted-out
      places as leading zeros. */
  function Normalize(whole: nat, x: Expansion, isNormalFraction: bool): Normalized {
    Classify(NormalizedBits(whole, x), x.len, isNormalFraction)
  }

  /** Normalisation of the combined bits nb, of which the last n are fraction
      bits. */
  function Classify(nb: nat, n: nat, isNormalFraction: bool): (r: Normalized)
    ensures r.Finite? ==> r.biasedExponent < 255 && r.mantissa < Pow2(r.mantissaBitLen)
  {
    if nb == 0 then
      Vanished
    else
      var e := BitLength(nb) - n - 1;
      if e > F32_EXPONENT_BIAS then
        Overflow
      else if TakesNormalBranch(e, isNormalFraction) then
        var mantissaBitLen := BitLength(nb) - 1;
        TopBitCleared(nb);
        Finite(e + F32_EXPONENT_BIAS, nb - Pow2(mantissaBitLen), mantissaBitLen)
      else
        var leadingZeros := F32_EXPONENT_SUBNORMAL_OR_ZERO - e - 1;
        var withImplicitZero := Shr(nb, leadingZeros);
        WithinBitLength(withImplicitZero, leadingZeros);
        Finite(0, withImplicitZero, BitLength(withImplicitZero) + leadingZeros)
  }

  /** A number is below 2^(bitLength + k) for every k. */
  lemma WithinBitLength(m: nat, k: nat)
    ensures m < Pow2(BitLength(m) + k)
  {
    if m > 0 {
      BitLengthBounds(m);
    }
    Pow2Monotone(BitLength(m), BitLength(m) + k);
  }

  /** Below the budget, the fraction bits fit under the integer part shifted
      left, so `or` is addition: normalizedBits == whole * 2^n + B. */
  lemma NormalizedBitsValue(whole: nat, x: Expansion)
    requires x.bits < Pow2(x.len)
    ensures NormalizedBits(whole, x) == whole * Pow2(x.len) + x.bits
  {
    ShlIsMul(whole, x.len);
    OrDisjoint(whole, x.bits, x.len);
  }

  /** With no integer part, normalizedBits is the fraction bits. */
  lemma FractionOnlyBits(x: Expansion)
    ensures NormalizedBits(0, x) == x.bits
  {
    ShlOfZero(x.len);
  }

  /** With a nonzero integer part the exponent is not negative. */
  lemma WholeGivesNonNegativeExponent(whole: nat, x: Expansion)
    requires whole > 0
    ensures NormalizedBits(whole, x) > 0 && UnbiasedExponent(whole, x) >= 0
  {
    var nb := NormalizedBits(whole, x);
    ShlIsMul(whole, x.len);
    OrAtLeast(whole * Pow2(x.len), x.bits);
    MulLe(1, whole, Pow2(x.len));
    BitLengthAtLeast(nb, x.len);
  }

  /** The exponent places normalizedBits between consecutive powers of two:
      2^(e + n) <= normalizedBits < 2^(e + n + 1), and the classification
      follows from e alone. */
  lemma NormalizeSpec(whole: nat, x: Expansion, isNormalFraction: bool)
    ensures var nb := NormalizedBits(whole, x);
      var e := UnbiasedExponent(whole, x);
      var r := Normalize(whole, x, isNormalFraction);
      (r.Vanished? <==> nb == 0) &&
      (nb > 0 ==> e + x.len >= 0 && Pow2(e + x.len) <= nb < Pow2(e + x.len + 1)) &&
      (r.Overflow? <==> nb > 0 && e > F32_EXPONENT_BIAS) &&
      (r.Finite? ==> e <= F32_EXPONENT_BIAS && r.mantissa < Pow2(r.mantissaBitLen)) &&
      (r.Finite? && TakesNormalBranch(e, isNormalFraction) ==>
        r.biasedExponent == e + F32_EXPONENT_BIAS &&
        r.mantissaBitLen == e + x.len &&
        Pow2(r.mantissaBitLen) + r.mantissa == nb) &&
      (r.Finite? && !TakesNormalBranch(e, isNormalFraction) ==>
        r.biasedExponent == 0 &&
        e <= F32_EXPONENT_SUBNORMAL_OR_ZERO - 1 &&
        r.mantissa == Shr(nb, F32_EXPONENT_SUBNORMAL_OR_ZERO - 1 - e))
  {
    var nb := NormalizedBits(whole, x);
    var r := Normalize(whole, x, isNormalFraction);
    if nb > 0 {
      BitLengthBounds(nb);
    }
  }

  /** The snap fires exactly when a normal fraction on its own has binary
      exponent -127, and it leaves the exponent -126 of 2^-126. */
  lemma SnapSpec(isNormalFraction: bool, x: Expansion)
    requires x.bits > 0
    ensures var s := Snap(isNormalFraction, x);
      (s != x ==> isNormalFraction && UnbiasedExponent(0, x) == F32_EXPONENT_SUBNORMAL_OR_ZERO - 1) &&
      (isNormalFraction && UnbiasedExponent(0, x) == F32_EXPONENT_SUBNORMAL_OR_ZERO - 1 ==>
        UnbiasedExponent(0, s) == F32_EXPONENT_SUBNORMAL_OR_ZERO &&
        NormalizedBits(0, s) * Pow2(F32_EXPONENT_BIAS - 1) == Pow2(s.len))
  {
    ShlOfZero(x.len);
    assert NormalizedBits(0, x) == x.bits;
    var s := Snap(isNormalFraction, x);
    ShlOfZero(s.len);
    assert NormalizedBits(0, s) == s.bits;
    assert BitLength(1) == 1;
  }
}
