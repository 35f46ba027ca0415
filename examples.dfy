/** Worked conversions: magnitudes and texts with the words they give. */
module Examples {
  import opened Bits
  import opened ExactDecimal
  import opened Float32
  import opened FractionExpansion
  import opened Normalizer
  import opened Rounder
  import opened DecimalParser
  import opened Conversion
  import opened Classification

  /** A magnitude with at most 45 decimal places whose fraction is exactly
      m / 2^k, m odd, k <= 126, is encoded from exactly those bits: the
      fraction is normal, keeps its value through the setScale, expands to m
      at length k and is not snapped. */
  lemma DyadicEncode(sign: nat, magnitude: Decimal, m: nat, k: nat)
    requires sign <= 1
    requires 0 <= magnitude.scale <= F32_NORMAL_SCALE_MAX
    requires k <= F32_EXPONENT_BIAS - 1 && m % 2 == 1
    requires FractionPart(magnitude).unscaled * Pow2(k) == m * Pow10(magnitude.scale)
    ensures Encode(sign, magnitude) ==
      PackNormalized(sign, Normalize(WholePart(magnitude), Expansion(m, k), true))
  {
    DyadicFractionBits(magnitude, m, k);
    var whole := WholePart(magnitude);
    var x := FractionBits(magnitude);
    var isNormalFraction := IsNormalF32(FractionPart(magnitude));
    assert !IsZero(magnitude);
    assert Encode(sign, magnitude) == PackNormalized(sign, Normalize(whole, x, isNormalFraction));
  }

  lemma DyadicFractionBits(magnitude: Decimal, m: nat, k: nat)
    requires 0 <= magnitude.scale <= F32_NORMAL_SCALE_MAX
    requires k <= F32_EXPONENT_BIAS - 1 && m % 2 == 1
    requires FractionPart(magnitude).unscaled * Pow2(k) == m * Pow10(magnitude.scale)
    ensures FractionPart(magnitude).unscaled > 0
    ensures IsNormalF32(FractionPart(magnitude))
    ensures FractionBits(magnitude) == Expansion(m, k)
  {
    var f := FractionPart(magnitude);
    var s: nat := magnitude.scale;
    var unit := Pow10(s);
    assert f.scale == s;
    MulLe(1, m, unit);
    PositiveFactor(f.unscaled, Pow2(k));
    AtLeastNormalMin(f, k);
    var g := DyadicStart(magnitude, m, k);
    DyadicExpansion(g, m, k);
    BitLengthBounds(m);
    var x := Expansion(m, k);
    assert LeadingZeroCount(x) < F32_EXPONENT_BIAS - 1;
    assert Snap(true, x) == x;
    assert FractionBits(magnitude) == Snap(true, ExpandFraction(g));
  }

  lemma PositiveFactor(a: nat, b: nat)
    requires a * b > 0
    ensures a > 0
  {
  }

  lemma BelowMultiple(u: nat, p: nat, q: nat)
    requires u > 0 && p >= 2 && u * p == q
    ensures u < q
  {
    MulLe(2, p, u);
  }

  lemma DyadicStart(magnitude: Decimal, m: nat, k: nat) returns (g: Decimal)
    requires 0 <= magnitude.scale <= F32_NORMAL_SCALE_MAX
    requires IsNormalF32(FractionPart(magnitude))
    requires FractionPart(magnitude).unscaled * Pow2(k) == m * Pow10(magnitude.scale)
    ensures g == StartFraction(magnitude) && IsRemainder(g)
    ensures g.unscaled < Pow10(g.scale) && g.unscaled * Pow2(k) == m * Pow10(g.scale)
  {
    var f := FractionPart(magnitude);
    var s: nat := magnitude.scale;
    var unit := Pow10(s);
    var widen := Pow10(F32_NORMAL_SCALE_MAX - s);
    g := StartFraction(magnitude);
    assert g == Decimal(f.unscaled * widen, F32_NORMAL_SCALE_MAX);
    UnitsSplit(s, F32_NORMAL_SCALE_MAX - s);
    MulBelow(f.unscaled, unit, widen);
    MulAssocNat(f.unscaled, widen, Pow2(k));
    MulAssocNat(m, unit, widen);
  }

  /** The normal branch for combined bits nb with 2^len <= nb < 2^(len+1),
      of which the last n are fraction bits. */
  lemma ClassifyNormal(nb: nat, n: nat, len: nat, isNormalFraction: bool)
    requires Pow2(len) <= nb < Pow2(len + 1)
    requires F32_EXPONENT_SUBNORMAL_OR_ZERO <= len - n <= F32_EXPONENT_BIAS
    ensures Classify(nb, n, isNormalFraction) ==
      Finite(len - n + F32_EXPONENT_BIAS, nb - Pow2(len), len)
  {
    BitLengthUnique(nb, len);
  }

  /** The subnormal branch for combined bits nb with 2^len <= nb < 2^(len+1),
      of which the last n are fraction bits, and an exponent below -127. */
  lemma ClassifySubnormal(nb: nat, n: nat, len: nat, isNormalFraction: bool, shift: nat)
    requires Pow2(len) <= nb < Pow2(len + 1)
    requires len - n < F32_EXPONENT_SUBNORMAL_OR_ZERO - 1
    requires shift == F32_EXPONENT_SUBNORMAL_OR_ZERO - 1 - (len - n)
    ensures Classify(nb, n, isNormalFraction) ==
      Finite(0, Shr(nb, shift), BitLength(Shr(nb, shift)) + shift)
  {
    BitLengthUnique(nb, len);
  }

  /** A finite result with at most 23 mantissa bits is packed with its
      mantissa shifted up to 23 bits. */
  lemma PackShort(sign: nat, biasedExponent: nat, mantissa: nat, len: nat)
    requires sign <= 1 && biasedExponent < 255 && mantissa < Pow2(len)
    requires len <= F32_EXPONENT_BIT_LEN
    ensures PackNormalized(sign, Finite(biasedExponent, mantissa, len)) ==
      sign * 0x8000_0000 + biasedExponent * 0x80_0000 + mantissa * Pow2(F32_EXPONENT_BIT_LEN - len)
  {
    RoundedFits(mantissa, len);
  }

  /** 0.5 is 2^-1: biased exponent 126, mantissa 0, and -0.5 differs only in
      the sign bit. */
  lemma HalfEncodes(sign: nat, half: Decimal)
    requires sign <= 1 && half == Decimal(5, 1)
    ensures Encode(sign, half) == sign * 0x8000_0000 + 0x3F00_0000
  {
    DyadicEncode(sign, half, 1, 1);
    NormalizedBitsValue(0, Expansion(1, 1));
    ClassifyNormal(1, 1, 0, true);
    PackShort(sign, 126, 0, 0);
  }

  /** 1.5 is 1.1 in binary: biased exponent 127, mantissa 0x40_0000. */
  lemma OneAndAHalfEncodes(d: Decimal)
    requires d == Decimal(15, 1)
    ensures Encode(0, d) == 0x3FC0_0000
  {
    var x := Expansion(1, 1);
    DyadicEncode(0, d, 1, 1);
    assert WholePart(d) == 1;
    NormalizedBitsValue(1, x);
    ClassifyNormal(3, 1, 1, true);
    assert Normalize(1, x, true) == Finite(127, 1, 1);
    PackShort(0, 127, 1, 1);
    assert Pow2(22) == 0x40_0000 by {
      Pow2Constants();
    }
  }

  /** 12.375 is 1100.011 in binary: biased exponent 130, mantissa 0x46_0000. */
  lemma TwelvePointThreeSevenFiveEncodes(d: Decimal)
    requires d == Decimal(12375, 3)
    ensures Encode(0, d) == 0x4146_0000
  {
    assert Pow10(3) == 1000 && Pow2(3) == 8;
    assert FractionPart(d) == Decimal(375, 3) && WholePart(d) == 12;
    DyadicEncode(0, d, 3, 3);
    NormalizedBitsValue(12, Expansion(3, 3));
    assert Pow2(6) == 64 && Pow2(7) == 128;
    ClassifyNormal(99, 3, 6, true);
    PackShort(0, 130, 35, 6);
    assert Pow2(17) == 0x2_0000;
  }

  /** Zero at any scale gives the signed zero. */
  lemma ZeroEncodes(d: Decimal)
    requires d.unscaled == 0
    ensures Encode(0, d) == 0 && Encode(1, d) == 0x8000_0000
  {
  }

  /** 1.99...9 with more than 45 nines: the fraction .99...9 rounds to one
      at 45 places, the loop then produces the bits 10 at length 1, and the
      `or` with the integer part 1 shifted left, 10 again, drops the carry.
      The word is that of 1.0, where 2.0 (0x4000_0000) is nearest. */
  lemma NinesEncodeAsOne(sign: nat, d: Decimal)
    requires sign <= 1 && d.scale > F32_NORMAL_SCALE_MAX
    requires d.unscaled == 2 * Pow10(d.scale) - 1
    ensures Encode(sign, d) == sign * 0x8000_0000 + 0x3F80_0000
  {
    NinesFractionBits(d);
    var x := FractionBits(d);
    var isNormalFraction := IsNormalF32(FractionPart(d));
    assert !IsZero(d);
    assert Encode(sign, d) == PackNormalized(sign, Normalize(1, x, isNormalFraction));
    assert NormalizedBits(1, x) == 2;
    ClassifyNormal(2, 1, 1, true);
    PackShort(sign, 127, 0, 1);
  }

  lemma NinesFractionBits(d: Decimal)
    requires d.scale > F32_NORMAL_SCALE_MAX
    requires d.unscaled == 2 * Pow10(d.scale) - 1
    ensures WholePart(d) == 1 && IsNormalF32(FractionPart(d))
    ensures FractionBits(d) == Expansion(2, 1)
  {
    var s: nat := d.scale;
    var unit := Pow10(s);
    Pow10Monotone(1, s);
    DivUnique(d.unscaled, unit, 1, unit - 1);
    var f := FractionPart(d);
    assert f == Decimal(unit - 1, s);
    AtLeastNormalMin(f, 1);
    var g := NinesStart(f);
    assert StartFraction(d) == g;
    OneExpandsOnce(g);
    var x := Expansion(2, 1);
    assert BitLength(2) == 2;
    assert Snap(true, x) == x;
    assert FractionBits(d) == Snap(true, ExpandFraction(g));
    assert FractionBits(d) == x;
  }

  /** (one * cut - 1) / cut, rounded half-even, is one when cut >= 10: the
      remainder cut - 1 is above half of cut. */
  lemma NearlyOneRounds(n: nat, one: nat, cut: nat)
    requires one >= 1 && cut >= 10 && n + 1 == one * cut
    ensures DivHalfEven(n, cut) == one
  {
    assert (one - 1) * cut == one * cut - cut;
    DivUnique(n, cut, one - 1, cut - 1);
  }

  lemma NinesStart(f: Decimal) returns (g: Decimal)
    requires IsFractional(f) && f.scale > F32_NORMAL_SCALE_MAX
    requires f.unscaled == Pow10(f.scale) - 1
    ensures g == SetScaleHalfEven(f, F32_NORMAL_SCALE_MAX) && IsRemainder(g) && g.unscaled == Pow10(g.scale)
  {
    NinesRound(f.scale, F32_NORMAL_SCALE_MAX);
    g := SetScaleHalfEven(f, F32_NORMAL_SCALE_MAX);
  }

  /** 1 - 10^-s rounded half-even to fewer places `top` is one. */
  lemma NinesRound(s: nat, top: nat)
    requires s > top
    ensures DivHalfEven(Pow10(s) - 1, Pow10(s - top)) == Pow10(top)
  {
    UnitsSplit(top, s - top);
    Pow10Monotone(1, s - top);
    NearlyOneRounds(Pow10(s) - 1, Pow10(top), Pow10(s - top));
  }

  /** 2^-128, written with any number of decimal places: a normal exponent
      of -128 sends it to the subnormal branch, whose shift right by one
      place drops its only bit, so it becomes the signed zero. It is exactly
      2^21 * 2^-149, the subnormal with mantissa 0x20_0000. */
  lemma SubnormalBitLost(sign: nat, d: Decimal)
    requires sign <= 1 && d.scale >= 0
    requires d.unscaled * Pow2(128) == Pow10(d.scale)
    ensures Encode(sign, d) == SignBit(sign)
    ensures d.unscaled * Pow2(149) == Pow2(21) * Pow10(d.scale)
  {
    SubnormalFractionBits(d);
    var x := FractionBits(d);
    var isNormalFraction := IsNormalF32(FractionPart(d));
    assert !IsZero(d);
    assert Encode(sign, d) == PackNormalized(sign, Normalize(0, x, isNormalFraction));
    FractionOnlyBits(x);
    ClassifySubnormal(1, 128, 0, false, 1);
    assert Shr(1, 1) == 0;
    PackShort(sign, 0, 0, 1);
    Pow2Add(128, 21);
    MulAssocNat(d.unscaled, Pow2(128), Pow2(21));
  }

  lemma SubnormalFractionBits(d: Decimal)
    requires d.scale >= 0
    requires d.unscaled * Pow2(128) == Pow10(d.scale)
    ensures d.unscaled > 0 && WholePart(d) == 0 && !IsNormalF32(FractionPart(d))
    ensures FractionBits(d) == Expansion(1, 128)
  {
    var u := d.unscaled;
    var unit := Pow10(d.scale);
    var p := Pow2(128);
    PositiveFactor(u, p);
    Pow2Monotone(1, 128);
    BelowMultiple(u, p, unit);
    ScaledMonotone(u, F32_EXPONENT_BIAS, 128);
    DivUnique(u, unit, 0, u);
    var f := FractionPart(d);
    assert f == d;
    AtMostHalfNormalMin(f);
    assert StartFraction(d) == f;
    DyadicExpansion(f, 1, 128);
  }

  /** A locale with ',' as decimal separator and U+2212 as minus sign: the
      text is rewritten to "-0.5" before parsing, and the sign read from the
      '-' gives -0.5. */
  lemma LocalizedMinusHalf(text: string)
    requires text == "\U{2212}0,5"
    ensures Convert(text, ',', '\U{2212}') == 0xBF00_0000
  {
    LocalizedMinusHalfParses(text);
    var normalized := NormalizeText(text, ',', '\U{2212}');
    HalfEncodes(1, Parse(normalized).value.magnitude);
  }

  lemma LocalizedMinusHalfParses(text: string)
    requires text == "\U{2212}0,5"
    ensures var normalized := NormalizeText(text, ',', '\U{2212}');
      StartsWithMinus(normalized) && Parse(normalized) == Some(ParsedDecimal(true, Decimal(5, 1)))
  {
    assert text == ['\U{2212}'] + "0" + [','] + "5";
    LocalizedText('\U{2212}', ',', "0", "5");
    ParsePlainNotation("-", "0", "5");
    assert DigitsValue("0" + "5") == 5;
  }

  /** The same digits under a locale whose separator is '.': the ',' is left
      in place, `BigDecimal` rejects "1,5" and the result is the quiet NaN. */
  lemma ForeignSeparatorIsNaN(text: string)
    requires text == "1,5"
    ensures Convert(text, '.', '-') == F32_QNAN_BITS
  {
    assert text == "" + text + "";
    AsciiText("", text, "");
    CommaDoesNotParse(text);
  }

  /** After the digit 1 BigDecimal finds ',' where only a point, an exponent
      or the end may follow. */
  lemma CommaDoesNotParse(s: string)
    requires s == "1,5"
    ensures Parse(s) == None
  {
    assert DigitRun(s) == 1 by {
      assert s[1..] == ",5";
    }
    assert s[1..] == ",5";
  }

  /** Whitespace around the text is trimmed before parsing. */
  lemma TrimmedOneAndAHalf(text: string)
    requires text == " 1.5\n"
    ensures Convert(text, '.', '-') == 0x3FC0_0000
  {
    TrimmedOneAndAHalfParses(text);
    var normalized := NormalizeText(text, '.', '-');
    OneAndAHalfEncodes(Parse(normalized).value.magnitude);
  }

  lemma TrimmedOneAndAHalfParses(text: string)
    requires text == " 1.5\n"
    ensures var normalized := NormalizeText(text, '.', '-');
      !StartsWithMinus(normalized) && Parse(normalized) == Some(ParsedDecimal(false, Decimal(15, 1)))
  {
    var inner := "1.5";
    assert text == " " + inner + "\n";
    AsciiText(" ", inner, "\n");
    OneAndAHalfParses(inner);
  }

  lemma OneAndAHalfParses(s: string)
    requires s == "1.5"
    ensures !StartsWithMinus(s) && Parse(s) == Some(ParsedDecimal(false, Decimal(15, 1)))
  {
    ParsePlainNotation("", "1", "5");
    assert "" + "1" + "." + "5" == s;
    assert DigitsValue("1" + "5") == 15;
  }

  /** The accessors on the word of 12.375: sign 0, biased exponent 130, so
      exponent 3, and mantissa 0x46_0000; on the subnormal with mantissa
      0x20_0000 the exponent is reported as -126. */
  lemma AccessorsOnExamples()
    ensures var f := AdHocFloat32(0x4146_0000);
      f.Sign() == 0 && f.BiasedExponent() == 130 && f.Exponent() == 3 && f.Mantissa() == 0x46_0000
    ensures var f := AdHocFloat32(0x0020_0000);
      f.BiasedExponent() == 0 && f.Exponent() == -126 && f.Mantissa() == 0x20_0000
  {
  }
}
