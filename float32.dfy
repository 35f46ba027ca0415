/** The binary32 layout of section 3.4 of IEEE 754-2008 as the conversion
    uses it: bit 31 is the sign, bits 30-23 the biased exponent (bias 127) and
    bits 22-0 the fraction, called the mantissa here as in the source. This
    module holds the constants of the conversion, the packing of the three
    fields into one word and the accessors that take a word apart. */
module Float32 {
  import opened Bits
  import opened ExactDecimal

  /** Kotlin's `UInt`. */
  type UInt32 = x: nat | x < 0x1_0000_0000

  const F32_QNAN_BITS: UInt32 := 0x7FC0_0000
  const F32_INFINITY_BITS: UInt32 := 0x7F80_0000
  const F32_MANTISSA_MASK: UInt32 := 0x7F_FFFF
  const F32_SIGN_BIT_MASK: UInt32 := 0x8000_0000
  const F32_SIGN_BIT_INDEX: nat := 31
  /** The width of the mantissa field (the source names it an exponent length). */
  const F32_EXPONENT_BIT_LEN: nat := 23
  const F32_EXPONENT_BIAS: nat := 127
  /** Twice the bias: the budget of fraction bits the doubling loop may produce. */
  const F32_EXPONENT_AREA: nat := 254
  const F32_EXPONENT_SUBNORMAL_OR_ZERO: int := -126
  /** The decimal scale a fraction near the normal range is rounded to. */
  const F32_NORMAL_SCALE_MAX: nat := 45

  /** `BigDecimal(1.1754943508222875E-38)`: the double literal is exactly
      2^-126, the smallest normal binary32 magnitude, and the BigDecimal holds
      all 126 of its decimal places (NormalMinIsExact). */
  const F32_NORMAL_MIN: Decimal :=
    Decimal(11754943508222875079687365372222456778186655567720875215087517062784172594547271728515625, 126)

  /** `BigDecimal(1.1754942106924411E-38)`: exactly (2^23 - 1) * 2^-149, the
      largest subnormal binary32 magnitude, at 149 decimal places
      (SubnormalMaxIsExact). */
  const F32_SUBNORMAL_MAX: Decimal :=
    Decimal(1175494210692441075487029444849287348827052428745893333857174530571588870475618904265502351336181163787841796875, 149)

  /** The midpoint of the two, divided by two with HALF_EVEN at the sum's scale. */
  const F32_SPLIT: Decimal := DivideHalfEven(Add(F32_NORMAL_MIN, F32_SUBNORMAL_MAX), 2)

  /** `BigDecimal.isNormalF32()`: the fraction is at or above the split
      between the largest subnormal and the smallest normal magnitude. */
  predicate IsNormalF32(f: Decimal)
    requires IsFractional(f)
  {
    AtLeast(f, F32_SPLIT)
  }

  /** `sign shl F32_SIGN_BIT_INDEX`. */
  function SignBit(sign: nat): (r: UInt32)
    requires sign <= 1
    ensures r == 0 <==> sign == 0
  {
    sign * 0x8000_0000
  }

  /** `okSignBit or (biasedExponentBits shl 23) or mantissaBits`. */
  function Pack(sign: nat, biasedExponent: nat, mantissa: nat): (r: UInt32)
    requires sign <= 1 && biasedExponent <= 255 && mantissa < 0x80_0000
    ensures r == sign * 0x8000_0000 + biasedExponent * 0x80_0000 + mantissa
  {
    PackDisjoint(sign, biasedExponent, mantissa);
    PackBelow(sign, biasedExponent, mantissa);
    Or(Or(SignBit(sign), Shl(biasedExponent, F32_EXPONENT_BIT_LEN)), mantissa)
  }

  /** The three fields together fit in 32 bits. */
  lemma PackBelow(sign: nat, biasedExponent: nat, mantissa: nat)
    requires sign <= 1 && biasedExponent <= 255 && mantissa < 0x80_0000
    ensures sign * 0x8000_0000 + biasedExponent * 0x80_0000 + mantissa < 0x1_0000_0000
  {
    MulLe(sign, 1, 0x8000_0000);
    MulLe(biasedExponent, 255, 0x80_0000);
  }

  /** The three fields occupy disjoint bits, so each `or` is an addition. */
  lemma PackDisjoint(sign: nat, biasedExponent: nat, mantissa: nat)
    requires sign <= 1 && biasedExponent <= 255 && mantissa < 0x80_0000
    ensures Or(Or(SignBit(sign), Shl(biasedExponent, F32_EXPONENT_BIT_LEN)), mantissa)
         == sign * 0x8000_0000 + biasedExponent * 0x80_0000 + mantissa
  {
    var field := Pow2(F32_EXPONENT_BIT_LEN);
    Pow2Constants();
    Pow2Add(8, F32_EXPONENT_BIT_LEN);
    assert Pow2(8) == 256;
    ShlIsMul(biasedExponent, F32_EXPONENT_BIT_LEN);
    MulLe(biasedExponent, 255, field);
    OrDisjoint(sign, biasedExponent * field, 31);
    var high := sign * 256 + biasedExponent;
    MulAssocNat(sign, 256, field);
    assert sign * Pow2(31) + biasedExponent * field == high * field;
    OrDisjoint(high, mantissa, F32_EXPONENT_BIT_LEN);
  }

  /** The signed infinity `okSignBit or F32_INFINITY_BITS` is the word with
      biased exponent 255 and mantissa 0. */
  lemma InfinityIsPacked(sign: nat)
    requires sign <= 1
    ensures Or(SignBit(sign), F32_INFINITY_BITS) == Pack(sign, 255, 0)
  {
    Pow2Constants();
    OrDisjoint(sign, F32_INFINITY_BITS, 31);
  }

  /** The value class `AdHocFloat32` and its extension properties. */
  datatype AdHocFloat32 = AdHocFloat32(bits: UInt32) {

    /** `(bits shr 31).toInt()`: bit 31. */
    function Sign(): (s: nat)
      ensures s <= 1
      ensures s == 1 <==> bits >= F32_SIGN_BIT_MASK
    {
      bits / 0x8000_0000
    }

    /** `((bits and F32_SIGN_BIT_MASK.inv()) shr 23).toInt()`: bits 30-23.
        Clearing bit 31 of a 32-bit word is taking it modulo 2^31. */
    function BiasedExponent(): (e: nat)
      ensures e <= 255
    {
      (bits % 0x8000_0000) / 0x80_0000
    }

    /** `max(biasedExponent - 127, -126)`: the unbiased exponent, with zero and
        the subnormals reported at -126. */
    function Exponent(): (e: int)
      ensures -126 <= e <= 128
      ensures BiasedExponent() >= 1 ==> e + 127 == BiasedExponent()
      ensures BiasedExponent() == 0 ==> e == -126
    {
      var unbiased := BiasedExponent() - F32_EXPONENT_BIAS;
      if unbiased >= F32_EXPONENT_SUBNORMAL_OR_ZERO then unbiased else F32_EXPONENT_SUBNORMAL_OR_ZERO
    }

    /** `(bits and F32_MANTISSA_MASK).toInt()`: bits 22-0. */
    function Mantissa(): (m: nat)
      ensures m <= F32_MANTISSA_MASK
    {
      bits % 0x80_0000
    }
  }

  /** The shared quiet NaN. */
  const QNAN: AdHocFloat32 := AdHocFloat32(F32_QNAN_BITS)

  /** Packing then taking apart gives back each field. */
  lemma FieldsOfPack(sign: nat, biasedExponent: nat, mantissa: nat)
    requires sign <= 1 && biasedExponent <= 255 && mantissa < 0x80_0000
    ensures var f := AdHocFloat32(Pack(sign, biasedExponent, mantissa));
      f.Sign() == sign && f.BiasedExponent() == biasedExponent && f.Mantissa() == mantissa
  {
    var b := Pack(sign, biasedExponent, mantissa);
    assert b % 0x8000_0000 == biasedExponent * 0x80_0000 + mantissa;
  }

  /** Every word is the packing of its own fields, so the accessors lose nothing. */
  lemma PackOfFields(f: AdHocFloat32)
    ensures Pack(f.Sign(), f.BiasedExponent(), f.Mantissa()) == f.bits
  {
    var low := f.bits % 0x8000_0000;
    assert f.bits == f.Sign() * 0x8000_0000 + low;
    assert low == f.BiasedExponent() * 0x80_0000 + low % 0x80_0000;
    assert low % 0x80_0000 == f.Mantissa();
  }

  /** The quiet NaN has sign 0, biased exponent 255 (exponent 128) and the
      top mantissa bit alone set. */
  lemma QuietNaNFields()
    ensures QNAN.Sign() == 0 && QNAN.BiasedExponent() == 255
    ensures QNAN.Exponent() == 128 && QNAN.Mantissa() == 0x40_0000
  {
  }

  /** The constants are the exact binary32 boundary values, as exact decimals. */
  lemma NormalMinIsExact()
    ensures F32_NORMAL_MIN.unscaled * Pow2(126) == Pow10(126)
  {
    Pow2Known();
    Pow10Known();
  }

  lemma SubnormalMaxIsExact()
    ensures F32_SUBNORMAL_MAX.unscaled * Pow2(149) == (Pow2(23) - 1) * Pow10(149)
  {
    Pow2Known();
    Pow10Known();
  }

  /** The split lies strictly between the largest subnormal and the smallest
      normal magnitude: split * 2^150 == (2^24 - 1) * 10^149 + 2^149, where
      the midpoint is (2^24 - 1) * 2^-150. So the split is the midpoint plus
      5 * 10^-150, half a unit of the 149th decimal place, which the HALF_EVEN
      division of the odd sum at scale 149 leaves. In particular it lies
      between 2^-127 and 2^-126. */
  lemma SplitBetween()
    ensures F32_SPLIT.scale == 149
    ensures F32_SUBNORMAL_MAX.unscaled < F32_SPLIT.unscaled
    ensures F32_SPLIT.unscaled * Pow2(126) < Pow10(149) < F32_SPLIT.unscaled * Pow2(127)
    ensures F32_SPLIT.unscaled * Pow2(150) == (Pow2(24) - 1) * Pow10(149) + Pow2(149)
  {
    Pow2Known();
    Pow10Known();
    SplitValue();
  }

  /** F32_SPLIT evaluated: the digits of 1.1754942807573642917...898438E-38. */
  lemma SplitValue()
    ensures F32_SPLIT == Decimal(SPLIT_UNSCALED, 149)
  {
    Pow10Known();
    var sum := Add(F32_NORMAL_MIN, F32_SUBNORMAL_MAX);
    assert sum.scale == 149;
    assert sum.unscaled == F32_NORMAL_MIN.unscaled * Pow10(23) + F32_SUBNORMAL_MAX.unscaled;
  }

  const SPLIT_UNSCALED: nat :=
    1175494280757364291727882991035766513322858992758990427682963118425003064965173038558532425668090581893920898438

  /** Powers of two that the boundary arguments need, evaluated. */
  lemma Pow2Known()
    ensures Pow2(23) == 0x80_0000 && Pow2(24) == 0x100_0000
    ensures Pow2(126) == 0x4000_0000_0000_0000_0000_0000_0000_0000
    ensures Pow2(127) == 0x8000_0000_0000_0000_0000_0000_0000_0000
    ensures Pow2(149) == 0x20_0000_0000_0000_0000_0000_0000_0000_0000_0000
    ensures Pow2(150) == 0x40_0000_0000_0000_0000_0000_0000_0000_0000_0000
  {
    Pow2Constants();
    assert Pow2(9) == 0x200;
    Pow2Add(9, 9);
    assert Pow2(18) == 0x4_0000;
    Pow2Add(18, 18);
    assert Pow2(36) == 0x10_0000_0000;
    Pow2Add(36, 36);
    assert Pow2(72) == 0x100_0000_0000_0000_0000;
    Pow2Add(36, 18);
    assert Pow2(54) == 0x40_0000_0000_0000;
    Pow2Add(72, 54);
    assert Pow2(126) == 0x4000_0000_0000_0000_0000_0000_0000_0000;
    Pow2Add(126, 1);
    assert Pow2(127) == 0x8000_0000_0000_0000_0000_0000_0000_0000;
    Pow2Add(126, 23);
    assert Pow2(149) == 0x20_0000_0000_0000_0000_0000_0000_0000_0000_0000;
    Pow2Add(126, 24);
    assert Pow2(150) == 0x40_0000_0000_0000_0000_0000_0000_0000_0000_0000;
  }

  /** Powers of ten that the boundary arguments need, evaluated. */
  lemma Pow10Known()
    ensures Pow10(23) == 100_000_000_000_000_000_000_000
    ensures Pow10(45) == 1_000_000_000_000_000_000_000_000_000_000_000_000_000_000_000
    ensures Pow10(126) == 1_000_000_000_000_000_000_000_000_000_000_000_000_000_000_000_000_000_000_000_000_000_000_000_000_000_000_000_000_000_000_000_000_000_000_000_000_000_000_000_000_000_000
    ensures Pow10(149) == 100_000_000_000_000_000_000_000_000_000_000_000_000_000_000_000_000_000_000_000_000_000_000_000_000_000_000_000_000_000_000_000_000_000_000_000_000_000_000_000_000_000_000_000_000_000_000_000_000_000
  {
    assert Pow10(5) == 100_000;
    Pow10Add(5, 5);
    assert Pow10(10) == 10_000_000_000;
    Pow10Add(10, 10);
    assert Pow10(20) == 100_000_000_000_000_000_000;
    Pow10Add(20, 3);
    assert Pow10(23) == 100_000_000_000_000_000_000_000;
    Pow10Add(20, 2);
    assert Pow10(22) == 10_000_000_000_000_000_000_000;
    Pow10Add(20, 20);
    assert Pow10(40) == 10_000_000_000_000_000_000_000_000_000_000_000_000_000;
    Pow10Add(40, 5);
    assert Pow10(45) == 1_000_000_000_000_000_000_000_000_000_000_000_000_000_000_000;
    Pow10Add(45, 45);
    assert Pow10(90) == 1_000_000_000_000_000_000_000_000_000_000_000_000_000_000_000_000_000_000_000_000_000_000_000_000_000_000_000_000_000_000;
    Pow10Add(10, 4);
    assert Pow10(14) == 100_000_000_000_000;
    Pow10Add(90, 14);
    assert Pow10(104) == 100_000_000_000_000_000_000_000_000_000_000_000_000_000_000_000_000_000_000_000_000_000_000_000_000_000_000_000_000_000_000_000_000_000_000;
    Pow10Add(104, 22);
    assert Pow10(126) == 1_000_000_000_000_000_000_000_000_000_000_000_000_000_000_000_000_000_000_000_000_000_000_000_000_000_000_000_000_000_000_000_000_000_000_000_000_000_000_000_000_000_000;
    Pow10Add(126, 23);
    assert Pow10(149) == 100_000_000_000_000_000_000_000_000_000_000_000_000_000_000_000_000_000_000_000_000_000_000_000_000_000_000_000_000_000_000_000_000_000_000_000_000_000_000_000_000_000_000_000_000_000_000_000_000_000;
  }
}
