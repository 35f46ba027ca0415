# AdHocFloat32 in Dafny

A model of `AdHocFloat32.fromText` from FlutuAnt, an Android app that shows
how a decimal number is stored as an IEEE 754 binary32 value. The function
converts decimal text to the 32-bit word in exact arithmetic, with no
platform float parser. The model also covers the accessors `sign`,
`biasedExponent`, `exponent` and `mantissa` that take the word apart. All of
it lives in `AdHocFloat32.kt`.

The conversion works as follows:

1. The text is trimmed. The locale's decimal separator becomes '.' and its
   minus sign becomes '-'.
2. `BigDecimal` parses the text. A failure gives the quiet NaN 0x7FC00000.
3. A zero value gives the zero word, with the sign of a leading '-'.
4. The magnitude is split into an integer part and a fraction. A fraction
   at or above `F32_SPLIT` is rounded to 45 decimal places (HALF_EVEN).
   `F32_SPLIT` is the midpoint of the largest subnormal and the smallest
   normal magnitude.
5. A doubling loop expands the fraction into at most 254 bits, most
   significant first.
6. A normal fraction whose binary exponent is -127 is snapped to 2^-126.
7. The integer part and the fraction bits are combined. The word is then
   classified: zero bits give zero; an exponent above 127 gives infinity;
   otherwise the value is normal or subnormal.
8. The mantissa is fitted to 23 bits by rounding on one guard bit.
9. The sign, exponent and mantissa are packed into one word.

## Structure

- `bits.dfy` (`Bits`): the integer operations on `BigInteger`:
  - the shifts `shl` and `shr`;
  - `bitLength`;
  - bitwise `or`.
- `exact_decimal.dfy` (`ExactDecimal`): the part of `BigDecimal` the
  conversion uses. A value is an unscaled natural and a scale. The module
  covers the integer and fractional parts, `setScale`/`divide` with
  HALF_EVEN, exact addition and comparison.
- `float32.dfy` (`Float32`): the contents of the module are
  - the constants of lines 9-25;
  - `isNormalF32`;
  - the packing of the three fields;
  - the value class `AdHocFloat32` with its four accessors.
- `decimal_parser.dfy` (`DecimalParser`):
  - `trim()`;
  - the two `replace` calls;
  - a subset of `BigDecimal(String)`.
- `fraction_expansion.dfy` (`FractionExpansion`): the doubling loop as a
  function, and the specification of what it computes.
- `normalizer.dfy` (`Normalizer`):
  - the snap;
  - `normalizedBits`;
  - the exponent;
  - the normal and subnormal branches.
- `rounder.dfy` (`Rounder`): the mantissa adjustment and what it computes.
- `conversion.dfy` (`Conversion`): the conversion in two forms.
  - `Convert` is a function of the text, the decimal separator and the
    minus sign.
  - `FromText` is a method that follows the source statement by
    statement. It contains the doubling `while` loop, and its `ensures`
    states that its result is `Convert`.
- `classification.dfy` (`Classification`): properties of the whole
  conversion:
  - NaN exactly for unparsable text;
  - the sign;
  - zero;
  - overflow exactly from 2^128 on;
  - normal exactly for a fraction at or above the split;
  - the unreachable disjunct.
- `examples.dfy` (`Examples`): concrete conversions, and the behaviours
  listed below.

## Behaviour of the code as written

The model follows the code, not the rounding rule of IEEE 754. Four
behaviours differ from a correctly rounded binary32 conversion, and four
lemmas witness them:

- **Ties round up.** Rounding looks only at the first bit cut off, so an
  exact tie rounds up, not to even (`Rounder.TieRoundsUp`). Bits below the
  guard bit are ignored.
- **A carry halves the mantissa.** A rounding that carries out of 23 bits
  gives the mantissa 2^22, and the exponent field is not incremented
  (`Rounder.CarryGivesHalf`).
- **The 45-place rounding can drop a carry.** A fraction of more than 45
  nines rounds to one, which the loop turns into the bits `10` at
  length 1. The `or` with the shifted integer part then drops the carry,
  so 1.99...9 gives the word of 1.0 (`Examples.NinesEncodeAsOne`).
- **The subnormal shift can lose bits.** The right shift in the subnormal
  branch can discard the bits of a short exact expansion. So 2^-128, which
  is the subnormal with mantissa 0x200000, gives zero
  (`Examples.SubnormalBitLost`).

Three more facts about the code, which the model keeps:

- The code rounds half up on the guard bit, halves the mantissa on a carry
  without raising the exponent, and allows 254 fraction bits.
- The `exponent == -127 && isNormalFraction` disjunct of the normal-branch
  test (lines 104-105) never decides the branch, because the snap has
  already lifted such a value to -126
  (`Classification.SecondDisjunctUnreachable`).
- `toUInt()` of a negative biased exponent (line 100) would wrap. Such a
  value is only kept on the normal branch, where it is never negative. So
  the model assigns the biased exponent only on that branch.

## Model

| member | source | states |
|---|---|---|
| Bits.ShlIsMul | app/src/main/java/com/fatecsp/abnerferreira/flutuant/AdHocFloat32.kt:74 | `x shl k` equals x * 2^k |
| Bits.BitLengthBounds | app/src/main/java/com/fatecsp/abnerferreira/flutuant/AdHocFloat32.kt:94 | a positive x with bit length L satisfies 2^(L-1) <= x < 2^L |
| Bits.TopBitCleared | app/src/main/java/com/fatecsp/abnerferreira/flutuant/AdHocFloat32.kt:107-108 | clearing the top bit of x (the `xor` with `1 shl (L-1)`) leaves x - 2^(L-1), which is below 2^(L-1) |
| Bits.OrDisjoint | app/src/main/java/com/fatecsp/abnerferreira/flutuant/AdHocFloat32.kt:87 | `(a shl k) or b` with b < 2^k is a * 2^k + b |
| Bits.OrBelow | app/src/main/java/com/fatecsp/abnerferreira/flutuant/AdHocFloat32.kt:87 | the `or` of two values below 2^k is again below 2^k |
| Bits.OrAtLeast | app/src/main/java/com/fatecsp/abnerferreira/flutuant/AdHocFloat32.kt:87 | an `or` is at least each of its operands |
| Bits.OrShifted | app/src/main/java/com/fatecsp/abnerferreira/flutuant/AdHocFloat32.kt:74-75 | shifting both operands of an `or` left by k shifts the result |
| Bits.ShlShr | app/src/main/java/com/fatecsp/abnerferreira/flutuant/AdHocFloat32.kt:78 | shifting left by k, then right by k, gives back the value |
| Bits.ShrShr | app/src/main/java/com/fatecsp/abnerferreira/flutuant/AdHocFloat32.kt:122-124 | `x shr k shr j` equals `x shr (k + j)` |
| Bits.BitLengthAtMost | app/src/main/java/com/fatecsp/abnerferreira/flutuant/AdHocFloat32.kt:94 | a value below 2^k has at most k bits |
| Bits.BitLengthAtLeast | app/src/main/java/com/fatecsp/abnerferreira/flutuant/AdHocFloat32.kt:94 | a value at or above 2^k has more than k bits |
| Bits.Pow2Constants | app/src/main/java/com/fatecsp/abnerferreira/flutuant/AdHocFloat32.kt:10-12 | 2^22, 2^23, 2^24, 2^31 and 2^32 are the hexadecimal constants of the binary32 fields |
| ExactDecimal.FractionPart | app/src/main/java/com/fatecsp/abnerferreira/flutuant/AdHocFloat32.kt:58 | `% BigDecimal.ONE` of a magnitude is fractional, below one, and keeps a non-negative scale (the model uses scale 0 where the magnitude's scale is negative) |
| ExactDecimal.WholeFractionSplit | app/src/main/java/com/fatecsp/abnerferreira/flutuant/AdHocFloat32.kt:57-58 | whole * 10^scale + fraction == unscaled, with whole the floor of the value |
| ExactDecimal.DivHalfEvenNearest | app/src/main/java/com/fatecsp/abnerferreira/flutuant/AdHocFloat32.kt:61 | HALF_EVEN division is within half a unit of the quotient, and a tie gives the even quotient |
| ExactDecimal.SetScaleAtMostOne | app/src/main/java/com/fatecsp/abnerferreira/flutuant/AdHocFloat32.kt:61 | a fraction below one, rounded to another scale, is at most one |
| ExactDecimal.SetScaleHalfEven | app/src/main/java/com/fatecsp/abnerferreira/flutuant/AdHocFloat32.kt:61 | `setScale` gives the requested scale |
| ExactDecimal.Add | app/src/main/java/com/fatecsp/abnerferreira/flutuant/AdHocFloat32.kt:25 | the exact sum of two fractional decimals has the larger of the two scales |
| ExactDecimal.DivideHalfEven | app/src/main/java/com/fatecsp/abnerferreira/flutuant/AdHocFloat32.kt:25 | `divide(.., HALF_EVEN)` keeps the dividend's scale |
| Float32.SignBit | app/src/main/java/com/fatecsp/abnerferreira/flutuant/AdHocFloat32.kt:50-51 | `sign shl 31` is zero exactly when the sign is 0 |
| Float32.Pack | app/src/main/java/com/fatecsp/abnerferreira/flutuant/AdHocFloat32.kt:135-136 | the `or` of the three shifted fields equals sign * 2^31 + exponent * 2^23 + mantissa, a 32-bit word |
| Float32.PackBelow | app/src/main/java/com/fatecsp/abnerferreira/flutuant/AdHocFloat32.kt:135-136 | the three fields together fit in 32 bits |
| Float32.PackDisjoint | app/src/main/java/com/fatecsp/abnerferreira/flutuant/AdHocFloat32.kt:135-136 | the three fields occupy disjoint bits, so each `or` is an addition |
| Float32.InfinityIsPacked | app/src/main/java/com/fatecsp/abnerferreira/flutuant/AdHocFloat32.kt:98 | `okSignBit or F32_INFINITY_BITS` is the word with exponent field 255, mantissa 0 and the given sign |
| Float32.AdHocFloat32.Sign | app/src/main/java/com/fatecsp/abnerferreira/flutuant/AdHocFloat32.kt:142-143 | the sign is 0 or 1, and it is 1 exactly when bit 31 is set |
| Float32.AdHocFloat32.BiasedExponent | app/src/main/java/com/fatecsp/abnerferreira/flutuant/AdHocFloat32.kt:145-146 | the biased exponent lies in [0, 255] |
| Float32.AdHocFloat32.Exponent | app/src/main/java/com/fatecsp/abnerferreira/flutuant/AdHocFloat32.kt:148-149 | `max(biasedExponent - 127, -126)`: in [-126, 128]; biased - 127 for a nonzero field, -126 for field 0 |
| Float32.AdHocFloat32.Mantissa | app/src/main/java/com/fatecsp/abnerferreira/flutuant/AdHocFloat32.kt:151-152 | the mantissa is at most the mask 0x7FFFFF |
| Float32.FieldsOfPack | app/src/main/java/com/fatecsp/abnerferreira/flutuant/AdHocFloat32.kt:142-152 | the accessors give back the sign, biased exponent and mantissa that were packed |
| Float32.PackOfFields | app/src/main/java/com/fatecsp/abnerferreira/flutuant/AdHocFloat32.kt:142-152 | every word is the packing of its own fields, so the accessors lose nothing |
| Float32.QuietNaNFields | app/src/main/java/com/fatecsp/abnerferreira/flutuant/AdHocFloat32.kt:9 | the quiet NaN reads as sign 0, biased exponent 255, exponent 128 and mantissa 0x400000 |
| Float32.NormalMinIsExact | app/src/main/java/com/fatecsp/abnerferreira/flutuant/AdHocFloat32.kt:23 | F32_NORMAL_MIN is exactly 2^-126 |
| Float32.SubnormalMaxIsExact | app/src/main/java/com/fatecsp/abnerferreira/flutuant/AdHocFloat32.kt:24 | F32_SUBNORMAL_MAX is exactly (2^23 - 1) * 2^-149 |
| Float32.SplitBetween | app/src/main/java/com/fatecsp/abnerferreira/flutuant/AdHocFloat32.kt:25 | F32_SPLIT has scale 149; it lies above F32_SUBNORMAL_MAX and between 2^-127 and 2^-126; its exact value is the midpoint of the two plus 5 * 10^-150, half a unit of the 149th decimal place, left by the HALF_EVEN division of an odd sum |
| Float32.SplitValue | app/src/main/java/com/fatecsp/abnerferreira/flutuant/AdHocFloat32.kt:25 | F32_SPLIT, evaluated from its definition, is the 149-place decimal 1.17549428...E-38 |
| FractionExpansion.DoubleRemainder | app/src/main/java/com/fatecsp/abnerferreira/flutuant/AdHocFloat32.kt:70-72 | doubling the remainder u / D gives integer part 2u / D and the fraction (2u % D) / D |
| FractionExpansion.DoublingStep | app/src/main/java/com/fatecsp/abnerferreira/flutuant/AdHocFloat32.kt:70-75 | one doubling preserves fraction * 2^n == bits + remainder, in integers |
| FractionExpansion.ExpandInvariant | app/src/main/java/com/fatecsp/abnerferreira/flutuant/AdHocFloat32.kt:63-76 | from any state with the loop invariant, the loop ends within 254 bits with bits <= fraction * 2^n < bits + 1, exact when it ends early |
| FractionExpansion.ExpandMinimal | app/src/main/java/com/fatecsp/abnerferreira/flutuant/AdHocFloat32.kt:67-69 | the loop does not end while the remainder is nonzero: u * 2^k is not a multiple of D at any length it passes |
| FractionExpansion.ExpansionBounds | app/src/main/java/com/fatecsp/abnerferreira/flutuant/AdHocFloat32.kt:63-76 | from the initial state: n <= 254; fractionBits <= fraction * 2^n < fractionBits + 1; exact when n < 254; fractionBits < 2^n below one, == 2^n for the fraction one |
| FractionExpansion.ExpansionMinimal | app/src/main/java/com/fatecsp/abnerferreira/flutuant/AdHocFloat32.kt:67-69 | for a fraction below one, no length shorter than the expansion's is exact |
| FractionExpansion.ExpansionSpec | app/src/main/java/com/fatecsp/abnerferreira/flutuant/AdHocFloat32.kt:63-76 | the bounds and the minimality together |
| FractionExpansion.DyadicExpansion | app/src/main/java/com/fatecsp/abnerferreira/flutuant/AdHocFloat32.kt:63-76 | a dyadic fraction m / 2^k, m odd and k < 254, expands to exactly the bits m at length k |
| FractionExpansion.OneExpandsOnce | app/src/main/java/com/fatecsp/abnerferreira/flutuant/AdHocFloat32.kt:63-76 | the fraction one (a setScale carry) gives the value 2 at length 1 |
| Normalizer.Classify | app/src/main/java/com/fatecsp/abnerferreira/flutuant/AdHocFloat32.kt:94-116 | a finite result has a biased exponent below 255 and a mantissa within its bit length |
| Normalizer.NormalizeSpec | app/src/main/java/com/fatecsp/abnerferreira/flutuant/AdHocFloat32.kt:87-116 | zero bits vanish; otherwise 2^(e+n) <= normalizedBits < 2^(e+n+1); overflow iff e > 127; normal branch gives e + 127 and removes the leading one; subnormal branch gives 0 and `normalizedBits shr (-127 - e)` |
| Normalizer.NormalizedBitsValue | app/src/main/java/com/fatecsp/abnerferreira/flutuant/AdHocFloat32.kt:87 | `(whole shl n) or fractionBits` with fractionBits < 2^n is whole * 2^n + fractionBits |
| Normalizer.FractionOnlyBits | app/src/main/java/com/fatecsp/abnerferreira/flutuant/AdHocFloat32.kt:87 | with no integer part, normalizedBits is the fraction bits |
| Normalizer.WholeGivesNonNegativeExponent | app/src/main/java/com/fatecsp/abnerferreira/flutuant/AdHocFloat32.kt:94-96 | a nonzero integer part gives nonzero bits and an exponent of at least 0 |
| Normalizer.SnapSpec | app/src/main/java/com/fatecsp/abnerferreira/flutuant/AdHocFloat32.kt:80-85 | the snap fires exactly for a normal fraction of exponent -127 and leaves the value 2^-126 with exponent -126 |
| Rounder.RoundMantissaSpec | app/src/main/java/com/fatecsp/abnerferreira/flutuant/AdHocFloat32.kt:118-133 | the result fits 23 bits; a short mantissa is scaled up exactly; a long one is rounded half up on the guard bit, and a carry out to 2^23 gives 2^22 |
| Rounder.RoundUpSpec | app/src/main/java/com/fatecsp/abnerferreira/flutuant/AdHocFloat32.kt:126-131 | the increment gives the successor while it fits 23 bits, and 2^22 when it carries out to 2^23 |
| Rounder.RoundedFits | app/src/main/java/com/fatecsp/abnerferreira/flutuant/AdHocFloat32.kt:135 | the adjusted mantissa fits the 23-bit field, so `toInt().toUInt()` is lossless |
| Rounder.RoundShort | app/src/main/java/com/fatecsp/abnerferreira/flutuant/AdHocFloat32.kt:118-119 | a mantissa of at most 23 bits is shifted left into place exactly |
| Rounder.RoundLong | app/src/main/java/com/fatecsp/abnerferreira/flutuant/AdHocFloat32.kt:120-133 | a mantissa of 23 + d bits is rounded half up on bit d - 1, ignoring the bits below it |
| Rounder.GuardBit | app/src/main/java/com/fatecsp/abnerferreira/flutuant/AdHocFloat32.kt:121-124 | `shr offset` then `shr 1` is `shr d`, and adding the rounding bit yields the half-up quotient |
| Rounder.TruncatedFits | app/src/main/java/com/fatecsp/abnerferreira/flutuant/AdHocFloat32.kt:124 | the truncated mantissa of 23 + d bits has at most 23 bits |
| Rounder.TieRoundsUp | app/src/main/java/com/fatecsp/abnerferreira/flutuant/AdHocFloat32.kt:126-127 | an exact tie is rounded up (1 at 24 bits gives 1), not to even |
| Rounder.CarryGivesHalf | app/src/main/java/com/fatecsp/abnerferreira/flutuant/AdHocFloat32.kt:129-131 | 24 one-bits round into a carry that gives 2^22 with the exponent unchanged |
| DecimalParser.TrimSpec | app/src/main/java/com/fatecsp/abnerferreira/flutuant/AdHocFloat32.kt:40 | `trim()` keeps the slice after the leading whitespace; everything cut off is whitespace; the result neither starts nor ends with whitespace |
| DecimalParser.TrimSlice | app/src/main/java/com/fatecsp/abnerferreira/flutuant/AdHocFloat32.kt:40 | the trimmed text is a slice, and what is cut off is whitespace |
| DecimalParser.TrimEnds | app/src/main/java/com/fatecsp/abnerferreira/flutuant/AdHocFloat32.kt:40 | the trimmed text neither starts nor ends with whitespace |
| DecimalParser.TrimUnchanged | app/src/main/java/com/fatecsp/abnerferreira/flutuant/AdHocFloat32.kt:40 | text with no whitespace at either end is left as it is |
| DecimalParser.TrimPadded | app/src/main/java/com/fatecsp/abnerferreira/flutuant/AdHocFloat32.kt:40 | whitespace padding around such a text is exactly what is removed |
| DecimalParser.Replace | app/src/main/java/com/fatecsp/abnerferreira/flutuant/AdHocFloat32.kt:41-42 | `replace` keeps the length and replaces every occurrence, and only those |
| DecimalParser.ReplaceAbsent | app/src/main/java/com/fatecsp/abnerferreira/flutuant/AdHocFloat32.kt:41-42 | replacing a character that does not occur changes nothing |
| DecimalParser.ReplaceBySelf | app/src/main/java/com/fatecsp/abnerferreira/flutuant/AdHocFloat32.kt:41-42 | replacing a character by itself changes nothing |
| DecimalParser.AsciiText | app/src/main/java/com/fatecsp/abnerferreira/flutuant/AdHocFloat32.kt:39-42 | with separator '.' and minus '-', the normalisation only trims |
| DecimalParser.LocalizedText | app/src/main/java/com/fatecsp/abnerferreira/flutuant/AdHocFloat32.kt:39-42 | "<minus>a<separator>b" is rewritten to "-a.b" for any separator and minus sign that are neither digits nor whitespace |
| DecimalParser.DigitRun | app/src/main/java/com/fatecsp/abnerferreira/flutuant/AdHocFloat32.kt:44 | the run of digits at the front: all digits, and followed by a non-digit or the end |
| DecimalParser.ParseSign | app/src/main/java/com/fatecsp/abnerferreira/flutuant/AdHocFloat32.kt:50 | a successful parse is negative exactly when the text starts with '-' |
| DecimalParser.ParsePlainNotation | app/src/main/java/com/fatecsp/abnerferreira/flutuant/AdHocFloat32.kt:44 | "[sign]a.b" parses to the digits of a and b read together, at scale |b|, with the sign of a leading '-' |
| DecimalParser.ParseNeedsDigits | app/src/main/java/com/fatecsp/abnerferreira/flutuant/AdHocFloat32.kt:44-48 | the empty text, a lone sign, a lone point and "e5" do not parse |
| Conversion.StartFraction | app/src/main/java/com/fatecsp/abnerferreira/flutuant/AdHocFloat32.kt:57-62 | the fraction the loop starts from is fractional and at most one |
| Conversion.AccumulateBit | app/src/main/java/com/fatecsp/abnerferreira/flutuant/AdHocFloat32.kt:74-75 | `or`-ing the new bit at its place equals the accumulation 2 * acc + bit at that place |
| Conversion.DoubledBit | app/src/main/java/com/fatecsp/abnerferreira/flutuant/AdHocFloat32.kt:72 | after the first step each doubled remainder has integer part 0 or 1 |
| Conversion.LoopStepExpansion | app/src/main/java/com/fatecsp/abnerferreira/flutuant/AdHocFloat32.kt:67-76 | one pass keeps the loop computing the same expansion |
| Conversion.LoopStepBits | app/src/main/java/com/fatecsp/abnerferreira/flutuant/AdHocFloat32.kt:72-75 | one pass keeps fractionBits equal to the accumulated bits shifted to place 254 - n |
| Conversion.ExpandFractionBits | app/src/main/java/com/fatecsp/abnerferreira/flutuant/AdHocFloat32.kt:63-78 | the loop and the shift after it compute exactly the expansion of FractionExpansion |
| Conversion.FitMantissa | app/src/main/java/com/fatecsp/abnerferreira/flutuant/AdHocFloat32.kt:118-133 | the statement-by-statement adjustment computes RoundMantissa |
| Conversion.SplitMantissa | app/src/main/java/com/fatecsp/abnerferreira/flutuant/AdHocFloat32.kt:100-116 | the two branches compute the classification Classify |
| Conversion.NormalizeAndPack | app/src/main/java/com/fatecsp/abnerferreira/flutuant/AdHocFloat32.kt:80-137 | the statements after the loop compute the packing of the snapped, normalised and rounded value |
| Conversion.FromText | app/src/main/java/com/fatecsp/abnerferreira/flutuant/AdHocFloat32.kt:34-138 | the method's word is Convert of the text, separator and minus sign |
| Classification.SignedZeroFields | app/src/main/java/com/fatecsp/abnerferreira/flutuant/AdHocFloat32.kt:50-55 | `AdHocFloat32(okSignBit)` has the given sign, exponent field 0 and mantissa 0 |
| Classification.PackNormalizedFields | app/src/main/java/com/fatecsp/abnerferreira/flutuant/AdHocFloat32.kt:89-137 | each result keeps the sign; a vanished value is a zero; an overflow is exponent 255 with mantissa 0; a finite one carries its biased exponent and rounded mantissa |
| Classification.EncodeFields | app/src/main/java/com/fatecsp/abnerferreira/flutuant/AdHocFloat32.kt:50-137 | an encoded magnitude keeps its sign and is never a NaN |
| Classification.NaNIffUnparsable | app/src/main/java/com/fatecsp/abnerferreira/flutuant/AdHocFloat32.kt:44-48 | the result is the quiet NaN exactly when the normalised text does not parse |
| Classification.SignFromText | app/src/main/java/com/fatecsp/abnerferreira/flutuant/AdHocFloat32.kt:50-51 | the sign bit is set exactly when the normalised text starts with '-', which is the sign the parse read |
| Classification.ZeroFromText | app/src/main/java/com/fatecsp/abnerferreira/flutuant/AdHocFloat32.kt:53-55 | a zero value gives the zero word, signed by the leading '-' |
| Classification.FractionClassification | app/src/main/java/com/fatecsp/abnerferreira/flutuant/AdHocFloat32.kt:57-116 | below one, the word is normal exactly when the fraction is at or above F32_SPLIT |
| Classification.SecondDisjunctUnreachable | app/src/main/java/com/fatecsp/abnerferreira/flutuant/AdHocFloat32.kt:104-105 | after the snap, the normal-branch test holds exactly when exponent >= -126: the -127 disjunct never decides |
| Classification.NormalFractionAboveSnap | app/src/main/java/com/fatecsp/abnerferreira/flutuant/AdHocFloat32.kt:80-105 | a normal fraction gives an exponent of at least -126, whatever the integer part |
| Classification.SnapGivesNormalMin | app/src/main/java/com/fatecsp/abnerferreira/flutuant/AdHocFloat32.kt:80-85 | when the snap fires below one, the word is the signed 2^-126: exponent field 1, mantissa 0 |
| Classification.WholeIsNormal | app/src/main/java/com/fatecsp/abnerferreira/flutuant/AdHocFloat32.kt:94-108 | a nonzero integer part below 2^128 gives a biased exponent of at least 127 |
| Classification.NormalBranchExponent | app/src/main/java/com/fatecsp/abnerferreira/flutuant/AdHocFloat32.kt:100-108 | an exponent in [-126, 127] gives a word with exponent field e + 127 |
| Classification.FractionBitsAtMostOne | app/src/main/java/com/fatecsp/abnerferreira/flutuant/AdHocFloat32.kt:63-85 | the fraction bits never exceed 2^n |
| Classification.NoOverflowBelow | app/src/main/java/com/fatecsp/abnerferreira/flutuant/AdHocFloat32.kt:94-97 | an integer part below 2^128 keeps the exponent at most 127 |
| Classification.ExponentBelow | app/src/main/java/com/fatecsp/abnerferreira/flutuant/AdHocFloat32.kt:94-96 | an integer part below 2^k keeps the exponent at most k - 1 |
| Classification.ExponentAbove | app/src/main/java/com/fatecsp/abnerferreira/flutuant/AdHocFloat32.kt:94-96 | an integer part of at least 2^k gives an exponent of at least k |
| Classification.OverflowIffLarge | app/src/main/java/com/fatecsp/abnerferreira/flutuant/AdHocFloat32.kt:94-98 | the result is the signed infinity exactly when the integer part is at least 2^128 |
| Classification.NormalFractionExponent | app/src/main/java/com/fatecsp/abnerferreira/flutuant/AdHocFloat32.kt:57-96 | a normal fraction alone gives nonzero bits with an exponent in [-126, 0] |
| Classification.NormalExpansionExponent | app/src/main/java/com/fatecsp/abnerferreira/flutuant/AdHocFloat32.kt:80-96 | an expansion of a value in [2^-127, 1), snapped, has an exponent in [-126, -1] |
| Classification.PositiveExpansion | app/src/main/java/com/fatecsp/abnerferreira/flutuant/AdHocFloat32.kt:63-76 | the expansion of a value of at least 2^-k, for k <= 254, has a nonzero bit |
| Classification.SubnormalFractionExponent | app/src/main/java/com/fatecsp/abnerferreira/flutuant/AdHocFloat32.kt:57-96 | a fraction below the split gives, when its bits are nonzero, an exponent of at most -127 |
| Classification.ExponentAtMost | app/src/main/java/com/fatecsp/abnerferreira/flutuant/AdHocFloat32.kt:94-96 | fraction bits of a value below 2^-k have exponent at most -k - 1 |
| Classification.ExponentAtLeast | app/src/main/java/com/fatecsp/abnerferreira/flutuant/AdHocFloat32.kt:94-96 | fraction bits of a value of at least 2^-k have exponent at least -k |
| Classification.AtLeastTransitive | app/src/main/java/com/fatecsp/abnerferreira/flutuant/AdHocFloat32.kt:157 | `compareTo(..) >= 0` is transitive |
| Classification.SetScaleAtLeast | app/src/main/java/com/fatecsp/abnerferreira/flutuant/AdHocFloat32.kt:61 | a fraction at or above t at a scale stays at least t when rounded to that scale |
| Classification.SplitAboveThreshold | app/src/main/java/com/fatecsp/abnerferreira/flutuant/AdHocFloat32.kt:25 | F32_SPLIT is at least 11754942 * 10^-45, which is at least 2^-127 |
| Classification.AtLeastNormalMin | app/src/main/java/com/fatecsp/abnerferreira/flutuant/AdHocFloat32.kt:157 | a fraction of at least 2^-k, for k <= 126, is normal |
| Classification.AtMostHalfNormalMin | app/src/main/java/com/fatecsp/abnerferreira/flutuant/AdHocFloat32.kt:157 | a fraction of at most 2^-127 is not normal |
| Classification.BelowSplitScaled | app/src/main/java/com/fatecsp/abnerferreira/flutuant/AdHocFloat32.kt:157 | a fraction below the split is below 2^-126 |
| Examples.DyadicEncode | app/src/main/java/com/fatecsp/abnerferreira/flutuant/AdHocFloat32.kt:57-137 | a magnitude whose fraction is m / 2^k, m odd, k <= 126, is encoded from the normal fraction bits m at length k |
| Examples.DyadicFractionBits | app/src/main/java/com/fatecsp/abnerferreira/flutuant/AdHocFloat32.kt:57-85 | such a fraction is normal and its fraction bits are (m, k) |
| Examples.ClassifyNormal | app/src/main/java/com/fatecsp/abnerferreira/flutuant/AdHocFloat32.kt:100-108 | bits between 2^len and 2^(len+1) with exponent in [-126, 127] give exponent field e + 127 and mantissa nb - 2^len |
| Examples.ClassifySubnormal | app/src/main/java/com/fatecsp/abnerferreira/flutuant/AdHocFloat32.kt:109-116 | an exponent below -127 gives exponent field 0 and the bits shifted right by -127 - e |
| Examples.PackShort | app/src/main/java/com/fatecsp/abnerferreira/flutuant/AdHocFloat32.kt:118-136 | a finite result of at most 23 mantissa bits is packed with the mantissa shifted up |
| Examples.HalfEncodes | app/src/test/java/com/fatecsp/abnerferreira/flutuant/AdHocFloat32Test.kt:125 | 0.5 gives 0x3F000000, and -0.5 differs only in bit 31 |
| Examples.OneAndAHalfEncodes | app/src/test/java/com/fatecsp/abnerferreira/flutuant/AdHocFloat32Test.kt:128 | 1.5 gives 0x3FC00000 |
| Examples.TwelvePointThreeSevenFiveEncodes | app/src/test/java/com/fatecsp/abnerferreira/flutuant/AdHocFloat32Test.kt:129 | 12.375 gives 0x41460000 |
| Examples.ZeroEncodes | app/src/test/java/com/fatecsp/abnerferreira/flutuant/AdHocFloat32Test.kt:43-44 | zero gives 0, and zero with a minus sign gives 0x80000000 |
| Examples.NinesEncodeAsOne | app/src/main/java/com/fatecsp/abnerferreira/flutuant/AdHocFloat32.kt:57-92 | 1 followed by more than 45 nines after the point gives the word of 1.0 |
| Examples.NinesFractionBits | app/src/main/java/com/fatecsp/abnerferreira/flutuant/AdHocFloat32.kt:57-85 | its fraction rounds to one at 45 places and gives the bits 2 at length 1 |
| Examples.NinesStart | app/src/main/java/com/fatecsp/abnerferreira/flutuant/AdHocFloat32.kt:61 | 1 - 10^-s, s > 45, rounds to exactly one at 45 places |
| Examples.SubnormalBitLost | app/src/main/java/com/fatecsp/abnerferreira/flutuant/AdHocFloat32.kt:109-116 | 2^-128, the subnormal with mantissa 0x200000, gives the signed zero |
| Examples.SubnormalFractionBits | app/src/main/java/com/fatecsp/abnerferreira/flutuant/AdHocFloat32.kt:57-85 | 2^-128 is below the split and expands to the bits 1 at length 128 |
| Examples.LocalizedMinusHalf | app/src/main/java/com/fatecsp/abnerferreira/flutuant/AdHocFloat32.kt:39-51 | with ',' as separator and U+2212 as minus, "\u22120,5" gives 0xBF000000 |
| Examples.LocalizedMinusHalfParses | app/src/main/java/com/fatecsp/abnerferreira/flutuant/AdHocFloat32.kt:39-44 | that text is rewritten to "-0.5", which parses to -5 * 10^-1 |
| Examples.ForeignSeparatorIsNaN | app/src/main/java/com/fatecsp/abnerferreira/flutuant/AdHocFloat32.kt:39-48 | with '.' as separator, "1,5" gives the quiet NaN |
| Examples.CommaDoesNotParse | app/src/main/java/com/fatecsp/abnerferreira/flutuant/AdHocFloat32.kt:44 | "1,5" does not parse |
| Examples.TrimmedOneAndAHalf | app/src/main/java/com/fatecsp/abnerferreira/flutuant/AdHocFloat32.kt:39-137 | " 1.5\n" is trimmed and gives 0x3FC00000 |
| Examples.TrimmedOneAndAHalfParses | app/src/main/java/com/fatecsp/abnerferreira/flutuant/AdHocFloat32.kt:39-44 | " 1.5\n" normalises to text that parses to 15 * 10^-1 without a sign |
| Examples.OneAndAHalfParses | app/src/main/java/com/fatecsp/abnerferreira/flutuant/AdHocFloat32.kt:44 | "1.5" parses to 15 * 10^-1 |
| Examples.AccessorsOnExamples | app/src/test/java/com/fatecsp/abnerferreira/flutuant/AdHocFloat32Test.kt:122-129 | the word of 12.375 reads as sign 0, exponent 3 and mantissa 0x460000; a subnormal reports exponent -126 |

## Left out

- The locale lookup `DecimalFormatSymbols.getInstance()` is not modelled.
  The decimal separator and minus sign are parameters of `Convert` and
  `FromText`.
- `stdFloat` (lines 154-155) is left out. It reinterprets the word as a
  platform `Float`, and the model has no floating point.
- `MainActivity.kt` is not part of this model: it is user interface and
  display formatting.
- The grammar of `BigDecimal(String)` is modelled only for ASCII digits:
  - an optional sign;
  - digits with an optional point, with at least one digit;
  - an optional exponent.

  The model does not cover non-ASCII digits, or `BigDecimal`'s limit on
  exponent digits apart from the scale range. Its exceptions are modelled
  as `None`.
- Magnitudes beyond the runtime's `BigInteger` range are not modelled as
  failures. For text such as "1e999999999" the parse succeeds, but
  `toBigInteger()` (line 57), which runs outside the `runCatching` of
  line 44, needs 10^999999999 and throws (or runs out of memory), so
  `fromText` returns no word. The model has unbounded integers and returns
  the signed infinity, or the signed zero for a vanishing magnitude,
  instead.
- `Char.isWhitespace` is modelled as the fixed set of code points Java
  treats as whitespace or space characters, listed in `IsWhitespace`.
- The `xor` that clears the leading one (line 108) is modelled as the
  subtraction of 2^(L-1). `Bits.TopBitCleared` shows that the top bit is
  set, so the two are equal.
- `mantissa.toInt().toUInt()` (line 135) is the identity in the model.
  `Rounder.RoundedFits` shows that the mantissa is below 2^23, so the
  conversion loses nothing.
- ExactDecimal.SetScaleHalfEven: its contract states only the scale of the
  result. Its value is covered by `ExactDecimal.DivHalfEvenNearest`,
  `ExactDecimal.SetScaleAtMostOne` and `Classification.SetScaleAtLeast`.
- ExactDecimal.Add: its contract states only the scale of the sum. The one
  sum the conversion takes is evaluated by `Float32.SplitValue`.
- ExactDecimal.DivideHalfEven: its contract states only the scale of the
  quotient. Its use in `F32_SPLIT` is evaluated by `Float32.SplitValue`.
- No correct-rounding theorem: the code does not round to nearest-even, so
  the model states instead what the code computes.
- The test vectors with long decimal expansions (`0.003`, `0.3`, `612.3`,
  the subnormal strings) are not evaluated. Each needs up to 254 steps of
  the loop on large numbers. The concrete examples are 0.5, 1.5, 12.375,
  zero, a localised -0.5, a trimmed 1.5 and "1,5".
- There is no I/O, concurrency or floating point in the core, so nothing
  of that kind is left out.
