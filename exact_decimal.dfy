/** The part of `java.math.BigDecimal` the conversion relies on. A BigDecimal
    is an unscaled integer and a scale; its value is unscaled × 10^(-scale).
    The conversion only ever holds non-negative magnitudes (it takes `abs()`
    straight after parsing), so the unscaled part is a `nat`. Arithmetic is
    exact: no binary approximation enters anywhere. */
module ExactDecimal {
  import opened Bits

  datatype Decimal = Decimal(unscaled: nat, scale: int)

  /** A decimal with a non-negative scale, so that its value is
      unscaled / 10^scale. Every fraction in the conversion has this form. */
  predicate IsFractional(d: Decimal) {
    d.scale >= 0
  }

  /** `stripTrailingZeros() == BigDecimal.ZERO`: the value is zero, at whatever scale. */
  predicate IsZero(d: Decimal) {
    d.unscaled == 0
  }

  /** `compareTo(other) >= 0` for two fractional decimals: compares the values
      by cross-multiplying with the other's power of ten. */
  predicate AtLeast(a: Decimal, b: Decimal)
    requires IsFractional(a) && IsFractional(b)
  {
    a.unscaled * Pow10(b.scale) >= b.unscaled * Pow10(a.scale)
  }

  /** `toBigInteger()`: the integer part, truncating toward zero. */
  function WholePart(d: Decimal): nat {
    if d.scale >= 0 then Truncate(d.unscaled, Pow10(d.scale))
    else d.unscaled * Pow10(-d.scale)
  }

  /** `this % BigDecimal.ONE`: the fraction left after the integer part,
      below one. For a non-negative scale it keeps the scale; for a negative
      scale the fraction is zero and the model uses scale 0 (`BigDecimal`
      keeps the negative scale, a difference in representation only). */
  function FractionPart(d: Decimal): (f: Decimal)
    ensures IsFractional(f) && f.unscaled < Pow10(f.scale)
    ensures f.scale == if d.scale >= 0 then d.scale else 0
  {
    if d.scale >= 0 then Decimal(d.unscaled % Pow10(d.scale), d.scale)
    else Decimal(0, 0)
  }

  /** `this * 2`, which keeps the scale. */
  function Twice(d: Decimal): Decimal {
    Decimal(2 * d.unscaled, d.scale)
  }

  /** Division of non-negative integers rounded with `RoundingMode.HALF_EVEN`. */
  function DivHalfEven(n: nat, d: nat): nat
    requires d > 0
  {
    var q, r := n / d, n % d;
    if 2 * r > d || (2 * r == d && q % 2 == 1) then q + 1 else q
  }

  /** `setScale(scale, RoundingMode.HALF_EVEN)` of a fractional decimal: the
      same value at the new scale when that is exact, otherwise the nearest
      value at the new scale, ties to even. */
  function SetScaleHalfEven(f: Decimal, scale: nat): (r: Decimal)
    requires IsFractional(f)
    ensures r.scale == scale
  {
    if scale >= f.scale then Decimal(f.unscaled * Pow10(scale - f.scale), scale)
    else Decimal(DivHalfEven(f.unscaled, Pow10(f.scale - scale)), scale)
  }

  /** `a + b` of two fractional decimals: exact, at the larger of the two scales. */
  function Add(a: Decimal, b: Decimal): (r: Decimal)
    requires IsFractional(a) && IsFractional(b)
    ensures IsFractional(r) && r.scale >= a.scale && r.scale >= b.scale
  {
    var s := if a.scale >= b.scale then a.scale else b.scale;
    Decimal(a.unscaled * Pow10(s - a.scale) + b.unscaled * Pow10(s - b.scale), s)
  }

  /** `divide(divisor, RoundingMode.HALF_EVEN)`: the quotient at this scale. */
  function DivideHalfEven(a: Decimal, divisor: nat): (r: Decimal)
    requires divisor > 0
    ensures r.scale == a.scale
  {
    Decimal(DivHalfEven(a.unscaled, divisor), a.scale)
  }

  /** Rounding a fraction below one to another scale gives a value of at most
      one: it reaches one only by rounding up from just below. */
  lemma SetScaleAtMostOne(f: Decimal, scale: nat)
    requires IsFractional(f) && f.unscaled < Pow10(f.scale)
    ensures SetScaleHalfEven(f, scale).unscaled <= Pow10(scale)
  {
    var u := f.unscaled;
    var s: nat := f.scale;
    if scale >= s {
      var k := Pow10(scale - s);
      UnitsSplit(scale - s, s);
      MulBelow(u, Pow10(s), k);
      assert SetScaleHalfEven(f, scale).unscaled == u * k;
    } else {
      var d := Pow10(s - scale);
      UnitsSplit(s - scale, scale);
      QuotientBelow(u, d, Pow10(scale));
      assert SetScaleHalfEven(f, scale).unscaled == DivHalfEven(u, d);
    }
  }

  lemma UnitsSplit(a: nat, b: nat)
    ensures Pow10(a) * Pow10(b) == Pow10(a + b)
  {
    Pow10Add(a, b);
  }

  lemma MulBelow(u: nat, p: nat, k: nat)
    requires u < p && k > 0
    ensures u * k < k * p
  {
    MulLe(u + 1, p, k);
  }

  /** u < d * t gives a rounded quotient of at most t. */
  lemma QuotientBelow(u: nat, d: nat, t: nat)
    requires d > 0 && u < d * t
    ensures DivHalfEven(u, d) <= t
  {
    DivBounds(u, d);
    var q := u / d;
    if q >= t {
      assert false;
    }
  }

  /** The integer and fractional parts put back together give the value:
      whole × 10^scale + fraction == unscaled, with the fraction below one. */
  lemma WholeFractionSplit(d: Decimal)
    requires IsFractional(d)
    ensures WholePart(d) * Pow10(d.scale) + FractionPart(d).unscaled == d.unscaled
    ensures WholePart(d) * Pow10(d.scale) <= d.unscaled < (WholePart(d) + 1) * Pow10(d.scale)
  {
    DivBounds(d.unscaled, Pow10(d.scale));
  }

  /** HALF_EVEN division gives the nearest quotient, |n - q*d| <= d/2, and the
      even one of the two when n lies exactly half-way. */
  lemma DivHalfEvenNearest(n: nat, d: nat)
    requires d > 0
    ensures var q := DivHalfEven(n, d);
      (2 * q - 1) * d <= 2 * n <= (2 * q + 1) * d &&
      ((2 * n == (2 * q + 1) * d || 2 * n == (2 * q - 1) * d) ==> q % 2 == 0)
  {
    var q0, r := n / d, n % d;
    DivBounds(n, d);
    var q := DivHalfEven(n, d);
    assert (2 * q0 - 1) * d == 2 * (q0 * d) - d;
    assert (2 * q0 + 1) * d == 2 * (q0 * d) + d;
    assert (2 * q0 + 3) * d == 2 * (q0 * d) + 3 * d;
    if q == q0 + 1 {
      assert (2 * q - 1) * d == (2 * q0 + 1) * d;
      assert (2 * q + 1) * d == (2 * q0 + 3) * d;
    }
  }
}
