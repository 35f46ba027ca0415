/** The text side of the conversion: Kotlin's `String.trim()`, the two
    `replace(Char, Char)` calls that turn a locale's decimal separator and
    minus sign into '.' and '-', and the `BigDecimal(String)` constructor,
    whose failure (a `NumberFormatException`) becomes `None`. */
module DecimalParser {
  import opened Bits
  import opened ExactDecimal

  datatype Option<T> = None | Some(value: T)

  /** A parsed decimal: the sign written in front and the magnitude, which is
      what `abs()` keeps. */
  datatype ParsedDecimal = ParsedDecimal(negative: bool, magnitude: Decimal)

  /** Kotlin's `Char.isWhitespace()` on the JVM: Java's `isWhitespace` (the
      ASCII controls tab to carriage return and the four information
      separators) together with `isSpaceChar` (the space, line and paragraph
      separators of Unicode, no-break spaces included). */
  predicate IsWhitespace(c: char) {
    var n := c as int;
    (0x09 <= n <= 0x0D) || (0x1C <= n <= 0x20) || n == 0xA0 || n == 0x1680 ||
    (0x2000 <= n <= 0x200A) || n == 0x2028 || n == 0x2029 || n == 0x202F ||
    n == 0x205F || n == 0x3000
  }

  /** `trim()`: removes whitespace at both ends. */
  function Trim(s: string): string
    decreases |s|
  {
    if |s| > 0 && IsWhitespace(s[0]) then Trim(s[1..])
    else if |s| > 0 && IsWhitespace(s[|s| - 1]) then Trim(s[..|s| - 1])
    else s
  }

  /** The number of whitespace characters `trim()` removes from the front. */
  function LeadingWhitespace(s: string): nat
    decreases |s|
  {
    if |s| > 0 && IsWhitespace(s[0]) then 1 + LeadingWhitespace(s[1..])
    else 0
  }

  /** `trim()` keeps the middle of the text: the result is the slice of the
      text after the leading whitespace, everything cut off on either side is
      whitespace, and the result neither starts nor ends with whitespace. */
  lemma TrimSpec(s: string)
    ensures var r := Trim(s);
      var i := LeadingWhitespace(s);
      i + |r| <= |s| && r == s[i..i + |r|] &&
      (forall k :: 0 <= k < i ==> IsWhitespace(s[k])) &&
      (forall k :: i + |r| <= k < |s| ==> IsWhitespace(s[k])) &&
      (|r| > 0 ==> !IsWhitespace(r[0]) && !IsWhitespace(r[|r| - 1]))
  {
    TrimSlice(s);
    TrimEnds(s);
  }

  /** The trimmed text is the slice after the leading whitespace, and what
      is cut off on either side is whitespace. */
  lemma {:induction false} TrimSlice(s: string)
    ensures var r := Trim(s);
      var i := LeadingWhitespace(s);
      i + |r| <= |s| && r == s[i..i + |r|] &&
      (forall k :: 0 <= k < i ==> IsWhitespace(s[k])) &&
      (forall k :: i + |r| <= k < |s| ==> IsWhitespace(s[k]))
    decreases |s|
  {
    if |s| > 0 && IsWhitespace(s[0]) {
      var t := s[1..];
      TrimSlice(t);
      var r := Trim(t);
      var i := LeadingWhitespace(t);
      assert Trim(s) == r && LeadingWhitespace(s) == i + 1;
      assert t[i..i + |r|] == s[i + 1..i + 1 + |r|];
      forall k | 0 <= k < i + 1 ensures IsWhitespace(s[k]) {
        if k > 0 { assert s[k] == t[k - 1]; }
      }
      forall k | i + 1 + |r| <= k < |s| ensures IsWhitespace(s[k]) {
        assert s[k] == t[k - 1];
      }
    } else if |s| > 0 && IsWhitespace(s[|s| - 1]) {
      var t := s[..|s| - 1];
      TrimSlice(t);
      var r := Trim(t);
      assert Trim(s) == r;
      assert LeadingWhitespace(t) == 0 && LeadingWhitespace(s) == 0 by {
        if |t| > 0 { assert t[0] == s[0]; }
      }
      assert t[0..|r|] == s[0..|r|];
      forall k | |r| <= k < |s| ensures IsWhitespace(s[k]) {
        if k < |t| { assert s[k] == t[k]; }
      }
    }
  }

  /** The trimmed text neither starts nor ends with whitespace. */
  lemma {:induction false} TrimEnds(s: string)
    ensures var r := Trim(s);
      |r| > 0 ==> !IsWhitespace(r[0]) && !IsWhitespace(r[|r| - 1])
    decreases |s|
  {
    if |s| > 0 && IsWhitespace(s[0]) {
      TrimEnds(s[1..]);
    } else if |s| > 0 && IsWhitespace(s[|s| - 1]) {
      TrimEnds(s[..|s| - 1]);
    }
  }

  /** `replace(oldChar, newChar)`: every occurrence of `oldChar` becomes
      `newChar`. */
  function Replace(s: string, oldChar: char, newChar: char): (r: string)
    ensures |r| == |s|
    ensures forall k :: 0 <= k < |s| ==> r[k] == if s[k] == oldChar then newChar else s[k]
  {
    if |s| == 0 then []
    else [if s[0] == oldChar then newChar else s[0]] + Replace(s[1..], oldChar, newChar)
  }

  /** Text without whitespace at either end is left as it is by `trim()`. */
  lemma TrimUnchanged(s: string)
    requires |s| == 0 || (!IsWhitespace(s[0]) && !IsWhitespace(s[|s| - 1]))
    ensures Trim(s) == s
  {
  }

  /** Replacing a character that does not occur changes nothing. */
  lemma ReplaceAbsent(s: string, oldChar: char, newChar: char)
    requires forall k :: 0 <= k < |s| ==> s[k] != oldChar
    ensures Replace(s, oldChar, newChar) == s
  {
  }

  /** Replacing a character by itself changes nothing. */
  lemma ReplaceBySelf(s: string, c: char)
    ensures Replace(s, c, c) == s
  {
  }

  /** The text as the conversion hands it to `BigDecimal`: trimmed, then the
      decimal separator replaced by '.', then the minus sign by '-'. */
  function NormalizeText(text: string, decimalSeparator: char, minusSign: char): string {
    Replace(Replace(Trim(text), decimalSeparator, '.'), minusSign, '-')
  }

  /** Whitespace on either side of a text that neither starts nor ends with
      whitespace is exactly what `trim()` removes. */
  lemma {:induction false} TrimPadded(pre: string, s: string, post: string)
    requires |s| > 0 && !IsWhitespace(s[0]) && !IsWhitespace(s[|s| - 1])
    requires forall k :: 0 <= k < |pre| ==> IsWhitespace(pre[k])
    requires forall k :: 0 <= k < |post| ==> IsWhitespace(post[k])
    ensures Trim(pre + s + post) == s
    decreases |pre| + |post|
  {
    var t := pre + s + post;
    if |pre| > 0 {
      assert t[0] == pre[0];
      assert t[1..] == pre[1..] + s + post;
      TrimPadded(pre[1..], s, post);
    } else if |post| > 0 {
      assert t == s + post;
      assert t[0] == s[0] && t[|t| - 1] == post[|post| - 1];
      assert t[..|t| - 1] == [] + s + post[..|post| - 1];
      TrimPadded([], s, post[..|post| - 1]);
    } else {
      assert t == s;
      TrimUnchanged(s);
    }
  }

  /** Under a locale whose separator is '.' and whose minus sign is '-', the
      rewriting only trims the text. */
  lemma AsciiText(pre: string, s: string, post: string)
    requires |s| > 0 && !IsWhitespace(s[0]) && !IsWhitespace(s[|s| - 1])
    requires forall k :: 0 <= k < |pre| ==> IsWhitespace(pre[k])
    requires forall k :: 0 <= k < |post| ==> IsWhitespace(post[k])
    ensures NormalizeText(pre + s + post, '.', '-') == s
  {
    TrimPadded(pre, s, post);
    ReplaceBySelf(s, '.');
    ReplaceBySelf(s, '-');
  }

  /** A number written with a locale's minus sign and decimal separator,
      "<minus>a<separator>b", is rewritten to "-a.b": the separator and the
      minus sign are neither digits nor whitespace, and the minus sign is not
      '.', so it does not turn the new point into '-'. */
  lemma LocalizedText(minusSign: char, decimalSeparator: char, a: string, b: string)
    requires AllDigits(a) && AllDigits(b)
    requires !IsDigit(minusSign) && !IsDigit(decimalSeparator)
    requires !IsWhitespace(minusSign) && !IsWhitespace(decimalSeparator)
    requires minusSign != decimalSeparator && minusSign != '.'
    ensures NormalizeText([minusSign] + a + [decimalSeparator] + b, decimalSeparator, minusSign) ==
      "-" + a + "." + b
  {
    var s := [minusSign] + a + [decimalSeparator] + b;
    assert s[0] == minusSign;
    if |b| > 0 {
      assert s[|s| - 1] == b[|b| - 1];
    } else {
      assert s[|s| - 1] == decimalSeparator;
    }
    TrimUnchanged(s);
    var dotted := [minusSign] + a + "." + b;
    ReplaceFour(minusSign, a, decimalSeparator, b, decimalSeparator, '.');
    ReplaceOne(minusSign, decimalSeparator, '.');
    ReplaceOne(decimalSeparator, decimalSeparator, '.');
    ReplaceDigits(a, decimalSeparator, '.');
    ReplaceDigits(b, decimalSeparator, '.');
    assert Replace(s, decimalSeparator, '.') == dotted;
    ReplaceFour(minusSign, a, '.', b, minusSign, '-');
    ReplaceOne(minusSign, minusSign, '-');
    ReplaceOne('.', minusSign, '-');
    ReplaceDigits(a, minusSign, '-');
    ReplaceDigits(b, minusSign, '-');
    assert Replace(dotted, minusSign, '-') == "-" + a + "." + b;
  }

  lemma ReplaceOne(c: char, oldChar: char, newChar: char)
    ensures Replace([c], oldChar, newChar) == [if c == oldChar then newChar else c]
  {
  }

  /** `replace` works piece by piece on "<c>a<d>b". */
  lemma ReplaceFour(c: char, a: string, d: char, b: string, oldChar: char, newChar: char)
    ensures Replace([c] + a + [d] + b, oldChar, newChar) ==
      Replace([c], oldChar, newChar) + Replace(a, oldChar, newChar) +
      Replace([d], oldChar, newChar) + Replace(b, oldChar, newChar)
  {
  }

  /** Replacing a character that is not a digit leaves digits alone. */
  lemma ReplaceDigits(s: string, oldChar: char, newChar: char)
    requires AllDigits(s) && !IsDigit(oldChar)
    ensures Replace(s, oldChar, newChar) == s
  {
  }

  predicate StartsWithMinus(s: string) {
    |s| > 0 && s[0] == '-'
  }

  predicate IsDigit(c: char) {
    '0' <= c <= '9'
  }

  predicate AllDigits(s: string) {
    forall k :: 0 <= k < |s| ==> IsDigit(s[k])
  }

  function DigitValue(c: char): nat
    requires IsDigit(c)
  {
    c as int - '0' as int
  }

  /** The number a string of decimal digits denotes, most significant first. */
  function DigitsValue(s: string): nat
    requires AllDigits(s)
  {
    if |s| == 0 then 0 else 10 * DigitsValue(s[..|s| - 1]) + DigitValue(s[|s| - 1])
  }

  /** The length of the run of digits at the front of s. */
  function DigitRun(s: string): (n: nat)
    ensures n <= |s| && AllDigits(s[..n])
    ensures n < |s| ==> !IsDigit(s[n])
  {
    if |s| > 0 && IsDigit(s[0]) then
      var n := 1 + DigitRun(s[1..]);
      assert s[..n] == [s[0]] + s[1..][..n - 1];
      n
    else 0
  }

  /** Java's `int`: the range a `BigDecimal` scale must lie in. */
  predicate InIntRange(x: int) {
    -0x8000_0000 <= x < 0x8000_0000
  }

  /** An optional exponent: nothing, or 'e' or 'E', an optional sign and at
      least one digit, spanning the rest of the text. */
  function ParseExponent(s: string): Option<int> {
    if |s| == 0 then Some(0)
    else if s[0] != 'e' && s[0] != 'E' then None
    else
      var t := s[1..];
      var negative := |t| > 0 && t[0] == '-';
      var digits := if |t| > 0 && (t[0] == '+' || t[0] == '-') then t[1..] else t;
      if |digits| == 0 || !AllDigits(digits) then None
      else
        var magnitude: int := DigitsValue(digits);
        Some(if negative then -magnitude else magnitude)
  }

  /** `BigDecimal(String)` restricted to ASCII digits: an optional sign, then
      digits with an optional '.', with at least one digit, then an optional
      exponent. The unscaled value is all the digits read together; the scale
      is the number of digits after the point minus the exponent. */
  function Parse(s: string): Option<ParsedDecimal> {
    var signed := |s| > 0 && (s[0] == '+' || s[0] == '-');
    var negative := |s| > 0 && s[0] == '-';
    ParseUnsigned(negative, if signed then s[1..] else s)
  }

  /** The text after the sign: integer digits, an optional point with
      fraction digits, and an optional exponent. */
  function ParseUnsigned(negative: bool, body: string): Option<ParsedDecimal> {
    var intLen := DigitRun(body);
    var intDigits := body[..intLen];
    var afterInt := body[intLen..];
    var hasPoint := |afterInt| > 0 && afterInt[0] == '.';
    var afterPoint := if hasPoint then afterInt[1..] else [];
    var fracLen := DigitRun(afterPoint);
    var fracDigits := afterPoint[..fracLen];
    var rest := if hasPoint then afterPoint[fracLen..] else afterInt;
    if |intDigits| + |fracDigits| == 0 then None
    else
      match ParseExponent(rest)
      case None => None
      case Some(exponent) =>
        var scale := |fracDigits| - exponent;
        if !InIntRange(scale) then None
        else
          AllDigitsConcat(intDigits, fracDigits);
          Some(ParsedDecimal(negative, Decimal(DigitsValue(intDigits + fracDigits), scale)))
  }

  /** A successful parse reports a negative sign exactly when the text starts
      with '-'. */
  lemma ParseSign(s: string)
    requires Parse(s).Some?
    ensures Parse(s).value.negative <==> StartsWithMinus(s)
  {
  }

  lemma AllDigitsConcat(a: string, b: string)
    requires AllDigits(a) && AllDigits(b)
    ensures AllDigits(a + b)
  {
    assert forall k :: 0 <= k < |a| ==> (a + b)[k] == a[k];
    assert forall k :: |a| <= k < |a| + |b| ==> (a + b)[k] == b[k - |a|];
  }

  /** The digit run of a digit string followed by a non-digit is the digit
      string. */
  lemma {:induction false} DigitRunOf(a: string, rest: string)
    requires AllDigits(a) && (|rest| == 0 || !IsDigit(rest[0]))
    ensures DigitRun(a + rest) == |a|
    decreases |a|
  {
    if |a| > 0 {
      assert (a + rest)[1..] == a[1..] + rest;
      DigitRunOf(a[1..], rest);
    } else {
      assert a + rest == rest;
    }
  }

  /** Plain decimal notation: a sign or none, digits a, a point and digits b,
      with at least one digit, parses to the digits of a and b read together
      at scale |b|, with the sign taken from the leading '-'. */
  lemma ParsePlainNotation(sign: string, a: string, b: string)
    requires sign == "" || sign == "+" || sign == "-"
    requires AllDigits(a) && AllDigits(b) && |a| + |b| > 0 && |b| < 0x8000_0000
    ensures AllDigits(a + b)
    ensures Parse(sign + a + "." + b) ==
      Some(ParsedDecimal(sign == "-", Decimal(DigitsValue(a + b), |b|)))
  {
    AllDigitsConcat(a, b);
    var body := a + "." + b;
    var s := sign + a + "." + b;
    assert s == sign + body;
    if sign == "" {
      assert s == body;
      assert !(|a| > 0 && (a[0] == '+' || a[0] == '-'));
      assert |a| == 0 ==> body[0] == '.';
      if |a| > 0 { assert body[0] == a[0]; }
    } else {
      assert s[0] == sign[0] && s[1..] == body;
    }
    ParsePlainBody(sign == "-", a, b);
  }

  lemma ParsePlainBody(negative: bool, a: string, b: string)
    requires AllDigits(a) && AllDigits(b) && |a| + |b| > 0 && |b| < 0x8000_0000
    ensures AllDigits(a + b)
    ensures ParseUnsigned(negative, a + "." + b) ==
      Some(ParsedDecimal(negative, Decimal(DigitsValue(a + b), |b|)))
  {
    AllDigitsConcat(a, b);
    var body := a + "." + b;
    assert body == a + ("." + b);
    DigitRunOf(a, "." + b);
    assert body[..|a|] == a;
    assert body[|a|..] == "." + b;
    assert ("." + b)[1..] == b;
    DigitRunOf(b, "");
    assert b + "" == b;
    assert b[..|b|] == b && b[|b|..] == [];
  }

  /** A text without any digit before its exponent does not parse; in
      particular the empty text, a lone sign and a lone point do not. */
  lemma ParseNeedsDigits()
    ensures Parse("") == None && Parse("-") == None && Parse("+") == None
    ensures Parse(".") == None && Parse("-.") == None && Parse("e5") == None
  {
    assert DigitRun("") == 0;
    assert DigitRun(".") == 0;
    assert DigitRun("e5") == 0;
  }
}
