/**
 * JavaScript numbers as far as the diff parser needs them: the result of
 * `Number(text)` on the decimal numerals git prints, and the `++`/`+`
 * arithmetic applied to it, where NaN absorbs everything.
 */
module JsNumber {

  import opened JsString

  /**
   * A JavaScript number restricted to integers, plus NaN. The integers are
   * exact: a JavaScript number is a double and is exact only below 2^53.
   */
  datatype JsNum = Num(v: int) | NaN

  /** `a + k` in JavaScript: NaN stays NaN. */
  function Add(a: JsNum, k: int): (r: JsNum)
    ensures r.NaN? <==> a.NaN?
    ensures a.Num? ==> r.v - a.v == k
  {
    match a
    case Num(v) => Num(v + k)
    case NaN => NaN
  }

  predicate IsDigit(ch: char) {
    '0' <= ch <= '9'
  }

  predicate AllDigits(s: string) {
    forall k :: 0 <= k < |s| ==> IsDigit(s[k])
  }

  /** A character a signed decimal numeral is written with. */
  predicate IsNumeralChar(ch: char) {
    IsDigit(ch) || ch == '+' || ch == '-'
  }

  /** Text made of numeral characters and white space only. */
  predicate NumeralText(text: string) {
    forall k :: 0 <= k < |text| ==> IsNumeralChar(text[k]) || IsJsSpace(text[k])
  }

  /** The value of a string of decimal digits, read most significant first. */
  function DigitsValue(s: string): nat
    requires AllDigits(s)
  {
    if |s| == 0 then 0
    else DigitsValue(s[..|s| - 1]) * 10 + (s[|s| - 1] as int - '0' as int)
  }

  /** The decimal numeral of `n` as `String(n)` prints it: no sign, no leading zero. */
  function Decimal(n: nat): (r: string)
    ensures |r| > 0 && AllDigits(r)
    ensures DigitsValue(r) == n
    ensures |r| > 1 ==> r[0] != '0'
  {
    var d := [('0' as int + n % 10) as char];
    if n < 10 then d
    else
      var p := Decimal(n / 10);
      assert (p + d)[..|p + d| - 1] == p;
      p + d
  }

  /**
   * `Number(text)`: surrounding spaces are ignored, the empty string is 0,
   * an optional sign followed by decimal digits is that integer, and
   * anything else is NaN. Fractions, exponents, `Infinity` and the
   * `0x`/`0o`/`0b` prefixes are not modelled and read as NaN here.
   */
  function ToNumber(text: string): (r: JsNum)
    ensures Trim(text) == [] ==> r == Num(0)
  {
    var t := Trim(text);
    if |t| == 0 then Num(0)
    else if |t| > 1 && t[0] == '+' && AllDigits(t[1..]) then Num(DigitsValue(t[1..]))
    else if |t| > 1 && t[0] == '-' && AllDigits(t[1..]) then Num(0 - DigitsValue(t[1..]) as int)
    else if AllDigits(t) then Num(DigitsValue(t))
    else NaN
  }

  /**
   * What `Number` reads: a plain digit string is its decimal value, and only
   * text made of digits, signs and white space reads as a number.
   */
  lemma ToNumberReads(text: string)
    ensures |text| > 0 && AllDigits(text) ==> ToNumber(text) == Num(DigitsValue(text))
    ensures ToNumber(text).Num? ==> NumeralText(text)
  {
    NumeralTrim(text, Trim(text));
    DigitsUnpadded(text);
  }

  /** When the trim of `text` is a signed or unsigned numeral, the rest of `text` is white space. */
  lemma NumeralTrim(text: string, t: string)
    requires t == Trim(text)
    ensures (|t| > 1 && (t[0] == '+' || t[0] == '-') && AllDigits(t[1..])) || AllDigits(t) ==> NumeralText(text)
  {
    var a: nat :| TrimmedAt(text, t, a);
    forall k | 0 <= k < |text| && !IsJsSpace(text[k])
        && ((|t| > 1 && (t[0] == '+' || t[0] == '-') && AllDigits(t[1..])) || AllDigits(t))
      ensures IsNumeralChar(text[k])
    {
      assert a <= k < a + |t|;
      assert text[k] == t[k - a];
      if k - a > 0 && !AllDigits(t) {
        assert t[1..][k - a - 1] == t[k - a];
      }
    }
  }

  /** A non-empty string of digits is its own trim. */
  lemma DigitsUnpadded(text: string)
    ensures |text| > 0 && AllDigits(text) ==> Trim(text) == text
  {
    if |text| > 0 && AllDigits(text) {
      assert IsDigit(text[0]) && IsDigit(text[|text| - 1]);
      TrimUnpadded(text);
    }
  }

  /** `value || fallback` for a number: NaN and zero are falsy. */
  function OrElse(value: JsNum, fallback: int): (r: int)
    ensures r != 0 || fallback == 0
    ensures value.Num? && value.v != 0 ==> r == value.v
    ensures value.NaN? || value.v == 0 ==> r == fallback
  {
    match value
    case Num(v) => if v != 0 then v else fallback
    case NaN => fallback
  }

  /** A string whose first and last code units are not spaces is its own trim. */
  lemma TrimUnpadded(s: string)
    requires |s| > 0 ==> !IsJsSpace(s[0]) && !IsJsSpace(s[|s| - 1])
    ensures Trim(s) == s
  {
    assert TrimStart(s) == s;
  }

  /**
   * `Number(String(n))` reads back `n`. In JavaScript this holds for `n`
   * below 2^53; above it the double rounds, which the exact model does not.
   */
  lemma ToNumberDecimal(n: nat)
    ensures ToNumber(Decimal(n)) == Num(n)
  {
    var d := Decimal(n);
    TrimUnpadded(d);
    assert !IsDigit('+') && !IsDigit('-');
  }

  /** Only a numeral with a minus sign reads as a negative number. */
  lemma ToNumberNegative(text: string)
    requires ToNumber(text).Num? && ToNumber(text).v < 0
    ensures '-' in text
  {
    var t := Trim(text);
    assert |t| > 1 && t[0] == '-';
    var a: nat :| TrimmedAt(text, t, a);
    assert t == text[a..a + |t|];
    assert text[a] == t[0];
  }
}
