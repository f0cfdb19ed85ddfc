/**
 * JavaScript numbers as far as the field engine needs them: NaN, exact finite
 * values, `Number.isInteger`, strict equality, decimal rendering of integers
 * (`Number.prototype.toString`) and decimal parsing (`Number(text)`,
 * `parseInt(text, 10)` on digit strings).
 */
module Numbers {
  import opened Wrappers

  /** A JavaScript number. Finite values are exact; infinities and -0 are not modelled. */
  datatype Num = NaN | Finite(r: real)

  /** `Number.isInteger(n)`. */
  predicate IsInteger(n: Num) {
    n.Finite? && n.r == n.r.Floor as real
  }

  /** `a === b`: NaN is equal to nothing, not even itself. */
  predicate StrictEquals(a: Num, b: Num) {
    a.Finite? && b.Finite? && a.r == b.r
  }

  /** `Number.MAX_SAFE_INTEGER`, 2^53 - 1. */
  const MaxSafeInteger: int := 0x1F_FFFF_FFFF_FFFF

  function FromInt(i: int): Num {
    Finite(i as real)
  }

  predicate IsDigit(c: char) {
    '0' <= c <= '9'
  }

  predicate AllDigits(s: string) {
    forall i :: 0 <= i < |s| ==> IsDigit(s[i])
  }

  function DigitChar(d: int): (c: char)
    requires 0 <= d < 10
    ensures IsDigit(c)
  {
    (48 + d) as char
  }

  function DigitValue(c: char): (d: int)
    requires IsDigit(c)
    ensures 0 <= d < 10
  {
    c as int - 48
  }

  /** The decimal digits of `n`, without leading zeros. */
  function NatToDecimal(n: nat): (s: string)
    ensures |s| > 0 && AllDigits(s)
    ensures (s[0] == '0') == (n == 0)
  {
    if n < 10 then [DigitChar(n)] else NatToDecimal(n / 10) + [DigitChar(n % 10)]
  }

  /** The value of a string of decimal digits (`parseInt(s, 10)` on such a string). */
  function DigitsValue(s: string): nat
    requires AllDigits(s)
  {
    if s == [] then 0 else DigitsValue(s[..|s| - 1]) * 10 + DigitValue(s[|s| - 1])
  }

  lemma {:induction false} DecimalRoundTrip(n: nat)
    ensures DigitsValue(NatToDecimal(n)) == n
  {
    if n >= 10 {
      var s := NatToDecimal(n);
      assert s[..|s| - 1] == NatToDecimal(n / 10);
      DecimalRoundTrip(n / 10);
    }
  }

  /** Decimal rendering of an integer, with a leading "-" when negative. */
  function IntToDecimal(i: int): string {
    if i < 0 then "-" + NatToDecimal(-i) else NatToDecimal(i)
  }

  /**
   * `Number.prototype.toString()` where the model can render it: NaN and the
   * integers below 10^21 in magnitude (larger ones switch to exponent form, and
   * non-integers use the shortest round-trip form of the double; neither is modelled).
   */
  function NumberText(n: Num): (t: Option<string>)
    ensures n.NaN? ==> t == Some("NaN")
    ensures IsInteger(n) && -1e21 < n.r < 1e21 ==> t == Some(IntToDecimal(n.r.Floor))
    ensures n.Finite? && !IsInteger(n) ==> t.None?
  {
    match n
    case NaN => Some("NaN")
    case Finite(r) => if IsInteger(n) && -1e21 < r < 1e21 then Some(IntToDecimal(r.Floor)) else None
  }

  function Pow10(k: nat): (p: nat)
    ensures p >= 1
  {
    if k == 0 then 1 else 10 * Pow10(k - 1)
  }

  /** The value of the digits after a decimal point. */
  function FractionValue(fraction: string): (v: real)
    requires AllDigits(fraction)
    ensures fraction == "" ==> v == 0.0
  {
    DigitsValue(fraction) as real / Pow10(|fraction|) as real
  }

  /** Index of the first "." in `s`, or |s| when there is none. */
  function DotIndex(s: string): (k: nat)
    ensures k <= |s|
    ensures forall i :: 0 <= i < k ==> s[i] != '.'
    ensures k < |s| ==> s[k] == '.'
  {
    if s == [] then 0 else if s[0] == '.' then 0 else 1 + DotIndex(s[1..])
  }

  /**
   * An unsigned decimal literal `digits [ "." digits ]` (either part may be
   * empty, not both), the part of the StringNumericLiteral grammar of ECMA-262
   * (section 7.1.4.1) that the model covers.
   */
  function UnsignedDecimal(s: string): Option<real> {
    var k := DotIndex(s);
    var whole := s[..k];
    var fraction := if k < |s| then s[k + 1..] else "";
    if AllDigits(whole) && AllDigits(fraction) && (|whole| > 0 || |fraction| > 0) then
      Some(DigitsValue(whole) as real + FractionValue(fraction))
    else
      None
  }

  /**
   * `Number(s)` (ECMA-262 StringToNumber) for the empty string and optionally
   * signed decimal literals; every other text is NaN in the model.
   */
  function StringToNumber(s: string): Num {
    if s == "" then Finite(0.0)
    else
      var negative := s[0] == '-';
      var body := if s[0] == '-' || s[0] == '+' then s[1..] else s;
      match UnsignedDecimal(body)
      case Some(v) => Finite(if negative then -v else v)
      case None => NaN
  }

  /** A plain digit string reads as its digits' value. */
  lemma UnsignedDigits(s: string)
    requires AllDigits(s) && |s| > 0
    ensures UnsignedDecimal(s) == Some(DigitsValue(s) as real)
  {
    assert s[..DotIndex(s)] == s;
  }

  /** A digit string, with or without a leading "-", reads as its value with that sign. */
  lemma SignedDigits(d: string)
    requires AllDigits(d) && |d| > 0
    ensures StringToNumber(d) == Finite(DigitsValue(d) as real)
    ensures StringToNumber("-" + d) == Finite(-(DigitsValue(d) as real))
  {
    UnsignedDigits(d);
    assert ("-" + d)[0] == '-' && ("-" + d)[1..] == d;
  }

  /** Reading back the rendering of an integer gives the integer. */
  lemma IntDecimalRoundTrip(i: int)
    ensures StringToNumber(IntToDecimal(i)) == FromInt(i)
  {
    var m: nat := if i < 0 then -i else i;
    SignedDigits(NatToDecimal(m));
    DecimalRoundTrip(m);
  }

  /** `Number(n.toString()) === n` for every integer the model renders. */
  lemma NumberTextRoundTrip(n: Num)
    requires NumberText(n).Some? && n.Finite?
    ensures StringToNumber(NumberText(n).value) == n
  {
    IntDecimalRoundTrip(n.r.Floor);
  }
}
