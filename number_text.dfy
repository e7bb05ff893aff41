/**
 The text JavaScript produces when an integer-valued number such as `Date.now()` is
 concatenated with a string: its decimal digits, most significant first, with no sign,
 no leading zero and no fraction.
 */
module NumberText {

  predicate IsDigit(c: char)
  {
    '0' <= c <= '9'
  }

  predicate AllDigits(s: string)
  {
    forall k :: 0 <= k < |s| ==> IsDigit(s[k])
  }

  function DigitChar(d: nat): (c: char)
    requires d < 10
    ensures IsDigit(c) && (c == '0' <==> d == 0)
  {
    "0123456789"[d]
  }

  function DigitValue(c: char): (d: nat)
    requires IsDigit(c)
    ensures d < 10
  {
    (c as int - '0' as int) as nat
  }

  /** The decimal rendering of `n`: non-empty, digits only, and no leading zero except for "0" itself. */
  function Decimal(n: nat): (text: string)
    ensures |text| >= 1
    ensures AllDigits(text)
    ensures text[0] == '0' <==> n == 0
    ensures n == 0 ==> text == "0"
  {
    if n < 10 then [DigitChar(n)] else Decimal(n / 10) + [DigitChar(n % 10)]
  }

  /** The number that a string of decimal digits denotes. */
  function DecimalValue(s: string): nat
    requires AllDigits(s)
  {
    if s == [] then 0 else DecimalValue(s[..|s| - 1]) * 10 + DigitValue(s[|s| - 1])
  }

  lemma DigitRoundTrip(d: nat)
    requires d < 10
    ensures DigitValue(DigitChar(d)) == d
  {
  }

  /** Reading the rendered digits back gives the number: the rendering loses nothing. */
  lemma {:induction false} DecimalRoundTrip(n: nat)
    ensures DecimalValue(Decimal(n)) == n
  {
    DigitRoundTrip(n % 10);
    if n >= 10 {
      var text := Decimal(n);
      DecimalRoundTrip(n / 10);
      assert text[..|text| - 1] == Decimal(n / 10);
    }
  }

  /** Different numbers render as different texts. */
  lemma DecimalInjective(m: nat, n: nat)
    requires Decimal(m) == Decimal(n)
    ensures m == n
  {
    DecimalRoundTrip(m);
    DecimalRoundTrip(n);
  }
}
