/** Decimal rendering of natural numbers, as Python's `str(n)` and
    `"{:02d}".format(n)` produce it, together with the value a digit string
    denotes, so that each rendering can be read back. */
module Decimal {

  predicate IsDigit(c: char) {
    '0' <= c <= '9'
  }

  predicate AllDigits(s: string) {
    forall i :: 0 <= i < |s| ==> IsDigit(s[i])
  }

  function DigitChar(d: nat): (c: char)
    requires d < 10
    ensures IsDigit(c) && c as int - '0' as int == d
  {
    ('0' as int + d) as char
  }

  /** The number a string of decimal digits denotes (leading zeros allowed). */
  function Value(s: string): nat
    requires AllDigits(s)
  {
    if s == [] then 0 else Value(s[..|s| - 1]) * 10 + (s[|s| - 1] as int - '0' as int)
  }

  /** `str(n)` for a natural number: no sign, no leading zero. */
  function Digits(n: nat): (r: string)
    ensures |r| >= 1 && AllDigits(r)
    ensures |r| > 1 ==> r[0] != '0'
    ensures n < 10 <==> |r| == 1
  {
    if n < 10 then [DigitChar(n)] else Digits(n / 10) + [DigitChar(n % 10)]
  }

  /** Reading back what `Digits` wrote gives the number again. */
  lemma {:induction false} DigitsValue(n: nat)
    ensures Value(Digits(n)) == n
  {
    if n >= 10 {
      var d := Digits(n);
      assert d[..|d| - 1] == Digits(n / 10);
      DigitsValue(n / 10);
    }
  }

  /** Distinct numbers are rendered differently. */
  lemma DigitsInjective(m: nat, n: nat)
    requires Digits(m) == Digits(n)
    ensures m == n
  {
    DigitsValue(m);
    DigitsValue(n);
  }

  /** A leading zero does not change the value. */
  lemma {:induction false} ValueLeadingZero(s: string)
    requires AllDigits(s)
    ensures AllDigits("0" + s) && Value("0" + s) == Value(s)
  {
    if s != [] {
      assert ("0" + s)[..|"0" + s| - 1] == "0" + s[..|s| - 1];
      ValueLeadingZero(s[..|s| - 1]);
    }
  }

  /** `"{:02d}".format(n)`: `str(n)` zero-padded on the left to width 2. */
  function Pad2(n: nat): (r: string)
    ensures AllDigits(r) && Value(r) == n
    ensures |r| == if n < 10 then 2 else |Digits(n)|
    ensures n >= 10 ==> r == Digits(n)
  {
    DigitsValue(n);
    if n < 10 then ValueLeadingZero(Digits(n)); "0" + Digits(n) else Digits(n)
  }
}
