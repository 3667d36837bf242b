/** Decimal numerals. */
module Numerals {
  predicate IsDigit(c: char) {
    '0' <= c <= '9'
  }

  function Digits(n: nat): (s: string)
    ensures s != ""
  {
    if n < 10 then ['0' + n as char] else Digits(n / 10) + ['0' + (n % 10) as char]
  }

  lemma {:induction false} DigitsOnly(n: nat)
    ensures forall c :: c in Digits(n) ==> IsDigit(c)
  {
    if n >= 10 { DigitsOnly(n / 10); }
  }

  lemma {:induction false} DigitsDiffer(m: nat, n: nat)
    requires Digits(m) == Digits(n)
    ensures m == n
  {
    var x, y := Digits(m), Digits(n);
    assert x[|x| - 1] == '0' + (m % 10) as char && y[|y| - 1] == '0' + (n % 10) as char;
    if m >= 10 && n >= 10 {
      assert x[..|x| - 1] == Digits(m / 10) && y[..|y| - 1] == Digits(n / 10);
      DigitsDiffer(m / 10, n / 10);
    }
  }

  lemma {:induction false} DigitsGrow(m: nat, n: nat)
    requires m <= n
    ensures |Digits(m)| <= |Digits(n)|
  {
    if m >= 10 { DigitsGrow(m / 10, n / 10); }
  }
}
