/** Decimal numerals. */
module Numerals {

  predicate IsDigit(c: char) { '0' <= c <= '9' }

  function DigitChar(k: nat): (c: char)
    requires k < 10
    ensures IsDigit(c)
  {
    '0' + k as char
  }

  predicate AllDigits(s: string) { forall i :: 0 <= i < |s| ==> IsDigit(s[i]) }

  function Numeral(n: nat): (s: string)
    ensures s != [] && AllDigits(s)
  {
    if n < 10 then [DigitChar(n)] else Numeral(n / 10) + [DigitChar(n % 10)]
  }

  function ValueOf(s: string): int {
    if s == [] then 0 else 10 * ValueOf(s[..|s| - 1]) + (s[|s| - 1] as int - '0' as int)
  }

  lemma {:induction false} NumeralRoundTrip(n: nat)
    ensures ValueOf(Numeral(n)) == n
  {
    if n >= 10 {
      NumeralRoundTrip(n / 10);
      assert Numeral(n)[..|Numeral(n)| - 1] == Numeral(n / 10);
    } else {
      assert Numeral(n)[..0] == [];
    }
  }

  /** A numeral has no leading zero, except for zero itself. */
  lemma {:induction false} NoLeadingZero(n: nat)
    ensures Numeral(n) == "0" <==> n == 0
    ensures n > 0 ==> Numeral(n)[0] != '0'
  {
    if n >= 10 {
      NoLeadingZero(n / 10);
      assert |Numeral(n)| > 1;
    }
  }
}
