/** Numbers in table cells: the text grammar, and the canonical value of a number predicate. */
module TableNumbers {
  import opened Common
  import opened Decimals
  import opened Numerals

  // ---------------------------------------------------------------- the grammar

  /** How many digits s begins with. */
  function DigitRun(s: string): (n: nat)
    ensures n <= |s| && AllDigits(s[..n]) && (n < |s| ==> !IsDigit(s[n]))
  {
    if s == [] || !IsDigit(s[0]) then 0
    else
      var n := 1 + DigitRun(s[1..]);
      assert forall i :: 0 < i < n ==> s[i] == s[1..][i - 1];
      n
  }

  lemma {:induction false} DigitRunOf(digits: string, rest: string)
    requires AllDigits(digits) && (rest == [] || !IsDigit(rest[0]))
    ensures DigitRun(digits + rest) == |digits|
  {
    if digits == [] {
      assert digits + rest == rest;
    } else {
      assert (digits + rest)[1..] == digits[1..] + rest;
      DigitRunOf(digits[1..], rest);
    }
  }

  function Opposite(n: int, negative: bool): int { if negative then -n else n }

  function WithoutSign(s: string, sign: char): string {
    if s != [] && s[0] == sign then s[1..] else s
  }

  /** `[eE][+-]?[0-9]+` or nothing. */
  function ParseExponent(s: string): Option<int> {
    if s == [] then Some(0)
    else if s[0] != 'e' && s[0] != 'E' then None
    else
      var t := s[1..];
      var negative := t != [] && t[0] == '-';
      var digits := if negative || (t != [] && t[0] == '+') then t[1..] else t;
      if digits == [] || !AllDigits(digits) then None else Some(Opposite(ValueOf(digits), negative))
  }

  /** What follows the integer digits: an optional fraction, then an optional exponent. */
  function ParseTail(whole: string, tail: string, negative: bool): Option<Dec> {
    if tail != [] && tail[0] == '.' then
      var n := DigitRun(tail[1..]);
      if n == 0 then None
      else
        match ParseExponent(tail[1..][n..])
        case None => None
        case Some(e) => Some(Dec(Opposite(ValueOf(whole + tail[1..][..n]), negative), e - n))
    else
      match ParseExponent(tail)
      case None => None
      case Some(e) => Some(Dec(Opposite(ValueOf(whole), negative), e))
  }

  /** The value of a cell's text, or None when the text is not in the number grammar. */
  function ParseNumber(s: string): Option<Dec> {
    var negative := s != [] && s[0] == '-';
    var t := WithoutSign(s, '-');
    var n := DigitRun(t);
    if n == 0 || (t[0] == '0' && n > 1) then None else ParseTail(t[..n], t[n..], negative)
  }

  // ---------------------------------------------------------------- `str` of a decimal

  function ExponentText(e: int): string {
    if e == 0 then [] else ['E'] + ([if e < 0 then '-' else '+'] + Numeral(Abs(e)))
  }

  function Zeros(n: nat): string { seq(n, _ => '0') }

  /** The digits with the point after the first `place` of them. */
  function WithPoint(digits: string, place: int): string
    requires place <= |digits|
  {
    if place <= 0 then ['0', '.'] + (Zeros(-place) + digits)
    else if place == |digits| then digits
    else digits[..place] + (['.'] + digits[place..])
  }

  /** `str(decimal)`: plain down to a millionth, scientific below that and for positive exponents. */
  function DecimalText(d: Dec): string {
    var digits := Numeral(Abs(d.coef));
    var left := d.exp + |digits|;
    var place := if d.exp <= 0 && left > -6 then left else 1;
    (if d.coef < 0 then ['-'] else []) + (WithPoint(digits, place) + ExponentText(left - place))
  }

  lemma ExponentRoundTrip(e: int)
    ensures ParseExponent(ExponentText(e)) == Some(e)
    ensures ExponentText(e) != [] ==> ExponentText(e)[0] == 'E'
  {
    NumeralRoundTrip(Abs(e));
    if e != 0 {
      var sign := [if e < 0 then '-' else '+'];
      assert ExponentText(e)[1..] == sign + Numeral(Abs(e));
      assert (sign + Numeral(Abs(e)))[1..] == Numeral(Abs(e));
    }
  }

  lemma {:induction false} LeadingZeros(n: nat, s: string)
    ensures ValueOf(Zeros(n) + s) == ValueOf(s)
  {
    var all := Zeros(n) + s;
    if s != [] {
      assert all[..|all| - 1] == Zeros(n) + s[..|s| - 1];
      LeadingZeros(n, s[..|s| - 1]);
    } else if n > 0 {
      assert all[..|all| - 1] == Zeros(n - 1) + s;
      LeadingZeros(n - 1, s);
    }
  }

  /** What the grammar reads from an unsigned text that begins with these digits. */
  lemma ReadsDigits(digits: string, tail: string, negative: bool)
    requires AllDigits(digits) && digits != [] && (digits[0] == '0' ==> |digits| == 1)
    requires tail == [] || !IsDigit(tail[0])
    ensures ParseNumber((if negative then ['-'] else []) + (digits + tail)) == ParseTail(digits, tail, negative)
  {
    var s := (if negative then ['-'] else []) + (digits + tail);
    assert IsDigit(digits[0]);
    assert WithoutSign(s, '-') == digits + tail;
    DigitRunOf(digits, tail);
    assert (digits + tail)[..|digits|] == digits && (digits + tail)[|digits|..] == tail;
  }

  lemma ReadsFraction(whole: string, fraction: string, tail: string, e: int, negative: bool)
    requires AllDigits(fraction) && fraction != []
    requires ParseExponent(tail) == Some(e) && (tail == [] || !IsDigit(tail[0]))
    ensures ParseTail(whole, ['.'] + (fraction + tail), negative) ==
            Some(Dec(Opposite(ValueOf(whole + fraction), negative), e - |fraction|))
  {
    hide ParseExponent, ValueOf, Opposite;
    var rest := fraction + tail;
    assert (['.'] + rest)[1..] == rest;
    DigitRunOf(fraction, tail);
    assert rest[..|fraction|] == fraction && rest[|fraction|..] == tail;
  }

  lemma ReadsWhole(digits: string, tail: string, e: int, negative: bool)
    requires ParseExponent(tail) == Some(e) && (tail == [] || tail[0] != '.')
    ensures ParseTail(digits, tail, negative) == Some(Dec(Opposite(ValueOf(digits), negative), e))
  {
    hide ParseExponent, ValueOf, Opposite;
  }

  lemma SmallShape(digits: string, place: int, tail: string)
    requires place <= 0
    ensures WithPoint(digits, place) + tail == ['0'] + (['.'] + ((Zeros(-place) + digits) + tail))
    ensures ['0'] + (Zeros(-place) + digits) == Zeros(1 - place) + digits
  {
  }

  lemma PointedShape(digits: string, place: int, tail: string)
    requires 0 < place < |digits|
    ensures WithPoint(digits, place) + tail == digits[..place] + (['.'] + (digits[place..] + tail))
    ensures digits[..place] + digits[place..] == digits
  {
  }

  lemma ReadsSmall(digits: string, place: int, tail: string, e: int, negative: bool)
    requires AllDigits(digits) && digits != [] && place <= 0
    requires ParseExponent(tail) == Some(e) && (tail == [] || !IsDigit(tail[0]))
    ensures ParseNumber((if negative then ['-'] else []) + (WithPoint(digits, place) + tail)) ==
            Some(Dec(Opposite(ValueOf(digits), negative), e + place - |digits|))
  {
    hide ParseNumber, ParseTail, ParseExponent, ValueOf, Opposite, WithPoint;
    var fraction := Zeros(-place) + digits;
    SmallShape(digits, place, tail);
    ReadsDigits(['0'], ['.'] + (fraction + tail), negative);
    ReadsFraction(['0'], fraction, tail, e, negative);
    LeadingZeros(1 - place, digits);
  }

  lemma ReadsWholeNumber(digits: string, tail: string, e: int, negative: bool)
    requires AllDigits(digits) && digits != [] && (digits[0] == '0' ==> |digits| == 1)
    requires ParseExponent(tail) == Some(e) && (tail == [] || tail[0] == 'E')
    ensures ParseNumber((if negative then ['-'] else []) + (digits + tail)) ==
            Some(Dec(Opposite(ValueOf(digits), negative), e))
  {
    hide ParseNumber, ParseTail, ParseExponent, ValueOf, Opposite;
    ReadsDigits(digits, tail, negative);
    ReadsWhole(digits, tail, e, negative);
  }

  lemma DigitsCut(digits: string, place: int)
    requires AllDigits(digits) && 0 < place < |digits| && digits[0] != '0'
    ensures AllDigits(digits[..place]) && digits[..place] != [] && digits[..place][0] != '0'
    ensures AllDigits(digits[place..]) && digits[place..] != []
  {
  }

  lemma ReadsPointed(digits: string, place: int, tail: string, e: int, negative: bool)
    requires AllDigits(digits) && 0 < place < |digits| && digits[0] != '0'
    requires ParseExponent(tail) == Some(e) && (tail == [] || tail[0] == 'E')
    ensures ParseNumber((if negative then ['-'] else []) + (WithPoint(digits, place) + tail)) ==
            Some(Dec(Opposite(ValueOf(digits), negative), e + place - |digits|))
  {
    hide ParseNumber, ParseTail, ParseExponent, ValueOf, Opposite, AllDigits, WithPoint;
    PointedShape(digits, place, tail);
    DigitsCut(digits, place);
    ReadsDigits(digits[..place], ['.'] + (digits[place..] + tail), negative);
    ReadsFraction(digits[..place], digits[place..], tail, e, negative);
  }

  lemma NumeralShape(n: nat)
    ensures var s := Numeral(n); s[0] == '0' ==> |s| == 1
  {
    NoLeadingZero(n);
  }

  /** `str` of a decimal is in the cell grammar and reads back as that very decimal. */
  lemma TextRoundTrip(d: Dec)
    ensures ParseNumber(DecimalText(d)) == Some(d)
  {
    hide ParseNumber, ParseExponent, ExponentText, ValueOf, Numeral;
    var digits := Numeral(Abs(d.coef));
    var left := d.exp + |digits|;
    var place := if d.exp <= 0 && left > -6 then left else 1;
    NumeralShape(Abs(d.coef));
    NumeralRoundTrip(Abs(d.coef));
    ExponentRoundTrip(left - place);
    if place <= 0 {
      ReadsSmall(digits, place, ExponentText(left - place), left - place, d.coef < 0);
    } else if place == |digits| {
      ReadsWholeNumber(digits, ExponentText(left - place), left - place, d.coef < 0);
    } else {
      ReadsPointed(digits, place, ExponentText(left - place), left - place, d.coef < 0);
    }
  }

  lemma WordsAreNotNumbers()
    ensures ParseNumber("true") == None && ParseNumber("false") == None
  {
  }

  // ---------------------------------------------------------------- canonical values

  /** Trailing zeros moved into the exponent. */
  function Stripped(d: Dec): Dec
    decreases Abs(d.coef)
  {
    if d.coef == 0 then Dec(0, 0)
    else if d.coef % 10 == 0 then Stripped(Dec(d.coef / 10, d.exp + 1))
    else d
  }

  /** `Decimal(str(value)).normalize()` under the default context. */
  function Canonical(d: Dec): Dec { Stripped(Rounded(d, CONTEXT_DIGITS)) }

  /** The canonical text of a number predicate: zero, or `str` of the normalised decimal. */
  function CanonicalText(d: Dec): string {
    if Canonical(d).coef == 0 then "0" else DecimalText(Canonical(d))
  }

  /** `Decimal(canonical)`, which an adapter compares cells with. */
  function Expected(d: Dec): (r: Dec)
    ensures r == Canonical(d)
  {
    CanonicalReads(d);
    ParseNumber(CanonicalText(d)).value
  }

  lemma CanonicalReads(d: Dec)
    ensures ParseNumber(CanonicalText(d)) == Some(Canonical(d))
  {
    hide ParseNumber, DecimalText;
    StrippedIsNormal(Rounded(d, CONTEXT_DIGITS));
    TextRoundTrip(Canonical(d));
    ZeroText();
  }

  lemma ZeroText()
    ensures ParseNumber("0") == Some(Dec(0, 0))
  {
    TextRoundTrip(Dec(0, 0));
    assert WithPoint("0", 1) == "0" && Numeral(0) == "0";
    assert DecimalText(Dec(0, 0)) == "0";
  }

  ghost predicate Normal(d: Dec) { d == Dec(0, 0) || d.coef % 10 != 0 }

  lemma {:induction false} StrippedIsNormal(d: Dec)
    ensures Normal(Stripped(d)) && SameValue(Stripped(d), d)
    decreases Abs(d.coef)
  {
    if d.coef == 0 {
      ShiftLinear(0, 0, d.exp - Min(d.exp, 0));
      ShiftLinear(0, 0, 0 - Min(d.exp, 0));
    } else if d.coef % 10 == 0 {
      var e := Dec(d.coef / 10, d.exp + 1);
      StrippedIsNormal(e);
      TenthSame(d, e);
      SameValueTransitive(Stripped(e), e, d);
    }
  }

  lemma TenthSame(d: Dec, e: Dec)
    requires d.coef == 10 * e.coef && e.exp == d.exp + 1
    ensures SameValue(e, d)
  {
    assert Shift(e.coef, 1) == 10 * Shift(e.coef, 0);
  }

  /** Normal forms are unique: same value, same form. */
  lemma NormalUnique(a: Dec, b: Dec)
    requires Normal(a) && Normal(b) && SameValue(a, b)
    ensures a == b
  {
    if a.exp <= b.exp {
      NormalOrdered(a, b);
    } else {
      NormalOrdered(b, a);
    }
  }

  lemma EndsInZero(n: int, k: nat)
    requires k > 0
    ensures Shift(n, k) % 10 == 0
  {
    assert Shift(n, k) == 10 * Shift(n, k - 1);
  }

  lemma ZeroShifted(n: int, k: nat)
    ensures Shift(n, k) == 0 <==> n == 0
  {
    ShiftOrder(n, 0, k);
    ShiftLinear(0, 0, k);
  }

  lemma NormalOrdered(a: Dec, b: Dec)
    requires Normal(a) && Normal(b) && SameValue(a, b) && a.exp <= b.exp
    ensures a == b
  {
    hide SameValue;
    var k := b.exp - a.exp;
    CompareAt(a, b, a.exp);
    assert a.coef == Shift(b.coef, k);
    ZeroShifted(b.coef, k);
    if k > 0 {
      EndsInZero(b.coef, k);
    }
  }
}
