/** The texts that are numbers in a table cell, and which number each of them denotes. */
module NumberGrammar {
  import opened Common
  import opened Decimals
  import opened Numerals
  import opened TableNumbers
  import opened TableSelectors

  /** Nothing, or e or E with an optional sign and digits. */
  datatype Power = NoPower | Power(mark: char, sign: string, digits: string)

  /** The parts of `-?(0|[1-9][0-9]*)(\.[0-9]+)?([eE][+-]?[0-9]+)?`. */
  datatype Parts = Parts(negative: bool, whole: string, fraction: string, power: Power)

  predicate Digitful(s: string) { s != [] && AllDigits(s) }

  predicate PowerFits(p: Power) {
    p.Power? ==>
      (p.mark == 'e' || p.mark == 'E') && (p.sign == [] || p.sign == ['+'] || p.sign == ['-']) && Digitful(p.digits)
  }

  predicate Fit(p: Parts) {
    Digitful(p.whole) && (p.whole[0] == '0' ==> p.whole == ['0']) && AllDigits(p.fraction) && PowerFits(p.power)
  }

  function PowerText(p: Power): string { if p.NoPower? then [] else [p.mark] + (p.sign + p.digits) }

  function TailText(fraction: string, p: Power): string {
    (if fraction == [] then [] else ['.'] + fraction) + PowerText(p)
  }

  function Written(p: Parts): string {
    (if p.negative then ['-'] else []) + (p.whole + TailText(p.fraction, p.power))
  }

  function Exponent(p: Power): int {
    if p.NoPower? then 0 else if p.sign == ['-'] then -ValueOf(p.digits) else ValueOf(p.digits)
  }

  /** All digits as one integer, with the point moved. */
  function Denoted(p: Parts): Dec {
    var digits := ValueOf(p.whole + p.fraction);
    Dec(if p.negative then -digits else digits, Exponent(p.power) - |p.fraction|)
  }

  // ---------------------------------------------------------------- reading what is written

  lemma ReadsUnsigned(mark: char, digits: string)
    requires (mark == 'e' || mark == 'E') && Digitful(digits)
    ensures ParseExponent([mark] + digits) == Some(ValueOf(digits))
  {
    hide ValueOf;
    var s := [mark] + digits;
    assert s[1..] == digits;
    assert IsDigit(digits[0]);
  }

  lemma ReadsSigned(mark: char, sign: char, digits: string)
    requires (mark == 'e' || mark == 'E') && (sign == '+' || sign == '-') && Digitful(digits)
    ensures ParseExponent([mark] + ([sign] + digits)) == Some(if sign == '-' then -ValueOf(digits) else ValueOf(digits))
  {
    hide ValueOf, AllDigits;
    var s := [mark] + ([sign] + digits);
    assert s[1..] == [sign] + digits;
    assert s[1..][1..] == digits;
  }

  lemma ReadsPower(p: Power)
    requires PowerFits(p)
    ensures ParseExponent(PowerText(p)) == Some(Exponent(p))
    ensures PowerText(p) == [] || !IsDigit(PowerText(p)[0])
    ensures PowerText(p) != [] ==> PowerText(p)[0] != '.'
  {
    if p.Power? {
      if p.sign == [] {
        hide ParseExponent, ValueOf, Digitful;
        assert p.sign + p.digits == p.digits;
        ReadsUnsigned(p.mark, p.digits);
      } else {
        hide ParseExponent, ValueOf, Digitful;
        ReadsSigned(p.mark, p.sign[0], p.digits);
        assert p.sign == [p.sign[0]];
      }
    }
  }

  lemma ReadsTail(whole: string, fraction: string, p: Power, negative: bool)
    requires AllDigits(fraction) && PowerFits(p)
    ensures ParseTail(whole, TailText(fraction, p), negative) ==
      Some(Dec(Opposite(ValueOf(whole + fraction), negative), Exponent(p) - |fraction|))
    ensures TailText(fraction, p) == [] || !IsDigit(TailText(fraction, p)[0])
  {
    hide ParseExponent, ParseTail, PowerFits, PowerText, ValueOf, Opposite, AllDigits;
    ReadsPower(p);
    var rest := PowerText(p);
    if fraction == [] {
      assert TailText(fraction, p) == rest && whole + fraction == whole;
      ReadsWhole(whole, rest, Exponent(p), negative);
    } else {
      assert TailText(fraction, p) == ['.'] + (fraction + rest);
      ReadsFraction(whole, fraction, rest, Exponent(p), negative);
    }
  }

  lemma ReadsWritten(p: Parts)
    requires Fit(p)
    ensures ParseNumber(Written(p)) == Some(Denoted(p))
  {
    hide ParseTail, TailText, PowerFits, ParseNumber;
    ReadsTail(p.whole, p.fraction, p.power, p.negative);
    ReadsDigits(p.whole, TailText(p.fraction, p.power), p.negative);
  }

  // ---------------------------------------------------------------- writing what is read

  lemma PowerRead(s: string) returns (p: Power)
    requires ParseExponent(s).Some?
    ensures PowerFits(p) && PowerText(p) == s
  {
    if s == [] {
      p := NoPower;
    } else {
      var t := s[1..];
      if t[0] == '-' || t[0] == '+' {
        p := Power(s[0], [t[0]], t[1..]);
        assert s == [s[0]] + ([t[0]] + t[1..]);
      } else {
        p := Power(s[0], [], t);
        assert s == [s[0]] + ([] + t);
      }
    }
  }

  lemma TailRead(whole: string, tail: string, negative: bool) returns (fraction: string, p: Power)
    requires ParseTail(whole, tail, negative).Some?
    ensures AllDigits(fraction) && PowerFits(p) && TailText(fraction, p) == tail
  {
    hide ParseExponent, PowerFits, PowerText;
    if tail != [] && tail[0] == '.' {
      var n := DigitRun(tail[1..]);
      fraction := tail[1..][..n];
      p := PowerRead(tail[1..][n..]);
      assert tail == ['.'] + (fraction + tail[1..][n..]);
      assert TailText(fraction, p) == (['.'] + fraction) + PowerText(p);
    } else {
      fraction := [];
      p := PowerRead(tail);
      assert [] + tail == tail;
    }
  }

  lemma NumberRead(s: string) returns (p: Parts)
    requires ParseNumber(s).Some?
    ensures Fit(p) && Written(p) == s
  {
    hide ParseTail, TailText, PowerFits;
    var negative := s != [] && s[0] == '-';
    var t := WithoutSign(s, '-');
    var n := DigitRun(t);
    var fraction, power := TailRead(t[..n], t[n..], negative);
    p := Parts(negative, t[..n], fraction, power);
    assert t == t[..n] + t[n..];
    assert negative ==> s == ['-'] + t;
    if t[0] == '0' { assert t[..n] == ['0']; }
  }

  /** A text is a number exactly when it is in the grammar, and then it denotes what its parts say. */
  lemma NumbersAreWritten(s: string, d: Dec)
    ensures ParseNumber(s) == Some(d) <==> exists p :: Fit(p) && Written(p) == s && Denoted(p) == d
  {
    hide ParseNumber, Fit, Written, Denoted;
    if ParseNumber(s) == Some(d) {
      var p := NumberRead(s);
      ReadsWritten(p);
    }
    if p :| Fit(p) && Written(p) == s && Denoted(p) == d {
      ReadsWritten(p);
    }
  }

  // ---------------------------------------------------------------- cells

  /** Which cells each predicate accepts: the very text; true or false as it says; a number of the same value as the
      predicate's canonical one, however it is written; or the null of a table with a schema. */
  lemma FitsMeans(cell: Cell, test: Test)
    ensures test.StringIs? ==> (Fits(cell, test) <==> cell == Text(test.text))
    ensures test.BooleanIs? ==> (Fits(cell, test) <==> cell == Text(if test.flag then "true" else "false"))
    ensures test.NullIs? ==> (Fits(cell, test) <==> cell == Null)
    ensures test.NumberIs? ==>
      (Fits(cell, test) <==>
        cell.Text? && exists p :: Fit(p) && Written(p) == cell.text && SameValue(Denoted(p), Expected(test.number)))
  {
    hide ParseNumber, Fit, Written, Denoted, SameValue, Expected;
    if test.NumberIs? && cell.Text? {
      if ParseNumber(cell.text).Some? {
        NumbersAreWritten(cell.text, ParseNumber(cell.text).value);
      }
      if p :| Fit(p) && Written(p) == cell.text && SameValue(Denoted(p), Expected(test.number)) {
        ReadsWritten(p);
      }
    }
  }
}
