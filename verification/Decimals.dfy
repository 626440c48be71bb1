/** Decimal numbers as coefficient and exponent, with round-half-even to a bounded number of digits. */
module Decimals {
  import opened Common

  /** coef * 10^exp; the coefficient keeps its trailing zeros, as the digit tuple does. */
  datatype Dec = Dec(coef: int, exp: int)

  /** The precision of the default context. */
  const CONTEXT_DIGITS: nat := 28

  function Abs(n: int): nat { if n < 0 then -n else n }

  /** n with k zeros appended: n * 10^k. */
  function Shift(n: int, k: nat): int {
    if k == 0 then n else 10 * Shift(n, k - 1)
  }

  lemma {:induction false} ShiftLinear(a: int, b: int, k: nat)
    ensures Shift(a + b, k) == Shift(a, k) + Shift(b, k)
    ensures Shift(-a, k) == -Shift(a, k)
  {
    if k > 0 { ShiftLinear(a, b, k - 1); }
  }

  lemma {:induction false} ShiftTimes(c: int, n: int, k: nat)
    ensures Shift(c * n, k) == c * Shift(n, k)
  {
    if k > 0 {
      ShiftTimes(c, n, k - 1);
      assert 10 * (c * Shift(n, k - 1)) == c * (10 * Shift(n, k - 1));
    }
  }

  lemma {:induction false} ShiftShift(n: int, j: nat, k: nat)
    ensures Shift(Shift(n, j), k) == Shift(n, j + k)
  {
    if k > 0 { ShiftShift(n, j, k - 1); }
  }

  lemma {:induction false} ShiftOrder(a: int, b: int, k: nat)
    ensures a < b <==> Shift(a, k) < Shift(b, k)
    ensures a == b <==> Shift(a, k) == Shift(b, k)
  {
    if k > 0 { ShiftOrder(a, b, k - 1); }
  }

  lemma {:induction false} ShiftGrows(n: nat, j: nat, k: nat)
    requires j <= k
    ensures Shift(n, j) <= Shift(n, k)
    ensures j < k ==> 10 * Shift(n, j) <= Shift(n, k)
    ensures Shift(n, k) >= n
  {
    if j < k { ShiftGrows(n, j, k - 1); } else if k > 0 { ShiftGrows(n, j - 1, k - 1); }
  }

  function Digits(n: nat): (k: nat)
    ensures k >= 1
  {
    if n < 10 then 1 else 1 + Digits(n / 10)
  }

  lemma {:induction false} DigitsBound(n: nat)
    ensures n < Shift(1, Digits(n))
    ensures n > 0 ==> Shift(1, Digits(n) - 1) <= n
  {
    if n >= 10 {
      DigitsBound(n / 10);
    }
  }

  lemma {:induction false} DigitsAtMost(n: nat, k: nat)
    requires k >= 1 && n < Shift(1, k)
    ensures Digits(n) <= k
  {
    if n >= 10 {
      DigitsAtMost(n / 10, k - 1);
    }
  }

  function DigitCount(d: Dec): nat { Digits(Abs(d.coef)) }

  // ---------------------------------------------------------------- products

  lemma MulAtLeast(k: int, d: nat)
    requires k >= 1
    ensures k * d >= d
  {
    assert (k - 1) * d >= 0;
  }

  lemma MulOrder(x: int, y: int, s: nat)
    requires s >= 1
    ensures x < y <==> x * s < y * s
    ensures x == y <==> x * s == y * s
  {
    assert (y - x) * s == y * s - x * s && (x - y) * s == x * s - y * s;
    if x < y {
      MulAtLeast(y - x, s);
    } else if x > y {
      MulAtLeast(x - y, s);
    }
  }

  lemma MulBounds(a: nat, b: nat, c: nat, d: nat)
    requires a < b && c < d
    ensures a * c < b * d
  {
    assert b * d == a * d + (b - a) * d && a * d == a * c + a * (d - c);
    MulAtLeast(b - a, d);
    assert a * (d - c) >= 0;
  }

  /** A product of d1 and d2 digits has at most d1 + d2 digits. */
  lemma ProductDigits(a: nat, b: nat)
    ensures Digits(a * b) <= Digits(a) + Digits(b)
  {
    hide Digits;
    var x, y := Digits(a), Digits(b);
    DigitsBound(a);
    DigitsBound(b);
    MulBounds(a, Shift(1, x), b, Shift(1, y));
    ShiftTimes(Shift(1, x), 1, y);
    ShiftShift(1, x, y);
    DigitsAtMost(a * b, x + y);
  }

  // ---------------------------------------------------------------- rounding to an integer

  /** n / d to the nearest integer, ties to even. */
  function HalfEven(n: nat, d: nat): (q: nat)
    requires d > 0
  {
    var q, r := n / d, n % d;
    if 2 * r < d then q else if 2 * r > d then q + 1 else if q % 2 == 0 then q else q + 1
  }

  lemma HalfEvenNear(n: nat, d: nat)
    requires d > 0
    ensures 2 * (HalfEven(n, d) * d) <= 2 * n + d
    ensures 2 * n <= 2 * (HalfEven(n, d) * d) + d
  {
    var q, r := n / d, n % d;
    assert n == q * d + r;
    assert (q + 1) * d == q * d + d;
  }

  lemma QuotientUnique(n: nat, d: nat, q: nat, r: nat)
    requires d > 0 && r < d && n == q * d + r
    ensures n / d == q && n % d == r
  {
    var q', r' := n / d, n % d;
    assert n == q' * d + r';
    assert (q - q') * d == r' - r;
    if q > q' {
      MulAtLeast(q - q', d);
    } else if q < q' {
      assert (q' - q) * d == r - r';
      MulAtLeast(q' - q, d);
    }
  }

  lemma HalfEvenExact(k: nat, d: nat)
    requires d > 0
    ensures HalfEven(k * d, d) == k
  {
    QuotientUnique(k * d, d, k, 0);
  }

  lemma QuotientMonotone(m: nat, n: nat, d: nat)
    requires d > 0 && m <= n
    ensures m / d <= n / d
  {
    var q, q' := m / d, n / d;
    if q > q' {
      assert m == q * d + m % d && n == q' * d + n % d;
      assert (q - q') * d == q * d - q' * d;
      MulAtLeast(q - q', d);
    }
  }

  /** Larger quotients never round to smaller integers. */
  lemma HalfEvenMonotone(m: nat, n: nat, d: nat)
    requires d > 0 && m <= n
    ensures HalfEven(m, d) <= HalfEven(n, d)
  {
    QuotientMonotone(m, n, d);
    if m / d == n / d {
      assert m == (m / d) * d + m % d && n == (m / d) * d + n % d;
    } else {
      assert HalfEven(m, d) <= m / d + 1 <= n / d <= HalfEven(n, d);
    }
  }

  function Sign(n: int): int { if n < 0 then -1 else 1 }

  lemma {:induction false} ShiftPositive(n: nat, k: nat)
    requires n > 0
    ensures Shift(n, k) > 0
  {
    if k > 0 { ShiftPositive(n, k - 1); }
  }

  /** The value kept to at most prec significant digits, as every context operation does to its result. */
  function Rounded(d: Dec, prec: nat): (r: Dec)
    requires prec >= 1
  {
    if DigitCount(d) <= prec then d
    else
      var drop := DigitCount(d) - prec;
      ShiftPositive(1, drop);
      Dec(Sign(d.coef) * HalfEven(Abs(d.coef), Shift(1, drop)), d.exp + drop)
  }

  // ---------------------------------------------------------------- exact comparison

  /** The coefficient of d written at exponent e. */
  function At(d: Dec, e: int): int
    requires e <= d.exp
  {
    Shift(d.coef, d.exp - e)
  }

  predicate Below(a: Dec, b: Dec) {
    At(a, Min(a.exp, b.exp)) < At(b, Min(a.exp, b.exp))
  }

  predicate SameValue(a: Dec, b: Dec) {
    At(a, Min(a.exp, b.exp)) == At(b, Min(a.exp, b.exp))
  }

  function ExactSum(a: Dec, b: Dec): Dec {
    var e := Min(a.exp, b.exp);
    Dec(At(a, e) + At(b, e), e)
  }

  function Negated(a: Dec): Dec { Dec(-a.coef, a.exp) }

  function ExactProduct(a: Dec, b: Dec): Dec { Dec(a.coef * b.coef, a.exp + b.exp) }

  lemma AtLower(d: Dec, e: int, f: int)
    requires f <= e <= d.exp
    ensures At(d, f) == Shift(At(d, e), e - f)
  {
    ShiftShift(d.coef, d.exp - e, e - f);
  }

  /** The comparison may be made at any common exponent. */
  lemma CompareAt(a: Dec, b: Dec, e: int)
    requires e <= a.exp && e <= b.exp
    ensures Below(a, b) <==> At(a, e) < At(b, e)
    ensures SameValue(a, b) <==> At(a, e) == At(b, e)
  {
    var m := Min(a.exp, b.exp);
    AtLower(a, m, e);
    AtLower(b, m, e);
    ShiftOrder(At(a, m), At(b, m), m - e);
  }

  lemma BelowTrichotomy(a: Dec, b: Dec)
    ensures Below(a, b) || SameValue(a, b) || Below(b, a)
    ensures !(Below(a, b) && Below(b, a))
    ensures SameValue(a, b) ==> !Below(a, b) && !Below(b, a) && SameValue(b, a)
  {
  }

  lemma SameValueSymmetric(a: Dec, b: Dec)
    ensures SameValue(a, b) <==> SameValue(b, a)
  {
  }

  lemma SameValueTransitive(a: Dec, b: Dec, c: Dec)
    requires SameValue(a, b) && SameValue(b, c)
    ensures SameValue(a, c)
  {
    var e := Min(a.exp, Min(b.exp, c.exp));
    CompareAt(a, b, e);
    CompareAt(b, c, e);
    CompareAt(a, c, e);
  }

  // ---------------------------------------------------------------- division

  /** n / d is at least 10^k. */
  predicate RatioAtLeast(n: nat, d: nat, k: int) {
    if k >= 0 then n >= Shift(d, k) else Shift(n, -k) >= d
  }

  lemma RatioAtLeastShifted(n: nat, d: nat, i: nat, j: nat)
    ensures RatioAtLeast(n, d, j - i) <==> Shift(n, i) >= Shift(d, j)
  {
    if j >= i {
      ShiftShift(d, j - i, i);
      ShiftOrder(n, Shift(d, j - i), i);
    } else {
      ShiftShift(n, i - j, j);
      ShiftOrder(Shift(n, i - j), d, j);
    }
  }

  /** Digit counts place the ratio within two powers of ten. */
  lemma RatioLowerGap(n: nat, d: nat)
    requires n > 0 && d > 0
    ensures RatioAtLeast(n, d, Digits(n) - Digits(d) - 1)
  {
    var a, b := Digits(n), Digits(d);
    DigitsBound(n);
    DigitsBound(d);
    ShiftOrder(n, Shift(1, a - 1), b);
    ShiftOrder(d, Shift(1, b), a - 1);
    ShiftShift(1, a - 1, b);
    ShiftShift(1, b, a - 1);
    RatioAtLeastShifted(n, d, b, a - 1);
  }

  lemma RatioUpperGap(n: nat, d: nat)
    requires n > 0 && d > 0
    ensures !RatioAtLeast(n, d, Digits(n) - Digits(d) + 1)
  {
    var a, b := Digits(n), Digits(d);
    DigitsBound(n);
    DigitsBound(d);
    ShiftOrder(n, Shift(1, a), b - 1);
    ShiftOrder(d, Shift(1, b - 1), a);
    ShiftShift(1, a, b - 1);
    ShiftShift(1, b - 1, a);
    RatioAtLeastShifted(n, d, b - 1, a);
  }

  /** The power of ten that brings n / d to exactly prec integer digits. */
  function ScaleFor(n: nat, d: nat, prec: nat): int {
    ScaleAt(n, d, DigitGap(n, d), prec)
  }

  function DigitGap(n: nat, d: nat): int { Digits(n) - Digits(d) }

  function ScaleAt(n: nat, d: nat, gap: int, prec: nat): int {
    if RatioAtLeast(n, d, gap) then prec - 1 - gap else prec - gap
  }

  function ScaledNum(n: nat, s: int): (r: nat) {
    ShiftNat(n, Max(s, 0));
    Shift(n, Max(s, 0))
  }

  function ScaledDen(d: nat, s: int): (r: nat)
    requires d > 0
    ensures r > 0
  {
    ShiftPositive(d, Max(-s, 0));
    Shift(d, Max(-s, 0))
  }

  lemma ShiftNat(n: nat, k: nat)
    ensures Shift(n, k) >= 0
  {
    if n > 0 { ShiftPositive(n, k); } else { ShiftOrder(0, 0, k); ShiftLinear(0, 0, k); }
  }

  lemma ScaleFits(n: nat, d: nat, prec: nat)
    requires n > 0 && d > 0 && prec >= 1
    ensures var s := ScaleFor(n, d, prec);
            Shift(ScaledDen(d, s), prec - 1) <= ScaledNum(n, s) < Shift(ScaledDen(d, s), prec)
  {
    var s := ScaleFor(n, d, prec);
    RatioLowerGap(n, d);
    RatioUpperGap(n, d);
    var i, j := Max(s, 0), Max(-s, 0);
    ShiftShift(d, j, prec - 1);
    ShiftShift(d, j, prec);
    RatioAtLeastShifted(n, d, i, j + prec - 1);
    RatioAtLeastShifted(n, d, i, j + prec);
  }

  /** The quotient n / d correctly rounded to prec significant digits. */
  function RoundRatio(n: nat, d: nat, prec: nat): Dec
    requires n > 0 && d > 0 && prec >= 1
  {
    var s := ScaleFor(n, d, prec);
    Dec(HalfEven(ScaledNum(n, s), ScaledDen(d, s)), -s)
  }

  /** Positive a / b as one integer ratio. */
  function RatioNum(a: Dec, b: Dec): int { Shift(a.coef, Max(a.exp - b.exp, 0)) }

  function RatioDen(a: Dec, b: Dec): int { Shift(b.coef, Max(b.exp - a.exp, 0)) }

  function Quotient(a: Dec, b: Dec, prec: nat): Dec
    requires a.coef > 0 && b.coef > 0 && prec >= 1
  {
    ShiftPositive(a.coef, Max(a.exp - b.exp, 0));
    ShiftPositive(b.coef, Max(b.exp - a.exp, 0));
    RoundRatio(RatioNum(a, b), RatioDen(a, b), prec)
  }

  // ---------------------------------------------------------------- rounding cannot cross three halves

  const THREE_HALVES := Dec(15, -1)

  /** A multiple of the denominator, with zeros appended, rounds to itself. */
  lemma HalfEvenShift(d: nat, c: nat, k: nat)
    requires d > 0
    ensures Shift(d * c, k) >= 0 && Shift(c, k) >= 0
    ensures HalfEven(Shift(d * c, k), d) == Shift(c, k)
  {
    ShiftNat(c, k);
    ShiftTimes(d, c, k);
    MultipleRounds(Shift(d * c, k), Shift(c, k), d);
  }

  lemma MultipleRounds(n: int, c: nat, d: nat)
    requires d > 0 && n == d * c
    ensures n >= 0 && HalfEven(n, d) == c
  {
    Commutes(d, c);
    HalfEvenExact(c, d);
  }

  lemma Commutes(a: int, b: int)
    ensures a * b == b * a
  {
  }

  /** An integer within half a unit of n * p / d, for a denominator below p, keeps its side of 3p/2. */
  lemma NearSide(n: nat, d: nat, p: nat, np: nat, dp: nat, h: nat)
    requires 0 < d < p && dp == p * d
    requires 2 * n < 3 * d ==> 2 * np <= 3 * dp - p
    requires 2 * n > 3 * d ==> 2 * np >= 3 * dp + p
    requires 2 * (h * d) <= 2 * np + d && 2 * np <= 2 * (h * d) + d
    ensures 2 * n < 3 * d ==> 2 * h < 3 * p
    ensures 2 * n > 3 * d ==> 2 * h > 3 * p
  {
    assert (2 * h) * d == 2 * (h * d) && (3 * p) * d == 3 * dp;
    MulOrder(2 * h, 3 * p, d);
    MulOrder(3 * p, 2 * h, d);
  }

  lemma ShiftedGap(n: nat, d: nat, s: nat)
    ensures 2 * n < 3 * d ==> 2 * Shift(n, s) <= 3 * Shift(d, s) - Shift(1, s)
    ensures 2 * n > 3 * d ==> 2 * Shift(n, s) >= 3 * Shift(d, s) + Shift(1, s)
  {
    ShiftTimes(2, n, s);
    ShiftTimes(3, d, s);
    ShiftLinear(2 * n, 1, s);
    ShiftLinear(3 * d, 1, s);
    ShiftOrder(3 * d, 2 * n + 1, s);
    ShiftOrder(2 * n, 3 * d + 1, s);
  }

  /** With denominator below 10^s, half a unit is too little to reach 3/2 from either side. */
  lemma NearThreeHalves(n: nat, d: nat, s: nat)
    requires 0 < d < Shift(1, s) && Shift(n, s) >= 0
    ensures var h := HalfEven(Shift(n, s), d);
            && (2 * n < 3 * d ==> 2 * h < 3 * Shift(1, s))
            && (2 * n > 3 * d ==> 2 * h > 3 * Shift(1, s))
            && (2 * n == 3 * d ==> 2 * h == 3 * Shift(1, s))
  {
    var h := HalfEven(Shift(n, s), d);
    HalfEvenNear(Shift(n, s), d);
    ShiftedGap(n, d, s);
    ShiftNat(d, s);
    ShiftTimes(d, 1, s);
    Commutes(d, Shift(1, s));
    NearSide(n, d, Shift(1, s), Shift(n, s), Shift(d, s), h);
    if 2 * n == 3 * d {
      ShiftShift(n, 1, s - 1);
      HalfEvenShift(d, 15, s - 1);
      ShiftTimes(15, 1, s - 1);
    }
  }

  lemma FarBelow(n: nat, d: nat, prec: nat, s: nat)
    requires n > 0 && d > 0 && s >= prec >= 1 && Shift(n, s) >= 0
    requires Shift(n, s) < Shift(d, prec)
    ensures 2 * n < 3 * d && 2 * HalfEven(Shift(n, s), d) < 3 * Shift(1, s)
  {
    ShiftGrows(d, prec, s);
    ShiftOrder(n, d, s);
    ShiftPositive(1, s);
    HalfEvenShift(d, 1, s);
    HalfEvenMonotone(Shift(n, s), Shift(d, s), d);
  }

  lemma FarAbove(n: nat, d: nat, prec: nat, s: nat)
    requires n > 0 && d > 0 && s <= prec - 2 && Shift(n, s) >= 0
    requires Shift(d, prec - 1) <= Shift(n, s)
    ensures 2 * n > 3 * d && 2 * HalfEven(Shift(n, s), d) > 3 * Shift(1, s)
  {
    ShiftGrows(d, s + 1, prec - 1);
    ShiftShift(d, 1, s);
    ShiftOrder(n, 10 * d, s);
    ShiftPositive(1, s);
    HalfEvenShift(d, 1, s + 1);
    HalfEvenMonotone(Shift(d, s + 1), Shift(n, s), d);
  }

  lemma FarAboveInteger(n: nat, d: nat, prec: nat, t: nat)
    requires n > 0 && d > 0 && prec >= 2 && t >= 1
    requires Shift(d, t) > 0 && Shift(Shift(d, t), prec - 1) <= n
    ensures 2 * n > 3 * d
    ensures Below(THREE_HALVES, Dec(HalfEven(n, Shift(d, t)), t))
  {
    var w := Shift(d, t);
    var h := HalfEven(n, w);
    ShiftGrows(d, 0, t);
    ShiftGrows(w, 1, prec - 1);
    HalfEvenMonotone(10 * w, n, w);
    HalfEvenExact(10, w);
    CompareAt(THREE_HALVES, Dec(h, t), -1);
    ShiftGrows(h, 0, t + 1);
  }

  /** Where h * 10^-s lies relative to 3/2. */
  lemma SideAtScale(h: nat, s: nat)
    ensures Below(Dec(h, 0 - s), THREE_HALVES) <==> 2 * h < 3 * Shift(1, s)
    ensures Below(THREE_HALVES, Dec(h, 0 - s)) <==> 2 * h > 3 * Shift(1, s)
  {
    var x: Dec, e: int := Dec(h, 0 - s), 0 - s - 1;
    CompareAt(x, THREE_HALVES, e);
    CompareAt(THREE_HALVES, x, e);
    ShiftTimes(15, 1, s);
    assert At(x, e) == 10 * Shift(h, 0) == 10 * h;
  }

  /** When either side of the ratio has fewer digits than the precision, rounding keeps its side of 3/2. */
  lemma RoundedRatioSide(n: nat, d: nat, prec: nat)
    requires n > 0 && d > 0 && prec >= 2
    requires n < Shift(1, prec - 1) || d < Shift(1, prec - 1)
    ensures var r := RoundRatio(n, d, prec);
            && (2 * n < 3 * d <==> Below(r, THREE_HALVES))
            && (2 * n > 3 * d <==> Below(THREE_HALVES, r))
  {
    var s := ScaleFor(n, d, prec);
    ScaleFits(n, d, prec);
    var r := RoundRatio(n, d, prec);
    BelowTrichotomy(r, THREE_HALVES);
    if s < 0 {
      FarAboveInteger(n, d, prec, -s);
    } else {
      SideAtScale(r.coef, s);
      if s >= prec {
        FarBelow(n, d, prec, s);
      } else if s <= prec - 2 {
        FarAbove(n, d, prec, s);
      } else {
        ShiftOrder(n, d, s);
        NearThreeHalves(n, d, s);
      }
    }
  }

  /** cand / base against 3/2, and cand against 3/2 times base, are the same question. */
  lemma RatioQuestion(cand: Dec, base: Dec)
    ensures 2 * RatioNum(cand, base) < 3 * RatioDen(cand, base) <==> Below(cand, ExactProduct(THREE_HALVES, base))
    ensures 2 * RatioNum(cand, base) > 3 * RatioDen(cand, base) <==> Below(ExactProduct(THREE_HALVES, base), cand)
  {
    var m := Min(cand.exp, base.exp);
    var bound := ExactProduct(THREE_HALVES, base);
    CompareAt(cand, bound, m - 1);
    CompareAt(bound, cand, m - 1);
    ShiftTimes(15, base.coef, base.exp - m);
    assert At(cand, m - 1) == 10 * RatioNum(cand, base);
    assert At(bound, m - 1) == 15 * RatioDen(cand, base);
  }
}
