/** The decimal mean of raw runs: a running sum and one division under a widened context. */
module DecimalMeans {
  import opened Common
  import opened Decimals

  // ---------------------------------------------------------------- value-level facts

  lemma {:induction false} DigitsShift(n: nat, k: nat)
    requires n > 0
    ensures Shift(n, k) > 0 && Digits(Shift(n, k)) == Digits(n) + k
  {
    if k > 0 {
      DigitsShift(n, k - 1);
      assert Shift(n, k) / 10 == Shift(n, k - 1);
    }
  }

  lemma ShiftAbs(n: int, k: nat)
    ensures Abs(Shift(n, k)) == Shift(Abs(n), k)
    ensures Shift(n, k) < 0 <==> n < 0
  {
    ShiftLinear(n, 0, k);
    ShiftNat(Abs(n), k);
    ShiftOrder(n, 0, k);
    ShiftLinear(0, 0, k);
  }

  lemma ExactSumAt(a: Dec, b: Dec, e: int)
    requires e <= a.exp && e <= b.exp
    ensures At(ExactSum(a, b), e) == At(a, e) + At(b, e)
  {
    var m := Min(a.exp, b.exp);
    AtLower(a, m, e);
    AtLower(b, m, e);
    AtLower(ExactSum(a, b), m, e);
    ShiftLinear(At(a, m), At(b, m), m - e);
  }

  /** A value that some k * 10^m of at most prec digits denotes survives rounding, however it is written. */
  lemma RoundedExact(d: Dec, k: int, m: int, prec: nat)
    requires prec >= 1 && SameValue(d, Dec(k, m)) && Digits(Abs(k)) <= prec
    ensures SameValue(Rounded(d, prec), Dec(k, m))
  {
    if DigitCount(d) > prec {
      var drop := DigitCount(d) - prec;
      CompareAt(d, Dec(k, m), Min(d.exp, m));
      if d.exp >= m {
        ShiftAbs(d.coef, d.exp - m);
        if d.coef != 0 { DigitsShift(Abs(d.coef), d.exp - m); }
        assert false;
      }
      var zeros := m - d.exp;
      ShiftAbs(k, zeros);
      assert Abs(d.coef) == Shift(Abs(k), zeros);
      if k == 0 { ShiftLinear(0, 0, zeros); assert false; }
      DigitsShift(Abs(k), zeros);
      var kept := Shift(Abs(k), zeros - drop);
      ShiftShift(Abs(k), zeros - drop, drop);
      ShiftNat(Abs(k), zeros - drop);
      ShiftTimes(kept, 1, drop);
      ShiftPositive(1, drop);
      HalfEvenExact(kept, Shift(1, drop));
      var r := Rounded(d, prec);
      assert r == Dec(Sign(d.coef) * kept, d.exp + drop);
      ShiftLinear(Shift(Abs(k), zeros - drop), 0, 0);
      CompareAt(r, Dec(k, m), d.exp + drop);
      ShiftAbs(k, zeros - drop);
    }
  }

  lemma HalfEvenTen(n: nat, d: nat)
    requires d > 0
    ensures HalfEven(10 * n, 10 * d) == HalfEven(n, d)
  {
    var q, r := n / d, n % d;
    assert 10 * n == q * (10 * d) + 10 * r;
    QuotientUnique(10 * n, 10 * d, q, 10 * r);
  }

  lemma {:induction false} HalfEvenScale(n: nat, d: nat, j: nat)
    requires d > 0
    ensures Shift(n, j) >= 0 && Shift(d, j) > 0
    ensures HalfEven(Shift(n, j), Shift(d, j)) == HalfEven(n, d)
  {
    if j > 0 {
      HalfEvenScale(n, d, j - 1);
      HalfEvenTen(Shift(n, j - 1), Shift(d, j - 1));
    }
  }

  lemma ShiftSwap(n: int, i: nat, j: nat)
    ensures Shift(Shift(n, i), j) == Shift(Shift(n, j), i)
  {
    ShiftShift(n, i, j);
    ShiftShift(n, j, i);
  }

  lemma RatioAtLeastCommon(n: nat, d: nat, j: nat, k: int)
    requires Shift(n, j) >= 0 && Shift(d, j) >= 0
    ensures RatioAtLeast(Shift(n, j), Shift(d, j), k) <==> RatioAtLeast(n, d, k)
  {
    if k >= 0 {
      ShiftSwap(d, j, k);
      ShiftOrder(n, Shift(d, k), j);
    } else {
      ShiftSwap(n, j, -k);
      ShiftOrder(Shift(n, -k), d, j);
    }
  }

  lemma GapOfShift(n: nat, d: nat, j: nat)
    requires n > 0 && d > 0 && Shift(n, j) > 0 && Shift(d, j) > 0
    ensures DigitGap(Shift(n, j), Shift(d, j)) == DigitGap(n, d)
  {
    DigitsShift(n, j);
    DigitsShift(d, j);
  }

  lemma ScaleForScaled(n: nat, d: nat, j: nat, prec: nat)
    requires n > 0 && d > 0 && Shift(n, j) > 0 && Shift(d, j) > 0
    ensures ScaleFor(Shift(n, j), Shift(d, j), prec) == ScaleFor(n, d, prec)
  {
    GapOfShift(n, d, j);
    RatioAtLeastCommon(n, d, j, DigitGap(n, d));
  }

  lemma ScaledTermsShift(n: nat, d: nat, j: nat, s: int)
    requires d > 0 && Shift(n, j) >= 0 && Shift(d, j) > 0
    ensures ScaledNum(Shift(n, j), s) == Shift(ScaledNum(n, s), j)
    ensures ScaledDen(Shift(d, j), s) == Shift(ScaledDen(d, s), j)
  {
    ShiftSwap(n, j, Max(s, 0));
    ShiftSwap(d, j, Max(-s, 0));
  }

  /** Rounding a ratio does not see a common factor of ten. */
  lemma RoundRatioScale(n: nat, d: nat, j: nat, prec: nat)
    requires n > 0 && d > 0 && prec >= 1 && Shift(n, j) > 0 && Shift(d, j) > 0
    ensures RoundRatio(Shift(n, j), Shift(d, j), prec) == RoundRatio(n, d, prec)
  {
    var s := ScaleFor(n, d, prec);
    ScaleForScaled(n, d, j, prec);
    ScaledTermsShift(n, d, j, s);
    HalfEvenScale(ScaledNum(n, s), ScaledDen(d, s), j);
  }

  lemma QuotientOfRewritten(a: Dec, a': Dec, b: Dec, prec: nat)
    requires a.coef > 0 && a'.coef > 0 && b.coef > 0 && prec >= 1
    requires a'.exp <= a.exp && a'.coef == Shift(a.coef, a.exp - a'.exp)
    ensures Quotient(a', b, prec) == Quotient(a, b, prec)
  {
    var j := Max(b.exp - a'.exp, 0) - Max(b.exp - a.exp, 0);
    ShiftShift(a.coef, a.exp - a'.exp, Max(a'.exp - b.exp, 0));
    ShiftShift(a.coef, Max(a.exp - b.exp, 0), j);
    ShiftShift(b.coef, Max(b.exp - a.exp, 0), j);
    ShiftPositive(a.coef, Max(a.exp - b.exp, 0));
    ShiftPositive(b.coef, Max(b.exp - a.exp, 0));
    ShiftPositive(RatioNum(a, b), j);
    ShiftPositive(RatioDen(a, b), j);
    RoundRatioScale(RatioNum(a, b), RatioDen(a, b), j, prec);
  }

  /** The quotient depends on the value of the dividend, not on its trailing zeros. */
  lemma QuotientOfSameValue(a: Dec, a': Dec, b: Dec, prec: nat)
    requires a.coef > 0 && a'.coef > 0 && b.coef > 0 && prec >= 1 && SameValue(a, a')
    ensures Quotient(a, b, prec) == Quotient(a', b, prec)
  {
    if a'.exp <= a.exp {
      QuotientOfRewritten(a, a', b, prec);
    } else {
      QuotientOfRewritten(a', a, b, prec);
    }
  }

  // ---------------------------------------------------------------- the running sum

  function MaxDigits(values: seq<Dec>): (k: nat)
    ensures forall v :: v in values ==> DigitCount(v) <= k
  {
    if values == [] then 0 else Max(MaxDigits(values[..|values| - 1]), DigitCount(values[|values| - 1]))
  }

  /** The context precision chosen for a summary. */
  function SummaryPrecision(values: seq<Dec>): nat {
    Max(28, MaxDigits(values) + Digits(|values|) + 4)
  }

  /** Adding from the left, every partial sum rounded to the context. */
  function RoundedSum(values: seq<Dec>, prec: nat): Dec
    requires prec >= 1
  {
    if values == [] then Dec(0, 0)
    else Rounded(ExactSum(RoundedSum(values[..|values| - 1], prec), values[|values| - 1]), prec)
  }

  /** The true sum, counted in units of 10^m. */
  ghost function SumAt(values: seq<Dec>, m: int): int
    requires forall v :: v in values ==> v.exp >= m
  {
    if values == [] then 0 else SumAt(values[..|values| - 1], m) + At(values[|values| - 1], m)
  }

  function Divided(total: Dec, count: nat, prec: nat): Dec
    requires count > 0 && prec >= 1
  {
    if total.coef == 0 then Dec(0, 0)
    else
      var q := Quotient(Dec(Abs(total.coef), total.exp), Dec(count, 0), prec);
      Dec(Sign(total.coef) * q.coef, q.exp)
  }

  function DecimalMean(values: seq<Dec>): Dec
    requires values != []
  {
    Divided(RoundedSum(values, SummaryPrecision(values)), |values|, SummaryPrecision(values))
  }

  method ComputeMean(values: seq<Dec>) returns (mean: Dec)
    requires values != []
    ensures mean == DecimalMean(values)
  {
    var prec := SummaryPrecision(values);
    var total := Dec(0, 0);
    for i := 0 to |values|
      invariant total == RoundedSum(values[..i], prec)
    {
      assert values[..i + 1][..i] == values[..i];
      total := Rounded(ExactSum(total, values[i]), prec);
    }
    assert values[..|values|] == values;
    mean := Divided(total, |values|, prec);
  }

  // ---------------------------------------------------------------- when no partial sum is rounded

  /** All exponents lie within spread of the least one. */
  ghost predicate Spread(values: seq<Dec>, m: int, spread: nat) {
    forall v :: v in values ==> m <= v.exp <= m + spread
  }

  lemma UnitsBound(v: Dec, m: int, digits: nat, spread: nat)
    requires m <= v.exp <= m + spread && DigitCount(v) <= digits
    ensures Abs(At(v, m)) < Shift(1, digits + spread)
  {
    DigitsBound(Abs(v.coef));
    ShiftAbs(v.coef, v.exp - m);
    ShiftOrder(Abs(v.coef), Shift(1, DigitCount(v)), v.exp - m);
    ShiftShift(1, DigitCount(v), v.exp - m);
    ShiftGrows(1, DigitCount(v) + (v.exp - m), digits + spread);
  }

  lemma {:induction false} SumBound(values: seq<Dec>, m: int, bound: nat)
    requires forall v :: v in values ==> v.exp >= m && Abs(At(v, m)) <= bound
    ensures Abs(SumAt(values, m)) <= |values| * bound
  {
    if values != [] {
      var n := |values| - 1;
      SumBound(values[..n], m, bound);
      assert |values| * bound == n * bound + bound;
    }
  }

  /** i summands below 10^w, i <= n, have a sum of at most w + len(str(n)) digits. */
  lemma SumDigits(values: seq<Dec>, m: int, w: nat, n: nat)
    requires |values| <= n
    requires forall v :: v in values ==> v.exp >= m && Abs(At(v, m)) < Shift(1, w)
    ensures Digits(Abs(SumAt(values, m))) <= w + Digits(n)
  {
    var p := Shift(1, w);
    ShiftPositive(1, w);
    SumBound(values, m, p - 1);
    DigitsBound(n);
    CountBound(|values|, n, Shift(1, Digits(n)), p, Abs(SumAt(values, m)));
    ShiftTimes(Shift(1, Digits(n)), 1, w);
    ShiftShift(1, Digits(n), w);
    DigitsAtMost(Abs(SumAt(values, m)), w + Digits(n));
  }

  lemma CountBound(count: nat, n: nat, limit: nat, p: nat, s: nat)
    requires count <= n < limit && p >= 1 && s <= count * (p - 1)
    ensures s < limit * p
  {
    assert n * (p - 1) - count * (p - 1) == (n - count) * (p - 1);
    assert (n - count) * (p - 1) >= 0;
    MulBounds(n, limit, p - 1, p);
  }

  /** If the widest value, the exponent spread and the count fit the context, every partial sum is exact. */
  lemma {:induction false} RoundedSumExact(values: seq<Dec>, m: int, w: nat, n: nat, prec: nat)
    requires |values| <= n && w + Digits(n) <= prec && prec >= 1
    requires forall v :: v in values ==> v.exp >= m && Abs(At(v, m)) < Shift(1, w)
    ensures SameValue(RoundedSum(values, prec), Dec(SumAt(values, m), m))
  {
    if values == [] {
      ShiftLinear(0, 0, Abs(m));
    } else {
      var rest, last := values[..|values| - 1], values[|values| - 1];
      RoundedSumExact(rest, m, w, n, prec);
      var before, exact := RoundedSum(rest, prec), Dec(SumAt(rest, m), m);
      var e := Min(Min(before.exp, last.exp), m);
      CompareAt(before, exact, e);
      ExactSumAt(before, last, e);
      ExactSumAt(exact, last, e);
      var sum := ExactSum(before, last);
      CompareAt(sum, Dec(SumAt(values, m), m), e);
      AtLower(last, m, e);
      ShiftLinear(SumAt(rest, m), At(last, m), m - e);
      SumDigits(values, m, w, n);
      RoundedExact(sum, SumAt(values, m), m, prec);
    }
  }

  lemma {:induction false} SumAtAppend(a: seq<Dec>, b: seq<Dec>, m: int)
    requires forall v :: v in a + b ==> v.exp >= m
    requires (forall v :: v in a ==> v.exp >= m) && (forall v :: v in b ==> v.exp >= m)
    ensures SumAt(a + b, m) == SumAt(a, m) + SumAt(b, m)
  {
    if b == [] {
      assert a + b == a;
    } else {
      var n := |b| - 1;
      assert (a + b)[..|a + b| - 1] == a + b[..n];
      SumAtAppend(a, b[..n], m);
    }
  }

  lemma {:induction false} SumAtOfPermutation(a: seq<Dec>, b: seq<Dec>, m: int)
    requires multiset(a) == multiset(b)
    requires (forall v :: v in a ==> v.exp >= m) && (forall v :: v in b ==> v.exp >= m)
    ensures SumAt(a, m) == SumAt(b, m)
  {
    SameMembers(a, b);
    if a != [] {
      var last := a[|a| - 1];
      assert last in b;
      var k :| 0 <= k < |b| && b[k] == last;
      RemoveSame(a, b, k);
      var rest := b[..k] + b[k + 1..];
      SumAtOfPermutation(a[..|a| - 1], rest, m);
      SumAtAppend(b[..k], b[k + 1..], m);
      SumAtAppend(b[..k], b[k..], m);
      SumAtAppend([b[k]], b[k + 1..], m);
      assert b == b[..k] + b[k..] && b[k..] == [b[k]] + b[k + 1..];
      assert SumAt([b[k]], m) == At(b[k], m);
    }
  }

  lemma RemoveSame<T>(a: seq<T>, b: seq<T>, k: nat)
    requires a != [] && k < |b| && b[k] == a[|a| - 1] && multiset(a) == multiset(b)
    ensures multiset(a[..|a| - 1]) == multiset(b[..k] + b[k + 1..])
    ensures forall v :: v in b[..k] + b[k + 1..] ==> v in b
  {
    assert a == a[..|a| - 1] + [a[|a| - 1]];
    assert b == b[..k] + [b[k]] + b[k + 1..];
    assert multiset(a[..|a| - 1]) == multiset(a) - multiset{b[k]};
    assert multiset(b[..k] + b[k + 1..]) == multiset(b) - multiset{b[k]};
  }

  lemma DividedOfSameValue(t: Dec, t': Dec, count: nat, prec: nat)
    requires count > 0 && prec >= 1 && SameValue(t, t')
    ensures Divided(t, count, prec) == Divided(t', count, prec)
  {
    var e := Min(t.exp, t'.exp);
    ShiftAbs(t.coef, t.exp - e);
    ShiftAbs(t'.coef, t'.exp - e);
    ShiftOrder(t.coef, 0, t.exp - e);
    ShiftOrder(t'.coef, 0, t'.exp - e);
    ShiftLinear(0, 0, t.exp - e);
    ShiftLinear(0, 0, t'.exp - e);
    if t.coef != 0 {
      QuotientOfSameValue(Dec(Abs(t.coef), t.exp), Dec(Abs(t'.coef), t'.exp), Dec(count, 0), prec);
    }
  }

  /** The widest value, the spread of exponents and the run count together fit the chosen precision. */
  ghost predicate FitsContext(values: seq<Dec>, m: int, spread: nat) {
    Spread(values, m, spread) && MaxDigits(values) + spread + Digits(|values|) <= SummaryPrecision(values)
  }

  /** Exponents that differ by at most four always fit. */
  lemma FourFits(values: seq<Dec>, m: int)
    requires Spread(values, m, 4)
    ensures FitsContext(values, m, 4)
  {
  }

  /** Then the loop's sum is the true sum. */
  lemma SumIsExact(values: seq<Dec>, m: int, spread: nat, prec: nat)
    requires FitsContext(values, m, spread) && prec == SummaryPrecision(values)
    ensures SameValue(RoundedSum(values, prec), Dec(SumAt(values, m), m))
  {
    var w := MaxDigits(values) + spread;
    forall v | v in values ensures v.exp >= m && Abs(At(v, m)) < Shift(1, w) {
      UnitsBound(v, m, MaxDigits(values), spread);
    }
    RoundedSumExact(values, m, w, |values|, prec);
  }

  lemma {:induction false} MaxDigitsReached(values: seq<Dec>)
    ensures values != [] ==> exists v :: v in values && DigitCount(v) == MaxDigits(values)
  {
    if values != [] {
      var n := |values| - 1;
      assert values[n] in values;
      if n == 0 {
        assert MaxDigits(values[..n]) == 0;
      } else {
        MaxDigitsReached(values[..n]);
        var v :| v in values[..n] && DigitCount(v) == MaxDigits(values[..n]);
        assert v in values;
      }
    }
  }

  lemma MaxDigitsOfPermutation(a: seq<Dec>, b: seq<Dec>)
    requires multiset(a) == multiset(b)
    ensures MaxDigits(a) == MaxDigits(b) && SummaryPrecision(a) == SummaryPrecision(b)
  {
    SameMembers(a, b);
    MaxDigitsReached(a);
    MaxDigitsReached(b);
  }

  /** The decimal mean then does not depend on the order of the runs. */
  lemma MeanIgnoresOrder(a: seq<Dec>, b: seq<Dec>, m: int, spread: nat)
    requires a != [] && b != [] && multiset(a) == multiset(b) && FitsContext(a, m, spread)
    ensures DecimalMean(a) == DecimalMean(b)
  {
    SameMembers(a, b);
    MaxDigitsOfPermutation(a, b);
    SumIsExact(a, m, spread, SummaryPrecision(a));
    SumIsExact(b, m, spread, SummaryPrecision(b));
    SumAtOfPermutation(a, b, m);
    var prec := SummaryPrecision(a);
    var exact := Dec(SumAt(a, m), m);
    SameValueTransitive(RoundedSum(a, prec), exact, RoundedSum(b, prec));
    DividedOfSameValue(RoundedSum(a, prec), RoundedSum(b, prec), |a|, prec);
  }

  // ---------------------------------------------------------------- the mean is the nearest one

  /** count * r differs from total by at most count halves of a unit in the last place of r. */
  ghost predicate NearMean(r: Dec, total: Dec, count: nat) {
    var e := Min(r.exp, total.exp);
    var sum, kept, unit := At(total, e), At(r, e) * count, Shift(count, r.exp - e);
    2 * kept <= 2 * sum + unit && 2 * sum <= 2 * kept + unit
  }

  lemma ScaledTerms(total: Dec, count: nat, s: int, k: nat)
    requires total.coef > 0 && count > 0
    requires k == Max(-s, 0) + Max(-total.exp, 0) - (-s - Min(-s, total.exp))
    ensures RatioNum(total, Dec(count, 0)) > 0 && RatioDen(total, Dec(count, 0)) > 0
    ensures ScaledNum(RatioNum(total, Dec(count, 0)), s) == Shift(At(total, Min(-s, total.exp)), k)
    ensures ScaledDen(RatioDen(total, Dec(count, 0)), s) == Shift(Shift(count, -s - Min(-s, total.exp)), k)
  {
    var e := Min(-s, total.exp);
    ShiftPositive(total.coef, Max(total.exp, 0));
    ShiftPositive(count, Max(-total.exp, 0));
    ShiftShift(total.coef, Max(total.exp, 0), Max(s, 0));
    ShiftShift(total.coef, total.exp - e, k);
    ShiftShift(count, Max(-total.exp, 0), Max(-s, 0));
    ShiftShift(count, -s - e, k);
  }

  lemma {:induction false} HalfUnitUnshifted(a: int, b: int, unit: int, k: nat)
    requires 2 * Shift(a, k) <= 2 * Shift(b, k) + Shift(unit, k)
    ensures 2 * a <= 2 * b + unit
  {
    if k > 0 {
      HalfUnitUnshifted(a, b, unit, k - 1);
    }
  }

  lemma NearUnshifted(h: nat, sum: int, unit: int, k: nat)
    requires 2 * (h * Shift(unit, k)) <= 2 * Shift(sum, k) + Shift(unit, k)
    requires 2 * Shift(sum, k) <= 2 * (h * Shift(unit, k)) + Shift(unit, k)
    ensures 2 * (h * unit) <= 2 * sum + unit && 2 * sum <= 2 * (h * unit) + unit
  {
    ShiftTimes(h, unit, k);
    HalfUnitUnshifted(h * unit, sum, unit, k);
    HalfUnitUnshifted(sum, h * unit, unit, k);
  }

  lemma PositiveDividedNear(total: Dec, count: nat, prec: nat)
    requires total.coef > 0 && count > 0 && prec >= 1
    ensures var q := Quotient(total, Dec(count, 0), prec);
            q.coef >= Shift(1, prec - 1) > 0 && NearMean(q, total, count)
  {
    var n, d := RatioNum(total, Dec(count, 0)), RatioDen(total, Dec(count, 0));
    ShiftPositive(total.coef, Max(total.exp, 0));
    ShiftPositive(count, Max(-total.exp, 0));
    var s := ScaleFor(n, d, prec);
    QuotientAtScale(total, count, s, HalfEven(ScaledNum(n, s), ScaledDen(d, s)));
    ScaleFits(n, d, prec);
    FullPrecision(ScaledNum(n, s), ScaledDen(d, s), prec);
  }

  lemma FullPrecision(n: nat, d: nat, prec: nat)
    requires d > 0 && prec >= 1 && n >= Shift(d, prec - 1)
    ensures HalfEven(n, d) >= Shift(1, prec - 1) > 0
  {
    ShiftPositive(1, prec - 1);
    HalfEvenShift(d, 1, prec - 1);
    HalfEvenMonotone(Shift(d, prec - 1), n, d);
  }

  lemma QuotientAtScale(total: Dec, count: nat, s: int, h: nat)
    requires total.coef > 0 && count > 0
    requires RatioNum(total, Dec(count, 0)) > 0 && RatioDen(total, Dec(count, 0)) > 0
    requires h == HalfEven(ScaledNum(RatioNum(total, Dec(count, 0)), s), ScaledDen(RatioDen(total, Dec(count, 0)), s))
    ensures NearMean(Dec(h, -s), total, count)
  {
    var e := Min(-s, total.exp);
    var k := Max(-s, 0) + Max(-total.exp, 0) - (-s - e);
    ScaledTerms(total, count, s, k);
    var sum, unit := At(total, e), Shift(count, -s - e);
    HalfEvenNear(ScaledNum(RatioNum(total, Dec(count, 0)), s), ScaledDen(RatioDen(total, Dec(count, 0)), s));
    NearUnshifted(h, sum, unit, k);
    ShiftTimes(h, count, -s - e);
    ShiftTimes(count, h, -s - e);
    Commutes(h, count);
    Commutes(count, Shift(h, -s - e));
  }

  lemma NearOfOpposite(r: Dec, total: Dec, count: nat)
    requires NearMean(r, total, count)
    ensures NearMean(Negated(r), Negated(total), count)
  {
    var e := Min(r.exp, total.exp);
    ShiftLinear(r.coef, 0, r.exp - e);
    ShiftLinear(total.coef, 0, total.exp - e);
    assert At(Negated(r), e) * count == -(At(r, e) * count);
  }

  lemma DividedNear(total: Dec, count: nat, prec: nat)
    requires count > 0 && prec >= 1
    ensures NearMean(Divided(total, count, prec), total, count)
    ensures total.coef == 0 ==> Divided(total, count, prec).coef == 0
    ensures total.coef > 0 ==> Divided(total, count, prec).coef >= Shift(1, prec - 1) > 0
    ensures total.coef < 0 ==> -Divided(total, count, prec).coef >= Shift(1, prec - 1) > 0
  {
    if total.coef == 0 {
      var e := Min(0, total.exp);
      ShiftLinear(0, 0, total.exp - e);
      ShiftLinear(0, 0, 0 - e);
      ShiftNat(count, 0 - e);
    } else if total.coef > 0 {
      PositiveDividedNear(total, count, prec);
      assert Dec(Abs(total.coef), total.exp) == total;
    } else {
      var opposite := Negated(total);
      PositiveDividedNear(opposite, count, prec);
      NearOfOpposite(Quotient(opposite, Dec(count, 0), prec), opposite, count);
    }
  }

  lemma PrecisionAtLeast(values: seq<Dec>)
    ensures SummaryPrecision(values) >= 28
  {
  }

  /** While the values fit the context, the mean is the true mean to at least the chosen number of digits: it is off
      by no more than half a unit in its last place, and it is zero only when the true sum is. */
  lemma MeanIsNearest(values: seq<Dec>, m: int, spread: nat)
    requires values != [] && FitsContext(values, m, spread)
    ensures var mean, sum := DecimalMean(values), SumAt(values, m);
            && NearMean(mean, Dec(sum, m), |values|)
            && (sum == 0 ==> mean.coef == 0)
            && (sum > 0 ==> mean.coef >= Shift(1, SummaryPrecision(values) - 1) > 0)
            && (sum < 0 ==> -mean.coef >= Shift(1, SummaryPrecision(values) - 1) > 0)
  {
    hide NearMean, Divided, RoundedSum, SumAt, SummaryPrecision, SameValue;
    var prec, total := SummaryPrecision(values), Dec(SumAt(values, m), m);
    PrecisionAtLeast(values);
    SumIsExact(values, m, spread, prec);
    DividedOfSameValue(RoundedSum(values, prec), total, |values|, prec);
    DividedNear(total, |values|, prec);
  }
}
