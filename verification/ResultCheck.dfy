/** Raw-run checks: summaries, seeds, claimed means and the improvement threshold. */
module ResultCheck {
  import opened Common
  import opened Decimals
  import opened DecimalMeans
  import opened Findings

  datatype Direction = Higher | Lower

  datatype LoadedResults = LoadedResults(values: seq<Dec>, seeds: seq<Option<int>>, claimed: Option<Dec>)

  /** What binary floats contribute: the decimal spelling of the double nearest to a decimal, if it is
      finite, and whether the float statistics of a run list are finite. */
  datatype Floats = Floats(spelling: Dec -> Option<Dec>, statistics: seq<Dec> -> bool)

  // ---------------------------------------------------------------- summaries

  /** The public mean: the decimal mean passed through a double and spelled again. */
  function SummaryMean(values: seq<Dec>, floats: Floats): Option<Dec> {
    if values == [] || !floats.statistics(values) then None
    else floats.spelling(DecimalMean(values))
  }

  method SummarizeRuns(values: seq<Dec>, floats: Floats) returns (mean: Option<Dec>)
    ensures mean == SummaryMean(values, floats)
  {
    if values == [] || !floats.statistics(values) {
      return None;
    }
    var decimalMean := ComputeMean(values);
    return floats.spelling(decimalMean);
  }

  /** While the values fit the context, the public mean does not depend on the order of the runs. */
  lemma SummaryIgnoresOrder(a: seq<Dec>, b: seq<Dec>, floats: Floats, m: int, spread: nat)
    requires multiset(a) == multiset(b) && FitsContext(a, m, spread) && floats.statistics(a) == floats.statistics(b)
    ensures SummaryMean(a, floats) == SummaryMean(b, floats)
  {
    SameMembers(a, b);
    if a != [] {
      MeanIgnoresOrder(a, b, m, spread);
    }
  }

  // ---------------------------------------------------------------- the threshold

  /** The directional difference under the default 28-digit context. */
  function Improvement(baseline: Dec, candidate: Dec, direction: Direction): Dec {
    Rounded(ExactImprovement(baseline, candidate, direction), CONTEXT_DIGITS)
  }

  function ExactImprovement(baseline: Dec, candidate: Dec, direction: Direction): Dec {
    if direction == Higher then ExactSum(candidate, Negated(baseline)) else ExactSum(baseline, Negated(candidate))
  }

  predicate ClaimMet(baseline: Dec, candidate: Dec, direction: Direction, threshold: Dec) {
    !Below(Improvement(baseline, candidate, direction), threshold)
  }

  /** Rounding never carries a value across a number that itself fits the context. */
  lemma RoundedKeepsSide(d: Dec, t: Dec, prec: nat)
    requires prec >= 1 && t.coef >= 0 && DigitCount(t) <= prec
    ensures !Below(d, t) ==> !Below(Rounded(d, prec), t)
    ensures Below(d, t) ==> !Below(t, Rounded(d, prec))
  {
    if DigitCount(d) > prec {
      if d.coef < 0 {
        NegativeStaysBelow(d, t, prec);
      } else {
        var drop := DigitCount(d) - prec;
        if t.exp >= d.exp + drop {
          CoarseBound(d, t, prec, drop);
        } else {
          FineBound(d, t, prec, drop);
        }
      }
    } else {
      BelowTrichotomy(d, t);
    }
  }

  lemma NegativeStaysBelow(d: Dec, t: Dec, prec: nat)
    requires prec >= 1 && t.coef >= 0 && DigitCount(d) > prec && d.coef < 0
    ensures Below(d, t) && !Below(t, Rounded(d, prec))
  {
    var r := Rounded(d, prec);
    var e, f := Min(d.exp, t.exp), Min(r.exp, t.exp);
    ShiftAbs(d.coef, d.exp - e);
    ShiftAbs(t.coef, t.exp - e);
    ShiftAbs(t.coef, t.exp - f);
    ShiftOrder(0, r.coef, r.exp - f);
    ShiftLinear(0, 0, r.exp - f);
    ShiftNat(t.coef, t.exp - e);
    ShiftNat(t.coef, t.exp - f);
    CompareAt(d, t, e);
    CompareAt(t, r, f);
  }

  lemma CoarseBound(d: Dec, t: Dec, prec: nat, drop: nat)
    requires prec >= 1 && t.coef >= 0 && d.coef >= 0 && DigitCount(d) == prec + drop && drop > 0
    requires t.exp >= d.exp + drop
    ensures !Below(d, t) ==> !Below(Rounded(d, prec), t)
    ensures Below(d, t) ==> !Below(t, Rounded(d, prec))
  {
    var e := d.exp + drop;
    var units := At(t, e);
    ShiftNat(t.coef, t.exp - e);
    AtLower(t, e, d.exp);
    CompareAt(d, t, d.exp);
    CompareAt(Rounded(d, prec), t, e);
    CompareAt(t, Rounded(d, prec), e);
    ShiftPositive(1, drop);
    ShiftTimes(units, 1, drop);
    ShiftNat(units, drop);
    HalfEvenExact(units, Shift(1, drop));
    if d.coef >= Shift(units, drop) {
      HalfEvenMonotone(Shift(units, drop), d.coef, Shift(1, drop));
    } else {
      HalfEvenMonotone(d.coef, Shift(units, drop), Shift(1, drop));
    }
  }

  /** A number of at most prec digits whose last place is below 10^top is less than 10^(prec - 1 + top). */
  lemma FineIsSmall(t: Dec, prec: nat, top: int, e: int)
    requires prec >= 1 && t.coef >= 0 && t.exp < top && DigitCount(t) <= prec && e <= t.exp
    ensures At(t, e) < Shift(1, prec - 1 + (top - e))
  {
    hide Digits;
    DigitsBound(t.coef);
    ShiftGrows(1, DigitCount(t), prec);
    ShiftOrder(t.coef, Shift(1, prec), t.exp - e);
    ShiftShift(1, prec, t.exp - e);
    ShiftGrows(1, prec + (t.exp - e), prec - 1 + (top - e));
  }

  lemma LongIsLarge(d: Dec, prec: nat, drop: nat, e: int)
    requires prec >= 1 && d.coef >= 0 && DigitCount(d) == prec + drop && drop > 0 && e <= d.exp
    ensures At(d, e) >= Shift(1, prec - 1 + (d.exp + drop - e))
  {
    DigitsBound(d.coef);
    ShiftOrder(d.coef, Shift(1, prec + drop - 1), d.exp - e);
    ShiftShift(1, prec + drop - 1, d.exp - e);
  }

  lemma RoundedIsLarge(d: Dec, prec: nat, drop: nat, e: int)
    requires prec >= 1 && d.coef >= 0 && DigitCount(d) == prec + drop && drop > 0 && e <= d.exp
    ensures var r := Rounded(d, prec);
            r.exp == d.exp + drop && At(r, e) >= Shift(1, prec - 1 + (d.exp + drop - e))
  {
    hide Digits, HalfEven;
    LeadingDigits(d.coef, prec, drop);
    var r := Rounded(d, prec);
    ShiftOrder(r.coef, Shift(1, prec - 1), r.exp - e);
    ShiftShift(1, prec - 1, r.exp - e);
  }

  lemma FineBound(d: Dec, t: Dec, prec: nat, drop: nat)
    requires prec >= 1 && t.coef >= 0 && d.coef >= 0 && DigitCount(d) == prec + drop && drop > 0
    requires t.exp < d.exp + drop && DigitCount(t) <= prec
    ensures Below(t, d) && Below(t, Rounded(d, prec))
  {
    hide Rounded, DigitCount, Below;
    var e := Min(t.exp, d.exp);
    FineIsSmall(t, prec, d.exp + drop, e);
    LongIsLarge(d, prec, drop, e);
    RoundedIsLarge(d, prec, drop, e);
    CompareAt(t, d, e);
    CompareAt(t, Rounded(d, prec), e);
  }

  lemma LeadingDigits(c: nat, prec: nat, drop: nat)
    requires prec >= 1 && Digits(c) == prec + drop && drop > 0
    ensures Shift(1, drop) > 0 && HalfEven(c, Shift(1, drop)) >= Shift(1, prec - 1)
  {
    DigitsBound(c);
    var p := Shift(1, prec - 1);
    ShiftPositive(1, drop);
    ShiftPositive(1, prec - 1);
    ShiftShift(1, prec - 1, drop);
    ShiftTimes(p, 1, drop);
    HalfEvenExact(p, Shift(1, drop));
    HalfEvenMonotone(p * Shift(1, drop), c, Shift(1, drop));
  }

  /** d misses t by at most half a unit of its last kept place; exactly half only below an even multiple. */
  predicate RoundsUpTo(d: Dec, t: Dec, prec: nat) {
    var drop := DigitCount(d) - prec;
    && drop > 0 && d.coef > 0 && t.exp >= d.exp + drop
    && var gap, unit := At(t, d.exp) - d.coef, Shift(1, drop);
       0 < gap && (2 * gap < unit || (2 * gap == unit && At(t, d.exp + drop) % 2 == 0))
  }

  lemma HalfEvenReaches(units: nat, gap: nat, unit: nat, n: nat)
    requires unit > 0 && gap > 0 && n == units * unit - gap
    ensures HalfEven(n, unit) >= units <==> 2 * gap < unit || (2 * gap == unit && units % 2 == 0)
  {
    assert units == 0 ==> units * unit == 0;
    assert (units - 1) * unit == units * unit - unit;
    if gap < unit {
      QuotientUnique(n, unit, units - 1, unit - gap);
    } else {
      HalfEvenMonotone(n, (units - 1) * unit, unit);
      HalfEvenExact(units - 1, unit);
    }
  }

  /** Rounding carries a positive value from below t to t exactly when it rounds up to t. */
  lemma CoarseReach(d: Dec, t: Dec, prec: nat, drop: nat)
    requires prec >= 1 && t.coef >= 0 && d.coef > 0 && DigitCount(d) == prec + drop && drop > 0
    requires t.exp >= d.exp + drop
    ensures Below(d, t) && !Below(Rounded(d, prec), t) <==> RoundsUpTo(d, t, prec)
  {
    var e, unit := d.exp + drop, Shift(1, drop);
    var units := At(t, e);
    ShiftNat(t.coef, t.exp - e);
    AtLower(t, e, d.exp);
    CompareAt(d, t, d.exp);
    CompareAt(Rounded(d, prec), t, e);
    ShiftPositive(1, drop);
    ShiftTimes(units, 1, drop);
    if At(t, d.exp) > d.coef {
      HalfEvenReaches(units, At(t, d.exp) - d.coef, unit, d.coef);
    }
  }

  lemma NegativeNeverReaches(d: Dec, t: Dec, prec: nat)
    requires prec >= 1 && t.coef >= 0 && DigitCount(d) > prec && d.coef < 0
    ensures Below(Rounded(d, prec), t)
  {
    var drop := DigitCount(d) - prec;
    LeadingDigits(Abs(d.coef), prec, drop);
    ShiftPositive(1, prec - 1);
    var r := Rounded(d, prec);
    var f := Min(r.exp, t.exp);
    ShiftOrder(r.coef, 0, r.exp - f);
    ShiftLinear(0, 0, r.exp - f);
    ShiftNat(t.coef, t.exp - f);
  }

  /** A value below t is taken for at least t exactly when it rounds up to t. */
  lemma RoundedReaches(d: Dec, t: Dec, prec: nat)
    requires prec >= 1 && t.coef >= 0 && DigitCount(t) <= prec
    ensures Below(d, t) && !Below(Rounded(d, prec), t) <==> RoundsUpTo(d, t, prec)
  {
    var drop := DigitCount(d) - prec;
    if drop > 0 {
      if d.coef < 0 {
        NegativeNeverReaches(d, t, prec);
      } else if t.exp >= d.exp + drop {
        CoarseReach(d, t, prec, drop);
      } else {
        FineBound(d, t, prec, drop);
        BelowTrichotomy(d, t);
      }
    }
  }

  /** The claim is granted if and only if the true improvement reaches the threshold, or misses it by no more than
      half a unit of the 28th digit and rounds up to it: a condition on the two means and the threshold alone. */
  lemma ThresholdRule(baseline: Dec, candidate: Dec, direction: Direction, threshold: Dec)
    requires threshold.coef >= 0 && DigitCount(threshold) <= CONTEXT_DIGITS
    ensures var exact := ExactImprovement(baseline, candidate, direction);
            && (ClaimMet(baseline, candidate, direction, threshold) <==>
                 !Below(exact, threshold) || RoundsUpTo(exact, threshold, CONTEXT_DIGITS))
            && (RoundsUpTo(exact, threshold, CONTEXT_DIGITS) ==> Below(exact, threshold))
  {
    var exact := ExactImprovement(baseline, candidate, direction);
    RoundedKeepsSide(exact, threshold, CONTEXT_DIGITS);
    RoundedReaches(exact, threshold, CONTEXT_DIGITS);
  }

  /** A difference that fits 28 digits is compared exactly. */
  lemma ThresholdExact(baseline: Dec, candidate: Dec, direction: Direction, threshold: Dec)
    requires DigitCount(ExactImprovement(baseline, candidate, direction)) <= CONTEXT_DIGITS
    ensures ClaimMet(baseline, candidate, direction, threshold) <==>
            !Below(ExactImprovement(baseline, candidate, direction), threshold)
  {
  }

  /** The claim can be granted although the true improvement misses the threshold: whenever the means are
      29 or more orders of magnitude apart and the threshold equals the larger one. */
  lemma ThresholdCanBeGrantedByRounding(lo: int, hi: int)
    requires hi - lo >= 29
    ensures ClaimMet(Dec(1, lo), Dec(1, hi), Higher, Dec(1, hi))
    ensures Below(ExactImprovement(Dec(1, lo), Dec(1, hi), Higher), Dec(1, hi))
  {
    var gap := hi - lo;
    var exact := ExactImprovement(Dec(1, lo), Dec(1, hi), Higher);
    PowerLessOne(lo, hi);
    CompareAt(exact, Dec(1, hi), lo);
    NinesRoundUp(CONTEXT_DIGITS, gap - CONTEXT_DIGITS, lo);
    CompareAt(Rounded(exact, CONTEXT_DIGITS), Dec(1, hi), hi - CONTEXT_DIGITS);
  }

  lemma PowerLessOne(lo: int, hi: int)
    requires hi >= lo
    ensures ExactImprovement(Dec(1, lo), Dec(1, hi), Higher) == Dec(Shift(1, hi - lo) - 1, lo)
  {
    assert At(Negated(Dec(1, lo)), lo) == -1;
  }

  /** A run of nines longer than the context rounds up to the power of ten. */
  lemma NinesRoundUp(prec: nat, drop: nat, lo: int)
    requires prec >= 1 && drop >= 1
    ensures var r := Rounded(Dec(Shift(1, prec + drop) - 1, lo), prec);
            r.exp == lo + drop && r.coef >= Shift(1, prec)
  {
    var c := Nines(prec + drop);
    NinesNearest(c, prec, drop);
    LongIsRounded(c, lo, prec, drop);
  }

  lemma Nines(count: nat) returns (c: nat)
    requires count >= 1
    ensures c == Shift(1, count) - 1 && Digits(c) == count
  {
    ShiftGrows(1, count - 1, count);
    ShiftPositive(1, count - 1);
    c := Shift(1, count) - 1;
    DigitsExactly(c, count);
  }

  lemma NinesNearest(c: nat, prec: nat, drop: nat)
    requires c == Shift(1, prec + drop) - 1 && drop >= 1
    ensures Shift(1, drop) > 0 && HalfEven(c, Shift(1, drop)) >= Shift(1, prec)
  {
    var p := Shift(1, drop);
    ShiftGrows(1, 1, drop);
    ShiftShift(1, prec, drop);
    ShiftTimes(Shift(1, prec), 1, drop);
    HalfEvenNear(c, p);
    NearestAtLeast(HalfEven(c, p), p, Shift(1, prec), c);
  }

  lemma LongIsRounded(c: nat, exp: int, prec: nat, drop: nat)
    requires Digits(c) == prec + drop && prec >= 1 && drop >= 1
    ensures Shift(1, drop) > 0 && Rounded(Dec(c, exp), prec) == Dec(HalfEven(c, Shift(1, drop)), exp + drop)
  {
    ShiftPositive(1, drop);
  }

  lemma NearestAtLeast(h: int, p: nat, q: int, c: int)
    requires p >= 10 && c == q * p - 1 && 2 * c <= 2 * (h * p) + p
    ensures h >= q
  {
    assert (q - 1) * p == q * p - p;
    MulOrder(h, q - 1, p);
    MulOrder(q - 1, h, p);
  }

  lemma DigitsExactly(n: nat, k: nat)
    requires k >= 1 && n > 0 && Shift(1, k - 1) <= n < Shift(1, k)
    ensures Digits(n) == k
  {
    DigitsBound(n);
    DigitsAtMost(n, k);
    if Digits(n) < k {
      ShiftGrows(1, Digits(n), k - 1);
    }
  }

  // ---------------------------------------------------------------- when the order of runs matters

  lemma SumOfSameValue(a: Dec, a': Dec, b: Dec)
    requires SameValue(a, a')
    ensures SameValue(ExactSum(a, b), ExactSum(a', b))
  {
    var e := Min(Min(a.exp, a'.exp), b.exp);
    CompareAt(a, a', e);
    ExactSumAt(a, b, e);
    ExactSumAt(a', b, e);
    CompareAt(ExactSum(a, b), ExactSum(a', b), e);
  }

  /** Adding b to anything of value a rounds to a value that the context can hold. */
  lemma AddedExactly(a: Dec, a': Dec, b: Dec, k: int, m: int, prec: nat)
    requires prec >= 1 && SameValue(a, a') && SameValue(ExactSum(a', b), Dec(k, m)) && Digits(Abs(k)) <= prec
    ensures SameValue(Rounded(ExactSum(a, b), prec), Dec(k, m))
  {
    SumOfSameValue(a, a', b);
    SameValueTransitive(ExactSum(a, b), ExactSum(a', b), Dec(k, m));
    RoundedExact(ExactSum(a, b), k, m, prec);
  }

  lemma ZeroPlus(zero: int, d: Dec)
    ensures SameValue(ExactSum(Dec(0, zero), d), d)
  {
    var e := Min(zero, d.exp);
    ShiftLinear(0, 0, zero - e);
  }

  lemma CancelledIsZero(exp: int)
    ensures SameValue(ExactSum(Dec(1, exp), Dec(-1, exp)), Dec(0, exp))
  {
  }

  /** 10^gap + 1 in units of 10^low. */
  function PowerPlusOne(gap: nat, low: int): Dec { Dec(Shift(1, gap) + 1, low) }

  lemma PowerPlusOneDigits(gap: nat)
    ensures Shift(1, gap) > 0 && Digits(Shift(1, gap) + 1) == gap + 1
  {
    ShiftPositive(1, gap);
    DigitsExactly(Shift(1, gap) + 1, gap + 1);
  }

  lemma MinusPower(gap: nat, low: int)
    ensures SameValue(ExactSum(PowerPlusOne(gap, low), Dec(-1, low + gap)), Dec(1, low))
  {
    ShiftLinear(1, 0, gap);
  }

  lemma AbsorbedCoefficient(gap: nat, j: nat, prec: nat)
    requires gap >= prec >= 1
    ensures var drop := gap + j + 1 - prec;
            var c := Shift(Shift(1, gap) + 1, j);
            && c > 0 && Digits(c) == prec + drop && Shift(1, drop) > 0
            && HalfEven(c, Shift(1, drop)) == Shift(1, prec - 1)
  {
    var drop := gap + j + 1 - prec;
    var p := Shift(1, prec - 1);
    PowerPlusOneDigits(gap);
    DigitsShift(Shift(1, gap) + 1, j);
    ShiftLinear(Shift(1, gap), 1, j);
    ShiftShift(1, gap, j);
    ShiftShift(1, prec - 1, drop);
    ShiftTimes(p, 1, drop);
    ShiftPositive(1, j);
    ShiftPositive(1, prec - 1);
    ShiftGrows(1, j, drop);
    QuotientUnique(p * Shift(1, drop) + Shift(1, j), Shift(1, drop), p, Shift(1, j));
  }

  /** Beyond the context the smaller summand leaves no trace. */
  lemma RoundedAbsorbs(d: Dec, gap: nat, low: int, prec: nat)
    requires gap >= prec >= 1 && d.exp <= low && SameValue(d, PowerPlusOne(gap, low))
    ensures SameValue(Rounded(d, prec), Dec(1, low + gap))
  {
    var j := low - d.exp;
    var drop := gap + j + 1 - prec;
    CompareAt(d, PowerPlusOne(gap, low), d.exp);
    AbsorbedCoefficient(gap, j, prec);
    assert Rounded(d, prec) == Dec(Shift(1, prec - 1), d.exp + drop);
    CompareAt(Rounded(d, prec), Dec(1, low + gap), d.exp + drop);
  }

  lemma PositiveRounded(n: nat, d: nat, prec: nat)
    requires n > 0 && d > 0 && prec >= 1
    ensures RoundRatio(n, d, prec).coef > 0
  {
    var s := ScaleFor(n, d, prec);
    var w := ScaledDen(d, s);
    ScaleFits(n, d, prec);
    ShiftGrows(w, 0, prec - 1);
    HalfEvenMonotone(1 * w, ScaledNum(n, s), w);
    HalfEvenExact(1, w);
  }

  lemma PositiveMean(total: Dec, count: nat, prec: nat)
    requires total.coef > 0 && count > 0 && prec >= 1
    ensures Divided(total, count, prec).coef > 0
  {
    ShiftPositive(total.coef, Max(total.exp, 0));
    ShiftPositive(count, Max(0 - total.exp, 0));
    PositiveRounded(RatioNum(total, Dec(count, 0)), RatioDen(total, Dec(count, 0)), prec);
  }

  lemma RoundedSumOfThree(x: Dec, y: Dec, z: Dec, prec: nat)
    requires prec >= 1
    ensures RoundedSum([x, y, z], prec) ==
            Rounded(ExactSum(Rounded(ExactSum(Rounded(ExactSum(Dec(0, 0), x), prec), y), prec), z), prec)
  {
    var one, two, three := [x], [x, y], [x, y, z];
    assert one[..0] == [] && two[..1] == one && three[..2] == two;
    assert RoundedSum([], prec) == Dec(0, 0);
    assert RoundedSum(one, prec) == Rounded(ExactSum(Dec(0, 0), x), prec);
    assert RoundedSum(two, prec) == Rounded(ExactSum(RoundedSum(one, prec), y), prec);
  }

  /** Large, its negative, then small: the sum is the small one. */
  lemma CancelFirst(high: int, low: int, prec: nat)
    requires prec >= 1
    ensures SameValue(RoundedSum([Dec(1, high), Dec(-1, high), Dec(1, low)], prec), Dec(1, low))
  {
    var x, y, z := Dec(1, high), Dec(1, low), Dec(-1, high);
    RoundedSumOfThree(x, z, y, prec);
    var zero := Dec(0, 0);
    ZeroPlus(0, x);
    AddedExactly(zero, zero, x, 1, high, prec);
    var first := Rounded(ExactSum(zero, x), prec);
    CancelledIsZero(high);
    AddedExactly(first, x, z, 0, high, prec);
    var second := Rounded(ExactSum(first, z), prec);
    ZeroPlus(high, y);
    AddedExactly(second, Dec(0, high), y, 1, low, prec);
  }

  /** Large, small, then the negative: the small one survives exactly when both fit the context together. */
  lemma CancelLast(high: int, low: int, prec: nat)
    requires prec >= 1 && high >= low
    ensures var sum := RoundedSum([Dec(1, high), Dec(1, low), Dec(-1, high)], prec);
            SameValue(sum, if high - low < prec then Dec(1, low) else Dec(0, high))
  {
    var x, y, z, gap := Dec(1, high), Dec(1, low), Dec(-1, high), high - low;
    RoundedSumOfThree(x, y, z, prec);
    var zero := Dec(0, 0);
    ZeroPlus(0, x);
    AddedExactly(zero, zero, x, 1, high, prec);
    var first := Rounded(ExactSum(zero, x), prec);
    assert ExactSum(x, y) == PowerPlusOne(gap, low);
    PowerPlusOneDigits(gap);
    var second := Rounded(ExactSum(first, y), prec);
    if gap < prec {
      AddedExactly(first, x, y, Shift(1, gap) + 1, low, prec);
      MinusPower(gap, low);
      AddedExactly(second, PowerPlusOne(gap, low), z, 1, low, prec);
    } else {
      SumOfSameValue(first, x, y);
      RoundedAbsorbs(ExactSum(first, y), gap, low, prec);
      CancelledIsZero(high);
      AddedExactly(second, x, z, 0, high, prec);
    }
  }

  lemma ZeroValue(d: Dec, exp: int)
    requires SameValue(d, Dec(0, exp))
    ensures d.coef == 0
  {
    var e := Min(d.exp, exp);
    ShiftLinear(0, 0, exp - e);
    ShiftLinear(0, 0, d.exp - e);
    ShiftOrder(d.coef, 0, d.exp - e);
  }

  lemma PrecisionOfThree(x: Dec, y: Dec, z: Dec)
    requires DigitCount(x) == DigitCount(y) == DigitCount(z) == 1
    ensures SummaryPrecision([x, y, z]) == CONTEXT_DIGITS
  {
    var all := [x, y, z];
    assert all[..2] == [x, y] && [x, y][..1] == [x] && [x][..0] == [];
    assert MaxDigits([x]) == 1 && MaxDigits([x, y]) == 1 && MaxDigits(all) == 1;
  }

  /** Two orders of the runs 10^high, 10^low, -10^high have the same mean if and only if the powers are fewer than
      28 orders of magnitude apart. (A double spells a power of ten this way from 10^16 on and up to 10^-5.) */
  lemma OrderMattersBeyondContext(high: int, low: int)
    requires high >= low
    ensures var a, b := [Dec(1, high), Dec(1, low), Dec(-1, high)], [Dec(1, high), Dec(-1, high), Dec(1, low)];
            && multiset(a) == multiset(b)
            && (DecimalMean(a) == DecimalMean(b) <==> high - low < CONTEXT_DIGITS)
  {
    var x, y, z := Dec(1, high), Dec(1, low), Dec(-1, high);
    assert multiset([x, y, z]) == multiset{x, y, z} == multiset([x, z, y]);
    PrecisionOfThree(x, y, z);
    PrecisionOfThree(x, z, y);
    OrdersAtPrecision([x, y, z], [x, z, y], high, low, CONTEXT_DIGITS);
  }

  lemma OrdersAtPrecision(a: seq<Dec>, b: seq<Dec>, high: int, low: int, prec: nat)
    requires high >= low && prec >= 1 && SummaryPrecision(a) == SummaryPrecision(b) == prec
    requires a == [Dec(1, high), Dec(1, low), Dec(-1, high)] && b == [Dec(1, high), Dec(-1, high), Dec(1, low)]
    ensures DecimalMean(a) == DecimalMean(b) <==> high - low < prec
  {
    CancelFirst(high, low, prec);
    CancelLast(high, low, prec);
    MeansOfSums(RoundedSum(a, prec), RoundedSum(b, prec), high, low, |a|, prec);
  }

  lemma MeansOfSums(a: Dec, b: Dec, high: int, low: int, count: nat, prec: nat)
    requires prec >= 1 && count > 0 && SameValue(b, Dec(1, low))
    requires SameValue(a, if high - low < prec then Dec(1, low) else Dec(0, high))
    ensures Divided(a, count, prec) == Divided(b, count, prec) <==> high - low < prec
  {
    DividedOfSameValue(b, Dec(1, low), count, prec);
    if high - low < prec {
      DividedOfSameValue(a, Dec(1, low), count, prec);
    } else {
      ZeroValue(a, high);
      PositiveMean(Dec(1, low), count, prec);
    }
  }

  // ---------------------------------------------------------------- seeds

  ghost predicate SeedMissing(seeds: seq<Option<int>>) {
    exists i :: 0 <= i < |seeds| && seeds[i].None?
  }

  /** Two runs carry the same seed. */
  ghost predicate SeedRepeated(seeds: seq<Option<int>>) {
    exists i, j :: 0 <= i < j < |seeds| && seeds[i].Some? && seeds[i] == seeds[j]
  }

  /** How many of the first n runs carry seed x. */
  ghost function Occurrences(seeds: seq<Option<int>>, n: nat, x: int): nat
    requires n <= |seeds|
  {
    if n == 0 then 0 else Occurrences(seeds, n - 1, x) + if seeds[n - 1] == Some(x) then 1 else 0
  }

  lemma {:induction false} OccursOnce(seeds: seq<Option<int>>, n: nat, x: int)
    requires n <= |seeds|
    ensures Occurrences(seeds, n, x) > 0 <==> exists i :: 0 <= i < n && seeds[i] == Some(x)
  {
    if n > 0 { OccursOnce(seeds, n - 1, x); }
  }

  lemma {:induction false} OccursTwice(seeds: seq<Option<int>>, n: nat, x: int)
    requires n <= |seeds|
    ensures Occurrences(seeds, n, x) > 1 <==>
      exists i, j :: 0 <= i < j < n && seeds[i] == Some(x) && seeds[j] == Some(x)
  {
    if n > 0 {
      OccursTwice(seeds, n - 1, x);
      OccursOnce(seeds, n - 1, x);
    }
  }

  /** Seed x occurs at least twice. */
  ghost predicate RepeatsSeed(seeds: seq<Option<int>>, x: int) {
    exists i, j :: 0 <= i < j < |seeds| && seeds[i] == Some(x) && seeds[j] == Some(x)
  }

  ghost predicate Rising(s: seq<int>) { forall i, j :: 0 <= i < j < |s| ==> s[i] < s[j] }

  /** The one-based positions without a seed, in order. */
  ghost predicate MissingAre(seeds: seq<Option<int>>, missing: seq<nat>) {
    Rising(missing) && forall k: nat :: k in missing <==> 1 <= k <= |seeds| && seeds[k - 1].None?
  }

  /** The repeated seeds, in order. */
  ghost predicate DuplicatesAre(seeds: seq<Option<int>>, duplicates: seq<int>) {
    Rising(duplicates) && forall x :: x in duplicates <==> RepeatsSeed(seeds, x)
  }

  method CountSeeds(seeds: seq<Option<int>>) returns (missing: seq<nat>, counts: map<int, nat>)
    ensures MissingAre(seeds, missing)
    ensures forall x :: (if x in counts then counts[x] else 0) == Occurrences(seeds, |seeds|, x)
  {
    missing, counts := [], map[];
    for i := 0 to |seeds|
      invariant Rising(missing)
      invariant forall k: nat :: k in missing <==> 1 <= k <= i && seeds[k - 1].None?
      invariant forall x :: (if x in counts then counts[x] else 0) == Occurrences(seeds, i, x)
    {
      assert forall j :: 0 <= j < |missing| ==> missing[j] in missing;
      match seeds[i]
      case None => missing := missing + [i + 1];
      case Some(x) => counts := counts[x := (if x in counts then counts[x] else 0) + 1];
    }
  }

  lemma {:induction false} LeastOf(s: set<int>) returns (x: int)
    requires s != {}
    ensures x in s && forall y :: y in s ==> x <= y
    decreases s
  {
    var any := AMember(s);
    x := any;
    var rest := s - {any};
    if rest != {} {
      var y := LeastOf(rest);
      if y < x { x := y; }
    }
    assert forall y :: y in s ==> y == any || y in rest;
  }

  /** `sorted` on distinct integers. */
  method SortedInts(s: set<int>) returns (r: seq<int>)
    ensures Rising(r) && forall x :: x in r <==> x in s
  {
    r := [];
    var rest := s;
    while rest != {}
      invariant rest <= s && Rising(r)
      invariant forall x :: x in r <==> x in s && x !in rest
      invariant forall x, y :: x in r && y in rest ==> x < y
      decreases |rest|
    {
      ghost var least := LeastOf(rest);
      var x :| x in rest && forall y :: y in rest ==> x <= y;
      assert forall i :: 0 <= i < |r| ==> r[i] in r;
      r, rest := r + [x], rest - {x};
    }
  }

  lemma CountedRepeats(seeds: seq<Option<int>>)
    ensures forall x :: Occurrences(seeds, |seeds|, x) > 1 <==> RepeatsSeed(seeds, x)
  {
    forall x ensures Occurrences(seeds, |seeds|, x) > 1 <==> RepeatsSeed(seeds, x) {
      OccursTwice(seeds, |seeds|, x);
    }
  }

  method SeedProblems(seeds: seq<Option<int>>) returns (evidence: SeedEvidence)
    ensures SeedsAre(seeds, evidence)
  {
    hide Rising, RepeatsSeed, Occurrences;
    var missing, counts := CountSeeds(seeds);
    CountedRepeats(seeds);
    var duplicates := SortedInts(set x | x in counts && counts[x] > 1);
    evidence := SeedEvidence(missing, duplicates);
  }

  datatype SeedEvidence = SeedEvidence(missing: seq<nat>, duplicates: seq<int>)

  /** The runs without a seed and the repeated seeds that a report lists. */
  ghost predicate SeedsAre(seeds: seq<Option<int>>, evidence: SeedEvidence) {
    MissingAre(seeds, evidence.missing) && DuplicatesAre(seeds, evidence.duplicates)
  }

  lemma SeedsShowProblems(seeds: seq<Option<int>>, evidence: SeedEvidence)
    requires SeedsAre(seeds, evidence)
    ensures evidence.missing != [] <==> SeedMissing(seeds)
    ensures evidence.duplicates != [] <==> SeedRepeated(seeds)
  {
    if evidence.missing != [] { assert evidence.missing[0] in evidence.missing; }
    if evidence.duplicates != [] {
      assert RepeatsSeed(seeds, evidence.duplicates[0]) by { assert evidence.duplicates[0] in evidence.duplicates; }
    }
    if SeedMissing(seeds) {
      var i :| 0 <= i < |seeds| && seeds[i].None?;
      assert i + 1 in evidence.missing;
    }
    if SeedRepeated(seeds) {
      var i, j :| 0 <= i < j < |seeds| && seeds[i].Some? && seeds[i] == seeds[j];
      assert RepeatsSeed(seeds, seeds[i].value);
    }
  }

  /** The seed checks of one arm, appended to the report. */
  method SeedFindings(before: seq<Finding>, loaded: LoadedResults)
    returns (findings: seq<Finding>, evidence: SeedEvidence)
    requires Consistent(before)
    ensures SeedsAre(loaded.seeds, evidence)
    ensures Consistent(findings)
    ensures RuleSet(findings) == RuleSet(before) + SeedRules(loaded)
    ensures RuleList(findings) == RuleList(before) + OrderedSeeds(loaded)
  {
    hide RuleSet, RuleList, Consistent, SeedsAre, SeedMissing, SeedRepeated;
    findings := before;
    evidence := SeedProblems(loaded.seeds);
    SeedsShowProblems(loaded.seeds, evidence);
    if evidence.missing != [] {
      findings := Report(findings, SeedMissingMetadata, Insufficient);
    }
    if evidence.duplicates != [] {
      findings := Report(findings, SeedDuplicate, Insufficient);
    }
    if |loaded.values| == 1 {
      findings := Report(findings, SeedSingleRun, Insufficient);
    }
  }

  ghost function SeedRules(loaded: LoadedResults): set<Rule> {
    Pick(SeedMissing(loaded.seeds), SeedMissingMetadata)
    + Pick(SeedRepeated(loaded.seeds), SeedDuplicate)
    + Pick(|loaded.values| == 1, SeedSingleRun)
  }

  ghost function OrderedSeeds(loaded: LoadedResults): seq<Rule> {
    OneIf(SeedMissing(loaded.seeds), SeedMissingMetadata)
    + OneIf(SeedRepeated(loaded.seeds), SeedDuplicate)
    + OneIf(|loaded.values| == 1, SeedSingleRun)
  }

  // ---------------------------------------------------------------- the whole check

  /** Three times as many runs on one side, and at least two more. */
  predicate Imbalanced(baseline: nat, candidate: nat) {
    var smaller, larger := Min(baseline, candidate), Max(baseline, candidate);
    smaller > 0 && larger - smaller >= 2 && larger >= 3 * smaller
  }

  /** Which counts are imbalanced, whichever arm is the larger one. */
  lemma ImbalancedMeans(baseline: nat, candidate: nat)
    ensures Imbalanced(baseline, candidate) <==>
      || (baseline > 0 && candidate >= baseline + 2 && candidate >= 3 * baseline)
      || (candidate > 0 && baseline >= candidate + 2 && baseline >= 3 * candidate)
    ensures Imbalanced(baseline, candidate) <==> Imbalanced(candidate, baseline)
  {
  }

  /** A stated summary is at fault exactly when it is above or below the recomputed mean, however either is spelled. */
  lemma SummaryDiffersMeans(loaded: LoadedResults, mean: Dec)
    ensures SummaryDiffers(loaded, mean) <==>
      loaded.claimed.Some? && (Below(loaded.claimed.value, mean) || Below(mean, loaded.claimed.value))
  {
    if loaded.claimed.Some? {
      BelowTrichotomy(loaded.claimed.value, mean);
    }
  }

  predicate SummaryDiffers(loaded: LoadedResults, mean: Dec) {
    loaded.claimed.Some? && !SameValue(loaded.claimed.value, mean)
  }

  /** Both means, the threshold and the difference between the means are finite. */
  predicate Computable(baseline: LoadedResults, candidate: LoadedResults, direction: Direction, threshold: Dec,
                       floats: Floats) {
    var b, c := SummaryMean(baseline.values, floats), SummaryMean(candidate.values, floats);
    && b.Some? && c.Some? && threshold.coef >= 0
    && floats.spelling(Improvement(b.value, c.value, direction)).Some?
  }

  /** Exactly the rules a computable pair of result files deserves. */
  ghost function DeservedResults(baseline: LoadedResults, candidate: LoadedResults, direction: Direction,
                                 threshold: Dec, b: Dec, c: Dec): set<Rule> {
    RulesFor(
      SummaryDiffers(baseline, b) || SummaryDiffers(candidate, c),
      SeedRules(baseline) + SeedRules(candidate),
      Imbalanced(|baseline.values|, |candidate.values|),
      ClaimMet(b, c, direction, threshold))
  }

  ghost function RulesFor(mismatch: bool, seeds: set<Rule>, imbalanced: bool, met: bool): set<Rule> {
    {ResultRecomputed} + Pick(mismatch, ResultSummaryMismatch) + seeds + Pick(imbalanced, SeedImbalance)
    + Pick(seeds == {} && !imbalanced, SeedEvidenceVerified)
    + {if met then ResultClaimSupported else ResultClaimNotSupported}
  }

  ghost function OrderedArm(loaded: LoadedResults, mean: Dec): seq<Rule> {
    OneIf(SummaryDiffers(loaded, mean), ResultSummaryMismatch) + OrderedSeeds(loaded)
  }

  /** The deserved rules in the order in which they are reported: first each arm, then both together. */
  ghost function OrderedRules(baseline: LoadedResults, candidate: LoadedResults, direction: Direction, threshold: Dec,
                         b: Dec, c: Dec): seq<Rule> {
    var imbalanced := Imbalanced(|baseline.values|, |candidate.values|);
    [ResultRecomputed] + OrderedArm(baseline, b) + OrderedArm(candidate, c) + OneIf(imbalanced, SeedImbalance)
    + OneIf(SeedRules(baseline) + SeedRules(candidate) == {} && !imbalanced, SeedEvidenceVerified)
    + [if ClaimMet(b, c, direction, threshold) then ResultClaimSupported else ResultClaimNotSupported]
  }

  /** The improvement relative to the baseline mean, where that is not zero and the quotient is a finite double. */
  function RelativeImprovement(baseline: Dec, improvement: Dec, floats: Floats): Option<Dec> {
    if baseline.coef == 0 then None
    else if improvement.coef == 0 then floats.spelling(Dec(0, 0))
    else
      var part, whole := Dec(Abs(improvement.coef), improvement.exp), Dec(Abs(baseline.coef), baseline.exp);
      var q := Quotient(part, whole, CONTEXT_DIGITS);
      floats.spelling(Dec(Sign(improvement.coef) * q.coef, q.exp))
  }

  method ReportArm(before: seq<Finding>, loaded: LoadedResults, mean: Dec)
    returns (findings: seq<Finding>, evidence: SeedEvidence)
    requires Consistent(before)
    ensures SeedsAre(loaded.seeds, evidence)
    ensures Consistent(findings)
    ensures RuleSet(findings) == RuleSet(before) + Pick(SummaryDiffers(loaded, mean), ResultSummaryMismatch)
                                 + SeedRules(loaded)
    ensures RuleList(findings) == RuleList(before) + OrderedArm(loaded, mean)
  {
    hide RuleSet, RuleList, Consistent, SeedsAre, SeedRules, OrderedSeeds;
    findings := before;
    if SummaryDiffers(loaded, mean) {
      findings := Report(findings, ResultSummaryMismatch, Invalidates);
    }
    findings, evidence := SeedFindings(findings, loaded);
  }

  predicate SeedRule(rule: Rule) {
    rule.SeedMissingMetadata? || rule.SeedDuplicate? || rule.SeedSingleRun? || rule.SeedImbalance?
  }

  /** The count comparison, the all-clear for seeds and the claim itself. */
  method ReportRest(before: seq<Finding>, imbalanced: bool, met: bool, ghost mismatch: bool, ghost seeds: set<Rule>)
    returns (findings: seq<Finding>)
    requires Consistent(before)
    requires RuleSet(before) == {ResultRecomputed} + Pick(mismatch, ResultSummaryMismatch) + seeds
    requires forall rule :: rule in seeds ==> SeedRule(rule)
    ensures Consistent(findings) && RuleSet(findings) == RulesFor(mismatch, seeds, imbalanced, met)
    ensures RuleList(findings) == RuleList(before) + OneIf(imbalanced, SeedImbalance)
      + OneIf(seeds == {} && !imbalanced, SeedEvidenceVerified)
      + [if met then ResultClaimSupported else ResultClaimNotSupported]
  {
    hide RuleSet, RuleList, Consistent;
    findings := before;
    if imbalanced {
      findings := Report(findings, SeedImbalance, Harmless);
    }
    SeedProblem(findings);
    NoSeedProblem(RuleSet(findings), mismatch, seeds, imbalanced);
    if !exists f :: f in findings && SeedRule(f.rule) {
      findings := Report(findings, SeedEvidenceVerified, Harmless);
    }
    findings := ReportClaim(findings, met);
  }

  method ReportClaim(before: seq<Finding>, met: bool) returns (findings: seq<Finding>)
    requires Consistent(before)
    ensures var rule := if met then ResultClaimSupported else ResultClaimNotSupported;
            && Consistent(findings) && RuleSet(findings) == RuleSet(before) + {rule}
            && RuleList(findings) == RuleList(before) + [rule]
  {
    hide RuleSet, RuleList, Consistent;
    if met {
      findings := Report(before, ResultClaimSupported, Harmless);
    } else {
      findings := Report(before, ResultClaimNotSupported, Invalidates);
    }
  }

  lemma NoSeedProblem(rules: set<Rule>, mismatch: bool, seeds: set<Rule>, imbalanced: bool)
    requires rules ==
      {ResultRecomputed} + Pick(mismatch, ResultSummaryMismatch) + seeds + Pick(imbalanced, SeedImbalance)
    requires forall rule :: rule in seeds ==> SeedRule(rule)
    ensures seeds == {} && !imbalanced <==> !exists rule :: rule in rules && SeedRule(rule)
  {
    if seeds != {} {
      var rule :| rule in seeds;
      assert SeedRule(rule);
    }
    assert imbalanced ==> SeedImbalance in rules && SeedRule(SeedImbalance);
  }

  lemma SeedProblem(findings: seq<Finding>)
    ensures (exists f :: f in findings && SeedRule(f.rule)) <==>
      exists rule :: rule in RuleSet(findings) && SeedRule(rule)
  {
  }

  /** What the check returns: both means and the improvement as doubles spell them, and the seeds it lists. */
  datatype ResultReport = ResultReport(baseline: Dec, candidate: Dec, improvement: Dec, relative: Option<Dec>,
                                       findings: seq<Finding>, baselineSeeds: SeedEvidence,
                                       candidateSeeds: SeedEvidence)

  /** None where the source raises; otherwise the rules reported are exactly the deserved ones, in order. */
  method CheckResults(baseline: LoadedResults, candidate: LoadedResults, direction: Direction, threshold: Dec,
                      floats: Floats)
    returns (r: Option<ResultReport>)
    ensures r.Some? <==> Computable(baseline, candidate, direction, threshold, floats)
    ensures r.Some? ==>
      Some(r.value.baseline) == SummaryMean(baseline.values, floats)
      && Some(r.value.candidate) == SummaryMean(candidate.values, floats)
      && Some(r.value.improvement) == floats.spelling(Improvement(r.value.baseline, r.value.candidate, direction))
    ensures r.Some? ==>
      SeedsAre(baseline.seeds, r.value.baselineSeeds) && SeedsAre(candidate.seeds, r.value.candidateSeeds)
    ensures r.Some? ==>
      r.value.relative ==
      RelativeImprovement(r.value.baseline, Improvement(r.value.baseline, r.value.candidate, direction), floats)
    ensures r.Some? ==> Consistent(r.value.findings)
    ensures r.Some? ==>
      RuleList(r.value.findings)
      == OrderedRules(baseline, candidate, direction, threshold, r.value.baseline, r.value.candidate)
    ensures r.Some? ==>
      RuleSet(r.value.findings)
      == DeservedResults(baseline, candidate, direction, threshold, r.value.baseline, r.value.candidate)
  {
    hide RuleSet, RuleList, Consistent, SeedsAre, Improvement, SummaryMean, ClaimMet, SeedRules, Imbalanced,
      SummaryDiffers, OrderedArm, RelativeImprovement;
    var b := SummarizeRuns(baseline.values, floats);
    if b.None? { return None; }
    var c := SummarizeRuns(candidate.values, floats);
    if c.None? || threshold.coef < 0 { return None; }
    var improvement := floats.spelling(Improvement(b.value, c.value, direction));
    if improvement.None? { return None; }
    var relative := RelativeImprovement(b.value, Improvement(b.value, c.value, direction), floats);
    var findings, baselineSeeds, candidateSeeds := ReportArms(baseline, candidate, b.value, c.value);
    SeedRulesAreSeeds(baseline);
    SeedRulesAreSeeds(candidate);
    findings := ReportRest(findings, Imbalanced(|baseline.values|, |candidate.values|),
      ClaimMet(b.value, c.value, direction, threshold),
      SummaryDiffers(baseline, b.value) || SummaryDiffers(candidate, c.value),
      SeedRules(baseline) + SeedRules(candidate));
    return Some(ResultReport(b.value, c.value, improvement.value, relative, findings, baselineSeeds, candidateSeeds));
  }

  lemma SeedRulesAreSeeds(loaded: LoadedResults)
    ensures forall rule :: rule in SeedRules(loaded) ==> SeedRule(rule)
  {
  }

  method ReportArms(baseline: LoadedResults, candidate: LoadedResults, b: Dec, c: Dec)
    returns (findings: seq<Finding>, baselineSeeds: SeedEvidence, candidateSeeds: SeedEvidence)
    ensures SeedsAre(baseline.seeds, baselineSeeds) && SeedsAre(candidate.seeds, candidateSeeds)
    ensures Consistent(findings)
    ensures RuleSet(findings) ==
      {ResultRecomputed} + Pick(SummaryDiffers(baseline, b) || SummaryDiffers(candidate, c), ResultSummaryMismatch)
      + (SeedRules(baseline) + SeedRules(candidate))
    ensures RuleList(findings) == [ResultRecomputed] + OrderedArm(baseline, b) + OrderedArm(candidate, c)
  {
    hide SeedsAre, SeedRules, SummaryDiffers, OrderedArm;
    findings := Report([], ResultRecomputed, Harmless);
    findings, baselineSeeds := ReportArm(findings, baseline, b);
    findings, candidateSeeds := ReportArm(findings, candidate, c);
  }

  /** An arm whose runs all carry distinct integer seeds, at least two of them, and whose summary is true. */
  ghost predicate SoundArm(loaded: LoadedResults, mean: Dec) {
    && !SeedMissing(loaded.seeds) && !SeedRepeated(loaded.seeds) && |loaded.values| != 1
    && !SummaryDiffers(loaded, mean)
  }

  lemma SeedRulesMeaning(loaded: LoadedResults)
    ensures forall rule :: rule in SeedRules(loaded) ==> ImpactOf(rule) == Insufficient
    ensures SeedRules(loaded) == {} <==>
            !SeedMissing(loaded.seeds) && !SeedRepeated(loaded.seeds) && |loaded.values| != 1
  {
    assert SeedMissing(loaded.seeds) <==> SeedMissingMetadata in SeedRules(loaded);
    assert SeedRepeated(loaded.seeds) <==> SeedDuplicate in SeedRules(loaded);
    assert |loaded.values| == 1 <==> SeedSingleRun in SeedRules(loaded);
  }

  lemma RulesMeaning(mismatch: bool, seeds: set<Rule>, imbalanced: bool, met: bool)
    requires forall rule :: rule in seeds ==> ImpactOf(rule) == Insufficient
    ensures (forall rule :: rule in RulesFor(mismatch, seeds, imbalanced, met) ==> ImpactOf(rule) == Harmless) <==>
            !mismatch && seeds == {} && met
    ensures (exists rule :: rule in RulesFor(mismatch, seeds, imbalanced, met) && ImpactOf(rule) == Invalidates) <==>
            mismatch || !met
  {
    var rules := RulesFor(mismatch, seeds, imbalanced, met);
    assert mismatch ==> ResultSummaryMismatch in rules;
    assert !met ==> ResultClaimNotSupported in rules;
    if seeds != {} {
      var rule :| rule in seeds;
      assert rule in rules;
    }
  }

  /** Results stand in the way of support unless both arms are sound and the threshold is met. */
  lemma ResultsSupport(baseline: LoadedResults, candidate: LoadedResults, direction: Direction, threshold: Dec,
                       b: Dec, c: Dec)
    ensures (forall rule :: rule in DeservedResults(baseline, candidate, direction, threshold, b, c) ==>
              ImpactOf(rule) == Harmless) <==>
            SoundArm(baseline, b) && SoundArm(candidate, c) && ClaimMet(b, c, direction, threshold)
    ensures (exists rule :: rule in DeservedResults(baseline, candidate, direction, threshold, b, c) &&
              ImpactOf(rule) == Invalidates) <==>
            SummaryDiffers(baseline, b) || SummaryDiffers(candidate, c) || !ClaimMet(b, c, direction, threshold)
  {
    SeedRulesMeaning(baseline);
    SeedRulesMeaning(candidate);
    RulesMeaning(SummaryDiffers(baseline, b) || SummaryDiffers(candidate, c),
                 SeedRules(baseline) + SeedRules(candidate),
                 Imbalanced(|baseline.values|, |candidate.values|), ClaimMet(b, c, direction, threshold));
  }
}
