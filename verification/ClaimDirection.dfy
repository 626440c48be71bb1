/** What a claim's direction means for the two published means, without naming their difference. */
module ClaimDirections {
  import opened Common
  import opened Decimals
  import opened DecimalMeans
  import opened ResultCheck
  import opened Findings
  import opened Audit

  /** The candidate's mean is better than the baseline's by at least the threshold. */
  predicate BetterBy(baseline: Dec, candidate: Dec, direction: Direction, threshold: Dec) {
    match direction
    case Higher => !Below(candidate, ExactSum(baseline, threshold))
    case Lower => !Below(baseline, ExactSum(candidate, threshold))
  }

  lemma NegatedAt(d: Dec, e: int)
    requires e <= d.exp
    ensures At(Negated(d), e) == -At(d, e)
  {
    ShiftLinear(d.coef, -d.coef, d.exp - e);
    ShiftLinear(0, 0, d.exp - e);
  }

  /** a - b is at least t exactly when a is at least b + t. */
  lemma DifferenceReaches(a: Dec, b: Dec, t: Dec)
    ensures Below(ExactSum(a, Negated(b)), t) <==> Below(a, ExactSum(b, t))
  {
    hide Below;
    var e := Min(Min(a.exp, b.exp), t.exp);
    NegatedAt(b, e);
    ExactSumAt(a, Negated(b), e);
    ExactSumAt(b, t, e);
    CompareAt(ExactSum(a, Negated(b)), t, e);
    CompareAt(a, ExactSum(b, t), e);
  }

  lemma ExactlyBetter(baseline: Dec, candidate: Dec, direction: Direction, threshold: Dec)
    ensures !Below(ExactImprovement(baseline, candidate, direction), threshold) <==>
            BetterBy(baseline, candidate, direction, threshold)
  {
    hide Below, ExactSum;
    DifferenceReaches(candidate, baseline, threshold);
    DifferenceReaches(baseline, candidate, threshold);
  }

  lemma OppositeDigits(a: Dec, b: Dec)
    ensures Abs(ExactSum(a, Negated(b)).coef) == Abs(ExactSum(b, Negated(a)).coef)
    ensures ExactSum(a, Negated(b)).exp == ExactSum(b, Negated(a)).exp
  {
    var e := Min(a.exp, b.exp);
    NegatedAt(a, e);
    NegatedAt(b, e);
  }

  /** Where the difference of the means has at most 28 digits, a claim is met exactly when the candidate's mean is
      better by the threshold: higher under one direction, lower under the other. */
  lemma ClaimByMeans(baseline: Dec, candidate: Dec, direction: Direction, threshold: Dec)
    requires DigitCount(ExactSum(candidate, Negated(baseline))) <= CONTEXT_DIGITS
    ensures ClaimMet(baseline, candidate, direction, threshold) <==> BetterBy(baseline, candidate, direction, threshold)
  {
    hide Below;
    OppositeDigits(baseline, candidate);
    ThresholdExact(baseline, candidate, direction, threshold);
    ExactlyBetter(baseline, candidate, direction, threshold);
  }

  /** Whatever the digits, a mean that is better by a spelled threshold meets the claim; one that meets it otherwise is
      better by less, and rounds up. */
  lemma BetterMeetsClaim(baseline: Dec, candidate: Dec, direction: Direction, threshold: Dec)
    requires threshold.coef >= 0 && DigitCount(threshold) <= CONTEXT_DIGITS
    ensures BetterBy(baseline, candidate, direction, threshold) ==>
      ClaimMet(baseline, candidate, direction, threshold)
    ensures ClaimMet(baseline, candidate, direction, threshold) ==>
      || BetterBy(baseline, candidate, direction, threshold)
      || RoundsUpTo(ExactImprovement(baseline, candidate, direction), threshold, CONTEXT_DIGITS)
  {
    hide Below, BetterBy, RoundsUpTo, ExactImprovement, ClaimMet;
    ThresholdRule(baseline, candidate, direction, threshold);
    ExactlyBetter(baseline, candidate, direction, threshold);
  }

  /** Lower is better for one arm where higher is better for the other. */
  lemma DirectionsMirror(baseline: Dec, candidate: Dec, threshold: Dec)
    ensures ClaimMet(baseline, candidate, Lower, threshold) <==> ClaimMet(candidate, baseline, Higher, threshold)
  {
  }

  lemma ZeroAt(e: int)
    requires e <= 0
    ensures At(Dec(0, 0), e) == 0
  {
    ShiftLinear(0, 0, -e);
  }

  lemma SignAt(d: Dec, e: int)
    requires e <= d.exp
    ensures At(d, e) > 0 <==> d.coef > 0
    ensures At(d, e) >= 0 <==> d.coef >= 0
  {
    if d.coef >= 0 { ShiftNat(d.coef, d.exp - e); }
    ShiftOrder(0, d.coef, d.exp - e);
    ShiftOrder(d.coef, 0, d.exp - e);
    ShiftLinear(0, 0, d.exp - e);
  }

  /** Rounding keeps the sign. */
  lemma RoundedSign(d: Dec, prec: nat)
    requires prec >= 1
    ensures Rounded(d, prec).coef > 0 ==> d.coef > 0
    ensures Rounded(d, prec).coef >= 0 ==> d.coef >= 0
  {
    if DigitCount(d) > prec && d.coef < 0 {
      LeadingDigits(Abs(d.coef), prec, DigitCount(d) - prec);
      ShiftPositive(1, prec - 1);
    }
  }

  lemma AtLeastSign(d: Dec, t: Dec)
    requires !Below(d, t) && t.coef >= 0
    ensures d.coef >= 0 && (t.coef > 0 ==> d.coef > 0)
  {
    var e := Min(d.exp, t.exp);
    SignAt(d, e);
    SignAt(t, e);
  }

  lemma DifferenceSign(a: Dec, b: Dec)
    ensures ExactSum(a, Negated(b)).coef > 0 <==> Below(b, a)
    ensures ExactSum(a, Negated(b)).coef >= 0 <==> !Below(a, b)
  {
    var e := Min(a.exp, b.exp);
    NegatedAt(b, e);
    CompareAt(a, b, e);
    CompareAt(b, a, e);
  }

  /** A claim that is met never stands on a worse candidate, and with a positive threshold on a strictly better one. */
  lemma MetMeansBetter(baseline: Dec, candidate: Dec, direction: Direction, threshold: Dec)
    requires ClaimMet(baseline, candidate, direction, threshold) && threshold.coef >= 0
    ensures direction == Higher ==> !Below(candidate, baseline) && (threshold.coef > 0 ==> Below(baseline, candidate))
    ensures direction == Lower ==> !Below(baseline, candidate) && (threshold.coef > 0 ==> Below(candidate, baseline))
  {
    hide Below, ExactSum, Rounded;
    AtLeastSign(Improvement(baseline, candidate, direction), threshold);
    RoundedSign(ExactImprovement(baseline, candidate, direction), CONTEXT_DIGITS);
    DifferenceSign(candidate, baseline);
    DifferenceSign(baseline, candidate);
  }

  // ---------------------------------------------------------------- the audit

  /** The published means of both arms. */
  ghost predicate Means(a: Artifacts, floats: Floats, baseline: Dec, candidate: Dec) {
    && a.baselineResults.Loaded? && SummaryMean(a.baselineResults.value.values, floats) == Some(baseline)
    && a.candidateResults.Loaded? && SummaryMean(a.candidateResults.value.values, floats) == Some(candidate)
  }

  /** What the results say of a claim is part of every audit, with the datasets from files or streamed. */
  lemma ResultsInVerdict(a: Artifacts, claim: Claim, floats: Floats, datasets: set<Rule>, findings: seq<Finding>)
    requires Consistent(findings) && RuleSet(findings) == AuditRules(a, claim, floats, datasets)
    ensures DetermineVerdict(findings) == Supported ==>
      SoundResults(a.baselineResults, a.candidateResults, claim, floats)
    ensures RefutedResults(a.baselineResults, a.candidateResults, claim, floats) ==>
      DetermineVerdict(findings) == NotSupported
  {
    hide ConfigRules, ResultRules, SoundResults, RefutedResults, RuleSet, Consistent, AllHarmless, SomeInvalidates;
    VerdictByRules(findings);
    ResultMeaning(a.baselineResults, a.candidateResults, claim, floats);
    var configs, results := ConfigRules(a.baselineConfig, a.candidateConfig),
                            ResultRules(a.baselineResults, a.candidateResults, claim, floats);
    GroupsJoin(configs, results);
    GroupsJoin(configs + results, datasets);
    SupportedMeansHarmless(RuleSet(findings));
  }

  lemma SupportedMeansHarmless(rules: set<Rule>)
    ensures VerdictOf(rules) == Supported ==> AllHarmless(rules)
  {
  }

  /** An audit supports a claim only for a candidate whose mean is on the claimed side of the baseline's: in a claim
      that lower is better, by a positive threshold, it is the lower one. */
  lemma SupportedMeansBetter(a: Artifacts, claim: Claim, floats: Floats, datasets: set<Rule>, findings: seq<Finding>,
                             baseline: Dec, candidate: Dec)
    requires Consistent(findings) && RuleSet(findings) == AuditRules(a, claim, floats, datasets)
    requires Means(a, floats, baseline, candidate) && DetermineVerdict(findings) == Supported
    ensures claim.direction == Lower && claim.threshold.coef > 0 ==> Below(candidate, baseline)
    ensures claim.direction == Higher && claim.threshold.coef > 0 ==> Below(baseline, candidate)
    ensures DigitCount(ExactSum(candidate, Negated(baseline))) <= CONTEXT_DIGITS ==>
      BetterBy(baseline, candidate, claim.direction, claim.threshold)
  {
    hide SoundArm, SummaryMean, BetterBy, ClaimMet, ExactSum, Below, DigitCount, AuditRules, RuleSet, Consistent,
      Improvement, SummaryDiffers;
    ResultsInVerdict(a, claim, floats, datasets, findings);
    MetMeansBetter(baseline, candidate, claim.direction, claim.threshold);
    if DigitCount(ExactSum(candidate, Negated(baseline))) <= CONTEXT_DIGITS {
      ClaimByMeans(baseline, candidate, claim.direction, claim.threshold);
    }
  }

  /** It refutes every claim whose candidate is not better by the threshold, where the comparison is finite and the
      difference has at most 28 digits. */
  lemma WorseMeansRefuted(a: Artifacts, claim: Claim, floats: Floats, datasets: set<Rule>, findings: seq<Finding>,
                          baseline: Dec, candidate: Dec)
    requires Consistent(findings) && RuleSet(findings) == AuditRules(a, claim, floats, datasets)
    requires Means(a, floats, baseline, candidate) && claim.threshold.coef >= 0
    requires floats.spelling(Improvement(baseline, candidate, claim.direction)).Some?
    requires DigitCount(ExactSum(candidate, Negated(baseline))) <= CONTEXT_DIGITS
    requires !BetterBy(baseline, candidate, claim.direction, claim.threshold)
    ensures DetermineVerdict(findings) == NotSupported
  {
    hide SummaryMean, BetterBy, ClaimMet, ExactSum, Below, DigitCount, AuditRules, RuleSet, Consistent, Improvement,
      SummaryDiffers, SoundResults;
    ResultsInVerdict(a, claim, floats, datasets, findings);
    ClaimByMeans(baseline, candidate, claim.direction, claim.threshold);
  }

  /** Every non-negative number of at most 17 digits, as doubles are spelled, is such a threshold. */
  lemma DoublesAreSpelled(claim: Claim)
    requires 0 <= claim.threshold.coef < Shift(1, 17)
    ensures SpelledThreshold(claim)
  {
    DigitsAtMost(claim.threshold.coef, 17);
  }

  // ---------------------------------------------------------------- the relative improvement

  /** What is printed as relative improvement is the spelling of the improvement divided by the absolute value of the
      baseline mean, off by at most half a unit in the last of 28 or more digits and with the sign of the
      improvement. */
  lemma RelativeIsNearest(baseline: Dec, improvement: Dec, floats: Floats) returns (q: Dec)
    requires baseline.coef != 0
    ensures RelativeImprovement(baseline, improvement, floats) == floats.spelling(q)
    ensures NearMean(q, Dec(improvement.coef, improvement.exp - baseline.exp), Abs(baseline.coef))
    ensures q.coef > 0 <==> improvement.coef > 0
    ensures q.coef < 0 <==> improvement.coef < 0
  {
    hide NearMean;
    q := Divided(Dec(improvement.coef, improvement.exp - baseline.exp), Abs(baseline.coef), CONTEXT_DIGITS);
    DividedNear(Dec(improvement.coef, improvement.exp - baseline.exp), Abs(baseline.coef), CONTEXT_DIGITS);
  }
}
