/** The audit decision: findings assembled from every artifact, the verdict they determine, and the drift report
    that may not contradict it. */
module Audit {
  import opened Common
  import opened Decimals
  import opened Findings
  import opened ConfigFairness
  import opened ResultCheck
  import opened DatasetChecks

  /** An artifact loads, or its file is missing, or it is there and invalid. */
  datatype Load<T> = Loaded(value: T) | Missing | Invalid

  datatype Artifacts = Artifacts(
    baselineConfig: Load<Config>, candidateConfig: Load<Config>,
    baselineResults: Load<LoadedResults>, candidateResults: Load<LoadedResults>,
    baselineTrain: Load<seq<string>>, baselineEval: Load<seq<string>>,
    candidateTrain: Load<seq<string>>, candidateEval: Load<seq<string>>)

  datatype Claim = Claim(direction: Direction, threshold: Dec)

  // ---------------------------------------------------------------- rule groups

  lemma GroupsJoin(a: set<Rule>, b: set<Rule>)
    ensures AllHarmless(a + b) <==> AllHarmless(a) && AllHarmless(b)
    ensures SomeInvalidates(a + b) <==> SomeInvalidates(a) || SomeInvalidates(b)
  {
    if SomeInvalidates(a) { var r :| r in a && ImpactOf(r) == Invalidates; assert r in a + b; }
    if SomeInvalidates(b) { var r :| r in b && ImpactOf(r) == Invalidates; assert r in a + b; }
  }

  lemma OneRule(rule: Rule)
    ensures AllHarmless({rule}) <==> ImpactOf(rule) == Harmless
    ensures SomeInvalidates({rule}) <==> ImpactOf(rule) == Invalidates
  {
    assert rule in {rule};
  }

  /** The finding of an artifact that did not load. */
  ghost function Failure<T>(load: Load<T>, missing: Rule, invalid: Rule): set<Rule> {
    match load
    case Loaded(_) => {}
    case Missing => {missing}
    case Invalid => {invalid}
  }

  lemma FailureMeaning<T>(load: Load<T>, missing: Rule, invalid: Rule)
    requires ImpactOf(missing) == ImpactOf(invalid) == Insufficient
    ensures AllHarmless(Failure(load, missing, invalid)) <==> load.Loaded?
    ensures !SomeInvalidates(Failure(load, missing, invalid))
  {
    OneRule(missing);
    OneRule(invalid);
  }

  method ReportFailure<T>(before: seq<Finding>, load: Load<T>, missing: Rule, invalid: Rule)
    returns (findings: seq<Finding>)
    requires Consistent(before) && ImpactOf(missing) == ImpactOf(invalid) == Insufficient
    ensures Consistent(findings)
    ensures RuleSet(findings) == RuleSet(before) + Failure(load, missing, invalid)
  {
    match load
    case Loaded(_) => findings := before;
    case Missing => findings := Report(before, missing, Insufficient);
    case Invalid => findings := Report(before, invalid, Insufficient);
  }

  // ---------------------------------------------------------------- configurations

  ghost function ConfigRules(baseline: Load<Config>, candidate: Load<Config>): set<Rule> {
    Failure(baseline, ConfigMissing, ConfigInvalid) + Failure(candidate, ConfigMissing, ConfigInvalid)
    + if baseline.Loaded? && candidate.Loaded?
      then {ConfigLoaded} + Deserved(baseline.value, candidate.value) else {}
  }

  method AuditConfigs(baseline: Load<Config>, candidate: Load<Config>) returns (findings: seq<Finding>)
    ensures Consistent(findings) && RuleSet(findings) == ConfigRules(baseline, candidate)
  {
    findings := ReportFailure([], baseline, ConfigMissing, ConfigInvalid);
    findings := ReportFailure(findings, candidate, ConfigMissing, ConfigInvalid);
    if baseline.Loaded? && candidate.Loaded? {
      findings := Report(findings, ConfigLoaded, Harmless);
      var checked, _ := CheckConfigs(baseline.value, candidate.value);
      RuleSetConcat(findings, checked);
      findings := findings + checked;
    }
  }

  lemma FairnessMeaning(baseline: Config, candidate: Config)
    ensures AllHarmless(Deserved(baseline, candidate)) <==>
      !FieldsMissing(baseline, candidate) && !ComputeTooLarge(baseline, candidate)
      && !EvaluationDiffers(baseline, candidate)
    ensures SomeInvalidates(Deserved(baseline, candidate)) <==>
      ComputeTooLarge(baseline, candidate) || EvaluationDiffers(baseline, candidate)
  {
    ConfigFairness.RulesMeaning(
      FieldsMissing(baseline, candidate), ComputeTooLarge(baseline, candidate), EvaluationDiffers(baseline, candidate),
      TrainingDatasetDiffers(baseline, candidate), ParametersDiffer(baseline, candidate),
      LearningRateDiffers(baseline, candidate), ModelDiffers(baseline, candidate));
  }

  /** Both configurations are complete, equal in their evaluation mapping, and within the compute bound. */
  ghost predicate FairConfigs(baseline: Load<Config>, candidate: Load<Config>) {
    && baseline.Loaded? && candidate.Loaded? && Complete(baseline.value) && Complete(candidate.value)
    && !Differs(baseline.value, candidate.value, ["evaluation"])
    && !ComputeTooLarge(baseline.value, candidate.value)
  }

  ghost predicate UnfairConfigs(baseline: Load<Config>, candidate: Load<Config>) {
    && baseline.Loaded? && candidate.Loaded?
    && (ComputeTooLarge(baseline.value, candidate.value) || EvaluationDiffers(baseline.value, candidate.value))
  }

  lemma CompleteHasEvaluation(config: Config)
    requires Complete(config)
    ensures EvaluationComplete(config)
  {
    assert REQUIRED_FIELDS[5] in REQUIRED_FIELDS && REQUIRED_FIELDS[6] in REQUIRED_FIELDS
      && REQUIRED_FIELDS[7] in REQUIRED_FIELDS;
  }

  lemma ConfigMeaning(baseline: Load<Config>, candidate: Load<Config>)
    ensures AllHarmless(ConfigRules(baseline, candidate)) <==> FairConfigs(baseline, candidate)
    ensures SomeInvalidates(ConfigRules(baseline, candidate)) <==> UnfairConfigs(baseline, candidate)
  {
    var failures := Failure(baseline, ConfigMissing, ConfigInvalid) + Failure(candidate, ConfigMissing, ConfigInvalid);
    FailureMeaning(baseline, ConfigMissing, ConfigInvalid);
    FailureMeaning(candidate, ConfigMissing, ConfigInvalid);
    GroupsJoin(Failure(baseline, ConfigMissing, ConfigInvalid), Failure(candidate, ConfigMissing, ConfigInvalid));
    if baseline.Loaded? && candidate.Loaded? {
      var deserved := Deserved(baseline.value, candidate.value);
      FairnessMeaning(baseline.value, candidate.value);
      OneRule(ConfigLoaded);
      GroupsJoin({ConfigLoaded}, deserved);
      GroupsJoin(failures, {ConfigLoaded} + deserved);
      if Complete(baseline.value) && Complete(candidate.value) {
        CompleteHasEvaluation(baseline.value);
        CompleteHasEvaluation(candidate.value);
      }
    } else {
      GroupsJoin(failures, {});
    }
  }

  // ---------------------------------------------------------------- results

  ghost function ResultRules(baseline: Load<LoadedResults>, candidate: Load<LoadedResults>, claim: Claim,
                             floats: Floats): set<Rule> {
    Failure(baseline, ResultMissing, ResultInvalid) + Failure(candidate, ResultMissing, ResultInvalid)
    + if baseline.Loaded? && candidate.Loaded? then ComparisonRules(baseline.value, candidate.value, claim, floats)
      else {}
  }

  ghost function ComparisonRules(baseline: LoadedResults, candidate: LoadedResults, claim: Claim,
                                 floats: Floats): set<Rule> {
    if Computable(baseline, candidate, claim.direction, claim.threshold, floats) then
      DeservedResults(baseline, candidate, claim.direction, claim.threshold,
        SummaryMean(baseline.values, floats).value, SummaryMean(candidate.values, floats).value)
    else {ResultInvalid}
  }

  method AuditResults(baseline: Load<LoadedResults>, candidate: Load<LoadedResults>, claim: Claim, floats: Floats)
    returns (findings: seq<Finding>)
    ensures Consistent(findings) && RuleSet(findings) == ResultRules(baseline, candidate, claim, floats)
  {
    hide Consistent, DeservedResults, Computable, SummaryMean;
    findings := ReportFailure([], baseline, ResultMissing, ResultInvalid);
    findings := ReportFailure(findings, candidate, ResultMissing, ResultInvalid);
    if baseline.Loaded? && candidate.Loaded? {
      var checked := CheckResults(baseline.value, candidate.value, claim.direction, claim.threshold, floats);
      if checked.None? {
        findings := Report(findings, ResultInvalid, Insufficient);
      } else {
        RuleSetConcat(findings, checked.value.findings);
        findings := findings + checked.value.findings;
      }
    }
  }

  /** Both arms are sound and the recomputed means meet the threshold. */
  ghost predicate SoundResults(baseline: Load<LoadedResults>, candidate: Load<LoadedResults>, claim: Claim,
                               floats: Floats) {
    && baseline.Loaded? && candidate.Loaded?
    && Computable(baseline.value, candidate.value, claim.direction, claim.threshold, floats)
    && var b, c := SummaryMean(baseline.value.values, floats).value, SummaryMean(candidate.value.values, floats).value;
       SoundArm(baseline.value, b) && SoundArm(candidate.value, c) && ClaimMet(b, c, claim.direction, claim.threshold)
  }

  ghost predicate RefutedResults(baseline: Load<LoadedResults>, candidate: Load<LoadedResults>, claim: Claim,
                                 floats: Floats) {
    && baseline.Loaded? && candidate.Loaded?
    && Computable(baseline.value, candidate.value, claim.direction, claim.threshold, floats)
    && var b, c := SummaryMean(baseline.value.values, floats).value, SummaryMean(candidate.value.values, floats).value;
       SummaryDiffers(baseline.value, b) || SummaryDiffers(candidate.value, c)
       || !ClaimMet(b, c, claim.direction, claim.threshold)
  }

  /** A threshold is the shortest spelling of a non-negative double, which has far fewer digits than the context. */
  predicate SpelledThreshold(claim: Claim) {
    claim.threshold.coef >= 0 && DigitCount(claim.threshold) <= CONTEXT_DIGITS
  }

  /** The exact difference of the means reaches the threshold, or misses it by no more than half a unit of its 28th
      digit and rounds up to it. */
  predicate ReachesThreshold(baseline: Dec, candidate: Dec, claim: Claim) {
    var exact := ExactImprovement(baseline, candidate, claim.direction);
    !Below(exact, claim.threshold) || RoundsUpTo(exact, claim.threshold, CONTEXT_DIGITS)
  }

  /** Sound results and refuted results in terms of the exact difference. */
  ghost predicate SoundExactly(baseline: Load<LoadedResults>, candidate: Load<LoadedResults>, claim: Claim,
                               floats: Floats) {
    && baseline.Loaded? && candidate.Loaded?
    && Computable(baseline.value, candidate.value, claim.direction, claim.threshold, floats)
    && var b, c := SummaryMean(baseline.value.values, floats).value, SummaryMean(candidate.value.values, floats).value;
       SoundArm(baseline.value, b) && SoundArm(candidate.value, c) && ReachesThreshold(b, c, claim)
  }

  ghost predicate RefutedExactly(baseline: Load<LoadedResults>, candidate: Load<LoadedResults>, claim: Claim,
                                 floats: Floats) {
    && baseline.Loaded? && candidate.Loaded?
    && Computable(baseline.value, candidate.value, claim.direction, claim.threshold, floats)
    && var b, c := SummaryMean(baseline.value.values, floats).value, SummaryMean(candidate.value.values, floats).value;
       SummaryDiffers(baseline.value, b) || SummaryDiffers(candidate.value, c) || !ReachesThreshold(b, c, claim)
  }

  lemma ResultsExactly(baseline: Load<LoadedResults>, candidate: Load<LoadedResults>, claim: Claim, floats: Floats)
    requires SpelledThreshold(claim)
    ensures SoundResults(baseline, candidate, claim, floats) <==> SoundExactly(baseline, candidate, claim, floats)
    ensures RefutedResults(baseline, candidate, claim, floats) <==> RefutedExactly(baseline, candidate, claim, floats)
  {
    hide SoundArm, SummaryDiffers, ClaimMet, Below, RoundsUpTo, ExactImprovement, DigitCount;
    if baseline.Loaded? && candidate.Loaded?
       && Computable(baseline.value, candidate.value, claim.direction, claim.threshold, floats) {
      ThresholdRule(SummaryMean(baseline.value.values, floats).value, SummaryMean(candidate.value.values, floats).value,
                    claim.direction, claim.threshold);
    }
  }

  lemma ResultMeaning(baseline: Load<LoadedResults>, candidate: Load<LoadedResults>, claim: Claim, floats: Floats)
    ensures AllHarmless(ResultRules(baseline, candidate, claim, floats)) <==>
      SoundResults(baseline, candidate, claim, floats)
    ensures SomeInvalidates(ResultRules(baseline, candidate, claim, floats)) <==>
            RefutedResults(baseline, candidate, claim, floats)
  {
    var failures := Failure(baseline, ResultMissing, ResultInvalid) + Failure(candidate, ResultMissing, ResultInvalid);
    FailureMeaning(baseline, ResultMissing, ResultInvalid);
    FailureMeaning(candidate, ResultMissing, ResultInvalid);
    GroupsJoin(Failure(baseline, ResultMissing, ResultInvalid), Failure(candidate, ResultMissing, ResultInvalid));
    if baseline.Loaded? && candidate.Loaded? {
      GroupsJoin(failures, ComparisonRules(baseline.value, candidate.value, claim, floats));
      if Computable(baseline.value, candidate.value, claim.direction, claim.threshold, floats) {
        ResultsSupport(baseline.value, candidate.value, claim.direction, claim.threshold,
          SummaryMean(baseline.value.values, floats).value, SummaryMean(candidate.value.values, floats).value);
      } else {
        OneRule(ResultInvalid);
      }
    } else {
      GroupsJoin(failures, {});
    }
  }

  // ---------------------------------------------------------------- datasets

  ghost function LeakageRules(train: Load<seq<string>>, eval: Load<seq<string>>): set<Rule> {
    Failure(train, DatasetMissing, DatasetInvalid) + Failure(eval, DatasetMissing, DatasetInvalid)
    + if train.Loaded? && eval.Loaded? then {LeakRule(multiset(train.value), multiset(eval.value))} else {}
  }

  ghost function AlignmentRules(baseline: Load<seq<string>>, candidate: Load<seq<string>>): set<Rule> {
    if baseline.Loaded? && candidate.Loaded? then {AlignRule(multiset(baseline.value), multiset(candidate.value))}
    else {}
  }

  ghost function DatasetRules(a: Artifacts): set<Rule> {
    LeakageRules(a.baselineTrain, a.baselineEval) + LeakageRules(a.candidateTrain, a.candidateEval)
    + AlignmentRules(a.baselineEval, a.candidateEval)
  }

  method AuditLeakage(before: seq<Finding>, train: Load<seq<string>>, eval: Load<seq<string>>)
    returns (findings: seq<Finding>)
    requires Consistent(before)
    ensures Consistent(findings) && RuleSet(findings) == RuleSet(before) + LeakageRules(train, eval)
  {
    findings := ReportFailure(before, train, DatasetMissing, DatasetInvalid);
    findings := ReportFailure(findings, eval, DatasetMissing, DatasetInvalid);
    if train.Loaded? && eval.Loaded? {
      var _, leakage := CheckDatasetLeakage(train.value, eval.value);
      RuleSetAppend(findings, leakage);
      findings := findings + [leakage];
    }
  }

  method AuditDatasets(a: Artifacts) returns (findings: seq<Finding>)
    ensures Consistent(findings) && RuleSet(findings) == DatasetRules(a)
  {
    findings := AuditLeakage([], a.baselineTrain, a.baselineEval);
    findings := AuditLeakage(findings, a.candidateTrain, a.candidateEval);
    if a.baselineEval.Loaded? && a.candidateEval.Loaded? {
      var _, alignment := CheckEvaluationAlignment(a.baselineEval.value, a.candidateEval.value);
      RuleSetAppend(findings, alignment);
      findings := findings + [alignment];
    }
  }

  ghost predicate NoLeak(train: Load<seq<string>>, eval: Load<seq<string>>) {
    train.Loaded? && eval.Loaded? && multiset(train.value) * multiset(eval.value) == multiset{}
  }

  ghost predicate Leaks(train: Load<seq<string>>, eval: Load<seq<string>>) {
    train.Loaded? && eval.Loaded? && multiset(train.value) * multiset(eval.value) != multiset{}
  }

  lemma LeakageMeaning(train: Load<seq<string>>, eval: Load<seq<string>>)
    ensures AllHarmless(LeakageRules(train, eval)) <==> NoLeak(train, eval)
    ensures SomeInvalidates(LeakageRules(train, eval)) <==> Leaks(train, eval)
  {
    var first, second := Failure(train, DatasetMissing, DatasetInvalid), Failure(eval, DatasetMissing, DatasetInvalid);
    FailureMeaning(train, DatasetMissing, DatasetInvalid);
    FailureMeaning(eval, DatasetMissing, DatasetInvalid);
    GroupsJoin(first, second);
    if train.Loaded? && eval.Loaded? {
      OneRule(LeakRule(multiset(train.value), multiset(eval.value)));
      GroupsJoin(first + second, {LeakRule(multiset(train.value), multiset(eval.value))});
    } else {
      GroupsJoin(first + second, {});
    }
  }

  /** No leak in either arm, and the same evaluation records in both. */
  ghost predicate CleanDatasets(a: Artifacts) {
    && NoLeak(a.baselineTrain, a.baselineEval) && NoLeak(a.candidateTrain, a.candidateEval)
    && multiset(a.baselineEval.value) == multiset(a.candidateEval.value)
  }

  ghost predicate DirtyDatasets(a: Artifacts) {
    || Leaks(a.baselineTrain, a.baselineEval) || Leaks(a.candidateTrain, a.candidateEval)
    || (a.baselineEval.Loaded? && a.candidateEval.Loaded?
        && multiset(a.baselineEval.value) != multiset(a.candidateEval.value))
  }

  lemma DatasetMeaning(a: Artifacts)
    ensures AllHarmless(DatasetRules(a)) <==> CleanDatasets(a)
    ensures SomeInvalidates(DatasetRules(a)) <==> DirtyDatasets(a)
  {
    LeakageMeaning(a.baselineTrain, a.baselineEval);
    LeakageMeaning(a.candidateTrain, a.candidateEval);
    var first, second := LeakageRules(a.baselineTrain, a.baselineEval), LeakageRules(a.candidateTrain, a.candidateEval);
    GroupsJoin(first, second);
    if a.baselineEval.Loaded? && a.candidateEval.Loaded? {
      OneRule(AlignRule(multiset(a.baselineEval.value), multiset(a.candidateEval.value)));
    }
    GroupsJoin(first + second, AlignmentRules(a.baselineEval, a.candidateEval));
  }

  // ---------------------------------------------------------------- the audit

  ghost function AuditRules(a: Artifacts, claim: Claim, floats: Floats, datasets: set<Rule>): set<Rule> {
    ConfigRules(a.baselineConfig, a.candidateConfig)
    + ResultRules(a.baselineResults, a.candidateResults, claim, floats) + datasets
  }

  /** The whole audit.  The dataset findings come from the files, or from a streamed context when there is one. */
  method AuditResearch(a: Artifacts, claim: Claim, floats: Floats, streamed: Option<seq<Finding>>)
    returns (findings: seq<Finding>, verdict: Verdict)
    requires streamed.Some? ==> Consistent(streamed.value)
    ensures Consistent(findings) && verdict == DetermineVerdict(findings)
    ensures RuleSet(findings) ==
      AuditRules(a, claim, floats, if streamed.Some? then RuleSet(streamed.value) else DatasetRules(a))
    ensures streamed.None? ==>
      (verdict == Supported <==>
        FairConfigs(a.baselineConfig, a.candidateConfig)
        && SoundResults(a.baselineResults, a.candidateResults, claim, floats) && CleanDatasets(a))
    ensures streamed.None? ==>
      (verdict == NotSupported <==>
        UnfairConfigs(a.baselineConfig, a.candidateConfig)
        || RefutedResults(a.baselineResults, a.candidateResults, claim, floats) || DirtyDatasets(a))
    ensures streamed.None? && SpelledThreshold(claim) ==>
      (verdict == Supported <==>
        FairConfigs(a.baselineConfig, a.candidateConfig)
        && SoundExactly(a.baselineResults, a.candidateResults, claim, floats) && CleanDatasets(a))
    ensures streamed.None? && SpelledThreshold(claim) ==>
      (verdict == NotSupported <==>
        UnfairConfigs(a.baselineConfig, a.candidateConfig)
        || RefutedExactly(a.baselineResults, a.candidateResults, claim, floats) || DirtyDatasets(a))
  {
    hide SoundResults, RefutedResults, SoundExactly, RefutedExactly, SpelledThreshold, FairConfigs, UnfairConfigs,
      CleanDatasets, DirtyDatasets;
    var configs := AuditConfigs(a.baselineConfig, a.candidateConfig);
    var results := AuditResults(a.baselineResults, a.candidateResults, claim, floats);
    RuleSetConcat(configs, results);
    var datasets;
    if streamed.Some? {
      datasets := streamed.value;
    } else {
      datasets := AuditDatasets(a);
    }
    RuleSetConcat(configs + results, datasets);
    findings := configs + results + datasets;
    verdict := DetermineVerdict(findings);
    VerdictIff(a, claim, floats, findings);
    if SpelledThreshold(claim) {
      ResultsExactly(a.baselineResults, a.candidateResults, claim, floats);
    }
  }

  /** What the verdict of findings with these rules is, whatever produced them. */
  lemma VerdictIff(a: Artifacts, claim: Claim, floats: Floats, findings: seq<Finding>)
    requires Consistent(findings)
    ensures RuleSet(findings) == AuditRules(a, claim, floats, DatasetRules(a)) ==>
      && (DetermineVerdict(findings) == Supported <==>
            FairConfigs(a.baselineConfig, a.candidateConfig)
            && SoundResults(a.baselineResults, a.candidateResults, claim, floats) && CleanDatasets(a))
      && (DetermineVerdict(findings) == NotSupported <==>
            UnfairConfigs(a.baselineConfig, a.candidateConfig)
            || RefutedResults(a.baselineResults, a.candidateResults, claim, floats) || DirtyDatasets(a))
  {
    hide FairConfigs, UnfairConfigs, SoundResults, RefutedResults, CleanDatasets, DirtyDatasets;
    VerdictByRules(findings);
    ConfigMeaning(a.baselineConfig, a.candidateConfig);
    ResultMeaning(a.baselineResults, a.candidateResults, claim, floats);
    DatasetMeaning(a);
    var configs := ConfigRules(a.baselineConfig, a.candidateConfig);
    var results := ResultRules(a.baselineResults, a.candidateResults, claim, floats);
    GroupsJoin(configs, results);
    GroupsJoin(configs + results, DatasetRules(a));
  }
}
