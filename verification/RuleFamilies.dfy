/** Which check of an audit reports which rule. */
module RuleFamilies {
  import opened Decimals
  import opened Findings
  import opened DatasetSpills
  import opened DatasetScans
  import opened DatasetChecks
  import opened ConfigFairness
  import opened ResultCheck
  import opened Audit

  datatype Family = OfConfigs | OfResults | OfDatasets | OfBenchmarks

  function FamilyOf(rule: Rule): Family {
    match rule
    case ConfigLoaded | ConfigMissing | ConfigInvalid | ConfigMissingFields | ConfigComputeMismatch
      | ConfigEvaluationMismatch | ConfigTrainingDatasetMismatch | ConfigTrainingParameterDifference
      | ConfigLearningRateDifference | ConfigModelDifference | ConfigFairnessVerified => OfConfigs
    case DatasetMissing | DatasetInvalid | DatasetExactLeakage | DatasetNoLeakage | DatasetScanIncomplete
      | DatasetEvaluationAligned | DatasetEvaluationMismatch => OfDatasets
    case BenchmarkProcedureInsufficient | BenchmarkWorkloadMismatch | BenchmarkMetricMismatch
      | BenchmarkConfigMismatch => OfBenchmarks
    case _ => OfResults
  }

  ghost predicate AllOf(rules: set<Rule>, family: Family) { forall r :: r in rules ==> FamilyOf(r) == family }

  lemma FairnessFamily(missing: bool, compute: bool, evaluation: bool, dataset: bool, parameters: bool,
                       learningRate: bool, model: bool)
    ensures var rules :=
              ConfigFairness.RulesFor(missing, compute, evaluation, dataset, parameters, learningRate, model);
            AllOf(rules, OfConfigs) && (ConfigEvaluationMismatch in rules <==> evaluation)
  {
  }

  lemma ConfigFamily(baseline: Load<Config>, candidate: Load<Config>)
    ensures AllOf(ConfigRules(baseline, candidate), OfConfigs)
    ensures ConfigEvaluationMismatch in ConfigRules(baseline, candidate) <==>
            baseline.Loaded? && candidate.Loaded? && EvaluationDiffers(baseline.value, candidate.value)
  {
    hide ConfigFairness.RulesFor, EvaluationDiffers;
    if baseline.Loaded? && candidate.Loaded? {
      var b, c := baseline.value, candidate.value;
      FairnessFamily(FieldsMissing(b, c), ComputeTooLarge(b, c), EvaluationDiffers(b, c), TrainingDatasetDiffers(b, c),
                     ParametersDiffer(b, c), LearningRateDiffers(b, c), ModelDiffers(b, c));
    }
  }

  lemma ComparisonFamily(mismatch: bool, seeds: set<Rule>, imbalanced: bool, met: bool)
    requires AllOf(seeds, OfResults)
    ensures AllOf(ResultCheck.RulesFor(mismatch, seeds, imbalanced, met), OfResults)
  {
  }

  lemma SeedFamily(loaded: LoadedResults)
    ensures AllOf(SeedRules(loaded), OfResults)
  {
  }

  lemma DeservedFamily(baseline: LoadedResults, candidate: LoadedResults, direction: Direction, threshold: Dec,
                       b: Dec, c: Dec)
    ensures AllOf(DeservedResults(baseline, candidate, direction, threshold, b, c), OfResults)
  {
    SeedFamily(baseline);
    SeedFamily(candidate);
    ComparisonFamily(SummaryDiffers(baseline, b) || SummaryDiffers(candidate, c),
      SeedRules(baseline) + SeedRules(candidate), Imbalanced(|baseline.values|, |candidate.values|),
      ClaimMet(b, c, direction, threshold));
  }

  lemma ResultFamily(baseline: Load<LoadedResults>, candidate: Load<LoadedResults>, claim: Claim, floats: Floats)
    ensures AllOf(ResultRules(baseline, candidate, claim, floats), OfResults)
  {
    hide DeservedResults, SummaryMean;
    if baseline.Loaded? && candidate.Loaded?
       && Computable(baseline.value, candidate.value, claim.direction, claim.threshold, floats) {
      DeservedFamily(baseline.value, candidate.value, claim.direction, claim.threshold,
        SummaryMean(baseline.value.values, floats).value, SummaryMean(candidate.value.values, floats).value);
    }
  }

  lemma LeakageFamily(train: Load<seq<string>>, eval: Load<seq<string>>)
    ensures AllOf(LeakageRules(train, eval), OfDatasets) && DatasetEvaluationMismatch !in LeakageRules(train, eval)
  {
  }

  lemma DatasetFamily(a: Artifacts)
    ensures AllOf(DatasetRules(a), OfDatasets)
    ensures DatasetEvaluationMismatch in DatasetRules(a) <==>
            a.baselineEval.Loaded? && a.candidateEval.Loaded?
            && multiset(a.baselineEval.value) != multiset(a.candidateEval.value)
  {
    hide LeakageRules;
    LeakageFamily(a.baselineTrain, a.baselineEval);
    LeakageFamily(a.candidateTrain, a.candidateEval);
  }

  lemma LeakFamily(train: multiset<string>, eval: multiset<string>, complete: bool)
    ensures AllOf(LeakRules(train, eval, complete), OfDatasets)
    ensures DatasetEvaluationMismatch !in LeakRules(train, eval, complete)
  {
  }

  lemma StreamFamily(contents: map<Role, multiset<string>>, scans: seq<SplitScan>)
    requires |scans| == |ROLES| && forall role: Role :: role in contents
    ensures AllOf(StreamRules(contents, scans), OfDatasets)
    ensures DatasetEvaluationMismatch in StreamRules(contents, scans) <==>
      CompleteAt(scans, Role(Baseline, Eval)) && CompleteAt(scans, Role(Candidate, Eval))
      && contents[Role(Baseline, Eval)] != contents[Role(Candidate, Eval)]
  {
    hide LeakRules, CompleteAt;
    LeakFamily(contents[Role(Baseline, Train)], contents[Role(Baseline, Eval)],
               CompleteAt(scans, Role(Baseline, Train)) && CompleteAt(scans, Role(Baseline, Eval)));
    LeakFamily(contents[Role(Candidate, Train)], contents[Role(Candidate, Eval)],
               CompleteAt(scans, Role(Candidate, Train)) && CompleteAt(scans, Role(Candidate, Eval)));
  }

  lemma FamiliesJoin(configs: set<Rule>, results: set<Rule>, datasets: set<Rule>)
    requires AllOf(configs, OfConfigs) && AllOf(results, OfResults) && AllOf(datasets, OfDatasets)
    ensures var rules := configs + results + datasets;
            && (DatasetEvaluationMismatch in rules <==> DatasetEvaluationMismatch in datasets)
            && (ConfigEvaluationMismatch in rules <==> ConfigEvaluationMismatch in configs)
            && BenchmarkWorkloadMismatch !in rules && BenchmarkMetricMismatch !in rules
            && BenchmarkConfigMismatch !in rules
  {
  }
}
