/** Rule identifiers, impacts and the verdict lattice. */
module Findings {

  datatype Impact = Harmless | Invalidates | Insufficient

  datatype Verdict = Supported | NotSupported | InsufficientEvidence

  datatype Rule =
    | ConfigLoaded | ConfigMissing | ConfigInvalid
    | ConfigMissingFields | ConfigComputeMismatch | ConfigEvaluationMismatch
    | ConfigTrainingDatasetMismatch | ConfigTrainingParameterDifference
    | ConfigLearningRateDifference | ConfigModelDifference | ConfigFairnessVerified
    | ResultMissing | ResultInvalid | ResultRecomputed | ResultSummaryMismatch
    | ResultClaimSupported | ResultClaimNotSupported
    | SeedMissingMetadata | SeedDuplicate | SeedSingleRun | SeedImbalance | SeedEvidenceVerified
    | DatasetMissing | DatasetInvalid | DatasetExactLeakage | DatasetNoLeakage | DatasetScanIncomplete
    | DatasetEvaluationAligned | DatasetEvaluationMismatch
    | BenchmarkProcedureInsufficient | BenchmarkWorkloadMismatch | BenchmarkMetricMismatch | BenchmarkConfigMismatch

  datatype Finding = Finding(rule: Rule, impact: Impact)

  predicate AnyImpact(findings: seq<Finding>, impact: Impact) {
    exists f :: f in findings && f.impact == impact
  }

  /** Invalidation outranks insufficiency, which outranks support. */
  function DetermineVerdict(findings: seq<Finding>): (v: Verdict)
  {
    if AnyImpact(findings, Invalidates) then NotSupported
    else if AnyImpact(findings, Insufficient) then InsufficientEvidence
    else Supported
  }

  /** The rules reported, without repetition. */
  ghost function RuleSet(findings: seq<Finding>): set<Rule> {
    set f | f in findings :: f.rule
  }

  /** The rules in the order in which they were reported. */
  ghost function RuleList(findings: seq<Finding>): seq<Rule> {
    seq(|findings|, i requires 0 <= i < |findings| => findings[i].rule)
  }

  ghost function OneIf(condition: bool, rule: Rule): seq<Rule> {
    if condition then [rule] else []
  }

  ghost function Pick(condition: bool, rule: Rule): set<Rule> {
    if condition then {rule} else {}
  }

  lemma RuleSetAppend(findings: seq<Finding>, f: Finding)
    ensures RuleSet(findings + [f]) == RuleSet(findings) + {f.rule}
  {
    var r := findings + [f];
    assert forall g :: g in r <==> g in findings || g == f;
    forall rule ensures rule in RuleSet(r) <==> rule in RuleSet(findings) || rule == f.rule {
      if rule in RuleSet(findings) {
        var g :| g in findings && g.rule == rule;
        assert g in r;
      }
      if rule == f.rule { assert f in r; }
    }
  }

  /** The impact that each rule is meant to carry, wherever it is reported. */
  function ImpactOf(rule: Rule): Impact {
    match rule
    case ConfigComputeMismatch | ConfigEvaluationMismatch | ResultSummaryMismatch | ResultClaimNotSupported
      | DatasetExactLeakage | DatasetEvaluationMismatch
      | BenchmarkWorkloadMismatch | BenchmarkMetricMismatch | BenchmarkConfigMismatch => Invalidates
    case ConfigMissing | ConfigInvalid | ConfigMissingFields | ResultMissing | ResultInvalid
      | SeedMissingMetadata | SeedDuplicate | SeedSingleRun | DatasetMissing | DatasetInvalid
      | DatasetScanIncomplete | BenchmarkProcedureInsufficient => Insufficient
    case _ => Harmless
  }

  ghost predicate Consistent(findings: seq<Finding>) {
    forall f :: f in findings ==> f.impact == ImpactOf(f.rule)
  }

  /** One more finding, with the impact that the place reporting it writes down. */
  method Report(findings: seq<Finding>, rule: Rule, impact: Impact) returns (r: seq<Finding>)
    ensures r == findings + [Finding(rule, impact)]
    ensures RuleSet(r) == RuleSet(findings) + {rule} && RuleList(r) == RuleList(findings) + [rule]
    ensures Consistent(findings) && impact == ImpactOf(rule) ==> Consistent(r)
  {
    r := findings + [Finding(rule, impact)];
    RuleSetAppend(findings, Finding(rule, impact));
  }

  lemma RuleSetConcat(a: seq<Finding>, b: seq<Finding>)
    ensures RuleSet(a + b) == RuleSet(a) + RuleSet(b)
    ensures Consistent(a) && Consistent(b) ==> Consistent(a + b)
  {
    assert forall f :: f in a + b <==> f in a || f in b;
    forall rule ensures rule in RuleSet(a + b) <==> rule in RuleSet(a) || rule in RuleSet(b) {
      if rule in RuleSet(a) {
        var f :| f in a && f.rule == rule;
        assert f in a + b;
      }
      if rule in RuleSet(b) {
        var f :| f in b && f.rule == rule;
        assert f in a + b;
      }
    }
  }

  ghost predicate AllHarmless(rules: set<Rule>) { forall r :: r in rules ==> ImpactOf(r) == Harmless }

  ghost predicate SomeInvalidates(rules: set<Rule>) { exists r :: r in rules && ImpactOf(r) == Invalidates }

  /** The verdict that a set of rules means. */
  ghost function VerdictOf(rules: set<Rule>): Verdict {
    if SomeInvalidates(rules) then NotSupported else if AllHarmless(rules) then Supported else InsufficientEvidence
  }

  /** The verdict is decided by which rules were reported. */
  lemma VerdictByRules(findings: seq<Finding>)
    requires Consistent(findings)
    ensures DetermineVerdict(findings) == VerdictOf(RuleSet(findings))
    ensures DetermineVerdict(findings) == NotSupported <==>
      exists r :: r in RuleSet(findings) && ImpactOf(r) == Invalidates
    ensures DetermineVerdict(findings) == Supported <==> forall r :: r in RuleSet(findings) ==> ImpactOf(r) == Harmless
  {
    forall f | f in findings ensures f.rule in RuleSet(findings) {}
    if SomeInvalidates(RuleSet(findings)) {
      var rule :| rule in RuleSet(findings) && ImpactOf(rule) == Invalidates;
      var f :| f in findings && f.rule == rule;
      assert AnyImpact(findings, Invalidates);
    }
  }
}
