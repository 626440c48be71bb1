/** Comparison of two recovered measurement protocols, and what it may say beside the audit's verdict. */
module MeasurementDrift {
  import opened Common
  import opened Findings
  import opened ConfigFairness
  import opened DatasetIdentity

  /** In the order of their names. */
  datatype Kind = BenchmarkVersion | DecodingParameters | EvaluationConfig | EvaluationDataset | EvaluatorImplementation
    | Metric | Normalization | PromptTemplate | RetryAggregation | TestSelection

  const KINDS: seq<Kind> := [BenchmarkVersion, DecodingParameters, EvaluationConfig, EvaluationDataset,
    EvaluatorImplementation, Metric, Normalization, PromptTemplate, RetryAggregation, TestSelection]

  datatype Coverage = Recovered | Missing | ByteOnly | NotApplicable

  /** A plain field, or the field `evaluation.<key>`; no plain name holds a dot, so the two never meet. */
  datatype FieldKey = Plain(name: string) | OfEvaluation(key: string)

  datatype FieldValue = Declared(value: Value) | Count(n: nat) | Digest(sha: Sha256)

  type Fields = map<FieldKey, FieldValue>

  /** A component is identified by its coverage and its fields; the digest of both is taken to be injective. */
  datatype Component = Component(coverage: Coverage, fields: Fields, bindings: seq<string>)

  predicate SameIdentity(a: Component, b: Component) { a.coverage == b.coverage && a.fields == b.fields }

  type Protocol = map<Kind, Component>

  datatype DriftState = NotAssessed | Verified | Warning | InsufficientDrift | InvalidatesDrift

  function Rank(state: DriftState): nat {
    match state
    case NotAssessed => 0
    case Verified => 1
    case Warning => 2
    case InsufficientDrift => 3
    case InvalidatesDrift => 4
  }

  /** The audit rules that show a difference of this kind to invalidate the comparison. */
  predicate Decisive(kind: Kind, rule: Rule) {
    match kind
    case EvaluationDataset =>
      rule.DatasetEvaluationMismatch? || rule.ConfigEvaluationMismatch? || rule.BenchmarkWorkloadMismatch?
    case Metric => rule.ConfigEvaluationMismatch? || rule.BenchmarkMetricMismatch?
    case _ => rule.ConfigEvaluationMismatch? || rule.BenchmarkConfigMismatch?
  }

  function ComponentState(kind: Kind, baseline: Option<Component>, candidate: Option<Component>,
                          rules: set<Rule>): DriftState {
    if baseline.None? || candidate.None? then InsufficientDrift
    else
      var b, c := baseline.value, candidate.value;
      if b.coverage.NotApplicable? && c.coverage.NotApplicable? then NotAssessed
      else if b.coverage.Missing? || c.coverage.Missing? then InsufficientDrift
      else if b.coverage.ByteOnly? || c.coverage.ByteOnly? then
        if b.bindings != c.bindings then Warning else NotAssessed
      else if SameIdentity(b, c) then Verified
      else if exists rule :: rule in rules && Decisive(kind, rule) then InvalidatesDrift
      else InsufficientDrift
  }

  function At(protocol: Protocol, kind: Kind): Option<Component> {
    if kind in protocol then Some(protocol[kind]) else None
  }

  function StateAt(baseline: Protocol, candidate: Protocol, kind: Kind, rules: set<Rule>): DriftState {
    ComponentState(kind, At(baseline, kind), At(candidate, kind), rules)
  }

  ghost predicate Compared(baseline: Protocol, candidate: Protocol, kind: Kind) {
    kind in baseline || kind in candidate
  }

  lemma KindsComplete(kind: Kind)
    ensures kind in KINDS
  {
    match kind {
      case BenchmarkVersion => assert KINDS[0] == kind;
      case DecodingParameters => assert KINDS[1] == kind;
      case EvaluationConfig => assert KINDS[2] == kind;
      case EvaluationDataset => assert KINDS[3] == kind;
      case EvaluatorImplementation => assert KINDS[4] == kind;
      case Metric => assert KINDS[5] == kind;
      case Normalization => assert KINDS[6] == kind;
      case PromptTemplate => assert KINDS[7] == kind;
      case RetryAggregation => assert KINDS[8] == kind;
      case TestSelection => assert KINDS[9] == kind;
    }
  }

  /** The worst state of a compared component. */
  ghost predicate Worst(baseline: Protocol, candidate: Protocol, rules: set<Rule>, state: DriftState) {
    && (forall kind :: Compared(baseline, candidate, kind) ==>
         Rank(StateAt(baseline, candidate, kind, rules)) <= Rank(state))
    && (state != NotAssessed ==> exists kind ::
         Compared(baseline, candidate, kind) && StateAt(baseline, candidate, kind, rules) == state)
  }

  method CompareProtocols(baseline: Protocol, candidate: Protocol, rules: set<Rule>) returns (state: DriftState)
    ensures Worst(baseline, candidate, rules, state)
  {
    var states: set<DriftState> := {};
    for i := 0 to |KINDS|
      invariant forall s :: s in states <==>
        exists j :: 0 <= j < i && Compared(baseline, candidate, KINDS[j])
          && StateAt(baseline, candidate, KINDS[j], rules) == s
    {
      if KINDS[i] in baseline || KINDS[i] in candidate {
        states := states + {StateAt(baseline, candidate, KINDS[i], rules)};
      }
    }
    state := if InvalidatesDrift in states then InvalidatesDrift
             else if InsufficientDrift in states then InsufficientDrift
             else if Warning in states then Warning
             else if Verified in states then Verified
             else NotAssessed;
    forall kind | Compared(baseline, candidate, kind)
      ensures StateAt(baseline, candidate, kind, rules) in states
    {
      KindsComplete(kind);
    }
  }

  /** Components that are present in both arms and not the same, with a rule that decides the difference. */
  ghost predicate Decided(b: Component, c: Component, kind: Kind, rules: set<Rule>) {
    && !b.coverage.Missing? && !c.coverage.Missing? && !b.coverage.ByteOnly? && !c.coverage.ByteOnly?
    && !(b.coverage.NotApplicable? && c.coverage.NotApplicable?)
    && !SameIdentity(b, c) && exists rule :: rule in rules && Decisive(kind, rule)
  }

  lemma InvalidatesMeansDecided(baseline: Protocol, candidate: Protocol, kind: Kind, rules: set<Rule>)
    ensures StateAt(baseline, candidate, kind, rules) == InvalidatesDrift <==>
      kind in baseline && kind in candidate && Decided(baseline[kind], candidate[kind], kind, rules)
  {
  }

  /** Rule by rule, which components a reported difference decides; no other rule decides any. */
  lemma DecidedKinds(rule: Rule, kind: Kind)
    ensures Decisive(kind, rule) <==>
      || rule == ConfigEvaluationMismatch
      || (rule == DatasetEvaluationMismatch && kind == EvaluationDataset)
      || (rule == BenchmarkWorkloadMismatch && kind == EvaluationDataset)
      || (rule == BenchmarkMetricMismatch && kind == Metric)
      || (rule == BenchmarkConfigMismatch && kind != EvaluationDataset && kind != Metric)
  {
    match kind {
      case EvaluationDataset =>
      case Metric =>
      case _ =>
    }
  }

  /** A component that both arms have, though one may be known by its bytes only. */
  predicate Known(b: Component, c: Component) {
    b.coverage != Missing && c.coverage != Missing && !(b.coverage == NotApplicable && c.coverage == NotApplicable)
  }

  predicate ByBytes(b: Component, c: Component) { b.coverage == ByteOnly || c.coverage == ByteOnly }

  /** When each state is reported of a component that is present in both protocols. */
  lemma StateMeaning(kind: Kind, b: Component, c: Component, rules: set<Rule>)
    ensures var state := ComponentState(kind, Some(b), Some(c), rules);
      && (state == Verified <==> Known(b, c) && !ByBytes(b, c) && b.coverage == c.coverage && b.fields == c.fields)
      && (state == Warning <==> Known(b, c) && ByBytes(b, c) && b.bindings != c.bindings)
      && (state == NotAssessed <==>
           || (b.coverage == NotApplicable && c.coverage == NotApplicable)
           || (Known(b, c) && ByBytes(b, c) && b.bindings == c.bindings))
      && (state == InvalidatesDrift <==>
           && Known(b, c) && !ByBytes(b, c) && (b.coverage != c.coverage || b.fields != c.fields)
           && exists rule :: rule in rules && Decisive(kind, rule))
  {
    hide Decisive;
  }

  /** A component that one protocol lacks is insufficient, and neither arm is preferred. */
  lemma StateIsSymmetric(kind: Kind, b: Option<Component>, c: Option<Component>, rules: set<Rule>)
    ensures ComponentState(kind, b, c, rules) == ComponentState(kind, c, b, rules)
    ensures b.None? || c.None? ==> ComponentState(kind, b, c, rules) == InsufficientDrift
  {
    hide Decisive;
  }

  lemma DecisiveInvalidates(kind: Kind, rule: Rule)
    requires Decisive(kind, rule)
    ensures ImpactOf(rule) == Invalidates
  {
  }

  lemma InvalidatingDrift(baseline: Protocol, candidate: Protocol, rules: set<Rule>, drift: DriftState)
    requires Worst(baseline, candidate, rules, drift) && drift == InvalidatesDrift
    ensures SomeInvalidates(rules)
  {
    var kind :| Compared(baseline, candidate, kind) && StateAt(baseline, candidate, kind, rules) == drift;
    InvalidatesMeansDecided(baseline, candidate, kind, rules);
    var rule :| rule in rules && Decisive(kind, rule);
    DecisiveInvalidates(kind, rule);
  }

  /** The drift report beside findings that each carry their rule's impact: whatever rule decides a component is
      reported by findings that invalidate, so a report that invalidates never accompanies another verdict. */
  method DriftBeside(findings: seq<Finding>, baseline: Protocol, candidate: Protocol) returns (drift: DriftState)
    requires Consistent(findings)
    ensures forall f, kind :: f in findings && Decisive(kind, f.rule) ==> f.impact == Invalidates
    ensures drift == InvalidatesDrift ==> DetermineVerdict(findings) == NotSupported
    ensures Worst(baseline, candidate, RuleSet(findings), drift)
  {
    hide Worst, AllHarmless, SomeInvalidates;
    var rules := set f | f in findings :: f.rule;
    drift := CompareProtocols(baseline, candidate, rules);
    assert rules == RuleSet(findings);
    VerdictByRules(findings);
    if drift == InvalidatesDrift {
      InvalidatingDrift(baseline, candidate, rules, drift);
    }
    forall f, kind | f in findings && Decisive(kind, f.rule) ensures f.impact == Invalidates {
      DecisiveInvalidates(kind, f.rule);
    }
  }
}
