/** Fairness of two experiment configurations: required fields, exact compute ratio, visible differences. */
module ConfigFairness {
  import opened Common
  import opened Decimals
  import opened Findings

  datatype Value =
    | Null
    | Bool(flag: bool)
    | Num(number: Dec)
    | Str(text: string)
    | List(items: seq<Value>)
    | Mapping(entries: map<string, Value>)

  type Config = map<string, Value>

  /** The value at a nested path, or None where a part is absent or its parent is not a mapping. */
  function Lookup(entries: Config, path: seq<string>): Option<Value>
    decreases |path|
  {
    if path == [] then Some(Mapping(entries))
    else if path[0] !in entries then None
    else if |path| == 1 then Some(entries[path[0]])
    else if !entries[path[0]].Mapping? then None
    else Lookup(entries[path[0]].entries, path[1..])
  }

  /** The walk of the source: one mapping per part, stopping at the first part that is not there. */
  method ReadValue(config: Config, path: seq<string>) returns (r: Option<Value>)
    ensures r == Lookup(config, path)
  {
    var current := Mapping(config);
    for i := 0 to |path|
      invariant current.Mapping? ==> Lookup(config, path) == Lookup(current.entries, path[i..])
      invariant !current.Mapping? ==> i > 0
      invariant !current.Mapping? && i == |path| ==> Lookup(config, path) == Some(current)
      invariant !current.Mapping? && i < |path| ==> Lookup(config, path) == None
    {
      if !current.Mapping? || path[i] !in current.entries {
        return None;
      }
      assert path[i..][1..] == path[i + 1..];
      current := current.entries[path[i]];
    }
    return Some(current);
  }

  predicate Whitespace(c: char) {
    c in {'\t', '\n', '\r', ' '} || c as int in {
      0x0B, 0x0C, 0x1C, 0x1D, 0x1E, 0x1F, 0x85, 0xA0, 0x1680, 0x2000, 0x2001, 0x2002, 0x2003, 0x2004, 0x2005,
      0x2006, 0x2007, 0x2008, 0x2009, 0x200A, 0x2028, 0x2029, 0x202F, 0x205F, 0x3000}
  }

  /** What `bool(text.strip())` asks. */
  predicate NonBlank(s: string) {
    exists i :: 0 <= i < |s| && !Whitespace(s[i])
  }

  function PositiveNumber(v: Option<Value>): Option<Dec> {
    match v
    case Some(Num(d)) => if d.coef > 0 then Some(d) else None
    case _ => None
  }

  predicate PresentScalar(v: Option<Value>) {
    match v
    case Some(Str(s)) => NonBlank(s)
    case Some(Num(_)) => true
    case _ => false
  }

  /** Python equality: a boolean equals the number it denotes, numbers compare by value. */
  predicate Equal(a: Value, b: Value)
    decreases a
  {
    match (a, b)
    case (Null, Null) => true
    case (Str(s), Str(t)) => s == t
    case (List(s), List(t)) => |s| == |t| && forall i :: 0 <= i < |s| ==> Equal(s[i], t[i])
    case (Mapping(m), Mapping(n)) => m.Keys == n.Keys && forall k :: k in m ==> Equal(m[k], n[k])
    case (Bool(_), Bool(_)) | (Bool(_), Num(_)) | (Num(_), Bool(_)) | (Num(_), Num(_)) =>
      SameValue(Numeric(a), Numeric(b))
    case _ => false
  }

  function Numeric(v: Value): Dec
    requires v.Bool? || v.Num?
  {
    if v.Num? then v.number else if v.flag then Dec(1, 0) else Dec(0, 0)
  }

  predicate EqualOrBothMissing(a: Option<Value>, b: Option<Value>) {
    match (a, b)
    case (None, None) => true
    case (Some(x), Some(y)) => Equal(x, y)
    case _ => false
  }

  lemma {:induction false} EqualReflexive(v: Value)
    ensures Equal(v, v)
    decreases v
  {
    match v {
      case List(items) =>
        forall i | 0 <= i < |items| ensures Equal(items[i], items[i]) { EqualReflexive(items[i]); }
      case Mapping(entries) =>
        forall k | k in entries ensures Equal(entries[k], entries[k]) { EqualReflexive(entries[k]); }
      case _ =>
    }
  }

  lemma {:induction false} EqualSymmetric(v: Value, w: Value)
    requires Equal(v, w)
    ensures Equal(w, v)
    decreases v
  {
    match (v, w) {
      case (List(a), List(b)) =>
        forall i | 0 <= i < |b| ensures Equal(b[i], a[i]) { EqualSymmetric(a[i], b[i]); }
      case (Mapping(a), Mapping(b)) =>
        forall k | k in b ensures Equal(b[k], a[k]) { EqualSymmetric(a[k], b[k]); }
      case _ =>
    }
  }

  lemma {:induction false} EqualTransitive(u: Value, v: Value, w: Value)
    requires Equal(u, v) && Equal(v, w)
    ensures Equal(u, w)
    decreases u
  {
    if u.List? {
      forall i | 0 <= i < |u.items| ensures Equal(u.items[i], w.items[i]) {
        EqualTransitive(u.items[i], v.items[i], w.items[i]);
      }
    } else if u.Mapping? {
      forall k | k in u.entries ensures Equal(u.entries[k], w.entries[k]) {
        EqualTransitive(u.entries[k], v.entries[k], w.entries[k]);
      }
    } else if u.Bool? || u.Num? {
      SameValueTransitive(Numeric(u), Numeric(v), Numeric(w));
    }
  }

  /** Booleans are the numbers one and zero, and equal to nothing else. */
  lemma BooleansAreNumbers(flag: bool, v: Value)
    ensures Equal(Bool(flag), v) <==>
      v == Bool(flag) || (v.Num? && SameValue(v.number, if flag then Dec(1, 0) else Dec(0, 0)))
  {
    SameValueSymmetric(Dec(0, 0), if v.Num? then v.number else Dec(0, 0));
    SameValueSymmetric(Dec(1, 0), if v.Num? then v.number else Dec(0, 0));
  }

  // ---------------------------------------------------------------- required fields

  datatype FieldKind = Positive | Present

  datatype Field = Field(path: seq<string>, kind: FieldKind)

  const REQUIRED_FIELDS: seq<Field> := [
    Field(["training_steps"], Positive), Field(["epochs"], Positive), Field(["batch_size"], Positive),
    Field(["dataset", "identifier"], Present), Field(["dataset", "version"], Present),
    Field(["evaluation", "dataset_identifier"], Present), Field(["evaluation", "dataset_version"], Present),
    Field(["evaluation", "split"], Present), Field(["model"], Present),
    Field(["learning_rate"], Positive)]

  predicate Declared(config: Config, field: Field) {
    var v := Lookup(config, field.path);
    if field.kind == Positive then PositiveNumber(v).Some? else PresentScalar(v)
  }

  /** Every documented field is there and usable. */
  predicate Complete(config: Config) {
    forall field :: field in REQUIRED_FIELDS ==> Declared(config, field)
  }

  /** The undeclared ones among the first n fields, in their order. */
  function Undeclared(config: Config, fields: seq<Field>, n: nat): seq<Field>
    requires n <= |fields|
  {
    if n == 0 then []
    else Undeclared(config, fields, n - 1) + if Declared(config, fields[n - 1]) then [] else [fields[n - 1]]
  }

  lemma {:induction false} UndeclaredAre(config: Config, fields: seq<Field>, n: nat)
    requires n <= |fields|
    ensures forall field :: field in Undeclared(config, fields, n) <==> field in fields[..n] && !Declared(config, field)
  {
    if n > 0 {
      UndeclaredAre(config, fields, n - 1);
      assert fields[..n] == fields[..n - 1] + [fields[n - 1]];
    }
  }

  /** The required fields that are absent or unusable, in the order in which they are listed. */
  method MissingOrInvalidFields(config: Config) returns (issues: seq<Field>)
    ensures issues == Undeclared(config, REQUIRED_FIELDS, |REQUIRED_FIELDS|)
    ensures issues == [] <==> Complete(config)
  {
    issues := FieldIssues(config, REQUIRED_FIELDS);
  }

  method FieldIssues(config: Config, fields: seq<Field>) returns (issues: seq<Field>)
    ensures issues == Undeclared(config, fields, |fields|)
    ensures issues == [] <==> forall field :: field in fields ==> Declared(config, field)
  {
    hide Declared;
    issues := [];
    for i := 0 to |fields|
      invariant issues == Undeclared(config, fields, i)
    {
      var v := ReadValue(config, fields[i].path);
      DeclaredIs(config, fields[i]);
      var declared := if fields[i].kind == Positive then PositiveNumber(v).Some? else PresentScalar(v);
      if !declared {
        issues := issues + [fields[i]];
      }
    }
    UndeclaredAre(config, fields, |fields|);
    assert fields[..|fields|] == fields;
    if issues != [] { assert issues[0] in issues; }
  }

  lemma DeclaredIs(config: Config, field: Field)
    ensures Declared(config, field) <==>
            var v := Lookup(config, field.path);
            if field.kind == Positive then PositiveNumber(v).Some? else PresentScalar(v)
  {
  }

  // ---------------------------------------------------------------- compute proxies

  datatype Basis = StepsTimesBatch | Steps | EpochsTimesBatch | Epochs

  const BASES: seq<Basis> := [StepsTimesBatch, Steps, EpochsTimesBatch, Epochs]

  function PositiveAt(config: Config, name: string): Option<Dec> {
    PositiveNumber(Lookup(config, [name]))
  }

  /** Product under a context whose precision is the sum of both digit counts. */
  function MultiplyExact(left: Dec, right: Dec): Dec {
    Rounded(ExactProduct(left, right), Max(1, DigitCount(left) + DigitCount(right)))
  }

  /** That precision is always enough: nothing is rounded away. */
  lemma MultiplyExactIsExact(left: Dec, right: Dec)
    ensures MultiplyExact(left, right) == ExactProduct(left, right)
  {
    ProductDigits(Abs(left.coef), Abs(right.coef));
    AbsProduct(left.coef, right.coef);
  }

  lemma AbsProduct(a: int, b: int)
    ensures Abs(a * b) == Abs(a) * Abs(b)
  {
    assert (-a) * b == -(a * b) && a * (-b) == -(a * b) && (-a) * (-b) == a * b;
    if a >= 0 && b >= 0 { assert a * b >= 0; }
    else if a < 0 && b < 0 { assert (-a) * (-b) >= 0; }
    else if a < 0 { assert (-a) * b >= 0; }
    else { assert a * (-b) >= 0; }
  }

  /** What a proxy stands for, over exact decimals. */
  function ExactProxy(config: Config, basis: Basis): Option<Dec> {
    var steps, epochs, batch :=
      PositiveAt(config, "training_steps"), PositiveAt(config, "epochs"), PositiveAt(config, "batch_size");
    match basis
    case StepsTimesBatch => if steps.Some? && batch.Some? then Some(ExactProduct(steps.value, batch.value)) else None
    case Steps => steps
    case EpochsTimesBatch => if epochs.Some? && batch.Some? then Some(ExactProduct(epochs.value, batch.value)) else None
    case Epochs => epochs
  }

  method ComputeProxies(config: Config) returns (proxies: map<Basis, Dec>)
    ensures forall basis :: basis in proxies <==> ExactProxy(config, basis).Some?
    ensures forall basis :: basis in proxies ==> proxies[basis] == ExactProxy(config, basis).value
  {
    var stepsValue := ReadValue(config, ["training_steps"]);
    var epochsValue := ReadValue(config, ["epochs"]);
    var batchValue := ReadValue(config, ["batch_size"]);
    var steps, epochs, batch := PositiveNumber(stepsValue), PositiveNumber(epochsValue), PositiveNumber(batchValue);
    proxies := map[];
    if steps.Some? && batch.Some? {
      MultiplyExactIsExact(steps.value, batch.value);
      proxies := proxies[StepsTimesBatch := MultiplyExact(steps.value, batch.value)];
    }
    if steps.Some? {
      proxies := proxies[Steps := steps.value];
    }
    if epochs.Some? && batch.Some? {
      MultiplyExactIsExact(epochs.value, batch.value);
      proxies := proxies[EpochsTimesBatch := MultiplyExact(epochs.value, batch.value)];
    }
    if epochs.Some? {
      proxies := proxies[Epochs := epochs.value];
    }
  }

  lemma ProxyPositive(config: Config, basis: Basis)
    requires ExactProxy(config, basis).Some?
    ensures ExactProxy(config, basis).value.coef > 0
  {
    var steps, epochs, batch :=
      PositiveAt(config, "training_steps"), PositiveAt(config, "epochs"), PositiveAt(config, "batch_size");
    if basis == StepsTimesBatch { MulAtLeast(steps.value.coef, batch.value.coef); }
    if basis == EpochsTimesBatch { MulAtLeast(epochs.value.coef, batch.value.coef); }
  }

  // ---------------------------------------------------------------- the printed ratio and the exact rule

  /** Digits kept for the ratio that findings print. */
  function EvidencePrecision(candidate: Dec, baseline: Dec): nat {
    Max(50, DigitCount(candidate) + DigitCount(baseline) + 10)
  }

  function RatioForEvidence(candidate: Dec, baseline: Dec): Dec
    requires candidate.coef > 0 && baseline.coef > 0
  {
    Quotient(candidate, baseline, EvidencePrecision(candidate, baseline))
  }

  datatype Ratio = Ratio(num: int, den: int)

  function AsIntegerRatio(d: Dec): Ratio {
    if d.exp >= 0 then Ratio(Shift(d.coef, d.exp), 1) else Ratio(d.coef, Shift(1, -d.exp))
  }

  /** r denotes d, in lowest terms or not. */
  ghost predicate Denotes(r: Ratio, d: Dec) {
    var e := Min(d.exp, 0);
    r.den > 0 && r.num * Shift(1, -e) == At(d, e) * r.den
  }

  predicate AtLeastRatio(candidate: Ratio, baseline: Ratio, threshold: Ratio) {
    candidate.num * baseline.den * threshold.den >= threshold.num * candidate.den * baseline.num
  }

  lemma AsIntegerRatioDenotes(d: Dec)
    ensures Denotes(AsIntegerRatio(d), d)
  {
    if d.exp < 0 { ShiftPositive(1, -d.exp); }
  }

  lemma DenotesLower(r: Ratio, d: Dec, e: int)
    requires Denotes(r, d) && e <= d.exp && e <= 0
    ensures r.num * Shift(1, -e) == At(d, e) * r.den
  {
    var m := Min(d.exp, 0);
    AtLower(d, m, e);
    ShiftShift(1, -m, m - e);
    ShiftTimes(r.num, Shift(1, -m), m - e);
    ShiftTimes(r.den, At(d, m), m - e);
    Commutes(r.den, At(d, m));
    Commutes(r.den, At(d, e));
  }

  lemma CrossProducts(cn: int, cd: int, bn: int, bd: int, p: int, c: int, b: int)
    requires cd > 0 && bd > 0 && p > 0
    requires cn * p == c * cd && bn * p == b * bd
    ensures cn * bd * 2 >= 3 * cd * bn <==> 2 * c >= 3 * b
  {
    var left, right, den := cn * bd * 2, 3 * cd * bn, cd * bd;
    assert left * p == (cn * p) * bd * 2 == (2 * c) * den;
    assert right * p == 3 * cd * (bn * p) == (3 * b) * den;
    assert den > 0 by { MulAtLeast(cd, bd); }
    MulOrder(left, right, p);
    MulOrder(2 * c, 3 * b, den);
  }

  /** The integer cross-product decides candidate >= 3/2 baseline exactly, whatever terms the ratios are in. */
  lemma AtLeastRatioIsExact(candidate: Dec, baseline: Dec, rc: Ratio, rb: Ratio)
    requires Denotes(rc, candidate) && Denotes(rb, baseline)
    ensures AtLeastRatio(rc, rb, Ratio(3, 2)) <==> !Below(candidate, ExactProduct(THREE_HALVES, baseline))
  {
    var e := Min(Min(candidate.exp, baseline.exp), 0);
    DenotesLower(rc, candidate, e);
    DenotesLower(rb, baseline, e);
    ShiftPositive(1, -e);
    CrossProducts(rc.num, rc.den, rb.num, rb.den, Shift(1, -e), At(candidate, e), At(baseline, e));
    var bound := ExactProduct(THREE_HALVES, baseline);
    CompareAt(candidate, bound, e - 1);
    AtLower(candidate, e, e - 1);
    ShiftTimes(15, baseline.coef, baseline.exp - e);
    assert At(bound, e - 1) == 15 * At(baseline, e);
    assert At(candidate, e - 1) == 10 * At(candidate, e);
  }

  /** The printed ratio is on the same side of 3/2 as the exact rule, and equals 3/2 only when the rule does. */
  lemma EvidenceAgreesWithRule(candidate: Dec, baseline: Dec)
    requires candidate.coef > 0 && baseline.coef > 0
    ensures var ratio := RatioForEvidence(candidate, baseline);
            var bound := ExactProduct(THREE_HALVES, baseline);
            && (Below(ratio, THREE_HALVES) <==> Below(candidate, bound))
            && (Below(THREE_HALVES, ratio) <==> Below(bound, candidate))
            && (SameValue(ratio, THREE_HALVES) <==> SameValue(candidate, bound))
  {
    var prec := EvidencePrecision(candidate, baseline);
    ShiftPositive(candidate.coef, Max(candidate.exp - baseline.exp, 0));
    ShiftPositive(baseline.coef, Max(baseline.exp - candidate.exp, 0));
    DigitsBound(candidate.coef);
    DigitsBound(baseline.coef);
    ShiftGrows(1, DigitCount(candidate), prec - 1);
    ShiftGrows(1, DigitCount(baseline), prec - 1);
    RoundedRatioSide(RatioNum(candidate, baseline), RatioDen(candidate, baseline), prec);
    RatioQuestion(candidate, baseline);
    BelowTrichotomy(RatioForEvidence(candidate, baseline), THREE_HALVES);
    BelowTrichotomy(candidate, ExactProduct(THREE_HALVES, baseline));
  }

  // ---------------------------------------------------------------- the comparison

  ghost predicate Comparable(baseline: Config, candidate: Config, basis: Basis) {
    ExactProxy(baseline, basis).Some? && ExactProxy(candidate, basis).Some?
  }

  /** The first basis both arms declare. */
  ghost predicate CommonBasis(baseline: Config, candidate: Config, i: nat) {
    && i < |BASES| && Comparable(baseline, candidate, BASES[i])
    && forall j :: 0 <= j < i ==> !Comparable(baseline, candidate, BASES[j])
  }

  /** On the common basis the candidate spends at least 3/2 of the baseline, exactly. */
  ghost predicate ComputeTooLarge(baseline: Config, candidate: Config) {
    exists i: nat :: CommonBasis(baseline, candidate, i) &&
      !Below(ExactProxy(candidate, BASES[i]).value, ExactProduct(THREE_HALVES, ExactProxy(baseline, BASES[i]).value))
  }

  predicate EvaluationComplete(config: Config) {
    && PresentScalar(Lookup(config, ["evaluation", "dataset_identifier"]))
    && PresentScalar(Lookup(config, ["evaluation", "dataset_version"]))
    && PresentScalar(Lookup(config, ["evaluation", "split"]))
  }

  predicate Differs(baseline: Config, candidate: Config, path: seq<string>) {
    !EqualOrBothMissing(Lookup(baseline, path), Lookup(candidate, path))
  }

  predicate FieldsMissing(baseline: Config, candidate: Config) {
    !Complete(baseline) || !Complete(candidate)
  }

  predicate EvaluationDiffers(baseline: Config, candidate: Config) {
    EvaluationComplete(baseline) && EvaluationComplete(candidate) && Differs(baseline, candidate, ["evaluation"])
  }

  predicate TrainingDatasetDiffers(baseline: Config, candidate: Config) {
    Differs(baseline, candidate, ["dataset", "identifier"]) || Differs(baseline, candidate, ["dataset", "version"])
  }

  predicate ParametersDiffer(baseline: Config, candidate: Config) {
    || Differs(baseline, candidate, ["training_steps"])
    || Differs(baseline, candidate, ["epochs"])
    || Differs(baseline, candidate, ["batch_size"])
  }

  predicate LearningRateDiffers(baseline: Config, candidate: Config) {
    Differs(baseline, candidate, ["learning_rate"])
  }

  predicate ModelDiffers(baseline: Config, candidate: Config) {
    Differs(baseline, candidate, ["model"])
  }

  /** Exactly the rules a pair of configurations deserves. */
  ghost function Deserved(baseline: Config, candidate: Config): set<Rule> {
    RulesFor(
      FieldsMissing(baseline, candidate), ComputeTooLarge(baseline, candidate), EvaluationDiffers(baseline, candidate),
      TrainingDatasetDiffers(baseline, candidate), ParametersDiffer(baseline, candidate),
      LearningRateDiffers(baseline, candidate), ModelDiffers(baseline, candidate))
  }

  ghost function RulesFor(missing: bool, compute: bool, evaluation: bool, dataset: bool, parameters: bool,
                          learningRate: bool, model: bool): set<Rule> {
    var differences :=
      Pick(missing, ConfigMissingFields) + Pick(compute, ConfigComputeMismatch)
      + Pick(evaluation, ConfigEvaluationMismatch) + Pick(dataset, ConfigTrainingDatasetMismatch)
      + Pick(parameters && !compute, ConfigTrainingParameterDifference)
      + Pick(learningRate, ConfigLearningRateDifference) + Pick(model, ConfigModelDifference);
    differences + Pick(differences == {}, ConfigFairnessVerified)
  }

  /** Which differences forbid support, and which ones invalidate. */
  lemma RulesMeaning(missing: bool, compute: bool, evaluation: bool, dataset: bool, parameters: bool,
                     learningRate: bool, model: bool)
    ensures var rules := RulesFor(missing, compute, evaluation, dataset, parameters, learningRate, model);
            && ((forall r :: r in rules ==> ImpactOf(r) == Harmless) <==> !missing && !compute && !evaluation)
            && ((exists r :: r in rules && ImpactOf(r) == Invalidates) <==> compute || evaluation)
  {
    var rules := RulesFor(missing, compute, evaluation, dataset, parameters, learningRate, model);
    assert missing ==> ConfigMissingFields in rules;
    assert compute ==> ConfigComputeMismatch in rules;
    assert evaluation ==> ConfigEvaluationMismatch in rules;
  }

  method SelectBasis(baseline: map<Basis, Dec>, candidate: map<Basis, Dec>) returns (basis: Option<Basis>)
    ensures basis.None? ==> forall j :: 0 <= j < |BASES| ==> BASES[j] !in baseline || BASES[j] !in candidate
    ensures basis.Some? ==> exists i ::
      && 0 <= i < |BASES| && BASES[i] == basis.value
      && basis.value in baseline && basis.value in candidate
      && forall j :: 0 <= j < i ==> BASES[j] !in baseline || BASES[j] !in candidate
  {
    for i := 0 to |BASES|
      invariant forall j :: 0 <= j < i ==> BASES[j] !in baseline || BASES[j] !in candidate
    {
      if BASES[i] in baseline && BASES[i] in candidate {
        return Some(BASES[i]);
      }
    }
    return None;
  }

  /** The first basis that both arms declare, and the rounded ratio of what they spend on it. */
  ghost predicate BasisIs(baseline: Config, candidate: Config, basis: Option<Basis>, ratio: Option<Dec>) {
    && (basis.Some? <==> exists i: nat :: CommonBasis(baseline, candidate, i))
    && (forall i: nat :: CommonBasis(baseline, candidate, i) ==> basis == Some(BASES[i]))
    && (ratio.Some? <==> basis.Some?)
    && (ratio.Some? ==> (ComputeTooLarge(baseline, candidate) <==> !Below(ratio.value, THREE_HALVES)))
  }

  /** The printed ratio and the compute rule, from the proxies both arms declare. */
  method CompareCompute(baseline: Config, candidate: Config)
    returns (basis: Option<Basis>, ratio: Option<Dec>, mismatch: bool)
    ensures mismatch <==> ComputeTooLarge(baseline, candidate)
    ensures BasisIs(baseline, candidate, basis, ratio)
  {
    var baselineProxies := ComputeProxies(baseline);
    var candidateProxies := ComputeProxies(candidate);
    basis := SelectBasis(baselineProxies, candidateProxies);
    if basis.None? {
      return None, None, false;
    }
    var b, c := baselineProxies[basis.value], candidateProxies[basis.value];
    ProxyPositive(baseline, basis.value);
    ProxyPositive(candidate, basis.value);
    AsIntegerRatioDenotes(b);
    AsIntegerRatioDenotes(c);
    AtLeastRatioIsExact(c, b, AsIntegerRatio(c), AsIntegerRatio(b));
    EvidenceAgreesWithRule(c, b);
    ratio, mismatch := Some(RatioForEvidence(c, b)), AtLeastRatio(AsIntegerRatio(c), AsIntegerRatio(b), Ratio(3, 2));
    ghost var i :| 0 <= i < |BASES| && BASES[i] == basis.value
      && forall j :: 0 <= j < i ==> BASES[j] !in baselineProxies || BASES[j] !in candidateProxies;
    CommonBasisIs(baseline, candidate, i);
  }

  lemma CommonBasisIs(baseline: Config, candidate: Config, i: nat)
    requires i < |BASES| && Comparable(baseline, candidate, BASES[i])
    requires forall j :: 0 <= j < i ==> !Comparable(baseline, candidate, BASES[j])
    ensures CommonBasis(baseline, candidate, i)
    ensures ComputeTooLarge(baseline, candidate) <==>
      !Below(ExactProxy(candidate, BASES[i]).value, ExactProduct(THREE_HALVES, ExactProxy(baseline, BASES[i]).value))
  {
    assert CommonBasis(baseline, candidate, i);
    assert forall k: nat :: CommonBasis(baseline, candidate, k) ==> k == i;
  }

  /** What the findings print beside their rules. */
  datatype ConfigEvidence = ConfigEvidence(baselineIssues: seq<Field>, candidateIssues: seq<Field>,
                                           basis: Option<Basis>, ratio: Option<Dec>)

  /** The undeclared required fields of both arms in their order, the common basis and the ratio. */
  ghost predicate EvidenceIs(baseline: Config, candidate: Config, evidence: ConfigEvidence) {
    && evidence.baselineIssues == Undeclared(baseline, REQUIRED_FIELDS, |REQUIRED_FIELDS|)
    && evidence.candidateIssues == Undeclared(candidate, REQUIRED_FIELDS, |REQUIRED_FIELDS|)
    && BasisIs(baseline, candidate, evidence.basis, evidence.ratio)
  }

  /** The deserved rules in the order in which they are reported. */
  ghost function OrderedRules(baseline: Config, candidate: Config): seq<Rule> {
    var differences :=
      OneIf(FieldsMissing(baseline, candidate), ConfigMissingFields)
      + OneIf(ComputeTooLarge(baseline, candidate), ConfigComputeMismatch)
      + OneIf(EvaluationDiffers(baseline, candidate), ConfigEvaluationMismatch)
      + OneIf(TrainingDatasetDiffers(baseline, candidate), ConfigTrainingDatasetMismatch)
      + OneIf(ParametersDiffer(baseline, candidate) && !ComputeTooLarge(baseline, candidate),
              ConfigTrainingParameterDifference)
      + OneIf(LearningRateDiffers(baseline, candidate), ConfigLearningRateDifference)
      + OneIf(ModelDiffers(baseline, candidate), ConfigModelDifference);
    if differences == [] then [ConfigFairnessVerified] else differences
  }

  /** The rules reported are exactly the deserved ones, each once, in order and with its fixed impact; the issues are
      the fields at fault, and the ratio that findings print is on the side of 3/2 that the compute rule says. */
  method CheckConfigs(baseline: Config, candidate: Config) returns (findings: seq<Finding>, evidence: ConfigEvidence)
    ensures RuleSet(findings) == Deserved(baseline, candidate) && Consistent(findings)
    ensures RuleList(findings) == OrderedRules(baseline, candidate)
    ensures EvidenceIs(baseline, candidate, evidence)
  {
    hide RuleSet, RuleList, Consistent, ComputeTooLarge, FieldsMissing, EvidenceIs;
    var mismatch;
    findings, evidence, mismatch := ReportCritical(baseline, candidate);
    findings := ReportDatasets(findings, EvaluationDiffers(baseline, candidate),
      TrainingDatasetDiffers(baseline, candidate));
    findings := ReportVisible(findings, ParametersDiffer(baseline, candidate) && !mismatch,
                              LearningRateDiffers(baseline, candidate), ModelDiffers(baseline, candidate));
  }

  method ReportCritical(baseline: Config, candidate: Config)
    returns (findings: seq<Finding>, evidence: ConfigEvidence, mismatch: bool)
    ensures Consistent(findings)
    ensures RuleSet(findings) == Pick(FieldsMissing(baseline, candidate), ConfigMissingFields)
                                 + Pick(mismatch, ConfigComputeMismatch)
    ensures RuleList(findings) == OneIf(FieldsMissing(baseline, candidate), ConfigMissingFields)
                                  + OneIf(mismatch, ConfigComputeMismatch)
    ensures mismatch <==> ComputeTooLarge(baseline, candidate)
    ensures EvidenceIs(baseline, candidate, evidence)
  {
    hide BasisIs, ComputeTooLarge, Declared, Complete;
    findings := [];
    var baselineIssues := MissingOrInvalidFields(baseline);
    var candidateIssues := MissingOrInvalidFields(candidate);
    if baselineIssues != [] || candidateIssues != [] {
      findings := Report(findings, ConfigMissingFields, Insufficient);
    }
    var basis, ratio;
    basis, ratio, mismatch := CompareCompute(baseline, candidate);
    if mismatch {
      findings := Report(findings, ConfigComputeMismatch, Invalidates);
    }
    evidence := ConfigEvidence(baselineIssues, candidateIssues, basis, ratio);
  }

  method ReportDatasets(before: seq<Finding>, evaluation: bool, dataset: bool) returns (findings: seq<Finding>)
    requires Consistent(before)
    ensures Consistent(findings)
    ensures RuleSet(findings) == RuleSet(before) + Pick(evaluation, ConfigEvaluationMismatch)
                                 + Pick(dataset, ConfigTrainingDatasetMismatch)
    ensures RuleList(findings) == RuleList(before) + OneIf(evaluation, ConfigEvaluationMismatch)
                                  + OneIf(dataset, ConfigTrainingDatasetMismatch)
  {
    hide RuleSet, RuleList, Consistent;
    findings := before;
    if evaluation {
      findings := Report(findings, ConfigEvaluationMismatch, Invalidates);
    }
    if dataset {
      findings := Report(findings, ConfigTrainingDatasetMismatch, Harmless);
    }
  }

  /** The visible differences that never invalidate, and the all-clear when nothing at all was reported. */
  method ReportVisible(before: seq<Finding>, parameters: bool, learningRate: bool, model: bool)
    returns (findings: seq<Finding>)
    requires Consistent(before)
    ensures Consistent(findings)
    ensures var differences := RuleSet(before) + Pick(parameters, ConfigTrainingParameterDifference)
              + Pick(learningRate, ConfigLearningRateDifference) + Pick(model, ConfigModelDifference);
            RuleSet(findings) == differences + Pick(differences == {}, ConfigFairnessVerified)
    ensures var differences := RuleList(before) + OneIf(parameters, ConfigTrainingParameterDifference)
              + OneIf(learningRate, ConfigLearningRateDifference) + OneIf(model, ConfigModelDifference);
            RuleList(findings) == if differences == [] then [ConfigFairnessVerified] else differences
  {
    hide RuleSet, RuleList, Consistent;
    findings := before;
    if parameters {
      findings := Report(findings, ConfigTrainingParameterDifference, Harmless);
    }
    if learningRate {
      findings := Report(findings, ConfigLearningRateDifference, Harmless);
    }
    if model {
      findings := Report(findings, ConfigModelDifference, Harmless);
    }
    NothingReported(findings);
    if findings == [] {
      findings := Report(findings, ConfigFairnessVerified, Harmless);
    }
  }

  lemma NothingReported(findings: seq<Finding>)
    ensures findings == [] <==> RuleSet(findings) == {}
    ensures findings == [] <==> RuleList(findings) == []
  {
    if findings != [] {
      assert findings[0].rule in RuleSet(findings);
    }
  }

  /** On two complete configurations the compute rule is: candidate steps * batch >= 3/2 baseline steps * batch. */
  lemma ComputeRuleOnCompleteConfigs(baseline: Config, candidate: Config)
    requires Complete(baseline) && Complete(candidate)
    ensures PositiveAt(baseline, "training_steps").Some? && PositiveAt(baseline, "batch_size").Some?
    ensures PositiveAt(candidate, "training_steps").Some? && PositiveAt(candidate, "batch_size").Some?
    ensures
      var bs, bb := PositiveAt(baseline, "training_steps").value, PositiveAt(baseline, "batch_size").value;
      var cs, cb := PositiveAt(candidate, "training_steps").value, PositiveAt(candidate, "batch_size").value;
      ComputeTooLarge(baseline, candidate) <==>
      var e := Min(cs.exp + cb.exp, bs.exp + bb.exp);
      2 * At(ExactProduct(cs, cb), e) >= 3 * At(ExactProduct(bs, bb), e)
  {
    assert REQUIRED_FIELDS[0] in REQUIRED_FIELDS && REQUIRED_FIELDS[2] in REQUIRED_FIELDS;
    CommonBasisIs(baseline, candidate, 0);
    var b, c := ExactProxy(baseline, StepsTimesBatch).value, ExactProxy(candidate, StepsTimesBatch).value;
    var e := Min(c.exp, b.exp);
    var bound := ExactProduct(THREE_HALVES, b);
    CompareAt(c, bound, e - 1);
    AtLower(c, e, e - 1);
    ShiftTimes(15, b.coef, b.exp - e);
  }
}
