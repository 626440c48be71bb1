/** Recovery of the ten measurement components of one arm from its configuration and its evaluation records, and
    what the comparison of two such arms can say. */
module MeasurementRecovery {
  import opened Common
  import opened Findings
  import opened ConfigFairness
  import opened DatasetIdentity
  import opened EvaluationFlattening
  import opened MeasurementDrift

  type Evaluation = map<string, Value>

  const MAX_FIELDS: nat := 32

  const PREFIX := "evaluation."

  predicate Alphanumeric(c: char) { 'a' <= c <= 'z' || 'A' <= c <= 'Z' || '0' <= c <= '9' }

  predicate CanonicalId(s: string) {
    && 1 <= |s| <= 256 && Alphanumeric(s[0])
    && forall i :: 0 <= i < |s| ==> Alphanumeric(s[i]) || s[i] in "._:/+-"
  }

  // ---------------------------------------------------------------- components

  /** At most 32 fields, all with canonical names; the plain names always are. */
  predicate FieldsFit(fields: Fields) {
    |fields| <= MAX_FIELDS && forall key :: key in fields && key.OfEvaluation? ==> CanonicalId(PREFIX + key.key)
  }

  function ComponentFrom(values: Option<Fields>, bindings: seq<string>, required: bool): Component {
    if values.Some? && values.value != map[] && FieldsFit(values.value) then
      Component(Recovered, values.value, bindings)
    else if required then Component(Missing, map[], bindings)
    else Component(NotApplicable, map[], [])
  }

  /** A component is recovered exactly from fields within bounds; without them a required one is missing and an optional
      one is not applicable, and neither has fields. */
  lemma RecoveryMeaning(values: Option<Fields>, bindings: seq<string>, required: bool)
    ensures var component := ComponentFrom(values, bindings, required);
      && (component.coverage == Recovered <==> values.Some? && values.value != map[] && FieldsFit(values.value))
      && (component.coverage == Recovered ==> component.fields == values.value && component.bindings == bindings)
      && (component.coverage != Recovered ==>
           component == if required then Component(Missing, map[], bindings) else Component(NotApplicable, map[], []))
  {
    hide FieldsFit;
  }

  function TokensOf(kind: Kind): seq<string> {
    match kind
    case EvaluatorImplementation => ["evaluator", "scorer"]
    case PromptTemplate => ["prompt", "prompt_template", "template"]
    case DecodingParameters => ["decoding", "sampling"]
    case TestSelection => ["test_selection", "selection", "subset", "filter"]
    case RetryAggregation => ["aggregation", "aggregation_procedure", "retry", "adjudication"]
    case Normalization => ["normalization", "postprocessing", "postprocess"]
    case BenchmarkVersion => ["benchmark"]
    case _ => []
  }

  const METRIC_KEYS: seq<string> := ["metric", "metric_name", "metric_definition", "metric_version"]

  /** Which entries of the flattened evaluation a component takes up. */
  predicate Selects(kind: Kind, key: string) {
    match kind
    case Metric => key in METRIC_KEYS || "metric_config." <= key
    case EvaluationConfig => true
    case _ => exists token :: token in TokensOf(kind) && (key == token || token + "." <= key)
  }

  function Selected(evaluation: Evaluation, kind: Kind): Fields {
    map key | key in evaluation && Selects(kind, key) :: OfEvaluation(key) := Declared(evaluation[key])
  }

  function FieldsOf(kind: Kind, metric: string, evaluation: Option<Evaluation>,
                    dataset: Option<Fields>): Option<Fields> {
    match kind
    case Metric =>
      Some(map[Plain("name") := Declared(Str(metric))]
        + if evaluation.Some? then Selected(evaluation.value, kind) else map[])
    case EvaluationDataset => dataset
    case _ => if evaluation.Some? then Some(Selected(evaluation.value, kind)) else None
  }

  predicate Required(kind: Kind) { kind.Metric? || kind.EvaluationDataset? || kind.EvaluationConfig? }

  function ComponentOf(kind: Kind, metric: string, evaluation: Option<Evaluation>, dataset: Option<Fields>,
                       bindings: seq<string>): Component {
    ComponentFrom(FieldsOf(kind, metric, evaluation, dataset), bindings, Required(kind))
  }

  // ---------------------------------------------------------------- the evaluation-dataset component

  function Declaration(evaluation: Evaluation, name: string): Option<Value> {
    if name in evaluation then Some(evaluation[name]) else None
  }

  const DECLARATIONS: seq<string> := ["dataset_identifier", "dataset_version", "split"]

  /** The three declarations are there and usable. */
  predicate Usable(evaluation: Evaluation) {
    forall name :: name in DECLARATIONS ==> PresentScalar(Declaration(evaluation, name))
  }

  function DatasetFields(identifier: Value, version: Value, split: Value, id: Identity): Fields {
    map[Plain("declared_identifier") := Declared(identifier), Plain("declared_version") := Declared(version),
        Plain("declared_split") := Declared(split), Plain("record_count") := Count(id.recordCount),
        Plain("record_multiset_sha256") := Digest(id.commitment)]
  }

  function DeclaredFields(evaluation: Evaluation, id: Identity): Fields
    requires Usable(evaluation)
  {
    assert DECLARATIONS[0] in DECLARATIONS && DECLARATIONS[1] in DECLARATIONS && DECLARATIONS[2] in DECLARATIONS;
    DatasetFields(evaluation[DECLARATIONS[0]], evaluation[DECLARATIONS[1]], evaluation[DECLARATIONS[2]], id)
  }

  /** A hexadecimal digest of full length. */
  predicate ShaText(s: string) { |s| == 64 && Hexadecimal(s) }

  predicate ShaTexts(hashes: seq<string>) { forall i :: 0 <= i < |hashes| ==> ShaText(hashes[i]) }

  /** The record multiset behind what recovery is handed: the hashes of a file, or the identity of a complete scan. */
  ghost predicate Available(hashes: Option<seq<string>>, identity: Option<Identity>,
                            records: Option<multiset<string>>) {
    match (hashes, identity)
    case (Some(h), _) => records == if h != [] && ShaTexts(h) then Some(multiset(h)) else None
    case (None, Some(id)) => records.Some? && Identifies(id, records.value)
    case (None, None) => records.None?
  }

  /** The hashes of a file are usable when there is one and each is a full SHA-256 in small hexadecimal digits. */
  lemma HashesMean(hashes: seq<string>, identity: Option<Identity>, records: Option<multiset<string>>)
    requires Available(Some(hashes), identity, records)
    ensures records.Some? <==>
      hashes != [] && forall i :: 0 <= i < |hashes| ==>
        |hashes[i]| == 64 && forall k :: 0 <= k < 64 ==> '0' <= hashes[i][k] <= '9' || 'a' <= hashes[i][k] <= 'f'
    ensures records.Some? ==> records.value == multiset(hashes)
  {
    if hashes != [] && forall i :: 0 <= i < |hashes| ==>
        |hashes[i]| == 64 && forall k :: 0 <= k < 64 ==> '0' <= hashes[i][k] <= '9' || 'a' <= hashes[i][k] <= 'f' {
      forall i | 0 <= i < |hashes| ensures ShaText(hashes[i]) {
        assert |hashes[i]| == 64;
      }
    }
  }

  ghost predicate ReadsDataset(evaluation: Option<Evaluation>, records: Option<multiset<string>>,
                               dataset: Option<Fields>) {
    && (dataset.Some? <==> evaluation.Some? && Usable(evaluation.value) && records.Some?)
    && (dataset.Some? ==> exists id: Identity ::
         Identifies(id, records.value) && dataset.value == DeclaredFields(evaluation.value, id))
  }

  datatype Ambiguous = Ambiguous

  /** `_dataset_values`: handing over both hashes and an identity is a programming error. */
  method DatasetValues(evaluation: Option<Evaluation>, hashes: Option<seq<string>>, identity: Option<Identity>,
                       ghost records: Option<multiset<string>>)
    returns (r: Result<Option<Fields>, Ambiguous>)
    requires Available(hashes, identity, records)
    ensures r.Err? <==> evaluation.Some? && Usable(evaluation.value) && hashes.Some? && identity.Some?
    ensures r.Ok? ==> ReadsDataset(evaluation, records, r.value)
  {
    if evaluation.None? || (hashes.None? && identity.None?) || !Usable(evaluation.value) {
      return Ok(None);
    }
    if identity.Some? {
      if hashes.Some? {
        return Err(Ambiguous);
      }
      return Ok(Some(DeclaredFields(evaluation.value, identity.value)));
    }
    if hashes.value == [] || !ShaTexts(hashes.value) {
      return Ok(None);
    }
    var id := InMemoryIdentity(hashes.value);
    return Ok(Some(DeclaredFields(evaluation.value, id)));
  }

  // ---------------------------------------------------------------- one arm

  /** An arm as recovery sees it: its configuration, its flattened evaluation, its records and its dataset fields. */
  datatype Arm = Arm(config: Option<Config>, evaluation: Option<Evaluation>, records: Option<multiset<string>>,
                     dataset: Option<Fields>)

  ghost predicate ReadsEvaluation(config: Option<Config>, evaluation: Option<Evaluation>) {
    && (evaluation.Some? <==> config.Some? && HasEvaluation(config.value) && Accepts(EvaluationOf(config.value)))
    && (evaluation.Some? ==> Flattens(evaluation.value, EvaluationOf(config.value)))
  }

  ghost predicate RecoveredArm(arm: Arm) {
    && ReadsEvaluation(arm.config, arm.evaluation) && ReadsDataset(arm.evaluation, arm.records, arm.dataset)
    && (arm.records.Some? ==> HexDigests(arm.records.value))
  }

  /** Every kind is represented, each component as recovered from the arm. */
  ghost predicate ProtocolOf(protocol: Protocol, arm: Arm, metric: string, bindings: Kind -> seq<string>) {
    forall kind: Kind :: kind in protocol &&
      protocol[kind] == ComponentOf(kind, metric, arm.evaluation, arm.dataset, bindings(kind))
  }

  /** `_recover_protocol` of one arm. */
  method RecoverProtocol(metric: string, config: Option<Config>, hashes: Option<seq<string>>,
                         identity: Option<Identity>, bindings: Kind -> seq<string>,
                         ghost records: Option<multiset<string>>)
    returns (r: Result<Protocol, Ambiguous>, ghost arm: Arm)
    requires Available(hashes, identity, records)
    requires records.Some? ==> HexDigests(records.value)
    ensures hashes.None? || identity.None? ==> r.Ok?
    ensures r.Ok? ==> RecoveredArm(arm) && ProtocolOf(r.value, arm, metric, bindings)
    ensures r.Ok? ==> arm.config == config && arm.records == records
  {
    hide Available, ReadsDataset, Flattens, Accepts, ComponentOf;
    var evaluation := FlattenEvaluation(config);
    var dataset := DatasetValues(evaluation, hashes, identity, records);
    if dataset.Err? {
      return Err(Ambiguous), Arm(config, evaluation, records, None);
    }
    arm := Arm(config, evaluation, records, dataset.value);
    var protocol: Protocol := map[];
    for i := 0 to |KINDS|
      invariant forall j :: 0 <= j < i ==> KINDS[j] in protocol
      invariant forall kind :: kind in protocol ==>
        protocol[kind] == ComponentOf(kind, metric, evaluation, dataset.value, bindings(kind))
    {
      protocol := protocol[KINDS[i] := ComponentOf(KINDS[i], metric, evaluation, dataset.value, bindings(KINDS[i]))];
    }
    forall kind: Kind ensures kind in protocol {
      KindsComplete(kind);
    }
    r := Ok(protocol);
  }

  // ---------------------------------------------------------------- sizes and identities

  /** The whole flattened evaluation fits one component. */
  predicate EvaluationFits(evaluation: Evaluation) {
    |evaluation| <= MAX_FIELDS && forall key :: key in evaluation ==> CanonicalId(PREFIX + key)
  }

  lemma {:induction false} ImageSize(keys: set<string>)
    ensures |set key | key in keys :: OfEvaluation(key)| == |keys|
  {
    var image := set key | key in keys :: OfEvaluation(key);
    if keys == {} {
      assert image == {};
    } else {
      var any := AMember(keys);
      var rest := keys - {any};
      ImageSize(rest);
      assert image == (set key | key in rest :: OfEvaluation(key)) + {OfEvaluation(any)};
    }
  }

  /** A selection has as many fields as entries that it takes up. */
  lemma SelectionSize(evaluation: Evaluation, kind: Kind)
    ensures |Selected(evaluation, kind)| == |set key | key in evaluation && Selects(kind, key)| <= |evaluation|
  {
    hide Selects;
    var keys := set key | key in evaluation && Selects(kind, key);
    ImageSize(keys);
    assert Selected(evaluation, kind).Keys == set key | key in keys :: OfEvaluation(key);
    SubsetSize(keys, evaluation.Keys);
  }

  lemma WholeSelection(evaluation: Evaluation)
    ensures forall key :: key in evaluation <==> OfEvaluation(key) in Selected(evaluation, EvaluationConfig)
    ensures FieldsFit(Selected(evaluation, EvaluationConfig)) <==> EvaluationFits(evaluation)
  {
    hide CanonicalId;
    SelectionSize(evaluation, EvaluationConfig);
    assert evaluation.Keys == set key | key in evaluation && Selects(EvaluationConfig, key);
    forall key | key in evaluation ensures OfEvaluation(key) in Selected(evaluation, EvaluationConfig) {}
  }

  lemma SelectionInjective(a: Evaluation, b: Evaluation)
    requires Selected(a, EvaluationConfig) == Selected(b, EvaluationConfig)
    ensures a == b
  {
    hide CanonicalId, EvaluationFits, FieldsFit;
    WholeSelection(a);
    WholeSelection(b);
    forall key | key in a ensures key in b && a[key] == b[key] {
      assert Selected(a, EvaluationConfig)[OfEvaluation(key)] == Declared(a[key]);
      assert Selected(b, EvaluationConfig)[OfEvaluation(key)] == Declared(b[key]);
    }
    forall key | key in b ensures key in a {
      assert OfEvaluation(key) in Selected(b, EvaluationConfig);
    }
  }

  lemma SelectionFits(evaluation: Evaluation, kind: Kind)
    requires EvaluationFits(evaluation)
    ensures FieldsFit(Selected(evaluation, kind))
  {
    hide CanonicalId, Selects;
    SelectionSize(evaluation, kind);
  }

  lemma UsableKeys(evaluation: Evaluation)
    requires Usable(evaluation)
    ensures DECLARATIONS[0] in evaluation && evaluation != map[]
    ensures !Selects(Metric, DECLARATIONS[0])
  {
    assert DECLARATIONS[0] in DECLARATIONS;
    assert DECLARATIONS[0][0] == 'd';
    assert METRIC_KEYS[0][0] == METRIC_KEYS[1][0] == METRIC_KEYS[2][0] == METRIC_KEYS[3][0] == 'm';
    assert "metric_config."[0] == 'm';
  }

  lemma RoomForName(evaluation: Evaluation)
    requires |evaluation| <= MAX_FIELDS && Usable(evaluation)
    ensures |Selected(evaluation, Metric)| < MAX_FIELDS
  {
    hide Selects, Usable, Selected;
    SelectionSize(evaluation, Metric);
    UsableKeys(evaluation);
    var taken := set key | key in evaluation && Selects(Metric, key);
    var others := evaluation.Keys - {DECLARATIONS[0]};
    SubsetSize(taken, others);
    assert |others| == |evaluation.Keys| - 1 == |evaluation| - 1;
  }

  lemma NameFits(metric: string, selected: Fields)
    requires Plain("name") !in selected && |selected| < MAX_FIELDS && FieldsFit(selected)
    ensures var fields: Fields := map[Plain("name") := Declared(Str(metric))] + selected;
            fields != map[] && FieldsFit(fields)
  {
    hide CanonicalId;
    var fields: Fields := map[Plain("name") := Declared(Str(metric))] + selected;
    assert Plain("name") in fields && fields.Keys == {Plain("name")} + selected.Keys;
  }

  lemma SelectedNoName(evaluation: Evaluation, kind: Kind)
    ensures Plain("name") !in Selected(evaluation, kind)
  {
  }

  /** A usable evaluation that fits leaves room for the metric's name among its fields. */
  lemma MetricFits(metric: string, evaluation: Evaluation, dataset: Option<Fields>)
    requires EvaluationFits(evaluation) && Usable(evaluation)
    ensures var fields := FieldsOf(Metric, metric, Some(evaluation), dataset).value;
            fields != map[] && FieldsFit(fields)
  {
    hide CanonicalId, Usable, Selected, FieldsFit;
    RoomForName(evaluation);
    SelectionFits(evaluation, Metric);
    SelectedNoName(evaluation, Metric);
    NameFits(metric, Selected(evaluation, Metric));
  }

  lemma DatasetFits(evaluation: Option<Evaluation>, records: Option<multiset<string>>, dataset: Option<Fields>)
    requires ReadsDataset(evaluation, records, dataset) && dataset.Some?
    ensures dataset.value != map[] && FieldsFit(dataset.value)
  {
    var id: Identity :| Identifies(id, records.value) && dataset.value == DeclaredFields(evaluation.value, id);
    FiveFields(dataset.value, evaluation.value, id);
  }

  lemma FiveFields(fields: Fields, evaluation: Evaluation, id: Identity)
    requires Usable(evaluation) && fields == DeclaredFields(evaluation, id)
    ensures fields != map[] && FieldsFit(fields)
  {
    var names := {Plain("declared_identifier"), Plain("declared_version"), Plain("declared_split"),
                  Plain("record_count"), Plain("record_multiset_sha256")};
    assert fields.Keys == names;
    assert |names| <= 5;
    assert Plain("record_count") in fields;
  }

  // ---------------------------------------------------------------- recovered components

  /** The evaluation-configuration component of an arm. */
  lemma EvaluationComponent(arm: Arm, metric: string, bindings: seq<string>)
    ensures var component := ComponentOf(EvaluationConfig, metric, arm.evaluation, arm.dataset, bindings);
            if arm.evaluation.Some? && arm.evaluation.value != map[] && EvaluationFits(arm.evaluation.value)
            then component == Component(Recovered, Selected(arm.evaluation.value, EvaluationConfig), bindings)
            else component.coverage == Missing
  {
    hide EvaluationFits, FieldsFit, Selected;
    if arm.evaluation.Some? {
      WholeSelection(arm.evaluation.value);
      SelectedEmpty(arm.evaluation.value);
    }
  }

  lemma SelectedEmpty(evaluation: Evaluation)
    ensures Selected(evaluation, EvaluationConfig) == map[] <==> evaluation == map[]
  {
    WholeSelection(evaluation);
    if evaluation != map[] {
      var key := AMember(evaluation.Keys);
      assert OfEvaluation(key) in Selected(evaluation, EvaluationConfig);
    }
  }

  /** Its evaluation-dataset component. */
  lemma DatasetComponent(arm: Arm, metric: string, bindings: seq<string>)
    requires RecoveredArm(arm)
    ensures var component := ComponentOf(EvaluationDataset, metric, arm.evaluation, arm.dataset, bindings);
            if arm.dataset.Some? then component == Component(Recovered, arm.dataset.value, bindings)
            else component.coverage == Missing
  {
    hide ReadsDataset, ReadsEvaluation, FieldsFit;
    if arm.dataset.Some? {
      DatasetFits(arm.evaluation, arm.records, arm.dataset);
    }
  }

  lemma MetricComponent(arm: Arm, metric: string, bindings: seq<string>)
    requires arm.evaluation.Some? && EvaluationFits(arm.evaluation.value) && Usable(arm.evaluation.value)
    ensures ComponentOf(Metric, metric, arm.evaluation, arm.dataset, bindings).coverage == Recovered
  {
    hide EvaluationFits, FieldsFit, Selected, Usable;
    MetricFits(metric, arm.evaluation.value, arm.dataset);
  }

  /** Recovery never yields byte-only components, and leaves no required one out. */
  lemma CoverageOf(kind: Kind, metric: string, evaluation: Option<Evaluation>, dataset: Option<Fields>,
                   bindings: seq<string>)
    ensures var coverage := ComponentOf(kind, metric, evaluation, dataset, bindings).coverage;
            coverage == Recovered || coverage == if Required(kind) then Missing else NotApplicable
  {
    hide FieldsFit, FieldsOf;
  }

  /** Both arms declare usable evaluations of the same identity, and hold the same records. */
  lemma RecordsDecide(b: Arm, c: Arm)
    requires RecoveredArm(b) && RecoveredArm(c) && b.dataset.Some? && c.dataset.Some?
    ensures b.dataset == c.dataset ==> b.records == c.records
    ensures b.records == c.records && b.evaluation == c.evaluation ==> b.dataset == c.dataset
  {
    hide Flattens, Accepts, Identifies, HexDigests, Usable;
    var x: Identity :| Identifies(x, b.records.value) && b.dataset.value == DeclaredFields(b.evaluation.value, x);
    var y: Identity :| Identifies(y, c.records.value) && c.dataset.value == DeclaredFields(c.evaluation.value, y);
    IdentityDecides(x, y, b.records.value, c.records.value);
    CommitmentOf(b.evaluation.value, x);
    CommitmentOf(c.evaluation.value, y);
  }

  lemma CommitmentOf(evaluation: Evaluation, id: Identity)
    requires Usable(evaluation)
    ensures Plain("record_multiset_sha256") in DeclaredFields(evaluation, id)
    ensures DeclaredFields(evaluation, id)[Plain("record_multiset_sha256")] == Digest(id.commitment)
  {
    hide Usable;
  }

  // ---------------------------------------------------------------- what a drift report says about two arms

  /** The same flattened evaluation, usable and within bounds, and the same records. */
  ghost predicate SameMeasurement(b: Arm, c: Arm) {
    && b.evaluation.Some? && b.evaluation == c.evaluation
    && EvaluationFits(b.evaluation.value) && Usable(b.evaluation.value)
    && b.records.Some? && b.records == c.records
  }

  lemma SameComponents(b: Arm, c: Arm, metric: string, kind: Kind, x: seq<string>, y: seq<string>)
    requires RecoveredArm(b) && RecoveredArm(c) && SameMeasurement(b, c)
    ensures SameIdentity(ComponentOf(kind, metric, b.evaluation, b.dataset, x),
                         ComponentOf(kind, metric, c.evaluation, c.dataset, y))
    ensures Required(kind) ==> ComponentOf(kind, metric, b.evaluation, b.dataset, x).coverage == Recovered
  {
    hide Flattens, Accepts, Identifies, HexDigests, Usable, EvaluationFits, FieldsFit, FieldsOf;
    RecordsDecide(b, c);
    UsableKeys(b.evaluation.value);
    EvaluationComponent(b, metric, x);
    DatasetComponent(b, metric, x);
    MetricComponent(b, metric, x);
  }

  /** A required component is settled only when it is recovered in both arms with the same fields. */
  lemma RequiredState(kind: Kind, b: Component, c: Component, rules: set<Rule>)
    requires b.coverage == Recovered || b.coverage == Missing
    requires c.coverage == Recovered || c.coverage == Missing
    ensures var state := ComponentState(kind, Some(b), Some(c), rules);
            && (Rank(state) <= 1 <==> b.coverage == c.coverage == Recovered && b.fields == c.fields)
            && (Rank(state) <= 1 ==> state == Verified)
            && (state == Verified || state == InsufficientDrift || state == InvalidatesDrift)
  {
  }

  /** A report is VERIFIED if and only if both arms have the same flattened evaluation and the same records. */
  lemma VerifiedMeansSame(b: Arm, c: Arm, metric: string, pb: Protocol, pc: Protocol, x: Kind -> seq<string>,
                          y: Kind -> seq<string>, rules: set<Rule>, drift: DriftState)
    requires RecoveredArm(b) && RecoveredArm(c)
    requires ProtocolOf(pb, b, metric, x) && ProtocolOf(pc, c, metric, y) && Worst(pb, pc, rules, drift)
    ensures drift == MeasurementDrift.Verified <==> SameMeasurement(b, c)
    ensures drift == MeasurementDrift.Verified || drift == InsufficientDrift || drift == InvalidatesDrift
  {
    hide RecoveredArm, SameMeasurement, ComponentOf;
    if SameMeasurement(b, c) {
      SameIsVerified(b, c, metric, pb, pc, x, y, rules, drift);
    } else if drift == MeasurementDrift.Verified {
      VerifiedIsSame(b, c, metric, pb, pc, x, y, rules, drift);
    }
    NeverUnassessed(b, c, metric, pb, pc, x, y, rules, drift);
  }

  lemma SameIsVerified(b: Arm, c: Arm, metric: string, pb: Protocol, pc: Protocol, x: Kind -> seq<string>,
                       y: Kind -> seq<string>, rules: set<Rule>, drift: DriftState)
    requires RecoveredArm(b) && RecoveredArm(c) && SameMeasurement(b, c)
    requires ProtocolOf(pb, b, metric, x) && ProtocolOf(pc, c, metric, y) && Worst(pb, pc, rules, drift)
    ensures drift == MeasurementDrift.Verified
  {
    hide RecoveredArm, SameMeasurement, ComponentOf;
    forall kind: Kind
      ensures Rank(StateAt(pb, pc, kind, rules)) <= 1
      ensures Required(kind) ==> StateAt(pb, pc, kind, rules) == MeasurementDrift.Verified
    {
      SameComponents(b, c, metric, kind, x(kind), y(kind));
      CoverageOf(kind, metric, b.evaluation, b.dataset, x(kind));
      CoverageOf(kind, metric, c.evaluation, c.dataset, y(kind));
    }
    assert StateAt(pb, pc, Metric, rules) == MeasurementDrift.Verified && Compared(pb, pc, Metric);
  }

  lemma VerifiedIsSame(b: Arm, c: Arm, metric: string, pb: Protocol, pc: Protocol, x: Kind -> seq<string>,
                       y: Kind -> seq<string>, rules: set<Rule>, drift: DriftState)
    requires RecoveredArm(b) && RecoveredArm(c) && drift == MeasurementDrift.Verified
    requires ProtocolOf(pb, b, metric, x) && ProtocolOf(pc, c, metric, y) && Worst(pb, pc, rules, drift)
    ensures SameMeasurement(b, c)
  {
    hide RecoveredArm, ComponentOf, Selected, EvaluationFits;
    assert Compared(pb, pc, EvaluationConfig) && Compared(pb, pc, EvaluationDataset);
    assert Rank(StateAt(pb, pc, EvaluationConfig, rules)) <= 1 && Rank(StateAt(pb, pc, EvaluationDataset, rules)) <= 1;
    EvaluationComponent(b, metric, x(EvaluationConfig));
    EvaluationComponent(c, metric, y(EvaluationConfig));
    DatasetComponent(b, metric, x(EvaluationDataset));
    DatasetComponent(c, metric, y(EvaluationDataset));
    RequiredState(EvaluationConfig, pb[EvaluationConfig], pc[EvaluationConfig], rules);
    RequiredState(EvaluationDataset, pb[EvaluationDataset], pc[EvaluationDataset], rules);
    SelectionInjective(b.evaluation.value, c.evaluation.value);
    RecordsDecide(b, c);
    DatasetIsRead(b);
  }

  lemma DatasetIsRead(arm: Arm)
    requires RecoveredArm(arm) && arm.dataset.Some?
    ensures arm.evaluation.Some? && Usable(arm.evaluation.value) && arm.records.Some?
  {
    hide Flattens, Accepts, Identifies, HexDigests, Usable;
  }

  lemma NeverUnassessed(b: Arm, c: Arm, metric: string, pb: Protocol, pc: Protocol, x: Kind -> seq<string>,
                        y: Kind -> seq<string>, rules: set<Rule>, drift: DriftState)
    requires ProtocolOf(pb, b, metric, x) && ProtocolOf(pc, c, metric, y) && Worst(pb, pc, rules, drift)
    ensures drift == MeasurementDrift.Verified || drift == InsufficientDrift || drift == InvalidatesDrift
  {
    hide ComponentOf;
    forall kind: Kind ensures StateAt(pb, pc, kind, rules) != MeasurementDrift.Warning {
      CoverageOf(kind, metric, b.evaluation, b.dataset, x(kind));
      CoverageOf(kind, metric, c.evaluation, c.dataset, y(kind));
    }
    CoverageOf(Metric, metric, b.evaluation, b.dataset, x(Metric));
    CoverageOf(Metric, metric, c.evaluation, c.dataset, y(Metric));
    RequiredState(Metric, pb[Metric], pc[Metric], rules);
    assert Compared(pb, pc, Metric);
  }

  /** What the findings of an audit tell the comparison. */
  ghost predicate Reports(rules: set<Rule>, b: Arm, c: Arm) {
    && (DatasetEvaluationMismatch in rules <==> b.records.Some? && c.records.Some? && b.records != c.records)
    && (ConfigEvaluationMismatch in rules <==> EvaluationsDiffer(b, c))
    && BenchmarkWorkloadMismatch !in rules && BenchmarkMetricMismatch !in rules && BenchmarkConfigMismatch !in rules
  }

  ghost predicate EvaluationsDiffer(b: Arm, c: Arm) {
    b.config.Some? && c.config.Some? && EvaluationDiffers(b.config.value, c.config.value)
  }

  /** An arm whose evaluation and records are recovered in full. */
  ghost predicate WhollyRecovered(arm: Arm) {
    && arm.evaluation.Some? && EvaluationFits(arm.evaluation.value) && Usable(arm.evaluation.value)
    && arm.records.Some?
  }

  lemma ReportedDifference(b: Arm, c: Arm, kind: Kind, rule: Rule, rules: set<Rule>)
    requires Reports(rules, b, c) && rule in rules && Decisive(kind, rule)
    ensures (b.records.Some? && c.records.Some? && b.records != c.records) || EvaluationsDiffer(b, c)
  {
    hide EvaluationsDiffer;
  }

  lemma DecidedByRule(pb: Protocol, pc: Protocol, rules: set<Rule>) returns (kind: Kind, rule: Rule)
    requires Worst(pb, pc, rules, InvalidatesDrift)
    ensures kind in pb && kind in pc && rule in rules && Decisive(kind, rule) && !SameIdentity(pb[kind], pc[kind])
  {
    kind :| Compared(pb, pc, kind) && StateAt(pb, pc, kind, rules) == InvalidatesDrift;
    InvalidatesMeansDecided(pb, pc, kind, rules);
    rule :| rule in rules && Decisive(kind, rule);
  }

  /** A report invalidates only when the records or the evaluation mappings differ. */
  lemma InvalidatesMeansDifferent(b: Arm, c: Arm, metric: string, pb: Protocol, pc: Protocol, x: Kind -> seq<string>,
                                  y: Kind -> seq<string>, rules: set<Rule>, drift: DriftState)
    requires RecoveredArm(b) && RecoveredArm(c) && Reports(rules, b, c) && drift == InvalidatesDrift
    requires ProtocolOf(pb, b, metric, x) && ProtocolOf(pc, c, metric, y) && Worst(pb, pc, rules, drift)
    ensures (b.records.Some? && c.records.Some? && b.records != c.records) || EvaluationsDiffer(b, c)
    ensures !SameMeasurement(b, c)
  {
    hide RecoveredArm, ComponentOf, SameMeasurement, EvaluationsDiffer, Worst, Reports, Decisive, SameIdentity;
    var kind, rule := DecidedByRule(pb, pc, rules);
    ReportedDifference(b, c, kind, rule, rules);
    if SameMeasurement(b, c) {
      SameComponents(b, c, metric, kind, x(kind), y(kind));
      assert false;
    }
  }

  /** Two full arms: the report is VERIFIED when evaluations and records are the same, invalidates exactly when the
      records differ or the evaluations differ both as flattened and as the configuration check compares them, and
      is insufficient otherwise. */
  lemma DriftOfFullArms(b: Arm, c: Arm, metric: string, pb: Protocol, pc: Protocol, x: Kind -> seq<string>,
                        y: Kind -> seq<string>, rules: set<Rule>, drift: DriftState)
    requires RecoveredArm(b) && RecoveredArm(c) && WhollyRecovered(b) && WhollyRecovered(c) && Reports(rules, b, c)
    requires ProtocolOf(pb, b, metric, x) && ProtocolOf(pc, c, metric, y) && Worst(pb, pc, rules, drift)
    ensures drift == MeasurementDrift.Verified <==> b.evaluation == c.evaluation && b.records == c.records
    ensures drift == InvalidatesDrift <==>
      b.records != c.records || (b.evaluation != c.evaluation && EvaluationsDiffer(b, c))
    ensures drift == InsufficientDrift <==>
      b.records == c.records && b.evaluation != c.evaluation && !EvaluationsDiffer(b, c)
  {
    hide RecoveredArm, ComponentOf, EvaluationsDiffer, EvaluationFits, Usable, ProtocolOf, Worst;
    VerifiedMeansSame(b, c, metric, pb, pc, x, y, rules, drift);
    if drift == InvalidatesDrift {
      InvalidatesMeansDifferent(b, c, metric, pb, pc, x, y, rules, drift);
    }
    if b.records != c.records {
      RecordsInvalidate(b, c, metric, pb, pc, x, y, rules, drift);
    }
    if b.evaluation != c.evaluation && EvaluationsDiffer(b, c) {
      EvaluationsInvalidate(b, c, metric, pb, pc, x, y, rules, drift);
    }
  }

  lemma RecordsInvalidate(b: Arm, c: Arm, metric: string, pb: Protocol, pc: Protocol, x: Kind -> seq<string>,
                          y: Kind -> seq<string>, rules: set<Rule>, drift: DriftState)
    requires RecoveredArm(b) && RecoveredArm(c) && WhollyRecovered(b) && WhollyRecovered(c)
    requires Reports(rules, b, c) && b.records != c.records
    requires ProtocolOf(pb, b, metric, x) && ProtocolOf(pc, c, metric, y) && Worst(pb, pc, rules, drift)
    ensures drift == InvalidatesDrift
  {
    hide ComponentOf, EvaluationsDiffer, EvaluationFits, Usable, Flattens, Accepts, Identifies, HexDigests;
    DatasetComponent(b, metric, x(EvaluationDataset));
    DatasetComponent(c, metric, y(EvaluationDataset));
    RecordsDecide(b, c);
    assert Decisive(EvaluationDataset, DatasetEvaluationMismatch);
    assert StateAt(pb, pc, EvaluationDataset, rules) == InvalidatesDrift && Compared(pb, pc, EvaluationDataset);
  }

  lemma EvaluationsInvalidate(b: Arm, c: Arm, metric: string, pb: Protocol, pc: Protocol, x: Kind -> seq<string>,
                              y: Kind -> seq<string>, rules: set<Rule>, drift: DriftState)
    requires WhollyRecovered(b) && WhollyRecovered(c) && Reports(rules, b, c)
    requires b.evaluation != c.evaluation && EvaluationsDiffer(b, c)
    requires ProtocolOf(pb, b, metric, x) && ProtocolOf(pc, c, metric, y) && Worst(pb, pc, rules, drift)
    ensures drift == InvalidatesDrift
  {
    hide ComponentOf, EvaluationsDiffer, EvaluationFits, Usable, Selected;
    UsableKeys(b.evaluation.value);
    UsableKeys(c.evaluation.value);
    EvaluationComponent(b, metric, x(EvaluationConfig));
    EvaluationComponent(c, metric, y(EvaluationConfig));
    if Selected(b.evaluation.value, EvaluationConfig) == Selected(c.evaluation.value, EvaluationConfig) {
      SelectionInjective(b.evaluation.value, c.evaluation.value);
      assert false;
    }
    assert Decisive(EvaluationConfig, ConfigEvaluationMismatch);
    assert StateAt(pb, pc, EvaluationConfig, rules) == InvalidatesDrift && Compared(pb, pc, EvaluationConfig);
  }

  // ---------------------------------------------------------------- the report as a function of the arms

  /** drift is what comparing the protocols recovered from the two arms yields beside these rules. */
  ghost predicate ComparedAs(b: Arm, c: Arm, metric: string, rules: set<Rule>, drift: DriftState) {
    exists pb, pc, x: Kind -> seq<string>, y: Kind -> seq<string> ::
      ProtocolOf(pb, b, metric, x) && ProtocolOf(pc, c, metric, y) && Worst(pb, pc, rules, drift)
  }

  /** The same configurations, flattened evaluations and records, however the datasets were read. */
  ghost predicate SameArm(a: Arm, b: Arm) {
    a.config == b.config && a.evaluation == b.evaluation && a.records == b.records
  }

  lemma SameDataset(a: Arm, b: Arm)
    requires RecoveredArm(a) && RecoveredArm(b) && SameArm(a, b)
    ensures a.dataset == b.dataset
  {
    hide Flattens, Accepts, Identifies, HexDigests, Usable;
    if a.dataset.Some? {
      RecordsDecide(a, b);
    }
  }

  lemma SameState(kind: Kind, b: Component, c: Component, b': Component, c': Component, rules: set<Rule>,
                  rules': set<Rule>)
    requires SameIdentity(b, b') && SameIdentity(c, c') && b.coverage != ByteOnly && c.coverage != ByteOnly
    requires (exists r :: r in rules && Decisive(kind, r)) <==> (exists r :: r in rules' && Decisive(kind, r))
    ensures ComponentState(kind, Some(b), Some(c), rules) == ComponentState(kind, Some(b'), Some(c'), rules')
  {
    hide Decisive;
  }

  lemma SameDecisive(kind: Kind, rules: set<Rule>, rules': set<Rule>, b: Arm, c: Arm, b': Arm, c': Arm)
    requires Reports(rules, b, c) && Reports(rules', b', c') && SameArm(b, b') && SameArm(c, c')
    ensures (exists r :: r in rules && Decisive(kind, r)) <==> (exists r :: r in rules' && Decisive(kind, r))
  {
    hide EvaluationDiffers;
    forall r | Decisive(kind, r) ensures r in rules <==> r in rules' {}
  }

  lemma WorstIsUnique(pb: Protocol, pc: Protocol, rules: set<Rule>, drift: DriftState, pb': Protocol, pc': Protocol,
                      rules': set<Rule>, drift': DriftState)
    requires Worst(pb, pc, rules, drift) && Worst(pb', pc', rules', drift')
    requires forall kind: Kind :: kind in pb && kind in pb'
    requires forall kind: Kind :: StateAt(pb, pc, kind, rules) == StateAt(pb', pc', kind, rules')
    ensures drift == drift'
  {
    hide ComponentState;
    if drift != NotAssessed {
      var kind :| Compared(pb, pc, kind) && StateAt(pb, pc, kind, rules) == drift;
      assert Compared(pb', pc', kind);
      assert Rank(drift) <= Rank(drift');
    }
    if drift' != NotAssessed {
      var kind :| Compared(pb', pc', kind) && StateAt(pb', pc', kind, rules') == drift';
      assert Compared(pb, pc, kind);
      assert Rank(drift') <= Rank(drift);
    }
  }

  /** Recovered twice, a component differs at most by its bindings. */
  lemma SameComponent(a: Arm, b: Arm, metric: string, pa: Protocol, pb: Protocol, x: Kind -> seq<string>,
                      y: Kind -> seq<string>, kind: Kind)
    requires a.evaluation == b.evaluation && a.dataset == b.dataset
    requires ProtocolOf(pa, a, metric, x) && ProtocolOf(pb, b, metric, y)
    ensures kind in pa && kind in pb && SameIdentity(pa[kind], pb[kind]) && pa[kind].coverage != ByteOnly
  {
    hide FieldsFit, FieldsOf;
    CoverageOf(kind, metric, a.evaluation, a.dataset, x(kind));
  }

  /** The report is determined by the configurations, the flattened evaluations and the records: neither where the
      identity of the records came from, nor which bindings or other findings there are, has any influence. */
  lemma DriftIsDetermined(b: Arm, c: Arm, b': Arm, c': Arm, metric: string, rules: set<Rule>, rules': set<Rule>,
                          drift: DriftState, drift': DriftState)
    requires RecoveredArm(b) && RecoveredArm(c) && RecoveredArm(b') && RecoveredArm(c')
    requires SameArm(b, b') && SameArm(c, c') && Reports(rules, b, c) && Reports(rules', b', c')
    requires ComparedAs(b, c, metric, rules, drift) && ComparedAs(b', c', metric, rules', drift')
    ensures drift == drift'
  {
    hide RecoveredArm, Reports, ProtocolOf, Worst, Decisive, ComponentState, SameIdentity;
    SameDataset(b, b');
    SameDataset(c, c');
    var pb, pc, x: Kind -> seq<string>, y: Kind -> seq<string> :|
      ProtocolOf(pb, b, metric, x) && ProtocolOf(pc, c, metric, y) && Worst(pb, pc, rules, drift);
    var pb', pc', x': Kind -> seq<string>, y': Kind -> seq<string> :|
      ProtocolOf(pb', b', metric, x') && ProtocolOf(pc', c', metric, y') && Worst(pb', pc', rules', drift');
    forall kind: Kind ensures StateAt(pb, pc, kind, rules) == StateAt(pb', pc', kind, rules') {
      SameDecisive(kind, rules, rules', b, c, b', c');
      SameComponent(b, b', metric, pb, pb', x, x', kind);
      SameComponent(c, c', metric, pc, pc', y, y', kind);
      SameState(kind, pb[kind], pc[kind], pb'[kind], pc'[kind], rules, rules');
    }
    EveryKind(pb, b, metric, x);
    EveryKind(pb', b', metric, x');
    WorstIsUnique(pb, pc, rules, drift, pb', pc', rules', drift');
  }

  lemma EveryKind(protocol: Protocol, arm: Arm, metric: string, bindings: Kind -> seq<string>)
    requires ProtocolOf(protocol, arm, metric, bindings)
    ensures forall kind: Kind :: kind in protocol
  {
  }

  /** The three states of a report on fully recovered arms. */
  lemma ReportOnFullArms(b: Arm, c: Arm, metric: string, rules: set<Rule>, drift: DriftState)
    requires RecoveredArm(b) && RecoveredArm(c) && WhollyRecovered(b) && WhollyRecovered(c)
    requires Reports(rules, b, c) && ComparedAs(b, c, metric, rules, drift)
    ensures drift == MeasurementDrift.Verified <==> b.evaluation == c.evaluation && b.records == c.records
    ensures drift == InvalidatesDrift <==>
      b.records != c.records || (b.evaluation != c.evaluation && EvaluationsDiffer(b, c))
    ensures drift == InsufficientDrift <==>
      b.records == c.records && b.evaluation != c.evaluation && !EvaluationsDiffer(b, c)
  {
    hide RecoveredArm, WhollyRecovered, Reports, ProtocolOf, Worst, EvaluationsDiffer;
    var pb, pc, x: Kind -> seq<string>, y: Kind -> seq<string> :|
      ProtocolOf(pb, b, metric, x) && ProtocolOf(pc, c, metric, y) && Worst(pb, pc, rules, drift);
    DriftOfFullArms(b, c, metric, pb, pc, x, y, rules, drift);
  }
}
