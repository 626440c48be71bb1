/** The audit with its measurement-drift report, on files and on streamed datasets. */
module AuditDrift {
  import opened Common
  import opened Findings
  import opened DatasetIdentity
  import opened DatasetSpills
  import opened DatasetScans
  import opened DatasetChecks
  import opened ConfigFairness
  import opened ResultCheck
  import opened Audit
  import opened RuleFamilies
  import Drift = MeasurementDrift
  import opened EvaluationFlattening
  import opened FlattenedMappings
  import opened MeasurementRecovery
  import opened MeasurementSpelling
  import opened StreamedAudit

  // ---------------------------------------------------------------- what an audit tells the comparison

  function ConfigOf(load: Load<Config>): Option<Config> { if load.Loaded? then Some(load.value) else None }

  function HashesOf(load: Load<seq<string>>): Option<seq<string>> { if load.Loaded? then Some(load.value) else None }

  ghost function RecordsOf(load: Load<seq<string>>): Option<multiset<string>> {
    if load.Loaded? then Some(multiset(load.value)) else None
  }

  /** What loading guarantees of a dataset: at least one record, and only digests. */
  ghost predicate DigestFile(load: Load<seq<string>>) {
    load.Loaded? ==> load.value != [] && ShaTexts(load.value)
  }

  lemma FileIsAvailable(load: Load<seq<string>>)
    requires DigestFile(load)
    ensures Available(HashesOf(load), None, RecordsOf(load))
    ensures RecordsOf(load).Some? ==> HexDigests(RecordsOf(load).value)
  {
    if load.Loaded? {
      forall d | d in multiset(load.value) ensures Hexadecimal(d) {
        assert d in load.value;
      }
    }
  }

  /** A streamed check and the evaluation records of the two arms, where they were scanned completely. */
  ghost predicate FromStream(r: Streamed, mb: Option<multiset<string>>, mc: Option<multiset<string>>) {
    && Consistent(r.findings) && AllOf(RuleSet(r.findings), OfDatasets)
    && (DatasetEvaluationMismatch in RuleSet(r.findings) <==> mb.Some? && mc.Some? && mb != mc)
    && Available(None, r.baselineIdentity, mb) && Available(None, r.candidateIdentity, mc)
    && (mb.Some? ==> HexDigests(mb.value)) && (mc.Some? ==> HexDigests(mc.value))
  }

  /** The dataset rules and the evaluation records behind an audit, from files or from a streamed check. */
  ghost predicate DatasetsBehind(a: Artifacts, streamed: Option<Streamed>, rules: set<Rule>,
                                 mb: Option<multiset<string>>, mc: Option<multiset<string>>) {
    if streamed.Some? then FromStream(streamed.value, mb, mc) && rules == RuleSet(streamed.value.findings)
    else && DigestFile(a.baselineEval) && DigestFile(a.candidateEval) && rules == DatasetRules(a)
         && mb == RecordsOf(a.baselineEval) && mc == RecordsOf(a.candidateEval)
  }

  /** An audit reports exactly the mismatches that the comparison of protocols consults. */
  lemma AuditReportsMismatches(a: Artifacts, claim: Claim, floats: Floats, streamed: Option<Streamed>,
                               datasets: set<Rule>, b: Arm, c: Arm)
    requires DatasetsBehind(a, streamed, datasets, b.records, c.records)
    requires b.config == ConfigOf(a.baselineConfig) && c.config == ConfigOf(a.candidateConfig)
    ensures Reports(AuditRules(a, claim, floats, datasets), b, c)
  {
    hide ConfigRules, ResultRules, DatasetRules, EvaluationDiffers, AllOf, DigestFile, Available, RuleSet;
    ConfigFamily(a.baselineConfig, a.candidateConfig);
    ResultFamily(a.baselineResults, a.candidateResults, claim, floats);
    DatasetFamily(a);
    FamiliesJoin(ConfigRules(a.baselineConfig, a.candidateConfig),
      ResultRules(a.baselineResults, a.candidateResults, claim, floats), datasets);
  }

  // ---------------------------------------------------------------- the audit with its drift report

  /** What a drift report says about the two arms of an audit. */
  ghost predicate DriftMeans(drift: Drift.DriftState, b: Arm, c: Arm) {
    && (drift == Drift.Verified <==> SameMeasurement(b, c))
    && (drift == Drift.Verified || drift == Drift.InsufficientDrift || drift == Drift.InvalidatesDrift)
    && (drift == Drift.InvalidatesDrift ==>
         (b.records.Some? && c.records.Some? && b.records != c.records) || EvaluationsDiffer(b, c))
    && (WhollyRecovered(b) && WhollyRecovered(c) ==>
         (drift == Drift.InvalidatesDrift <==>
           b.records != c.records || (b.evaluation != c.evaluation && EvaluationsDiffer(b, c))))
  }

  lemma DriftIsMeant(b: Arm, c: Arm, metric: string, pb: Drift.Protocol, pc: Drift.Protocol,
                     x: Drift.Kind -> seq<string>, y: Drift.Kind -> seq<string>, rules: set<Rule>,
                     drift: Drift.DriftState)
    requires RecoveredArm(b) && RecoveredArm(c) && Reports(rules, b, c)
    requires ProtocolOf(pb, b, metric, x) && ProtocolOf(pc, c, metric, y) && Drift.Worst(pb, pc, rules, drift)
    ensures DriftMeans(drift, b, c)
  {
    hide RecoveredArm, Reports, ProtocolOf, Drift.Worst, SameMeasurement, EvaluationsDiffer, WhollyRecovered;
    VerifiedMeansSame(b, c, metric, pb, pc, x, y, rules, drift);
    if drift == Drift.InvalidatesDrift {
      InvalidatesMeansDifferent(b, c, metric, pb, pc, x, y, rules, drift);
    }
    if WhollyRecovered(b) && WhollyRecovered(c) {
      DriftOfFullArms(b, c, metric, pb, pc, x, y, rules, drift);
    }
  }

  /** The audit with its drift report, from files or with a streamed dataset check.  A report that invalidates
      accompanies only NOT_SUPPORTED; it is VERIFIED exactly when both arms have the same flattened evaluation and the
      same evaluation records; and between fully recovered arms it invalidates exactly when the records differ or
      the evaluations do. */
  method AuditWithDrift(a: Artifacts, claim: Claim, floats: Floats, metric: string, streamed: Option<Streamed>,
                        x: Drift.Kind -> seq<string>, y: Drift.Kind -> seq<string>, ghost datasets: set<Rule>,
                        ghost mb: Option<multiset<string>>, ghost mc: Option<multiset<string>>)
    returns (findings: seq<Finding>, verdict: Verdict, drift: Drift.DriftState, ghost b: Arm, ghost c: Arm)
    requires DatasetsBehind(a, streamed, datasets, mb, mc)
    ensures Consistent(findings) && verdict == DetermineVerdict(findings)
    ensures RuleSet(findings) == AuditRules(a, claim, floats, datasets)
    ensures forall f, kind :: f in findings && Drift.Decisive(kind, f.rule) ==> f.impact == Invalidates
    ensures drift == Drift.InvalidatesDrift ==> verdict == NotSupported
    ensures RecoveredArm(b) && b.config == ConfigOf(a.baselineConfig) && b.records == mb
    ensures RecoveredArm(c) && c.config == ConfigOf(a.candidateConfig) && c.records == mc
    ensures Reports(RuleSet(findings), b, c) && ComparedAs(b, c, metric, RuleSet(findings), drift)
    ensures DriftMeans(drift, b, c)
  {
    hide RecoveredArm, DigestFile, AuditRules, RuleSet, Consistent, Reports, ProtocolOf, Drift.Worst, DriftMeans,
      Drift.Decisive, ComparedAs, Available, HexDigests, SomeInvalidates, AllHarmless, DatasetRules, AllOf;
    if streamed.None? {
      FileIsAvailable(a.baselineEval);
      FileIsAvailable(a.candidateEval);
    }
    findings, verdict := AuditResearch(a, claim, floats,
      if streamed.Some? then Some(streamed.value.findings) else None);
    var recovered, other;
    recovered, b := RecoverProtocol(metric, ConfigOf(a.baselineConfig),
      if streamed.Some? then None else HashesOf(a.baselineEval),
      if streamed.Some? then streamed.value.baselineIdentity else None, x, mb);
    other, c := RecoverProtocol(metric, ConfigOf(a.candidateConfig),
      if streamed.Some? then None else HashesOf(a.candidateEval),
      if streamed.Some? then streamed.value.candidateIdentity else None, y, mc);
    drift := Drift.DriftBeside(findings, recovered.value, other.value);
    AuditReportsMismatches(a, claim, floats, streamed, datasets, b, c);
    DriftIsMeant(b, c, metric, recovered.value, other.value, x, y, RuleSet(findings), drift);
    IsCompared(b, c, metric, recovered.value, other.value, x, y, RuleSet(findings), drift);
  }

  lemma IsCompared(b: Arm, c: Arm, metric: string, pb: Drift.Protocol, pc: Drift.Protocol, x: Drift.Kind -> seq<string>,
                   y: Drift.Kind -> seq<string>, rules: set<Rule>, drift: Drift.DriftState)
    requires ProtocolOf(pb, b, metric, x) && ProtocolOf(pc, c, metric, y) && Drift.Worst(pb, pc, rules, drift)
    ensures ComparedAs(b, c, metric, rules, drift)
  {
    hide ProtocolOf, Drift.Worst;
  }

  // ---------------------------------------------------------------- streamed datasets

  /** The evaluation records of an arm, where its scan is complete. */
  ghost function ScannedRecords(scans: seq<SplitScan>, context: Context,
                                experiment: Experiment): Option<multiset<string>>
    requires |scans| == |ROLES|
  {
    if CompleteAt(scans, Role(experiment, Eval)) then Some(Whole(context, Role(experiment, Eval))) else None
  }

  lemma StreamIsBehind(r: Streamed, scans: seq<SplitScan>, contents: map<Role, multiset<string>>, context: Context,
                       willing: bool, limit: nat)
    requires HexSources(context) && ScannedTo(scans, |ROLES|, contents, context, willing)
    requires |scans| == |ROLES| && forall role: Role :: role in contents
    requires Consistent(r.findings) && RuleSet(r.findings) == StreamRules(contents, scans)
    requires ExactFacts(r, contents, limit) && FactsPresent(r, scans)
    ensures FromStream(r, ScannedRecords(scans, context, Baseline), ScannedRecords(scans, context, Candidate))
  {
    hide ScannedTo, Consistent, RuleSet, StreamRules, CompleteAt, Whole, HexDigests, Identifies, OverlapIs, AlignmentIs,
      AllOf;
    StreamFamily(contents, scans);
    RoleFact(scans, contents, context, willing, Role(Baseline, Eval));
    RoleFact(scans, contents, context, willing, Role(Candidate, Eval));
  }

  lemma CompleteIsReadable(scans: seq<SplitScan>, contents: map<Role, multiset<string>>, context: Context,
                           willing: bool)
    requires ScannedTo(scans, |ROLES|, contents, context, willing)
    ensures |scans| == |ROLES| && AllReadable(scans, context)
  {
    hide ScannedTo, Whole, Kept, Finished, Readable, CompleteAt;
    AllScanned(scans, contents, context, willing);
    forall role: Role ensures CompleteAt(scans, role) ==> Readable(context.sources(role)) {
      RoleFact(scans, contents, context, willing, role);
    }
  }

  /** Whatever was scanned completely can be read whole. */
  ghost predicate AllReadable(scans: seq<SplitScan>, context: Context)
    requires |scans| == |ROLES|
  {
    forall role: Role :: CompleteAt(scans, role) ==> Readable(context.sources(role))
  }

  /** The streamed audit with its drift report.  The report speaks about the records of the evaluation files whose scans
      are complete; of a file that was not scanned completely the dataset component is missing, and the report is never
      VERIFIED. */
  method AuditStreamsWithDrift(context: Context, maximumBytes: nat, limit: nat, a: Artifacts, claim: Claim,
                               floats: Floats, metric: string, x: Drift.Kind -> seq<string>,
                               y: Drift.Kind -> seq<string>)
    returns (findings: seq<Finding>, verdict: Option<Verdict>, drift: Drift.DriftState, ghost scans: seq<SplitScan>,
             ghost b: Arm, ghost c: Arm)
    requires HexSources(context)
    ensures AllVerified(context) && Undisturbed(context, maximumBytes) ==> verdict.Some?
    ensures verdict.Some? ==> Consistent(findings) && verdict.value == DetermineVerdict(findings)
    ensures verdict.Some? ==> |scans| == |ROLES| && AllReadable(scans, context)
    ensures verdict.Some? && drift == Drift.InvalidatesDrift ==> verdict == Some(NotSupported)
    ensures verdict.Some? ==>
      RecoveredArm(b) && b.config == ConfigOf(a.baselineConfig) && b.records == ScannedRecords(scans, context, Baseline)
    ensures verdict.Some? ==>
      RecoveredArm(c) && c.config == ConfigOf(a.candidateConfig)
        && c.records == ScannedRecords(scans, context, Candidate)
    ensures verdict.Some? ==> Reports(RuleSet(findings), b, c) && ComparedAs(b, c, metric, RuleSet(findings), drift)
    ensures verdict.Some? ==> DriftMeans(drift, b, c)
    ensures verdict.Some? && drift == Drift.Verified ==>
      CompleteAt(scans, Role(Baseline, Eval)) && CompleteAt(scans, Role(Candidate, Eval))
  {
    hide RecoveredArm, DriftMeans, ScannedTo, StreamRules, MemoryRules, InspectedRules, ExactFacts, FactsPresent,
      FromStream, AuditRules, RuleSet, Consistent, Whole, CompleteAt, HexSources, AllReadable, Reports, ComparedAs;
    var streamed, done, contents := AuditStreams(context, maximumBytes, limit);
    scans := done;
    if streamed.None? {
      b, c := Arm(None, None, None, None), Arm(None, None, None, None);
      return [], None, Drift.NotAssessed, scans, b, c;
    }
    ghost var willing := Undisturbed(context, maximumBytes);
    CompleteIsReadable(scans, contents, context, willing);
    AllScanned(scans, contents, context, willing);
    StreamIsBehind(streamed.value, scans, contents, context, willing, limit);
    var decided;
    findings, decided, drift, b, c := AuditWithDrift(a, claim, floats, metric, streamed, x, y,
      RuleSet(streamed.value.findings), ScannedRecords(scans, context, Baseline),
      ScannedRecords(scans, context, Candidate));
    verdict := Some(decided);
    if drift == Drift.Verified {
      VerifiedIsComplete(drift, b, c);
    }
  }

  lemma VerifiedIsComplete(drift: Drift.DriftState, b: Arm, c: Arm)
    requires DriftMeans(drift, b, c) && drift == Drift.Verified
    ensures b.records.Some? && c.records.Some?
  {
  }

  // ---------------------------------------------------------------- both ways of reading agree

  /** Both recoveries of one configuration let the same leaves survive; without collisions there is no choice. */
  ghost predicate SameSurvivors(a: Arm, b: Arm) {
    a.evaluation == b.evaluation || NoCollision(MappingOf(a))
  }

  lemma SameFlattening(a: Arm, b: Arm)
    requires RecoveredArm(a) && RecoveredArm(b) && a.config == b.config && SameSurvivors(a, b)
    ensures a.evaluation == b.evaluation
  {
    hide ReadsDataset, Accepts, Flattens, NoCollision;
    if a.evaluation.Some? && NoCollision(MappingOf(a)) {
      OwnPartners(MappingOf(a));
      AlikeMeaning(a.evaluation.value, b.evaluation.value, MappingOf(a), MappingOf(a));
    }
  }

  /** A completely scanned evaluation file holds the records that the whole file is loaded with. */
  lemma SameRecords(scans: seq<SplitScan>, context: Context, a: Artifacts, experiment: Experiment)
    requires |scans| == |ROLES| && AllReadable(scans, context) && SameFiles(context, a)
    requires CompleteAt(scans, Role(experiment, Eval))
    ensures ScannedRecords(scans, context, experiment) == RecordsOf(LoadOf(a, Role(experiment, Eval)))
  {
    hide Readable, CompleteAt;
    assert SameFile(context.sources(Role(experiment, Eval)), LoadOf(a, Role(experiment, Eval)));
  }

  /** After complete scans of both evaluation files the streamed audit and the audit of the whole files draw up the same
      drift report, whatever became of the training files. */
  lemma DriftReportsAgree(context: Context, scans: seq<SplitScan>, a: Artifacts, metric: string, b: Arm, c: Arm,
                          rules: set<Rule>, drift: Drift.DriftState, b': Arm, c': Arm, rules': set<Rule>,
                          drift': Drift.DriftState)
    requires |scans| == |ROLES| && AllReadable(scans, context) && SameFiles(context, a)
    requires CompleteAt(scans, Role(Baseline, Eval)) && CompleteAt(scans, Role(Candidate, Eval))
    requires RecoveredArm(b) && b.config == ConfigOf(a.baselineConfig)
    requires RecoveredArm(c) && c.config == ConfigOf(a.candidateConfig)
    requires RecoveredArm(b') && b'.config == b.config && RecoveredArm(c') && c'.config == c.config
    requires b.records == ScannedRecords(scans, context, Baseline) && b'.records == RecordsOf(a.baselineEval)
    requires c.records == ScannedRecords(scans, context, Candidate) && c'.records == RecordsOf(a.candidateEval)
    requires SameSurvivors(b, b') && SameSurvivors(c, c')
    requires Reports(rules, b, c) && ComparedAs(b, c, metric, rules, drift)
    requires Reports(rules', b', c') && ComparedAs(b', c', metric, rules', drift')
    ensures drift == drift'
  {
    hide RecoveredArm, SameSurvivors, Reports, ComparedAs, SameFiles, AllReadable, CompleteAt, ScannedRecords;
    SameRecords(scans, context, a, Baseline);
    SameRecords(scans, context, a, Candidate);
    SameFlattening(b, b');
    SameFlattening(c, c');
    DriftIsDetermined(b, c, b', c', metric, rules, rules', drift, drift');
  }
}
