/** The audit with streamed datasets beside the audit that reads the same files whole. */
module StreamedAudit {
  import opened Common
  import opened Findings
  import opened DatasetSpills
  import opened DatasetScans
  import opened DatasetChecks
  import opened ResultCheck
  import opened Audit
  import opened RuleFamilies

  function LoadOf(a: Artifacts, role: Role): Load<seq<string>> {
    match role
    case Role(Baseline, Train) => a.baselineTrain
    case Role(Baseline, Eval) => a.baselineEval
    case Role(Candidate, Train) => a.candidateTrain
    case Role(Candidate, Eval) => a.candidateEval
  }

  /** One file read line by line and read whole: the whole file loads when every line is acceptable, with exactly
      those records; and when it loads, no record the line reader sees is absent. */
  ghost predicate SameFile(source: Source, load: Load<seq<string>>) {
    && (Readable(source) ==> load.Loaded? && multiset(load.value) == multiset(Digests(source.lines)))
    && (load.Loaded? ==> multiset(Digests(source.lines)) <= multiset(load.value))
  }

  ghost predicate SameFiles(context: Context, a: Artifacts) {
    forall role: Role :: SameFile(context.sources(role), LoadOf(a, role))
  }

  // ---------------------------------------------------------------- one role, one experiment

  /** What the table holds of a role is part of the loaded file, and all of it after a complete scan. */
  lemma HeldIsLoaded(scans: seq<SplitScan>, contents: map<Role, multiset<string>>, context: Context, willing: bool,
                     a: Artifacts, role: Role)
    requires ScannedTo(scans, |ROLES|, contents, context, willing) && SameFiles(context, a)
    ensures LoadOf(a, role).Loaded? ==> contents[role] <= multiset(LoadOf(a, role).value)
    ensures CompleteAt(scans, role) ==> LoadOf(a, role).Loaded? && contents[role] == multiset(LoadOf(a, role).value)
  {
    hide ScannedTo, Readable;
    RoleFact(scans, contents, context, willing, role);
    assert SameFile(context.sources(role), LoadOf(a, role));
  }

  lemma SharedBelow(a: multiset<string>, b: multiset<string>, wholeA: multiset<string>, wholeB: multiset<string>)
    requires a <= wholeA && b <= wholeB && a * b != multiset{}
    ensures wholeA * wholeB != multiset{}
  {
    var d :| d in a * b;
    assert d in wholeA * wholeB;
  }

  /** A leak that streaming finds is a leak of the whole files if and only if both files load at all. */
  lemma StreamedLeakLoads(scans: seq<SplitScan>, contents: map<Role, multiset<string>>, context: Context, willing: bool,
                          a: Artifacts, experiment: Experiment)
    requires ScannedTo(scans, |ROLES|, contents, context, willing) && SameFiles(context, a)
    requires contents[Role(experiment, Train)] * contents[Role(experiment, Eval)] != multiset{}
    ensures var train, eval := LoadOf(a, Role(experiment, Train)), LoadOf(a, Role(experiment, Eval));
            Leaks(train, eval) <==> train.Loaded? && eval.Loaded?
  {
    hide ScannedTo, SameFiles;
    var train, eval := Role(experiment, Train), Role(experiment, Eval);
    AllScanned(scans, contents, context, willing);
    HeldIsLoaded(scans, contents, context, willing, a, train);
    HeldIsLoaded(scans, contents, context, willing, a, eval);
    if LoadOf(a, train).Loaded? && LoadOf(a, eval).Loaded? {
      SharedBelow(contents[train], contents[eval], multiset(LoadOf(a, train).value), multiset(LoadOf(a, eval).value));
    }
  }

  lemma InvalidatingLeak(train: multiset<string>, eval: multiset<string>, complete: bool)
    ensures SomeInvalidates(LeakRules(train, eval, complete)) <==> train * eval != multiset{}
  {
    assert train * eval != multiset{} ==> DatasetExactLeakage in LeakRules(train, eval, complete);
  }

  lemma InvalidatingAlignment(baseline: multiset<string>, candidate: multiset<string>, complete: bool)
    ensures SomeInvalidates(AlignRules(baseline, candidate, complete)) <==> complete && baseline != candidate
  {
    assert complete && baseline != candidate ==> DatasetEvaluationMismatch in AlignRules(baseline, candidate, complete);
  }

  ghost predicate LeakSeen(contents: map<Role, multiset<string>>, experiment: Experiment)
    requires forall role: Role :: role in contents
  {
    contents[Role(experiment, Train)] * contents[Role(experiment, Eval)] != multiset{}
  }

  ghost predicate MismatchSeen(scans: seq<SplitScan>, contents: map<Role, multiset<string>>)
    requires |scans| == |ROLES| && forall role: Role :: role in contents
  {
    && CompleteAt(scans, Role(Baseline, Eval)) && CompleteAt(scans, Role(Candidate, Eval))
    && contents[Role(Baseline, Eval)] != contents[Role(Candidate, Eval)]
  }

  /** What makes a streamed dataset check invalidate. */
  lemma StreamedInvalidates(scans: seq<SplitScan>, contents: map<Role, multiset<string>>)
    requires |scans| == |ROLES| && forall role: Role :: role in contents
    ensures SomeInvalidates(StreamRules(contents, scans)) <==>
            LeakSeen(contents, Baseline) || LeakSeen(contents, Candidate) || MismatchSeen(scans, contents)
  {
    hide LeakRules, AlignRules, SomeInvalidates, CompleteAt;
    var bt, be := contents[Role(Baseline, Train)], contents[Role(Baseline, Eval)];
    var ct, ce := contents[Role(Candidate, Train)], contents[Role(Candidate, Eval)];
    var first := CompleteAt(scans, Role(Baseline, Train)) && CompleteAt(scans, Role(Baseline, Eval));
    var second := CompleteAt(scans, Role(Candidate, Train)) && CompleteAt(scans, Role(Candidate, Eval));
    var third := CompleteAt(scans, Role(Baseline, Eval)) && CompleteAt(scans, Role(Candidate, Eval));
    InvalidatingLeak(bt, be, first);
    InvalidatingLeak(ct, ce, second);
    InvalidatingAlignment(be, ce, third);
    GroupsJoin(LeakRules(bt, be, first), LeakRules(ct, ce, second));
    GroupsJoin(LeakRules(bt, be, first) + LeakRules(ct, ce, second), AlignRules(be, ce, third));
  }

  // ---------------------------------------------------------------- what stands

  predicate ExperimentLoads(a: Artifacts, experiment: Experiment) {
    LoadOf(a, Role(experiment, Train)).Loaded? && LoadOf(a, Role(experiment, Eval)).Loaded?
  }

  /** Streaming saw no leak, or it saw one in an experiment of which both files load. */
  ghost predicate LeakStands(contents: map<Role, multiset<string>>, a: Artifacts)
    requires forall role: Role :: role in contents
  {
    || (!LeakSeen(contents, Baseline) && !LeakSeen(contents, Candidate))
    || (LeakSeen(contents, Baseline) && ExperimentLoads(a, Baseline))
    || (LeakSeen(contents, Candidate) && ExperimentLoads(a, Candidate))
  }

  /** The same, as the printed facts show it. */
  predicate SeenLeakLoads(r: Streamed, a: Artifacts) {
    || (r.baseline.overlapCount == 0 && r.candidate.overlapCount == 0)
    || (r.baseline.overlapCount > 0 && ExperimentLoads(a, Baseline))
    || (r.candidate.overlapCount > 0 && ExperimentLoads(a, Candidate))
  }

  lemma FactsShowLeaks(r: Streamed, contents: map<Role, multiset<string>>, limit: nat, a: Artifacts)
    requires forall role: Role :: role in contents
    requires ExactFacts(r, contents, limit)
    ensures SeenLeakLoads(r, a) <==> LeakStands(contents, a)
  {
    hide OverlapIs, AlignmentIs, ExperimentLoads;
    OverlapCount(r.baseline, contents[Role(Baseline, Train)], contents[Role(Baseline, Eval)], limit);
    OverlapCount(r.candidate, contents[Role(Candidate, Train)], contents[Role(Candidate, Eval)], limit);
    EmptyIffNoSize(contents[Role(Baseline, Train)] * contents[Role(Baseline, Eval)]);
    EmptyIffNoSize(contents[Role(Candidate, Train)] * contents[Role(Candidate, Eval)]);
  }

  /** Unless each leak that it saw is in an experiment whose files do not both load, whatever streaming invalidates is
      invalidated by the whole files; a mismatch of the evaluation files always stands. */
  lemma InvalidationStands(scans: seq<SplitScan>, contents: map<Role, multiset<string>>, context: Context,
                           willing: bool, a: Artifacts)
    requires ScannedTo(scans, |ROLES|, contents, context, willing) && SameFiles(context, a)
    requires |scans| == |ROLES| && forall role: Role :: role in contents
    requires LeakStands(contents, a) || MismatchSeen(scans, contents)
    requires SomeInvalidates(StreamRules(contents, scans))
    ensures DirtyDatasets(a)
  {
    hide ScannedTo, SameFiles, SomeInvalidates, StreamRules;
    StreamedInvalidates(scans, contents);
    if LeakSeen(contents, Baseline) && ExperimentLoads(a, Baseline) {
      StreamedLeakLoads(scans, contents, context, willing, a, Baseline);
    } else if LeakSeen(contents, Candidate) && ExperimentLoads(a, Candidate) {
      StreamedLeakLoads(scans, contents, context, willing, a, Candidate);
    } else {
      HeldIsLoaded(scans, contents, context, willing, a, Role(Baseline, Eval));
      HeldIsLoaded(scans, contents, context, willing, a, Role(Candidate, Eval));
    }
  }

  lemma LoadedLeakage(train: Load<seq<string>>, eval: Load<seq<string>>)
    requires train.Loaded? && eval.Loaded?
    ensures LeakageRules(train, eval) == {LeakRule(multiset(train.value), multiset(eval.value))}
  {
  }

  /** After four complete scans both ways of checking report the same rules. */
  lemma CompleteScansAgree(scans: seq<SplitScan>, contents: map<Role, multiset<string>>, context: Context,
                           willing: bool, a: Artifacts)
    requires ScannedTo(scans, |ROLES|, contents, context, willing) && SameFiles(context, a)
    requires |scans| == |ROLES| && forall role: Role :: role in contents && CompleteAt(scans, role)
    ensures StreamRules(contents, scans) == DatasetRules(a)
  {
    hide ScannedTo, SameFiles, StreamRules, LeakageRules, LeakRule, AlignRule, SameFile;
    StreamingIsSound(scans, contents, context, willing);
    forall role: Role ensures LoadOf(a, role).Loaded? && Whole(context, role) == multiset(LoadOf(a, role).value) {
      HeldIsLoaded(scans, contents, context, willing, a, role);
      RoleFact(scans, contents, context, willing, role);
    }
    assert Whole(context, Role(Baseline, Train)) == multiset(LoadOf(a, Role(Baseline, Train)).value);
    assert Whole(context, Role(Baseline, Eval)) == multiset(LoadOf(a, Role(Baseline, Eval)).value);
    assert Whole(context, Role(Candidate, Train)) == multiset(LoadOf(a, Role(Candidate, Train)).value);
    assert Whole(context, Role(Candidate, Eval)) == multiset(LoadOf(a, Role(Candidate, Eval)).value);
    LoadedLeakage(a.baselineTrain, a.baselineEval);
    LoadedLeakage(a.candidateTrain, a.candidateEval);
  }

  // ---------------------------------------------------------------- the verdicts

  /** The verdict of the audit that loads the four files into memory. */
  ghost function MemoryVerdict(a: Artifacts, claim: Claim, floats: Floats): Verdict {
    VerdictOf(AuditRules(a, claim, floats, DatasetRules(a)))
  }

  /** How a verdict depends on the dataset rules beside fixed other rules. */
  lemma DatasetsInVerdict(configs: set<Rule>, results: set<Rule>, streamed: set<Rule>, whole: set<Rule>)
    requires AllHarmless(streamed) ==> streamed == whole
    ensures VerdictOf(configs + results + streamed) == Supported ==> VerdictOf(configs + results + whole) == Supported
    ensures (SomeInvalidates(streamed) ==> SomeInvalidates(whole)) ==>
      VerdictOf(configs + results + streamed) == NotSupported ==> VerdictOf(configs + results + whole) == NotSupported
  {
    hide AllHarmless, SomeInvalidates;
    GroupsJoin(configs + results, streamed);
    GroupsJoin(configs + results, whole);
  }

  lemma HarmlessMeansComplete(rules: set<Rule>)
    requires AllHarmless(rules)
    ensures DatasetScanIncomplete !in rules
  {
  }

  /** The audit with streamed datasets, for every behaviour of the disk.  SUPPORTED is given only where the audit of
      the whole files gives it; NOT_SUPPORTED only where that audit gives it too, unless every leak that was seen is in
      an experiment whose files do not both load; and with complete scans the verdicts are the same. */
  method AuditStreamed(context: Context, maximumBytes: nat, limit: nat, a: Artifacts, claim: Claim, floats: Floats)
    returns (findings: seq<Finding>, verdict: Option<Verdict>, streamed: Option<Streamed>)
    requires HexSources(context) && SameFiles(context, a)
    ensures AllVerified(context) && Undisturbed(context, maximumBytes) ==> verdict.Some?
    ensures verdict.Some? <==> streamed.Some?
    ensures verdict.Some? ==> Consistent(findings) && verdict.value == DetermineVerdict(findings)
    ensures verdict == Some(Supported) ==> MemoryVerdict(a, claim, floats) == Supported
    ensures verdict == Some(NotSupported) && SeenLeakLoads(streamed.value, a) ==>
      MemoryVerdict(a, claim, floats) == NotSupported
    ensures verdict == Some(NotSupported) && DatasetEvaluationMismatch in RuleSet(findings) ==>
      MemoryVerdict(a, claim, floats) == NotSupported
    ensures verdict.Some? && DatasetScanIncomplete !in RuleSet(findings) ==>
      verdict.value == MemoryVerdict(a, claim, floats)
  {
    hide ScannedTo, SameFiles, LeakStands, SeenLeakLoads, StreamRules, DatasetRules, ConfigRules, ResultRules,
      ExactFacts, FactsPresent, VerdictOf, AllHarmless, SomeInvalidates, MemoryRules, RuleSet;
    ghost var scans, contents;
    streamed, scans, contents := AuditStreams(context, maximumBytes, limit);
    if streamed.None? {
      return [], None, None;
    }
    var decided;
    findings, decided := AuditResearch(a, claim, floats, Some(streamed.value.findings));
    verdict := Some(decided);
    StreamedVerdict(scans, contents, context, Undisturbed(context, maximumBytes), a, claim, floats);
    FactsShowLeaks(streamed.value, contents, limit, a);
    VerdictByRules(findings);
  }

  lemma StreamedVerdict(scans: seq<SplitScan>, contents: map<Role, multiset<string>>, context: Context, willing: bool,
                        a: Artifacts, claim: Claim, floats: Floats)
    requires ScannedTo(scans, |ROLES|, contents, context, willing) && SameFiles(context, a)
    ensures |scans| == |ROLES| && forall role: Role :: role in contents
    ensures var rules := AuditRules(a, claim, floats, StreamRules(contents, scans));
      && (VerdictOf(rules) == Supported ==> MemoryVerdict(a, claim, floats) == Supported)
      && (VerdictOf(rules) == NotSupported && (LeakStands(contents, a) || DatasetEvaluationMismatch in rules) ==>
           MemoryVerdict(a, claim, floats) == NotSupported)
      && (DatasetScanIncomplete !in rules ==> VerdictOf(rules) == MemoryVerdict(a, claim, floats))
  {
    hide ScannedTo, SameFiles, LeakStands, MismatchSeen, StreamRules, DatasetRules, ConfigRules, ResultRules, VerdictOf,
      AllHarmless, SomeInvalidates, CompleteAt, MemoryRules;
    AllScanned(scans, contents, context, willing);
    StreamingIsSound(scans, contents, context, willing);
    var streamed := StreamRules(contents, scans);
    var rules := AuditRules(a, claim, floats, streamed);
    assert DatasetScanIncomplete !in rules ==> DatasetScanIncomplete !in streamed;
    MismatchIsReported(scans, contents, a, claim, floats);
    if AllHarmless(streamed) {
      HarmlessMeansComplete(streamed);
    }
    if DatasetScanIncomplete !in streamed {
      CompleteScansAgree(scans, contents, context, willing, a);
    }
    if (LeakStands(contents, a) || DatasetEvaluationMismatch in rules) && SomeInvalidates(streamed) {
      InvalidationStands(scans, contents, context, willing, a);
    }
    DatasetMeaning(a);
    DatasetsInVerdict(ConfigRules(a.baselineConfig, a.candidateConfig),
                      ResultRules(a.baselineResults, a.candidateResults, claim, floats), streamed, DatasetRules(a));
  }

  /** Only the dataset check reports a mismatch of the evaluation files. */
  lemma MismatchIsReported(scans: seq<SplitScan>, contents: map<Role, multiset<string>>, a: Artifacts, claim: Claim,
                           floats: Floats)
    requires |scans| == |ROLES| && forall role: Role :: role in contents
    ensures DatasetEvaluationMismatch in AuditRules(a, claim, floats, StreamRules(contents, scans)) <==>
            MismatchSeen(scans, contents)
  {
    hide ConfigRules, ResultRules, CompleteAt, StreamRules, AllOf;
    ConfigFamily(a.baselineConfig, a.candidateConfig);
    ResultFamily(a.baselineResults, a.candidateResults, claim, floats);
    StreamFamily(contents, scans);
    FamiliesJoin(ConfigRules(a.baselineConfig, a.candidateConfig),
      ResultRules(a.baselineResults, a.candidateResults, claim, floats), StreamRules(contents, scans));
  }

  // ---------------------------------------------------------------- a leak that only streaming sees

  lemma CutShort(source: Source, limits: Limits, d: string, first: nat, second: nat, again: bool)
    requires source == Source([Line(first, Record(d)), Line(second, Bad(Failed))], None, true, again)
    requires limits.records == 1 && first + second <= limits.semanticBytes
    ensures FinalState(source, limits, false) == Stopped(IncompleteBudget) && !Readable(source)
    ensures Inspected(source, limits) == multiset{d}
  {
    var lines := source.lines;
    assert Reading(lines, limits, 1, first, 1) == Ending(Some(IncompleteBudget), 1);
    assert Reading(lines, limits, 0, 0, 0) == Reading(lines, limits, 1, first, 1);
    assert DigestsTo(lines, 0) == [] && DigestsTo(lines, 1) == [d] && DigestsTo(lines, 2) == [d];
    assert lines[1].body.Bad?;
    assert Head([d], 1) == [d];
  }

  lemma OneRecord(source: Source, limits: Limits, d: string, bytes: nat, again: bool)
    requires source == Source([Line(bytes, Record(d))], None, true, again)
    requires limits.records >= 1 && bytes <= limits.semanticBytes
    ensures FinalState(source, limits, false) == Complete && Readable(source) && Digests(source.lines) == [d]
    ensures Inspected(source, limits) == multiset{d}
  {
    var lines := source.lines;
    assert Reading(lines, limits, 1, bytes, 1) == Ending(None, 1);
    assert Reading(lines, limits, 0, 0, 0) == Reading(lines, limits, 1, bytes, 1);
    assert DigestsTo(lines, 0) == [] && DigestsTo(lines, 1) == [d];
    assert Head([d], 1) == [d];
  }

  /** Without that proviso the second claim fails: the baseline's training file shares its first record with the
      evaluation file, the record budget ends the pass there, and a malformed line after it keeps the file from
      loading whole.  Streaming refutes; the whole files only lack evidence. */
  lemma LeakBeyondMemory(context: Context, a: Artifacts, claim: Claim, floats: Floats, d: string, e: string, bytes: nat,
                         again: bool)
    requires context.limits.records == 1 && 2 * bytes <= context.limits.semanticBytes && d != e
    requires context.sources(Role(Baseline, Train)) ==
             Source([Line(bytes, Record(d)), Line(bytes, Bad(Failed))], None, true, again)
    requires context.sources(Role(Baseline, Eval)) == Source([Line(bytes, Record(d))], None, true, again)
    requires context.sources(Role(Candidate, Train)) == Source([Line(bytes, Record(e))], None, true, again)
    requires context.sources(Role(Candidate, Eval)) == Source([Line(bytes, Record(d))], None, true, again)
    requires a.baselineTrain == Invalid && a.baselineEval == Loaded([d])
    requires a.candidateTrain == Loaded([e]) && a.candidateEval == Loaded([d])
    requires !UnfairConfigs(a.baselineConfig, a.candidateConfig)
    requires !RefutedResults(a.baselineResults, a.candidateResults, claim, floats)
    ensures SameFiles(context, a)
    ensures VerdictOf(AuditRules(a, claim, floats, InspectedRules(context))) == NotSupported
    ensures MemoryVerdict(a, claim, floats) == InsufficientEvidence
  {
    FilesOfTheLeak(context, a, d, e, bytes, again);
    VerdictsOfTheLeak(context, a, claim, floats, d);
  }

  lemma FilesOfTheLeak(context: Context, a: Artifacts, d: string, e: string, bytes: nat, again: bool)
    requires context.limits.records == 1 && 2 * bytes <= context.limits.semanticBytes
    requires context.sources(Role(Baseline, Train)) ==
             Source([Line(bytes, Record(d)), Line(bytes, Bad(Failed))], None, true, again)
    requires context.sources(Role(Baseline, Eval)) == Source([Line(bytes, Record(d))], None, true, again)
    requires context.sources(Role(Candidate, Train)) == Source([Line(bytes, Record(e))], None, true, again)
    requires context.sources(Role(Candidate, Eval)) == Source([Line(bytes, Record(d))], None, true, again)
    requires a.baselineTrain == Invalid && a.baselineEval == Loaded([d])
    requires a.candidateTrain == Loaded([e]) && a.candidateEval == Loaded([d])
    ensures SameFiles(context, a)
    ensures Kept(context, Role(Baseline, Train)) == Kept(context, Role(Baseline, Eval)) == multiset{d}
  {
    hide Readable, Inspected, FinalState, Digests;
    CutShort(context.sources(Role(Baseline, Train)), context.limits, d, bytes, bytes, again);
    OneRecord(context.sources(Role(Baseline, Eval)), context.limits, d, bytes, again);
    OneRecord(context.sources(Role(Candidate, Train)), context.limits, e, bytes, again);
    OneRecord(context.sources(Role(Candidate, Eval)), context.limits, d, bytes, again);
    forall role: Role ensures SameFile(context.sources(role), LoadOf(a, role)) {
      match role
      case Role(Baseline, Train) =>
      case Role(Baseline, Eval) =>
      case Role(Candidate, Train) =>
      case Role(Candidate, Eval) =>
    }
  }

  lemma VerdictsOfTheLeak(context: Context, a: Artifacts, claim: Claim, floats: Floats, d: string)
    requires Kept(context, Role(Baseline, Train)) == Kept(context, Role(Baseline, Eval)) == multiset{d}
    requires a.baselineTrain == Invalid && a.baselineEval == Loaded([d])
    requires a.candidateTrain.Loaded? && d !in a.candidateTrain.value && a.candidateEval == Loaded([d])
    requires !UnfairConfigs(a.baselineConfig, a.candidateConfig)
    requires !RefutedResults(a.baselineResults, a.candidateResults, claim, floats)
    ensures VerdictOf(AuditRules(a, claim, floats, InspectedRules(context))) == NotSupported
    ensures MemoryVerdict(a, claim, floats) == InsufficientEvidence
  {
    hide AllHarmless, SomeInvalidates, UnfairConfigs, RefutedResults, ConfigRules, ResultRules, DatasetRules, LeakRules,
      AlignRules, Kept, Finished;
    var configs, results := ConfigRules(a.baselineConfig, a.candidateConfig),
                            ResultRules(a.baselineResults, a.candidateResults, claim, floats);
    ConfigMeaning(a.baselineConfig, a.candidateConfig);
    ResultMeaning(a.baselineResults, a.candidateResults, claim, floats);
    DatasetMeaning(a);
    assert d !in multiset(a.candidateTrain.value);
    assert multiset(a.candidateTrain.value) * multiset([d]) == multiset{};
    GroupsJoin(configs, results);
    GroupsJoin(configs + results, DatasetRules(a));
    GroupsJoin(configs + results, InspectedRules(context));
    InspectedLeak(context);
    assert d in multiset{d} * multiset{d};
  }

  lemma InspectedLeak(context: Context)
    requires Kept(context, Role(Baseline, Train)) * Kept(context, Role(Baseline, Eval)) != multiset{}
    ensures SomeInvalidates(InspectedRules(context))
  {
    hide Kept, Finished;
    var complete := Finished(context, Role(Baseline, Train)) && Finished(context, Role(Baseline, Eval));
    var leak := LeakRules(Kept(context, Role(Baseline, Train)), Kept(context, Role(Baseline, Eval)), complete);
    assert DatasetExactLeakage in leak;
    assert DatasetExactLeakage in InspectedRules(context);
  }
}
