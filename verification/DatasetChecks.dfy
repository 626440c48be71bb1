/** Leakage and alignment of the evaluation data, from whole files in memory or from bounded scans. */
module DatasetChecks {
  import opened Common
  import opened DigestCounts
  import opened DatasetIdentity
  import opened DatasetSpills
  import opened DatasetScans
  import opened Findings

  // ---------------------------------------------------------------- in memory

  lemma WholeOverlap(rows: seq<Row>, a: multiset<string>, b: multiset<string>)
    requires Lists(rows, a * b)
    ensures OverlapIs(Overlap(|a|, |b|, |a * b|, DigestsOf(rows), |rows|), a, b, |rows|)
  {
    hide Lists;
    assert First(rows, |rows|) == rows;
  }

  /** Leakage of one experiment: both sizes, the shared records and their sorted digests. */
  method CheckDatasetLeakage(train: seq<string>, eval: seq<string>) returns (summary: Overlap, finding: Finding)
    ensures OverlapIs(summary, multiset(train), multiset(eval), summary.distinct)
    ensures finding == Finding(LeakRule(multiset(train), multiset(eval)), ImpactOf(finding.rule))
  {
    hide OverlapIs, Lists;
    var rows := SortedCounts(train);
    var _, counts := CountDigests(eval);
    var joined, overlapCount := JoinLeast(rows, counts, multiset(train), multiset(eval));
    EmptyIffNoSize(multiset(train) * multiset(eval));
    WholeOverlap(joined, multiset(train), multiset(eval));
    assert |multiset(train)| == |train| && |multiset(eval)| == |eval|;
    summary := Overlap(|train|, |eval|, overlapCount, DigestsOf(joined), |joined|);
    finding := if overlapCount > 0 then Finding(DatasetExactLeakage, Invalidates)
               else Finding(DatasetNoLeakage, Harmless);
  }

  lemma EmptyIffNoSize(m: multiset<string>)
    ensures |m| == 0 <==> m == multiset{}
  {
  }

  function LeakRule(train: multiset<string>, eval: multiset<string>): Rule {
    if train * eval != multiset{} then DatasetExactLeakage else DatasetNoLeakage
  }

  function AlignRule(baseline: multiset<string>, candidate: multiset<string>): Rule {
    if baseline == candidate then DatasetEvaluationAligned else DatasetEvaluationMismatch
  }

  /** The evidence carries both differences in full. */
  ghost predicate FullAlignment(fact: Alignment, a: multiset<string>, b: multiset<string>) {
    exists limit: nat :: AlignmentIs(fact, a, b, limit) &&
      |fact.baselinePreview| <= limit && |fact.candidatePreview| <= limit
      && Lists(fact.baselinePreview, a - b) && Lists(fact.candidatePreview, b - a)
  }

  /** Alignment of both evaluation splits: what they share, and what only one of them holds. */
  method CheckEvaluationAlignment(baseline: seq<string>, candidate: seq<string>)
    returns (evidence: Alignment, finding: Finding)
    ensures FullAlignment(evidence, multiset(baseline), multiset(candidate))
    ensures finding == Finding(AlignRule(multiset(baseline), multiset(candidate)), ImpactOf(finding.rule))
  {
    var b := SortedCounts(baseline);
    var c := SortedCounts(candidate);
    evidence := Compare(baseline, candidate, b, c);
    if multiset(baseline) == multiset(candidate) {
      ListingUnique(b, c, multiset(baseline));
    } else if b == c {
      ListingInjective(b, multiset(baseline), multiset(candidate));
      assert false;
    }
    finding := if b == c then Finding(DatasetEvaluationAligned, Harmless)
               else Finding(DatasetEvaluationMismatch, Invalidates);
  }

  method Compare(baseline: seq<string>, candidate: seq<string>, b: seq<Row>, c: seq<Row>) returns (evidence: Alignment)
    requires Lists(b, multiset(baseline)) && Lists(c, multiset(candidate))
    ensures FullAlignment(evidence, multiset(baseline), multiset(candidate))
  {
    var _, inBaseline := CountDigests(baseline);
    var _, inCandidate := CountDigests(candidate);
    var _, matching := JoinLeast(b, inCandidate, multiset(baseline), multiset(candidate));
    var onlyBaseline, baselineOnly := JoinExcess(b, inCandidate, multiset(baseline), multiset(candidate));
    var onlyCandidate, candidateOnly := JoinExcess(c, inBaseline, multiset(candidate), multiset(baseline));
    evidence := Alignment(matching, baselineOnly, candidateOnly, onlyBaseline, onlyCandidate);
    ghost var limit := |onlyBaseline| + |onlyCandidate|;
    assert First(onlyBaseline, limit) == onlyBaseline && First(onlyCandidate, limit) == onlyCandidate;
    assert AlignmentIs(evidence, multiset(baseline), multiset(candidate), limit);
  }

  // ---------------------------------------------------------------- the four scans of an audit

  const ROLES: seq<Role> :=
    [Role(Baseline, Train), Role(Baseline, Eval), Role(Candidate, Train), Role(Candidate, Eval)]

  function Place(role: Role): (i: nat)
    ensures i < |ROLES| && ROLES[i] == role
  {
    (if role.experiment == Baseline then 0 else 2) + (if role.split == Train then 0 else 1)
  }

  /** The budgets cover every line, all of them acceptable, and there is a record. */
  ghost predicate Readable(source: Source) {
    && source.broken.None? && Digests(source.lines) != []
    && forall i :: 0 <= i < |source.lines| ==> !source.lines[i].body.Bad?
  }

  function Head(all: seq<string>, k: nat): seq<string> { if k <= |all| then all[..k] else all }

  /** What a pass keeps of a split while the disk takes every batch: the records before the first interruption,
      or nothing when that is a failure. */
  ghost function Inspected(source: Source, limits: Limits): multiset<string> {
    if FinalState(source, limits, false) == Stopped(Failed) then multiset{}
    else multiset(Head(Digests(source.lines), EndingOf(source, limits).records))
  }

  /** What the table holds for a split, compared with all records of its file. */
  ghost predicate SplitFact(scan: SplitScan, m: multiset<string>, source: Source, limits: Limits, willing: bool) {
    var all := Digests(source.lines);
    && scan.indexed <= |m| <= scan.records <= |all| && m <= multiset(all)
    && (scan.state == Stopped(Failed) ==> m == multiset{})
    && (scan.state == Complete ==> m == multiset(all) && Readable(source))
    && (willing ==> scan.state == FinalState(source, limits, false) && m == Inspected(source, limits))
  }

  lemma KeptPrefix(all: seq<string>, stored: nat)
    requires stored <= |all|
    ensures |multiset(all[..stored])| == stored && multiset(all[..stored]) <= multiset(all)
    ensures all[..|all|] == all
  {
    assert all == all[..stored] + all[stored..];
  }

  lemma FaithfulMeans(scan: SplitScan, stored: nat, all: seq<string>, now: map<Role, multiset<string>>,
                      before: map<Role, multiset<string>>, role: Role)
    requires Faithful(scan, stored, all, now, before, role) && role in before && before[role] == multiset{}
    ensures scan.role == role && role in now && scan.indexed <= stored <= scan.records <= |all|
    ensures now[role] == if scan.state == Stopped(Failed) then multiset{} else multiset(all[..stored])
    ensures scan.state == Stopped(Failed) ==> scan.indexed == 0
  {
  }

  lemma FaithfulFact(scan: SplitScan, stored: nat, source: Source, limits: Limits, willing: bool,
                     now: map<Role, multiset<string>>, before: map<Role, multiset<string>>, role: Role)
    requires Faithful(scan, stored, Digests(source.lines), now, before, role)
    requires role in before && before[role] == multiset{}
    requires scan.state == Complete ==> stored == |Digests(source.lines)| && Clean(source, limits)
    requires willing ==>
      scan.state == FinalState(source, limits, false) && scan.records == EndingOf(source, limits).records
    requires willing && scan.state != Stopped(Failed) ==> stored == scan.indexed == scan.records
    ensures scan.role == role && role in now && SplitFact(scan, now[role], source, limits, willing)
  {
    hide Faithful, Digests, EndingOf, FinalState;
    FaithfulMeans(scan, stored, Digests(source.lines), now, before, role);
    KeptPrefix(Digests(source.lines), stored);
  }

  /** Four sources, the limits, and what the disk does to the schema, to each batch of each scan and to deletions. */
  datatype Context = Context(sources: Role -> Source, limits: Limits, schema: Disk, disk: nat -> nat -> Disk,
                             deletes: nat -> bool)

  /** The disk takes the schema and every batch of every split, and deletes what it is told to. */
  ghost predicate Undisturbed(context: Context, maximumBytes: nat) {
    && Takes(context.schema, maximumBytes)
    && forall i: nat :: Willing(context.disk(i), maximumBytes) && context.deletes(i)
  }

  ghost predicate AllVerified(context: Context) { forall role: Role :: context.sources(role).verified }

  ghost predicate FactAt(scans: seq<SplitScan>, i: nat, contents: map<Role, multiset<string>>, context: Context,
                         willing: bool)
    requires i < |scans| && i < |ROLES|
  {
    && scans[i].role == ROLES[i] && ROLES[i] in contents
    && SplitFact(scans[i], contents[ROLES[i]], context.sources(ROLES[i]), context.limits, willing)
  }

  /** The first n scans are done, the splits after them are still empty. */
  ghost predicate ScannedTo(scans: seq<SplitScan>, n: nat, contents: map<Role, multiset<string>>, context: Context,
                            willing: bool) {
    && |scans| == n <= |ROLES|
    && (forall role: Role :: role in contents)
    && (forall i :: 0 <= i < n ==> FactAt(scans, i, contents, context, willing))
    && (forall i :: n <= i < |ROLES| ==> contents[ROLES[i]] == multiset{})
  }

  lemma RolesDiffer(i: nat, j: nat)
    requires i < |ROLES| && j < |ROLES| && i != j
    ensures ROLES[i] != ROLES[j]
  {
  }

  lemma OneMoreScan(scans: seq<SplitScan>, scan: SplitScan, n: nat, now: map<Role, multiset<string>>,
                    before: map<Role, multiset<string>>, context: Context, willing: bool)
    requires n < |ROLES| && ScannedTo(scans, n, before, context, willing) && OthersKept(now, before, ROLES[n])
    requires scan.role == ROLES[n]
    requires SplitFact(scan, now[ROLES[n]], context.sources(ROLES[n]), context.limits, willing)
    ensures ScannedTo(scans + [scan], n + 1, now, context, willing)
  {
    hide SplitFact;
    forall i: nat | i < |ROLES| && i != n ensures now[ROLES[i]] == before[ROLES[i]] {
      RolesDiffer(i, n);
    }
    forall i: nat | i < n + 1 ensures FactAt(scans + [scan], i, now, context, willing) {
      assert i < n ==> FactAt(scans, i, before, context, willing);
    }
  }

  /** Scan all four splits into one spill; None when the budget cannot hold the schema, an artifact cannot be verified
      or a failed split not be deleted. */
  method ScanAll(context: Context, maximumBytes: nat) returns (store: DatasetSpill, scans: Option<seq<SplitScan>>)
    ensures fresh(store) && store.Valid()
    ensures scans.Some? ==> Takes(context.schema, maximumBytes)
    ensures scans.Some? ==>
      ScannedTo(scans.value, |ROLES|, store.contents, context, Undisturbed(context, maximumBytes))
    ensures AllVerified(context) && Undisturbed(context, maximumBytes) ==> scans.Some?
  {
    hide SplitFact, Faithful;
    store := new DatasetSpill(maximumBytes, context.schema);
    if store.exhausted {
      return store, None;
    }
    ghost var willing := Undisturbed(context, maximumBytes);
    var done := [];
    for i := 0 to |ROLES|
      invariant fresh(store) && store.Valid() && store.maximumBytes == maximumBytes
      invariant willing ==> !store.exhausted
      invariant ScannedTo(done, i, store.contents, context, willing)
    {
      ghost var before := store.contents;
      var scan, stored := ScanDataset(store, ROLES[i], context.sources(ROLES[i]), context.limits, context.disk(i),
                                      context.deletes(i));
      if scan.None? {
        return store, None;
      }
      FaithfulFact(scan.value, stored, context.sources(ROLES[i]), context.limits, willing, store.contents, before,
        ROLES[i]);
      OneMoreScan(done, scan.value, i, store.contents, before, context, willing);
      done := done + [scan.value];
    }
    scans := Some(done);
  }

  // ---------------------------------------------------------------- what scans allow to be said

  predicate CompleteAt(scans: seq<SplitScan>, role: Role)
    requires |scans| == |ROLES|
  {
    scans[Place(role)].state == Complete
  }

  /** The rules of one experiment: leakage from whatever was stored, absence of leakage only from complete scans. */
  ghost function LeakRules(train: multiset<string>, eval: multiset<string>, complete: bool): set<Rule> {
    Pick(train * eval != multiset{}, DatasetExactLeakage)
    + Pick(train * eval == multiset{} && complete, DatasetNoLeakage)
    + Pick(!complete, DatasetScanIncomplete)
  }

  lemma OverlapCount(fact: Overlap, a: multiset<string>, b: multiset<string>, limit: nat)
    requires OverlapIs(fact, a, b, limit)
    ensures fact.overlapCount == |a * b|
  {
  }

  method ReportLeakage(before: seq<Finding>, overlapCount: nat, complete: bool, ghost a: multiset<string>,
                       ghost b: multiset<string>)
    returns (findings: seq<Finding>)
    requires Consistent(before) && overlapCount == |a * b|
    ensures Consistent(findings) && RuleSet(findings) == RuleSet(before) + LeakRules(a, b, complete)
  {
    hide RuleSet, Consistent;
    EmptyIffNoSize(a * b);
    findings := before;
    if overlapCount > 0 {
      findings := Report(findings, DatasetExactLeakage, Invalidates);
    } else if complete {
      findings := Report(findings, DatasetNoLeakage, Harmless);
    }
    if !complete {
      findings := Report(findings, DatasetScanIncomplete, Insufficient);
    }
  }

  method ReportExperiment(before: seq<Finding>, store: DatasetSpill, scans: seq<SplitScan>, experiment: Experiment,
                          limit: nat)
    returns (findings: seq<Finding>, fact: Overlap)
    requires store.Valid() && Consistent(before) && |scans| == |ROLES|
    ensures Consistent(findings)
    ensures OverlapIs(fact, store.contents[Role(experiment, Train)], store.contents[Role(experiment, Eval)], limit)
    ensures RuleSet(findings) == RuleSet(before) + LeakRules(
      store.contents[Role(experiment, Train)], store.contents[Role(experiment, Eval)],
      CompleteAt(scans, Role(experiment, Train)) && CompleteAt(scans, Role(experiment, Eval)))
  {
    hide OverlapIs, RuleSet, Consistent, LeakRules;
    fact := store.OverlapFact(experiment, limit);
    ghost var a, b := store.contents[Role(experiment, Train)], store.contents[Role(experiment, Eval)];
    OverlapCount(fact, a, b, limit);
    var complete := CompleteAt(scans, Role(experiment, Train)) && CompleteAt(scans, Role(experiment, Eval));
    findings := ReportLeakage(before, fact.overlapCount, complete, a, b);
  }

  /** The rules for what each split holds and whether its scan is complete, baseline first, training first. */
  ghost function RulesFrom(bt: multiset<string>, be: multiset<string>, ct: multiset<string>, ce: multiset<string>,
                           btDone: bool, beDone: bool, ctDone: bool, ceDone: bool): set<Rule> {
    LeakRules(bt, be, btDone && beDone) + LeakRules(ct, ce, ctDone && ceDone) + AlignRules(be, ce, beDone && ceDone)
  }

  ghost function StreamRules(contents: map<Role, multiset<string>>, scans: seq<SplitScan>): set<Rule>
    requires |scans| == |ROLES| && forall role: Role :: role in contents
  {
    RulesFrom(contents[Role(Baseline, Train)], contents[Role(Baseline, Eval)],
              contents[Role(Candidate, Train)], contents[Role(Candidate, Eval)],
              CompleteAt(scans, Role(Baseline, Train)), CompleteAt(scans, Role(Baseline, Eval)),
              CompleteAt(scans, Role(Candidate, Train)), CompleteAt(scans, Role(Candidate, Eval)))
  }

  ghost predicate Finished(context: Context, role: Role) {
    FinalState(context.sources(role), context.limits, false) == Complete
  }

  ghost function Kept(context: Context, role: Role): multiset<string> {
    Inspected(context.sources(role), context.limits)
  }

  /** The rules of an undisturbed run, from the sources and the limits alone. */
  ghost function InspectedRules(context: Context): set<Rule> {
    RulesFrom(Kept(context, Role(Baseline, Train)), Kept(context, Role(Baseline, Eval)),
              Kept(context, Role(Candidate, Train)), Kept(context, Role(Candidate, Eval)),
              Finished(context, Role(Baseline, Train)), Finished(context, Role(Baseline, Eval)),
              Finished(context, Role(Candidate, Train)), Finished(context, Role(Candidate, Eval)))
  }

  ghost function AlignRules(baseline: multiset<string>, candidate: multiset<string>, complete: bool): set<Rule> {
    if complete then {AlignRule(baseline, candidate)} else {}
  }

  /** The identity of a completely scanned evaluation split. */
  method EvaluationIdentity(store: DatasetSpill, scans: seq<SplitScan>, experiment: Experiment)
    returns (id: Option<Identity>)
    requires store.Valid() && |scans| == |ROLES|
    ensures id.Some? <==> CompleteAt(scans, Role(experiment, Eval))
    ensures id.Some? ==> Identifies(id.value, store.contents[Role(experiment, Eval)])
  {
    if !CompleteAt(scans, Role(experiment, Eval)) {
      return None;
    }
    var found := store.MultisetIdentity(Role(experiment, Eval));
    id := Some(found);
  }

  /** Alignment is decided by comparing commitments, and only between complete evaluation scans. */
  method ReportAlignment(before: seq<Finding>, store: DatasetSpill, baseline: Option<Identity>,
                         candidate: Option<Identity>, limit: nat)
    returns (findings: seq<Finding>, fact: Option<Alignment>)
    requires store.Valid() && Consistent(before)
    requires HexDigests(store.contents[Role(Baseline, Eval)]) && HexDigests(store.contents[Role(Candidate, Eval)])
    requires baseline.Some? ==> Identifies(baseline.value, store.contents[Role(Baseline, Eval)])
    requires candidate.Some? ==> Identifies(candidate.value, store.contents[Role(Candidate, Eval)])
    ensures Consistent(findings) && (fact.Some? <==> baseline.Some? && candidate.Some?)
    ensures fact.Some? ==>
      AlignmentIs(fact.value, store.contents[Role(Baseline, Eval)], store.contents[Role(Candidate, Eval)], limit)
    ensures RuleSet(findings) == RuleSet(before) + AlignRules(
      store.contents[Role(Baseline, Eval)], store.contents[Role(Candidate, Eval)], baseline.Some? && candidate.Some?)
  {
    hide AlignmentIs, Identifies, HexDigests, RuleSet, Consistent;
    if baseline.None? || candidate.None? {
      return before, None;
    }
    var evidence := store.AlignmentFact(limit);
    fact := Some(evidence);
    IdentityDecides(baseline.value, candidate.value, store.contents[Role(Baseline, Eval)],
                    store.contents[Role(Candidate, Eval)]);
    if baseline.value == candidate.value {
      findings := Report(before, DatasetEvaluationAligned, Harmless);
    } else {
      findings := Report(before, DatasetEvaluationMismatch, Invalidates);
    }
  }

  /** What a streamed check hands on: findings, the facts they print, and the evaluation identities. */
  datatype Streamed = Streamed(findings: seq<Finding>, baseline: Overlap, candidate: Overlap,
                               alignment: Option<Alignment>, baselineIdentity: Option<Identity>,
                               candidateIdentity: Option<Identity>)

  /** The facts are those of what the table holds. */
  ghost predicate ExactFacts(r: Streamed, contents: map<Role, multiset<string>>, limit: nat)
    requires forall role: Role :: role in contents
  {
    && OverlapIs(r.baseline, contents[Role(Baseline, Train)], contents[Role(Baseline, Eval)], limit)
    && OverlapIs(r.candidate, contents[Role(Candidate, Train)], contents[Role(Candidate, Eval)], limit)
    && (r.alignment.Some? ==>
         AlignmentIs(r.alignment.value, contents[Role(Baseline, Eval)], contents[Role(Candidate, Eval)], limit))
    && (r.baselineIdentity.Some? ==> Identifies(r.baselineIdentity.value, contents[Role(Baseline, Eval)]))
    && (r.candidateIdentity.Some? ==> Identifies(r.candidateIdentity.value, contents[Role(Candidate, Eval)]))
  }

  ghost predicate FactsPresent(r: Streamed, scans: seq<SplitScan>)
    requires |scans| == |ROLES|
  {
    && (r.baselineIdentity.Some? <==> CompleteAt(scans, Role(Baseline, Eval)))
    && (r.candidateIdentity.Some? <==> CompleteAt(scans, Role(Candidate, Eval)))
    && (r.alignment.Some? <==> CompleteAt(scans, Role(Baseline, Eval)) && CompleteAt(scans, Role(Candidate, Eval)))
  }

  method CheckStreaming(store: DatasetSpill, scans: seq<SplitScan>, limit: nat) returns (r: Streamed)
    requires store.Valid() && |scans| == |ROLES|
    requires HexDigests(store.contents[Role(Baseline, Eval)]) && HexDigests(store.contents[Role(Candidate, Eval)])
    ensures Consistent(r.findings) && RuleSet(r.findings) == StreamRules(store.contents, scans)
    ensures ExactFacts(r, store.contents, limit) && FactsPresent(r, scans)
  {
    hide OverlapIs, AlignmentIs, LeakRules, AlignRules, Identifies;
    var findings, baseline := ReportExperiment([], store, scans, Baseline, limit);
    var candidate;
    findings, candidate := ReportExperiment(findings, store, scans, Candidate, limit);
    var baselineIdentity := EvaluationIdentity(store, scans, Baseline);
    var candidateIdentity := EvaluationIdentity(store, scans, Candidate);
    var alignment;
    findings, alignment := ReportAlignment(findings, store, baselineIdentity, candidateIdentity, limit);
    r := Streamed(findings, baseline, candidate, alignment, baselineIdentity, candidateIdentity);
  }

  /** All records of a split's file. */
  ghost function Whole(context: Context, role: Role): multiset<string> {
    multiset(Digests(context.sources(role).lines))
  }

  /** The rules that the in-memory checks report on the whole files. */
  ghost function MemoryRules(context: Context): set<Rule> {
    {LeakRule(Whole(context, Role(Baseline, Train)), Whole(context, Role(Baseline, Eval))),
     LeakRule(Whole(context, Role(Candidate, Train)), Whole(context, Role(Candidate, Eval))),
     AlignRule(Whole(context, Role(Baseline, Eval)), Whole(context, Role(Candidate, Eval)))}
  }

  lemma RoleFact(scans: seq<SplitScan>, contents: map<Role, multiset<string>>, context: Context, willing: bool,
                 role: Role)
    requires ScannedTo(scans, |ROLES|, contents, context, willing)
    ensures contents[role] <= Whole(context, role)
    ensures CompleteAt(scans, role) ==> contents[role] == Whole(context, role) && Readable(context.sources(role))
    ensures willing ==> contents[role] == Kept(context, role) && (CompleteAt(scans, role) <==> Finished(context, role))
  {
    assert FactAt(scans, Place(role), contents, context, willing);
  }

  /** One experiment's rules against those of its whole files. */
  lemma LeakRulesSound(a: multiset<string>, b: multiset<string>, complete: bool, wholeA: multiset<string>,
                       wholeB: multiset<string>)
    requires a <= wholeA && b <= wholeB && (complete ==> a == wholeA && b == wholeB)
    ensures complete ==> LeakRules(a, b, complete) == {LeakRule(wholeA, wholeB)}
    ensures LeakRules(a, b, complete) <= {LeakRule(wholeA, wholeB), DatasetScanIncomplete}
    ensures DatasetScanIncomplete in LeakRules(a, b, complete) <==> !complete
  {
    if a * b != multiset{} {
      var d :| d in a * b;
      assert d in wholeA * wholeB;
    }
  }

  lemma SomeIncomplete(scans: seq<SplitScan>)
    requires |scans| == |ROLES|
    ensures (forall role: Role :: CompleteAt(scans, role)) <==>
      && CompleteAt(scans, Role(Baseline, Train)) && CompleteAt(scans, Role(Baseline, Eval))
      && CompleteAt(scans, Role(Candidate, Train)) && CompleteAt(scans, Role(Candidate, Eval))
  {
    forall role: Role ensures role in AllRoles() { AllRolesListed(role); }
  }

  /** The three groups of rules put together. */
  lemma RulesCombine(x: set<Rule>, y: set<Rule>, z: set<Rule>, r: Rule, s: Rule, t: Rule, first: bool, second: bool,
                     third: bool)
    requires first ==> x == {r}
    requires second ==> y == {s}
    requires z == if third then {t} else {}
    requires x <= {r, DatasetScanIncomplete} && y <= {s, DatasetScanIncomplete} && t != DatasetScanIncomplete
    requires (DatasetScanIncomplete in x <==> !first) && (DatasetScanIncomplete in y <==> !second)
    requires first && second ==> third
    ensures first && second ==> x + y + z == {r, s, t}
    ensures first && second <==> DatasetScanIncomplete !in x + y + z
    ensures x + y + z <= {r, s, t} + {DatasetScanIncomplete}
  {
  }

  /** Complete scans say exactly what the in-memory checks say; incomplete ones never say more than the whole
      files bear out, and always admit that they are incomplete. */
  lemma StreamingIsSound(scans: seq<SplitScan>, contents: map<Role, multiset<string>>, context: Context, willing: bool)
    requires ScannedTo(scans, |ROLES|, contents, context, willing)
    ensures (forall role: Role :: CompleteAt(scans, role)) ==> StreamRules(contents, scans) == MemoryRules(context)
    ensures (forall role: Role :: CompleteAt(scans, role)) <==> DatasetScanIncomplete !in StreamRules(contents, scans)
    ensures StreamRules(contents, scans) <= MemoryRules(context) + {DatasetScanIncomplete}
  {
    hide ScannedTo, LeakRules, CompleteAt, Whole, LeakRule, AlignRule;
    var bt, be, ct, ce := Role(Baseline, Train), Role(Baseline, Eval), Role(Candidate, Train), Role(Candidate, Eval);
    AllScanned(scans, contents, context, willing);
    RoleFact(scans, contents, context, willing, bt);
    RoleFact(scans, contents, context, willing, be);
    RoleFact(scans, contents, context, willing, ct);
    RoleFact(scans, contents, context, willing, ce);
    SomeIncomplete(scans);
    var first := CompleteAt(scans, bt) && CompleteAt(scans, be);
    var second := CompleteAt(scans, ct) && CompleteAt(scans, ce);
    var third := CompleteAt(scans, be) && CompleteAt(scans, ce);
    LeakRulesSound(contents[bt], contents[be], first, Whole(context, bt), Whole(context, be));
    LeakRulesSound(contents[ct], contents[ce], second, Whole(context, ct), Whole(context, ce));
    AlignRuleKind(Whole(context, be), Whole(context, ce));
    RulesCombine(LeakRules(contents[bt], contents[be], first), LeakRules(contents[ct], contents[ce], second),
      AlignRules(contents[be], contents[ce], third), LeakRule(Whole(context, bt), Whole(context, be)),
      LeakRule(Whole(context, ct), Whole(context, ce)), AlignRule(Whole(context, be), Whole(context, ce)),
      first, second, third);
  }

  lemma AlignRuleKind(a: multiset<string>, b: multiset<string>)
    ensures AlignRule(a, b) != DatasetScanIncomplete
  {
  }

  lemma AllScanned(scans: seq<SplitScan>, contents: map<Role, multiset<string>>, context: Context, willing: bool)
    requires ScannedTo(scans, |ROLES|, contents, context, willing)
    ensures |scans| == |ROLES| && forall role: Role :: role in contents
  {
  }

  /** With an undisturbed disk the rules are those of what each pass inspects. */
  lemma UndisturbedRules(scans: seq<SplitScan>, contents: map<Role, multiset<string>>, context: Context)
    requires ScannedTo(scans, |ROLES|, contents, context, true)
    ensures |scans| == |ROLES| && (forall role: Role :: role in contents)
    ensures StreamRules(contents, scans) == InspectedRules(context)
  {
    hide ScannedTo, RulesFrom, CompleteAt, Kept, Finished;
    AllScanned(scans, contents, context, true);
    RoleFact(scans, contents, context, true, Role(Baseline, Train));
    RoleFact(scans, contents, context, true, Role(Baseline, Eval));
    RoleFact(scans, contents, context, true, Role(Candidate, Train));
    RoleFact(scans, contents, context, true, Role(Candidate, Eval));
  }

  lemma ListingOf(fact: Overlap, a: multiset<string>, b: multiset<string>, limit: nat) returns (rows: seq<Row>)
    requires OverlapIs(fact, a, b, limit)
    ensures Lists(rows, a * b) && fact == Overlap(|a|, |b|, |a * b|, DigestsOf(First(rows, limit)), |rows|)
  {
    hide Lists;
    rows :| Lists(rows, a * b) && fact.distinct == |rows| && fact.preview == DigestsOf(First(rows, limit));
  }

  /** The facts of two complete scans are those of the in-memory check; the preview is the head of its list. */
  lemma PreviewIsPrefix(streamed: Overlap, whole: Overlap, a: multiset<string>, b: multiset<string>, limit: nat)
    requires OverlapIs(streamed, a, b, limit) && OverlapIs(whole, a, b, whole.distinct)
    ensures streamed == whole.(preview := if |whole.preview| <= limit then whole.preview else whole.preview[..limit])
  {
    hide Lists, OverlapIs;
    var x := ListingOf(streamed, a, b, limit);
    var y := ListingOf(whole, a, b, whole.distinct);
    ListingUnique(x, y, a * b);
    assert First(y, |y|) == y;
    assert limit < |x| ==> DigestsOf(x[..limit]) == DigestsOf(x)[..limit];
  }

  ghost predicate HexSources(context: Context) {
    forall role: Role :: HexDigests(Whole(context, role))
  }

  /** The streamed dataset audit, from four sources to findings, for every behaviour of the disk: it reports what
      the in-memory audit of the whole files reports, or part of it together with the admission that a scan was
      incomplete.  With an undisturbed disk and verified sources it always ends in findings, and their rules
      are determined by the sources and the limits. */
  method AuditStreams(context: Context, maximumBytes: nat, limit: nat)
    returns (r: Option<Streamed>, ghost scans: seq<SplitScan>, ghost contents: map<Role, multiset<string>>)
    requires HexSources(context)
    ensures r.Some? ==> Takes(context.schema, maximumBytes)
    ensures r.Some? ==> ScannedTo(scans, |ROLES|, contents, context, Undisturbed(context, maximumBytes))
    ensures r.Some? ==>
      Consistent(r.value.findings) && RuleSet(r.value.findings) == StreamRules(contents, scans)
      && ExactFacts(r.value, contents, limit) && FactsPresent(r.value, scans)
    ensures r.Some? ==> RuleSet(r.value.findings) <= MemoryRules(context) + {DatasetScanIncomplete}
    ensures r.Some? ==>
      RuleSet(r.value.findings) == MemoryRules(context) || DatasetScanIncomplete in RuleSet(r.value.findings)
    ensures AllVerified(context) && Undisturbed(context, maximumBytes) ==> r.Some?
    ensures r.Some? && Undisturbed(context, maximumBytes) ==> RuleSet(r.value.findings) == InspectedRules(context)
  {
    hide RulesFrom, Kept, Finished, MemoryRules, StreamRules, InspectedRules, ExactFacts, FactsPresent, FactAt;
    var store, done := ScanAll(context, maximumBytes);
    scans, contents := [], store.contents;
    if done.None? {
      return None, scans, contents;
    }
    scans := done.value;
    ghost var willing := Undisturbed(context, maximumBytes);
    RoleFact(scans, contents, context, willing, Role(Baseline, Eval));
    RoleFact(scans, contents, context, willing, Role(Candidate, Eval));
    StreamingIsSound(scans, contents, context, willing);
    if willing {
      UndisturbedRules(scans, contents, context);
    }
    var reported := CheckStreaming(store, done.value, limit);
    r := Some(reported);
  }
}
