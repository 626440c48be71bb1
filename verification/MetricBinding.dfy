/** Which pair of raw metrics a claim is about: recognised by exact name, or approved by a person at one exact head. */
module MetricBindings {
  import opened Common
  import opened Ordering

  datatype Role = Baseline | Candidate

  datatype Kind = Exact | LexicalAlias

  datatype Authority = DeterministicExact | UserApproved

  datatype Metric = Metric(id: string, role: Role, rawName: string, source: string)

  datatype Identity = Identity(id: string, metric: Metric, canonical: string, kind: Kind)

  datatype Proposal = Proposal(id: string, baseline: Identity, candidate: Identity)

  /** Repository, commit and metric that a question or a binding is about. */
  datatype Place = Place(repository: string, head: string, canonical: string)

  datatype Question = Question(id: string, place: Place, proposals: seq<Proposal>, claim: Option<string>)

  datatype Binding = Binding(id: string, place: Place, baseline: Identity, candidate: Identity, authority: Authority,
                             approvedBy: Option<string>)

  datatype Resolution = Bound(binding: Binding) | ApprovalRequired(question: Question) | Unresolved

  datatype Error = DuplicateCandidates | InvalidMetric | ProposalsNotUnique | NoSuchProposal | InvalidApprover

  /** The truncated digests that identifiers are made of; nothing is assumed about them. */
  datatype Digests = Digests(
    identity: (string, string, Kind) -> string,
    proposal: (string, string, string) -> string,
    question: (Place, seq<string>, Option<string>, bool) -> string,
    binding: (Place, string, string, Authority, Option<string>) -> string)

  const MAX_PROPOSALS: nat := 8

  // ---------------------------------------------------------------- names

  function Fold(s: string): string {
    seq(|s|, i requires 0 <= i < |s| => if 'A' <= s[i] <= 'Z' then s[i] - 'A' + 'a' else s[i])
  }

  predicate CanonicalMetric(s: string) {
    && 1 <= |s| <= 256 && 'a' <= s[0] <= 'z'
    && forall i :: 0 <= i < |s| ==>
         'a' <= s[i] <= 'z' || '0' <= s[i] <= '9' || s[i] == '_' || s[i] == '.' || s[i] == '-'
  }

  predicate Alias(raw: string, canonical: string) { canonical == "accuracy" && raw == "acc" }

  function Identify(m: Metric, canonical: string, ids: Digests): Option<Identity> {
    var raw := Fold(m.rawName);
    if raw == canonical then Some(Identity(ids.identity(m.id, canonical, Exact), m, canonical, Exact))
    else if Alias(raw, canonical) then
      Some(Identity(ids.identity(m.id, canonical, LexicalAlias), m, canonical, LexicalAlias))
    else None
  }

  /** The recognised candidates of one role, in the order given. */
  function Recognised(metrics: seq<Metric>, role: Role, canonical: string, ids: Digests): seq<Identity> {
    if metrics == [] then []
    else
      var last := metrics[|metrics| - 1];
      var found := Identify(last, canonical, ids);
      Recognised(metrics[..|metrics| - 1], role, canonical, ids)
      + if found.Some? && last.role == role then [found.value] else []
  }

  function MakeProposal(b: Identity, c: Identity, ids: Digests): Proposal {
    Proposal(ids.proposal(b.canonical, b.id, c.id), b, c)
  }

  function Against(b: Identity, candidates: seq<Identity>, ids: Digests): seq<Proposal> {
    seq(|candidates|, i requires 0 <= i < |candidates| => MakeProposal(b, candidates[i], ids))
  }

  /** Every baseline with every candidate. */
  function Cross(baselines: seq<Identity>, candidates: seq<Identity>, ids: Digests): seq<Proposal> {
    if baselines == [] then []
    else Cross(baselines[..|baselines| - 1], candidates, ids) + Against(baselines[|baselines| - 1], candidates, ids)
  }

  function ProposalId(p: Proposal): string { p.id }

  function Proposals(metrics: seq<Metric>, canonical: string, ids: Digests): seq<Proposal> {
    SortBy(ProposalId,
      Cross(Recognised(metrics, Baseline, canonical, ids), Recognised(metrics, Candidate, canonical, ids), ids))
  }

  // ---------------------------------------------------------------- resolution and approval

  predicate UniqueIds(metrics: seq<Metric>) {
    forall i, j :: 0 <= i < j < |metrics| ==> metrics[i].id != metrics[j].id
  }

  predicate UniqueProposals(proposals: seq<Proposal>) {
    forall i, j :: 0 <= i < j < |proposals| ==> proposals[i].id != proposals[j].id
  }

  predicate IsCurrent(binding: Binding, place: Place, proposals: seq<Proposal>) {
    && binding.place == place
    && exists p :: p in proposals && p.baseline == binding.baseline && p.candidate == binding.candidate
  }

  function MakeBinding(place: Place, p: Proposal, authority: Authority, approver: Option<string>,
                       ids: Digests): Binding {
    Binding(ids.binding(place, p.baseline.id, p.candidate.id, authority, approver), place, p.baseline, p.candidate,
            authority, approver)
  }

  function Resolve(metrics: seq<Metric>, place: Place, claim: Option<string>, approved: Option<Binding>, ids: Digests)
    : Result<Resolution, Error>
  {
    if !UniqueIds(metrics) then Err(DuplicateCandidates)
    else if !CanonicalMetric(place.canonical) then Err(InvalidMetric)
    else
      var proposals := Proposals(metrics, place.canonical, ids);
      if |proposals| == 0 || |proposals| > MAX_PROPOSALS then Ok(Unresolved)
      else if approved.Some? && IsCurrent(approved.value, place, proposals) then Ok(Bound(approved.value))
      else if approved.None? && |proposals| == 1 && proposals[0].baseline.kind.Exact?
        && proposals[0].candidate.kind.Exact?
      then Ok(Bound(MakeBinding(place, proposals[0], DeterministicExact, None, ids)))
      else if !UniqueProposals(proposals) then Err(ProposalsNotUnique)
      else
        var proposalIds := seq(|proposals|, i requires 0 <= i < |proposals| => proposals[i].id);
        Ok(ApprovalRequired(Question(ids.question(place, proposalIds, claim, approved.Some?), place, proposals, claim)))
  }

  predicate ValidApprover(s: string) {
    && 1 <= |s| <= 256 && s[0] != ' ' && s[|s| - 1] != ' '
    && forall i :: 0 <= i < |s| ==> s[i] as int >= 32 && s[i] as int != 127
  }

  function Selected(proposals: seq<Proposal>, id: string): seq<Proposal> {
    if proposals == [] then []
    else
      var last := proposals[|proposals| - 1];
      Selected(proposals[..|proposals| - 1], id) + if last.id == id then [last] else []
  }

  function Approve(q: Question, id: string, approver: string, ids: Digests): Result<Binding, Error> {
    var chosen := Selected(q.proposals, id);
    if |chosen| != 1 then Err(NoSuchProposal)
    else if !ValidApprover(approver) then Err(InvalidApprover)
    else Ok(MakeBinding(q.place, chosen[0], UserApproved, Some(approver), ids))
  }

  // ---------------------------------------------------------------- what the proposals are

  /** b is a recognised identity of one of these metrics. */
  ghost predicate IdentityOf(metrics: seq<Metric>, role: Role, canonical: string, b: Identity, ids: Digests) {
    b.metric in metrics && b.metric.role == role && Identify(b.metric, canonical, ids) == Some(b)
  }

  lemma {:induction false} RecognisedAre(metrics: seq<Metric>, role: Role, canonical: string, ids: Digests)
    ensures forall b :: b in Recognised(metrics, role, canonical, ids) <==> IdentityOf(metrics, role, canonical, b, ids)
  {
    if metrics != [] {
      var init, last := metrics[..|metrics| - 1], metrics[|metrics| - 1];
      RecognisedAre(init, role, canonical, ids);
      assert metrics == init + [last];
    }
  }

  lemma {:induction false} CrossAre(baselines: seq<Identity>, candidates: seq<Identity>, ids: Digests)
    ensures forall p :: p in Cross(baselines, candidates, ids) <==>
      p.baseline in baselines && p.candidate in candidates && p == MakeProposal(p.baseline, p.candidate, ids)
    ensures |Cross(baselines, candidates, ids)| == |baselines| * |candidates|
  {
    if baselines != [] {
      var init, last := baselines[..|baselines| - 1], baselines[|baselines| - 1];
      CrossAre(init, candidates, ids);
      assert baselines == init + [last];
      forall p ensures p in Against(last, candidates, ids) <==>
        p.baseline == last && p.candidate in candidates && p == MakeProposal(last, p.candidate, ids)
      {
        if p.baseline == last && p.candidate in candidates && p == MakeProposal(last, p.candidate, ids) {
          var i :| 0 <= i < |candidates| && candidates[i] == p.candidate;
          assert Against(last, candidates, ids)[i] == p;
        }
      }
      assert |baselines| * |candidates| == |init| * |candidates| + |candidates|;
    }
  }

  ghost predicate PairOf(metrics: seq<Metric>, canonical: string, p: Proposal, ids: Digests) {
    && IdentityOf(metrics, Baseline, canonical, p.baseline, ids)
    && IdentityOf(metrics, Candidate, canonical, p.candidate, ids)
    && p == MakeProposal(p.baseline, p.candidate, ids)
  }

  /** Exactly the pairs of a recognised baseline and a recognised candidate are proposed. */
  lemma ProposalsAre(metrics: seq<Metric>, canonical: string, ids: Digests)
    ensures forall p :: p in Proposals(metrics, canonical, ids) <==> PairOf(metrics, canonical, p, ids)
    ensures |Proposals(metrics, canonical, ids)| ==
      |Recognised(metrics, Baseline, canonical, ids)| * |Recognised(metrics, Candidate, canonical, ids)|
  {
    var b, c := Recognised(metrics, Baseline, canonical, ids), Recognised(metrics, Candidate, canonical, ids);
    RecognisedAre(metrics, Baseline, canonical, ids);
    RecognisedAre(metrics, Candidate, canonical, ids);
    CrossAre(b, c, ids);
    SortByPermutes(ProposalId, Cross(b, c, ids));
  }

  // ---------------------------------------------------------------- permutations

  ghost function RecognisedSet(metrics: set<Metric>, role: Role, canonical: string, ids: Digests): set<Metric> {
    set m | m in metrics && m.role == role && Identify(m, canonical, ids).Some?
  }

  lemma RecognisedSetGrows(rest: set<Metric>, m: Metric, role: Role, canonical: string, ids: Digests)
    requires m !in rest
    ensures |RecognisedSet(rest + {m}, role, canonical, ids)| == |RecognisedSet(rest, role, canonical, ids)|
            + if m.role == role && Identify(m, canonical, ids).Some? then 1 else 0
  {
    if m.role == role && Identify(m, canonical, ids).Some? {
      assert RecognisedSet(rest + {m}, role, canonical, ids) == RecognisedSet(rest, role, canonical, ids) + {m};
    } else {
      assert RecognisedSet(rest + {m}, role, canonical, ids) == RecognisedSet(rest, role, canonical, ids);
    }
  }

  ghost function Members(metrics: seq<Metric>): set<Metric> { set m | m in metrics }

  lemma LastIsNew(metrics: seq<Metric>)
    requires UniqueIds(metrics) && metrics != []
    ensures metrics[|metrics| - 1] !in Members(metrics[..|metrics| - 1])
    ensures Members(metrics) == Members(metrics[..|metrics| - 1]) + {metrics[|metrics| - 1]}
  {
    assert metrics == metrics[..|metrics| - 1] + [metrics[|metrics| - 1]];
    forall i | 0 <= i < |metrics| - 1 ensures metrics[i] != metrics[|metrics| - 1] {
      assert metrics[i].id != metrics[|metrics| - 1].id;
    }
  }

  lemma {:induction false} RecognisedCount(metrics: seq<Metric>, role: Role, canonical: string, ids: Digests)
    requires UniqueIds(metrics)
    ensures |Recognised(metrics, role, canonical, ids)| == |RecognisedSet(Members(metrics), role, canonical, ids)|
  {
    if metrics == [] {
      assert RecognisedSet(Members(metrics), role, canonical, ids) == {};
    } else {
      var init, last := metrics[..|metrics| - 1], metrics[|metrics| - 1];
      RecognisedCount(init, role, canonical, ids);
      LastIsNew(metrics);
      RecognisedSetGrows(Members(init), last, role, canonical, ids);
    }
  }

  /** A reordering of the candidates changes neither the pairs proposed nor their number. */
  lemma SamePairs(metrics: seq<Metric>, others: seq<Metric>, canonical: string, ids: Digests)
    requires UniqueIds(metrics) && multiset(metrics) == multiset(others)
    ensures UniqueIds(others)
    ensures |Proposals(metrics, canonical, ids)| == |Proposals(others, canonical, ids)|
    ensures forall p :: p in Proposals(metrics, canonical, ids) <==> p in Proposals(others, canonical, ids)
  {
    SameMembers(metrics, others);
    StillUnique(metrics, others);
    assert Members(metrics) == Members(others);
    RecognisedCount(metrics, Baseline, canonical, ids);
    RecognisedCount(others, Baseline, canonical, ids);
    RecognisedCount(metrics, Candidate, canonical, ids);
    RecognisedCount(others, Candidate, canonical, ids);
    ProposalsAre(metrics, canonical, ids);
    ProposalsAre(others, canonical, ids);
  }

  lemma StillUnique(metrics: seq<Metric>, others: seq<Metric>)
    requires UniqueIds(metrics) && multiset(metrics) == multiset(others)
    ensures UniqueIds(others)
  {
    SameMembers(metrics, others);
    forall i, j | 0 <= i < j < |others| ensures others[i].id != others[j].id {
      assert others[i] in metrics && others[j] in metrics;
      if others[i].id == others[j].id {
        assert others[i] == others[j];
        assert others == others[..i] + [others[i]] + others[i + 1..j] + [others[j]] + others[j + 1..];
        assert multiset(others)[others[i]] >= 2;
        AtMostOnce(metrics, others[i]);
        assert false;
      }
    }
  }

  lemma {:induction false} AtMostOnce(metrics: seq<Metric>, m: Metric)
    requires UniqueIds(metrics)
    ensures multiset(metrics)[m] <= 1
  {
    if m in metrics {
      var i :| 0 <= i < |metrics| && metrics[i] == m;
      assert metrics == metrics[..i] + [m] + metrics[i + 1..];
      assert m !in metrics[..i] && m !in metrics[i + 1..];
    }
  }

  // ---------------------------------------------------------------- what may be bound

  /** The only pair on offer, and both its names are exact. */
  ghost predicate OnlyExactPair(metrics: seq<Metric>, canonical: string, b: Identity, c: Identity, ids: Digests) {
    && IdentityOf(metrics, Baseline, canonical, b, ids) && b.kind == Exact
    && IdentityOf(metrics, Candidate, canonical, c, ids) && c.kind == Exact
    && (forall x :: IdentityOf(metrics, Baseline, canonical, x, ids) ==> x == b)
    && (forall x :: IdentityOf(metrics, Candidate, canonical, x, ids) ==> x == c)
  }

  /** The pair of a binding is still on offer, at the same repository, head and metric. */
  ghost predicate StillOffered(metrics: seq<Metric>, place: Place, binding: Binding, ids: Digests) {
    && binding.place == place
    && IdentityOf(metrics, Baseline, place.canonical, binding.baseline, ids)
    && IdentityOf(metrics, Candidate, place.canonical, binding.candidate, ids)
  }

  lemma CurrentIsOffered(metrics: seq<Metric>, place: Place, binding: Binding, ids: Digests)
    ensures IsCurrent(binding, place, Proposals(metrics, place.canonical, ids)) <==>
            StillOffered(metrics, place, binding, ids)
  {
    ProposalsAre(metrics, place.canonical, ids);
    if StillOffered(metrics, place, binding, ids) {
      assert PairOf(metrics, place.canonical, MakeProposal(binding.baseline, binding.candidate, ids), ids);
    }
  }

  lemma SinglePair(metrics: seq<Metric>, canonical: string, ids: Digests)
    requires UniqueIds(metrics)
    ensures |Proposals(metrics, canonical, ids)| == 1 ==>
      var p := Proposals(metrics, canonical, ids)[0];
      (p.baseline.kind == Exact && p.candidate.kind == Exact <==>
        OnlyExactPair(metrics, canonical, p.baseline, p.candidate, ids))
  {
    var proposals := Proposals(metrics, canonical, ids);
    ProposalsAre(metrics, canonical, ids);
    if |proposals| == 1 {
      var p := proposals[0];
      assert p in proposals && forall x :: x in proposals ==> x == p;
      forall x | IdentityOf(metrics, Baseline, canonical, x, ids) ensures x == p.baseline {
        assert PairOf(metrics, canonical, MakeProposal(x, p.candidate, ids), ids);
      }
      forall x | IdentityOf(metrics, Candidate, canonical, x, ids) ensures x == p.candidate {
        assert PairOf(metrics, canonical, MakeProposal(p.baseline, x, ids), ids);
      }
    }
  }

  /** A binding comes out of a resolution only as the unique exact-name pair when nothing was approved, or as the
      approved binding itself while its pair is still on offer at the same place. */
  lemma BoundOnlyBy(metrics: seq<Metric>, place: Place, claim: Option<string>, approved: Option<Binding>, ids: Digests)
    requires Resolve(metrics, place, claim, approved, ids).Ok?
      && Resolve(metrics, place, claim, approved, ids).value.Bound?
    ensures var binding := Resolve(metrics, place, claim, approved, ids).value.binding;
            && binding.place == place
            && (if approved.Some? then binding == approved.value && StillOffered(metrics, place, binding, ids)
                else binding.authority == DeterministicExact
                     && OnlyExactPair(metrics, place.canonical, binding.baseline, binding.candidate, ids))
  {
    if approved.Some? {
      CurrentIsOffered(metrics, place, approved.value, ids);
    }
    SinglePair(metrics, place.canonical, ids);
  }

  /** An approved binding is honoured exactly while its pair is on offer at its own place, among at most eight. */
  lemma ApprovedIsHonoured(metrics: seq<Metric>, place: Place, claim: Option<string>, approved: Binding, ids: Digests)
    requires UniqueIds(metrics) && CanonicalMetric(place.canonical)
    ensures Resolve(metrics, place, claim, Some(approved), ids) == Ok(Bound(approved)) <==>
            StillOffered(metrics, place, approved, ids) && |Proposals(metrics, place.canonical, ids)| <= MAX_PROPOSALS
  {
    CurrentIsOffered(metrics, place, approved, ids);
    ProposalsAre(metrics, place.canonical, ids);
  }

  lemma {:induction false} SelectedAre(proposals: seq<Proposal>, id: string)
    ensures forall p :: p in Selected(proposals, id) <==> p in proposals && p.id == id
  {
    if proposals != [] {
      var init, last := proposals[..|proposals| - 1], proposals[|proposals| - 1];
      SelectedAre(init, id);
      assert proposals == init + [last];
    }
  }

  lemma {:induction false} NoneSelected(proposals: seq<Proposal>, id: string)
    requires forall i :: 0 <= i < |proposals| ==> proposals[i].id != id
    ensures Selected(proposals, id) == []
  {
    if proposals != [] { NoneSelected(proposals[..|proposals| - 1], id); }
  }

  lemma {:induction false} SelectedOnce(proposals: seq<Proposal>, p: Proposal)
    requires UniqueProposals(proposals) && p in proposals
    ensures Selected(proposals, p.id) == [p]
  {
    var init, last := proposals[..|proposals| - 1], proposals[|proposals| - 1];
    assert proposals == init + [last];
    if p == last {
      NoneSelected(init, p.id);
    } else {
      assert p in init && p.id != last.id;
      SelectedOnce(init, p);
    }
  }

  /** Approving any proposal of an issued question, and resolving again over the same candidates in any order,
      binds exactly that proposal's pair. */
  lemma ApproveThenResolve(metrics: seq<Metric>, others: seq<Metric>, place: Place, claim: Option<string>,
                           later: Option<string>, earlier: Option<Binding>, p: Proposal, approver: string, ids: Digests)
    requires var r := Resolve(metrics, place, claim, earlier, ids);
             r.Ok? && r.value.ApprovalRequired? && p in r.value.question.proposals
    requires multiset(metrics) == multiset(others) && ValidApprover(approver)
    ensures var approval := Approve(Resolve(metrics, place, claim, earlier, ids).value.question, p.id, approver, ids);
            && approval.Ok? && approval.value.baseline == p.baseline && approval.value.candidate == p.candidate
            && approval.value.place == place && approval.value.authority == UserApproved
            && Resolve(others, place, later, Some(approval.value), ids) == Ok(Bound(approval.value))
  {
    var proposals := Proposals(metrics, place.canonical, ids);
    SelectedOnce(proposals, p);
    SamePairs(metrics, others, place.canonical, ids);
    ProposalsAre(metrics, place.canonical, ids);
    ProposalsAre(others, place.canonical, ids);
    assert PairOf(others, place.canonical, p, ids);
    var approval := MakeBinding(place, p, UserApproved, Some(approver), ids);
    ApprovedIsHonoured(others, place, later, approval, ids);
  }

  /** At any other head, whatever is found there, an approval never binds. */
  lemma NeverAtAnotherHead(metrics: seq<Metric>, place: Place, claim: Option<string>, approved: Binding, ids: Digests)
    requires approved.place.head != place.head
    ensures var r := Resolve(metrics, place, claim, Some(approved), ids); r.Ok? ==> !r.value.Bound?
  {
    var r := Resolve(metrics, place, claim, Some(approved), ids);
    if r.Ok? && r.value.Bound? {
      BoundOnlyBy(metrics, place, claim, Some(approved), ids);
    }
  }

  // ---------------------------------------------------------------- runs

  /** The repository moves on, the pair is resolved, with any earlier approval or none at hand, or somebody answers
      a question issued earlier. */
  datatype Step =
    | MoveTo(place: Place, metrics: seq<Metric>)
    | Ask(claim: Option<string>, supplied: Option<nat>)
    | Answer(question: nat, proposal: string, approver: string)

  datatype Event =
    | Moved
    | Refused
    | Resolved(place: Place, metrics: seq<Metric>, resolution: Resolution)
    | Approved(question: Question, binding: Binding)

  /** Where the repository is, what is found there, the approvals given and the questions asked so far. */
  datatype Session = Session(place: Place, found: seq<Metric>, approvals: seq<Binding>, asked: seq<Question>)

  function Supplied(s: Session, supplied: Option<nat>): Option<Binding> {
    if supplied.Some? && supplied.value < |s.approvals| then Some(s.approvals[supplied.value]) else None
  }

  function React(s: Session, step: Step, ids: Digests): Event {
    match step
    case MoveTo(_, _) => Moved
    case Ask(claim, supplied) =>
      (match Resolve(s.found, s.place, claim, Supplied(s, supplied), ids)
       case Err(_) => Refused
       case Ok(r) => Resolved(s.place, s.found, r))
    case Answer(i, id, approver) =>
      if i >= |s.asked| then Refused
      else
        match Approve(s.asked[i], id, approver, ids)
        case Err(_) => Refused
        case Ok(b) => Approved(s.asked[i], b)
  }

  function After(s: Session, step: Step, ids: Digests): Session {
    match React(s, step, ids)
    case Moved => if step.MoveTo? then s.(place := step.place, found := step.metrics) else s
    case Resolved(_, _, ApprovalRequired(q)) => s.(asked := s.asked + [q])
    case Approved(_, b) => s.(approvals := s.approvals + [b])
    case _ => s
  }

  /** The session after the first n steps. */
  function SessionAt(start: Session, steps: seq<Step>, n: nat, ids: Digests): Session
    requires n <= |steps|
  {
    if n == 0 then start else After(SessionAt(start, steps, n - 1, ids), steps[n - 1], ids)
  }

  function EventAt(start: Session, steps: seq<Step>, n: nat, ids: Digests): Event
    requires n < |steps|
  {
    React(SessionAt(start, steps, n, ids), steps[n], ids)
  }

  ghost predicate AskedBefore(start: Session, steps: seq<Step>, n: nat, q: Question, ids: Digests)
    requires n <= |steps|
  {
    exists i: nat :: i < n && EventAt(start, steps, i, ids).Resolved?
      && EventAt(start, steps, i, ids).resolution == ApprovalRequired(q)
  }

  /** One of the first n steps approved this binding, as a pair of a question asked before that. */
  ghost predicate ApprovedBefore(start: Session, steps: seq<Step>, n: nat, binding: Binding, ids: Digests)
    requires n <= |steps|
  {
    exists i: nat :: i < n && ApprovedAt(start, steps, i, binding, ids)
  }

  ghost predicate ApprovedAt(start: Session, steps: seq<Step>, i: nat, binding: Binding, ids: Digests)
    requires i < |steps|
  {
    var e := EventAt(start, steps, i, ids);
    e.Approved? && e.binding == binding && FromQuestion(e.question, binding)
      && AskedBefore(start, steps, i, e.question, ids)
  }

  ghost predicate FromQuestion(q: Question, binding: Binding) {
    && binding.place == q.place && binding.authority == UserApproved
    && exists p :: p in q.proposals && p.baseline == binding.baseline && p.candidate == binding.candidate
  }

  lemma ApprovalIsFromQuestion(q: Question, id: string, approver: string, ids: Digests)
    requires Approve(q, id, approver, ids).Ok?
    ensures FromQuestion(q, Approve(q, id, approver, ids).value)
  {
    SelectedAre(q.proposals, id);
    assert Selected(q.proposals, id)[0] in Selected(q.proposals, id);
  }

  lemma BeforeGrows(start: Session, steps: seq<Step>, n: nat, ids: Digests)
    requires n < |steps|
    ensures forall q :: AskedBefore(start, steps, n, q, ids) ==> AskedBefore(start, steps, n + 1, q, ids)
    ensures forall b :: ApprovedBefore(start, steps, n, b, ids) ==> ApprovedBefore(start, steps, n + 1, b, ids)
  {
    hide EventAt, ApprovedAt;
    forall q | AskedBefore(start, steps, n, q, ids) ensures AskedBefore(start, steps, n + 1, q, ids) {
      var i: nat :| i < n && EventAt(start, steps, i, ids).Resolved?
        && EventAt(start, steps, i, ids).resolution == ApprovalRequired(q);
    }
    forall b | ApprovedBefore(start, steps, n, b, ids) ensures ApprovedBefore(start, steps, n + 1, b, ids) {
      var i: nat :| i < n && ApprovedAt(start, steps, i, b, ids);
    }
  }

  lemma ApprovedNow(start: Session, steps: seq<Step>, n: nat, ids: Digests)
    requires n < |steps| && EventAt(start, steps, n, ids).Approved?
    requires forall q :: q in SessionAt(start, steps, n, ids).asked ==> AskedBefore(start, steps, n, q, ids)
    ensures ApprovedBefore(start, steps, n + 1, EventAt(start, steps, n, ids).binding, ids)
  {
    hide Resolve, Approve, FromQuestion, AskedBefore;
    var s, step := SessionAt(start, steps, n, ids), steps[n];
    var e := EventAt(start, steps, n, ids);
    ApprovalIsFromQuestion(e.question, step.proposal, step.approver, ids);
    assert e.question in s.asked;
    assert ApprovedAt(start, steps, n, e.binding, ids);
  }

  lemma AskedNow(start: Session, steps: seq<Step>, n: nat, ids: Digests)
    requires n < |steps|
    requires EventAt(start, steps, n, ids).Resolved? && EventAt(start, steps, n, ids).resolution.ApprovalRequired?
    ensures AskedBefore(start, steps, n + 1, EventAt(start, steps, n, ids).resolution.question, ids)
  {
    hide EventAt;
  }

  /** What a session holds was asked and approved during the run. */
  lemma {:induction false} SessionIsGrounded(start: Session, steps: seq<Step>, n: nat, ids: Digests)
    requires n <= |steps| && start.approvals == [] && start.asked == []
    ensures var s := SessionAt(start, steps, n, ids);
            && (forall b :: b in s.approvals ==> ApprovedBefore(start, steps, n, b, ids))
            && (forall q :: q in s.asked ==> AskedBefore(start, steps, n, q, ids))
  {
    hide React, After, AskedBefore, ApprovedBefore;
    if n > 0 {
      SessionIsGrounded(start, steps, n - 1, ids);
      BeforeGrows(start, steps, n - 1, ids);
      var s, e := SessionAt(start, steps, n - 1, ids), EventAt(start, steps, n - 1, ids);
      assert SessionAt(start, steps, n, ids) == After(s, steps[n - 1], ids);
      AfterKeeps(s, steps[n - 1], ids);
      forall b | b in s.approvals ensures ApprovedBefore(start, steps, n, b, ids) {
        assert ApprovedBefore(start, steps, n - 1, b, ids);
      }
      forall q | q in s.asked ensures AskedBefore(start, steps, n, q, ids) {
        assert AskedBefore(start, steps, n - 1, q, ids);
      }
      if e.Approved? {
        ApprovedNow(start, steps, n - 1, ids);
      } else if e.Resolved? && e.resolution.ApprovalRequired? {
        AskedNow(start, steps, n - 1, ids);
      }
    }
  }

  /** A step adds at most the binding it approved or the question it asked. */
  lemma AfterKeeps(s: Session, step: Step, ids: Digests)
    ensures var e, t := React(s, step, ids), After(s, step, ids);
            && t.approvals == (if e.Approved? then s.approvals + [e.binding] else s.approvals)
            && t.asked == (if e.Resolved? && e.resolution.ApprovalRequired? then s.asked + [e.resolution.question]
                           else s.asked)
  {
    hide React;
  }

  /** Over every run that starts with nothing approved, whichever approvals are supplied, each binding that comes out
      has its reason: it is the unique exact pair found there, or it was approved at this very place, for a question
      asked at this very place, and its pair is still on offer. */
  lemma RunIsJustified(start: Session, steps: seq<Step>, n: nat, ids: Digests)
    requires n < |steps| && start.approvals == [] && start.asked == []
    requires EventAt(start, steps, n, ids).Resolved? && EventAt(start, steps, n, ids).resolution.Bound?
    ensures var s, binding := SessionAt(start, steps, n, ids), EventAt(start, steps, n, ids).resolution.binding;
            && binding.place == s.place
            && (|| (binding.authority == DeterministicExact && Supplied(s, steps[n].supplied).None?
                    && OnlyExactPair(s.found, s.place.canonical, binding.baseline, binding.candidate, ids))
                || (ApprovedBefore(start, steps, n, binding, ids) && StillOffered(s.found, s.place, binding, ids)))
  {
    var s := SessionAt(start, steps, n, ids);
    SessionIsGrounded(start, steps, n, ids);
    var approved := Supplied(s, steps[n].supplied);
    BoundOnlyBy(s.found, s.place, steps[n].claim, approved, ids);
  }
}
