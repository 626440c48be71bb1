/** Which metrics are bound without approval, said of their raw names. */
module MetricNames {
  import opened Common
  import opened MetricBindings

  // ---------------------------------------------------------------- names

  /** The same letter or character, capital or not. */
  predicate SameLetter(c: char, d: char) {
    c == d || ('A' <= c <= 'Z' && d as int == c as int + 32) || ('A' <= d <= 'Z' && c as int == d as int + 32)
  }

  /** Folding drops nothing but the difference between capital and small letters. */
  lemma FoldMeans(s: string, t: string)
    ensures |Fold(s)| == |s|
    ensures forall i :: 0 <= i < |s| ==> SameLetter(s[i], Fold(s)[i]) && !('A' <= Fold(s)[i] <= 'Z')
    ensures Fold(s) == Fold(t) <==> |s| == |t| && forall i :: 0 <= i < |s| ==> SameLetter(s[i], t[i])
  {
    if |s| == |t| && forall i :: 0 <= i < |s| ==> SameLetter(s[i], t[i]) {
      forall i | 0 <= i < |s| ensures Fold(s)[i] == Fold(t)[i] {
        assert SameLetter(s[i], t[i]);
      }
    }
    if Fold(s) == Fold(t) {
      assert |Fold(s)| == |s| && |Fold(t)| == |t|;
      forall i | 0 <= i < |s| ensures SameLetter(s[i], t[i]) {
        assert Fold(s)[i] == Fold(t)[i];
      }
    }
  }

  /** The name is the canonical one, up to capitals. */
  predicate ExactName(m: Metric, canonical: string) { Fold(m.rawName) == canonical }

  /** The name is the canonical one or, for accuracy alone, the abbreviation acc. */
  predicate KnownName(m: Metric, canonical: string) {
    ExactName(m, canonical) || (canonical == "accuracy" && Fold(m.rawName) == "acc")
  }

  /** Recognition goes by the name, and only the canonical name itself is exact. */
  lemma IdentifiedByName(m: Metric, canonical: string, ids: Digests)
    ensures Identify(m, canonical, ids).Some? <==> KnownName(m, canonical)
    ensures Identify(m, canonical, ids).Some? ==>
      var found := Identify(m, canonical, ids).value;
      && found.metric == m && found.canonical == canonical && (found.kind == Exact <==> ExactName(m, canonical))
      && found.id == ids.identity(m.id, canonical, found.kind)
  {
  }

  /** The metrics of one arm that are recognised by name. */
  ghost function Known(metrics: seq<Metric>, role: Role, canonical: string): set<Metric> {
    set m | m in metrics && m.role == role && KnownName(m, canonical)
  }

  lemma KnownAreRecognised(metrics: seq<Metric>, role: Role, canonical: string, ids: Digests)
    requires UniqueIds(metrics)
    ensures |Recognised(metrics, role, canonical, ids)| == |Known(metrics, role, canonical)|
  {
    hide KnownName, Identify;
    forall m ensures Identify(m, canonical, ids).Some? <==> KnownName(m, canonical) {
      IdentifiedByName(m, canonical, ids);
    }
    RecognisedCount(metrics, role, canonical, ids);
    assert RecognisedSet(Members(metrics), role, canonical, ids) == Known(metrics, role, canonical);
  }

  /** The number of pairs on offer: each known metric of the baseline with each one of the candidate. */
  ghost function Pairs(metrics: seq<Metric>, canonical: string): nat {
    |Known(metrics, Baseline, canonical)| * |Known(metrics, Candidate, canonical)|
  }

  lemma PairsAreProposed(metrics: seq<Metric>, canonical: string, ids: Digests)
    requires UniqueIds(metrics)
    ensures |Proposals(metrics, canonical, ids)| == Pairs(metrics, canonical)
  {
    hide Known, Recognised, Proposals;
    ProposalsAre(metrics, canonical, ids);
    KnownAreRecognised(metrics, Baseline, canonical, ids);
    KnownAreRecognised(metrics, Candidate, canonical, ids);
  }

  lemma IdentitiesAreKnown(metrics: seq<Metric>, role: Role, canonical: string, b: Identity, ids: Digests)
    requires IdentityOf(metrics, role, canonical, b, ids)
    ensures b.metric in Known(metrics, role, canonical)
    ensures b.kind == Exact <==> ExactName(b.metric, canonical)
  {
    IdentifiedByName(b.metric, canonical, ids);
  }

  // ---------------------------------------------------------------- one exact pair

  /** b and c are the only known metrics of their arms, and both names are exact. */
  ghost predicate SoleExact(metrics: seq<Metric>, canonical: string, b: Metric, c: Metric) {
    && Known(metrics, Baseline, canonical) == {b} && Known(metrics, Candidate, canonical) == {c}
    && ExactName(b, canonical) && ExactName(c, canonical)
  }

  lemma OnePairIsSole(metrics: seq<Metric>, canonical: string, p: Proposal, ids: Digests)
    requires UniqueIds(metrics) && Pairs(metrics, canonical) == 1 && p in Proposals(metrics, canonical, ids)
    ensures Known(metrics, Baseline, canonical) == {p.baseline.metric}
    ensures Known(metrics, Candidate, canonical) == {p.candidate.metric}
    ensures p.baseline.kind == Exact <==> ExactName(p.baseline.metric, canonical)
    ensures p.candidate.kind == Exact <==> ExactName(p.candidate.metric, canonical)
  {
    hide Known, Proposals, ExactName, IdentityOf;
    ProposalsAre(metrics, canonical, ids);
    IdentitiesAreKnown(metrics, Baseline, canonical, p.baseline, ids);
    IdentitiesAreKnown(metrics, Candidate, canonical, p.candidate, ids);
    var b, c := Known(metrics, Baseline, canonical), Known(metrics, Candidate, canonical);
    FactorsOfOne(|b|, |c|);
    OneMember(b, p.baseline.metric);
    OneMember(c, p.candidate.metric);
  }

  lemma FactorsOfOne(n: nat, k: nat)
    requires n * k == 1
    ensures n == k == 1
  {
    assert n != 0 && k != 0;
    assert n * k >= n && n * k >= k;
  }

  lemma OneMember<T>(s: set<T>, x: T)
    requires |s| == 1 && x in s
    ensures s == {x}
  {
    assert |s - {x}| == 0;
  }

  lemma SoleIsOnePair(metrics: seq<Metric>, canonical: string, b: Metric, c: Metric)
    requires SoleExact(metrics, canonical, b, c)
    ensures Pairs(metrics, canonical) == 1
  {
    hide Known, ExactName;
    var baselines, candidates := Known(metrics, Baseline, canonical), Known(metrics, Candidate, canonical);
    assert |baselines| == 1 && |candidates| == 1;
    assert |baselines| * |candidates| == 1;
  }

  /** Without an approval a binding comes out if and only if each arm has exactly one known metric, and both names
      are the canonical one; then it binds these two. */
  lemma BoundWithoutApproval(metrics: seq<Metric>, place: Place, claim: Option<string>, ids: Digests)
    requires UniqueIds(metrics) && CanonicalMetric(place.canonical)
    ensures var r := Resolve(metrics, place, claim, None, ids);
      && (r.Ok? && r.value.Bound? <==> exists b, c :: SoleExact(metrics, place.canonical, b, c))
      && (r.Ok? && r.value.Bound? ==>
           && r.value.binding.place == place && r.value.binding.authority == DeterministicExact
           && r.value.binding.approvedBy == None
           && SoleExact(metrics, place.canonical, r.value.binding.baseline.metric, r.value.binding.candidate.metric))
  {
    hide Known, Proposals, ExactName, CanonicalMetric, UniqueIds;
    var proposals := Proposals(metrics, place.canonical, ids);
    PairsAreProposed(metrics, place.canonical, ids);
    if b, c :| SoleExact(metrics, place.canonical, b, c) {
      SoleIsOnePair(metrics, place.canonical, b, c);
    }
    if |proposals| == 1 {
      var p := proposals[0];
      OnePairIsSole(metrics, place.canonical, p, ids);
      if p.baseline.kind == Exact && p.candidate.kind == Exact {
        assert SoleExact(metrics, place.canonical, p.baseline.metric, p.candidate.metric);
      }
    }
  }

  /** Without an approval, every other offer of one to eight pairs with distinct identifiers is put to a person: an
      alias on either side, or a second pair, is never bound by itself. */
  lemma OthersNeedApproval(metrics: seq<Metric>, place: Place, claim: Option<string>, ids: Digests)
    requires UniqueIds(metrics) && CanonicalMetric(place.canonical)
    requires UniqueProposals(Proposals(metrics, place.canonical, ids))
    ensures var r := Resolve(metrics, place, claim, None, ids);
      && (r == Ok(Unresolved) <==>
           Pairs(metrics, place.canonical) == 0 || Pairs(metrics, place.canonical) > MAX_PROPOSALS)
      && (r.Ok? && r.value.ApprovalRequired? <==>
           && 1 <= Pairs(metrics, place.canonical) <= MAX_PROPOSALS
           && !exists b, c :: SoleExact(metrics, place.canonical, b, c))
  {
    hide Known, Proposals, ExactName, CanonicalMetric, UniqueIds, UniqueProposals, SoleExact;
    PairsAreProposed(metrics, place.canonical, ids);
    BoundWithoutApproval(metrics, place, claim, ids);
  }

  /** The abbreviation alone on both sides of an accuracy claim is put to a person. */
  lemma AliasNeedsApproval(b: Metric, c: Metric, place: Place, claim: Option<string>, ids: Digests)
    requires b.id != c.id && b.role == Baseline && c.role == Candidate && place.canonical == "accuracy"
    requires KnownName(b, place.canonical) && KnownName(c, place.canonical)
    requires Fold(b.rawName) == "acc" || Fold(c.rawName) == "acc"
    ensures var r := Resolve([b, c], place, claim, None, ids); r.Ok? && r.value.ApprovalRequired?
  {
    hide Proposals, KnownName;
    var metrics := [b, c];
    assert Known(metrics, Baseline, place.canonical) == {b};
    assert Known(metrics, Candidate, place.canonical) == {c};
    PairsAreProposed(metrics, place.canonical, ids);
    OthersNeedApproval(metrics, place, claim, ids);
    assert |"acc"| != |"accuracy"|;
  }

  /** An approved binding that is not on offer any more never leads to another binding by itself. */
  lemma StaleApprovalNeverBinds(metrics: seq<Metric>, place: Place, claim: Option<string>, approved: Binding,
                                ids: Digests)
    requires !StillOffered(metrics, place, approved, ids)
    ensures var r := Resolve(metrics, place, claim, Some(approved), ids); r.Ok? ==> !r.value.Bound?
  {
    hide Proposals, StillOffered;
    CurrentIsOffered(metrics, place, approved, ids);
  }

  // ---------------------------------------------------------------- where a run stands

  /** Step i moved the repository, and nothing moved it since. */
  ghost predicate LastMove(steps: seq<Step>, i: nat, n: nat) {
    i < n <= |steps| && steps[i].MoveTo? && forall k :: i < k < n ==> !steps[k].MoveTo?
  }

  /** A question or a binding of a run is always about the place and the metrics of the last move, or, before any
      move, of the start. */
  lemma {:induction false} StandsAtLastMove(start: Session, steps: seq<Step>, n: nat, ids: Digests)
    requires n <= |steps|
    ensures var s := SessionAt(start, steps, n, ids);
      && (forall i: nat :: LastMove(steps, i, n) ==> s.place == steps[i].place && s.found == steps[i].metrics)
      && ((forall k :: 0 <= k < n ==> !steps[k].MoveTo?) ==> s.place == start.place && s.found == start.found)
  {
    hide After;
    if n > 0 {
      StandsAtLastMove(start, steps, n - 1, ids);
      OnlyMovesMove(SessionAt(start, steps, n - 1, ids), steps[n - 1], ids);
      forall i: nat | LastMove(steps, i, n) && i < n - 1 ensures LastMove(steps, i, n - 1) {}
    }
  }

  lemma OnlyMovesMove(s: Session, step: Step, ids: Digests)
    ensures var t := After(s, step, ids);
      if step.MoveTo? then t.place == step.place && t.found == step.metrics
      else t.place == s.place && t.found == s.found
  {
    hide Resolve, Approve;
  }
}
