/** Evidence obligations: graph admission, memoised composite derivation and the bundle decision. */
module Obligations {
  import opened Common
  import opened DependencyGraphs
  import opened Ordering

  datatype State = Satisfied | Missing | Ambiguous | Unsupported

  datatype Effect = NoEffect | BlocksPartial | RequiresMapping

  datatype Reason =
    | ValidatedSupportBound | ValidatedDependenciesSatisfied
    | RequiredArtifactNotFound | RequiredClaimFieldNotRecovered | RequiredMetricNotRecovered
    | RequiredThresholdNotRecovered | RequiredRoleNotRecovered | RequiredSplitNotRecovered
    | RequiredMeasurementProcedureNotRecovered | DependencyMissing | RequiredProfileEvidenceNotRecovered
    | MultipleValidatedCandidates | ConflictingValidatedMappings | ExplicitMappingApprovalRequired
    | ApprovedMappingNotApplicable | ClarificationNotBounded | ProfileEvidenceAmbiguous
    | ClaimTypeNotExecutable | ArtifactFormatNotSupported | ArtifactExceedsPassiveLimit | AdapterNotAvailable
    | SelectorNotRecoverable | NativeRepresentationNotSupported | MeasurementProcedureNotSupported
    | DependencyUnsupported | ProfileEvidenceNotSupported

  {
    predicate Missing() {
      match this
      case RequiredArtifactNotFound | RequiredClaimFieldNotRecovered | RequiredMetricNotRecovered
        | RequiredThresholdNotRecovered | RequiredRoleNotRecovered | RequiredSplitNotRecovered
        | RequiredMeasurementProcedureNotRecovered | DependencyMissing
        | RequiredProfileEvidenceNotRecovered => true
      case _ => false
    }

    predicate Ambiguous() {
      match this
      case MultipleValidatedCandidates | ConflictingValidatedMappings | ExplicitMappingApprovalRequired
        | ApprovedMappingNotApplicable | ClarificationNotBounded | ProfileEvidenceAmbiguous => true
      case _ => false
    }

    predicate Unsupported() {
      match this
      case ClaimTypeNotExecutable | ArtifactFormatNotSupported | ArtifactExceedsPassiveLimit
        | AdapterNotAvailable | SelectorNotRecoverable | NativeRepresentationNotSupported
        | MeasurementProcedureNotSupported | DependencyUnsupported | ProfileEvidenceNotSupported => true
      case _ => false
    }
  }

  datatype ArtifactKind = Results | Config | Dataset | Benchmark | Document | Source | Test | Manifest
  datatype Role = Baseline | Candidate | Reference | Unspecified
  datatype Split = Train | Eval

  datatype Target =
    | ClaimField(field: string, constraint: Option<string>)
    | ArtifactSlot(kind: ArtifactKind, role: Role, split: Option<Split>)
    | MeasurementComponent(procedure: string)
    | ProfileEvidence(profileId: string, slotId: string, roleMode: string)

  datatype Support =
    | ClaimFieldSupport(supportId: string, claimId: string, field: string, constraint: Option<string>)
    | ArtifactSupport(supportId: string, kind: ArtifactKind, role: Role, split: Option<Split>)
    | ProcedureSupport(supportId: string, procedure: string)
    | ProfileSupport(supportId: string, profileId: string, slotId: string, roleMode: string)

  /** Support is of the target's own type and agrees with it field by field. */
  predicate Supports(support: Support, target: Target) {
    match target
    case ClaimField(field, constraint) =>
      support.ClaimFieldSupport? && support.field == field && support.constraint == constraint
    case ArtifactSlot(kind, role, split) =>
      support.ArtifactSupport? && support.kind == kind && support.role == role && support.split == split
    case MeasurementComponent(procedure) => support.ProcedureSupport? && support.procedure == procedure
    case ProfileEvidence(profileId, slotId, roleMode) =>
      support.ProfileSupport? && support.profileId == profileId && support.slotId == slotId
      && support.roleMode == roleMode
  }

  datatype Obligation = Obligation(
    id: string, target: Option<Target>, state: State, reason: Reason, effect: Effect,
    supports: seq<Support>, deps: seq<string>)
  {
    /** The consistency that construction enforces on state, reason, effect, support and dependencies. */
    predicate Valid() {
      && |supports| <= 8
      && |deps| <= 16
      && (forall i, j :: 0 <= i < j < |supports| ==> supports[i].supportId != supports[j].supportId)
      && (target.Some? ==> forall i :: 0 <= i < |supports| ==> Supports(supports[i], target.value))
      && (forall i, j :: 0 <= i < j < |deps| ==> deps[i] != deps[j])
      && id !in deps
      && (target.None? <==> deps != [])
      && match state
         case Satisfied =>
           && reason == (if target.None? then ValidatedDependenciesSatisfied else ValidatedSupportBound)
           && effect == NoEffect && (target.None? <==> supports == [])
         case Missing => reason.Missing() && effect == BlocksPartial && supports == []
         case Unsupported => reason.Unsupported() && effect == BlocksPartial && supports == []
         case Ambiguous => reason.Ambiguous() && effect != NoEffect && supports == []
    }
  }

  /** `EvidenceObligation.__post_init__`: the checks in their order. */
  method Construct(o: Obligation) returns (ok: bool)
    ensures ok <==> o.Valid()
  {
    if |o.supports| > 8 {
      return false;
    }
    var supportIds := seq(|o.supports|, i requires 0 <= i < |o.supports| => o.supports[i].supportId);
    DistinctBySize(supportIds);
    SupportsDistinct(o.supports, supportIds);
    if |set x | x in supportIds| != |supportIds| {
      return false;
    }
    var matching := SupportsMatch(o);
    if !matching {
      return false;
    }
    if |o.deps| > 16 {
      return false;
    }
    DistinctBySize(o.deps);
    if |set x | x in o.deps| != |o.deps| || o.id in o.deps || (o.target.None? <==> o.deps == []) {
      return false;
    }
    ok := ConsistentState(o.target.None?, o.state, o.reason, o.effect, o.supports);
  }

  lemma SupportsDistinct(supports: seq<Support>, ids: seq<string>)
    requires |ids| == |supports| && forall i :: 0 <= i < |ids| ==> ids[i] == supports[i].supportId
    ensures Distinct(ids) <==> forall i, j :: 0 <= i < j < |supports| ==> supports[i].supportId != supports[j].supportId
  {
    if !Distinct(ids) {
      var i, j :| 0 <= i < j < |ids| && ids[i] == ids[j];
      assert supports[i].supportId == supports[j].supportId;
    }
  }

  /** What goes together with each state. */
  predicate ConsistentState(composite: bool, state: State, reason: Reason, effect: Effect, supports: seq<Support>) {
    if state == Satisfied then
      if composite then reason == ValidatedDependenciesSatisfied && effect == NoEffect && supports == []
      else reason == ValidatedSupportBound && effect == NoEffect && supports != []
    else
      && supports == []
      && (effect == BlocksPartial || (state == Ambiguous && effect == RequiresMapping))
      && (if state == Missing then reason.Missing() else if state == Ambiguous then reason.Ambiguous()
          else reason.Unsupported())
  }

  /** Support of another type than the target's, or for another field, artifact, procedure or profile slot, is
      refused. */
  method SupportsMatch(o: Obligation) returns (ok: bool)
    ensures ok <==> (o.target.Some? ==> forall i :: 0 <= i < |o.supports| ==> Supports(o.supports[i], o.target.value))
  {
    if o.target.None? {
      return true;
    }
    var target := o.target.value;
    for i := 0 to |o.supports|
      invariant forall k :: 0 <= k < i ==> Supports(o.supports[k], target)
    {
      var expected := Expected(o.supports[i].supportId, o.supports[i], target);
      if o.supports[i] != expected {
        return false;
      }
    }
    return true;
  }

  /** The support that would match the target under this identifier; the claim of a claim field is not part of it. */
  function Expected(supportId: string, support: Support, target: Target): Support {
    match target
    case ClaimField(field, constraint) =>
      ClaimFieldSupport(supportId, if support.ClaimFieldSupport? then support.claimId else "", field, constraint)
    case ArtifactSlot(kind, role, split) => ArtifactSupport(supportId, kind, role, split)
    case MeasurementComponent(procedure) => ProcedureSupport(supportId, procedure)
    case ProfileEvidence(profileId, slotId, roleMode) => ProfileSupport(supportId, profileId, slotId, roleMode)
  }

  type Index = map<string, Obligation>

  function IdOf(o: Obligation): string { o.id }

  /** A dictionary comprehension: a later item replaces an earlier one with the same identifier. */
  function ById(obligations: seq<Obligation>): Index {
    if obligations == [] then map[]
    else
      var last := obligations[|obligations| - 1];
      ById(obligations[..|obligations| - 1])[last.id := last]
  }

  function GraphOf(byId: Index): Graph {
    map id | id in byId :: byId[id].deps
  }

  lemma {:induction false} ByIdContents(obligations: seq<Obligation>)
    requires DistinctKeys(IdOf, obligations)
    ensures forall o :: o in obligations <==> o.id in ById(obligations) && ById(obligations)[o.id] == o
    ensures forall id :: id in ById(obligations) ==> ById(obligations)[id].id == id
  {
    if obligations != [] {
      var n := |obligations| - 1;
      ByIdContents(obligations[..n]);
      assert obligations == obligations[..n] + [obligations[n]];
      forall o | o in obligations[..n] ensures o.id != obligations[n].id {
        var k :| 0 <= k < n && obligations[k] == o;
        assert IdOf(obligations[k]) != IdOf(obligations[n]);
      }
    }
  }

  // ---------------------------------------------------------------- graph admission

  datatype BundleError =
    StructuralBound | SupportBound | DuplicateIds | DanglingDependency | CyclicDependency | ClaimMismatch

  ghost predicate Admissible(byId: Index) {
    Closed(GraphOf(byId)) && !Cyclic(GraphOf(byId))
  }

  function Identifiers(obligations: seq<Obligation>): seq<string> {
    seq(|obligations|, i requires 0 <= i < |obligations| => obligations[i].id)
  }

  lemma {:induction false} DistinctBySize(s: seq<string>)
    ensures |set x | x in s| <= |s|
    ensures |set x | x in s| == |s| <==> Distinct(s)
  {
    if s != [] {
      var rest, x := s[..|s| - 1], s[|s| - 1];
      DistinctBySize(rest);
      assert (set y | y in s) == (set y | y in rest) + {x};
      if x in rest {
        assert (set y | y in s) == (set y | y in rest);
      }
    }
  }

  lemma DistinctIdentifiers(obligations: seq<Obligation>)
    ensures Distinct(Identifiers(obligations)) <==> DistinctKeys(IdOf, obligations)
  {
    var ids := Identifiers(obligations);
    assert forall i :: 0 <= i < |ids| ==> ids[i] == IdOf(obligations[i]);
    if !DistinctKeys(IdOf, obligations) {
      var i, j :| 0 <= i < j < |obligations| && IdOf(obligations[i]) == IdOf(obligations[j]);
      assert ids[i] == ids[j];
    }
  }

  lemma GraphContents(obligations: seq<Obligation>)
    requires DistinctKeys(IdOf, obligations)
    ensures var g := GraphOf(ById(obligations));
            && (forall o :: o in obligations ==> o.id in g && g[o.id] == o.deps)
            && (forall id :: id in g <==> id in Identifiers(obligations))
  {
    ByIdContents(obligations);
    var g := GraphOf(ById(obligations));
    forall id | id in g ensures id in Identifiers(obligations) {
      var k :| 0 <= k < |obligations| && obligations[k] == ById(obligations)[id];
      assert Identifiers(obligations)[k] == id;
    }
  }

  lemma ClosedExactly(obligations: seq<Obligation>)
    requires DistinctKeys(IdOf, obligations)
    ensures Closed(GraphOf(ById(obligations))) <==>
            !exists o, d :: o in obligations && d in o.deps && d !in Identifiers(obligations)
  {
    ByIdContents(obligations);
    GraphContents(obligations);
    var g := GraphOf(ById(obligations));
    if !Closed(g) {
      var id, d :| id in g && d in g[id] && d !in g;
      assert ById(obligations)[id] in obligations;
    }
  }

  /** The search decides acyclicity exactly, and the first of the three defects is the one reported. */
  method ValidateGraph(obligations: seq<Obligation>) returns (r: Result<(), BundleError>)
    ensures r == GraphVerdict(obligations)
  {
    var identifiers := Identifiers(obligations);
    DistinctBySize(identifiers);
    DistinctIdentifiers(obligations);
    var known := set id | id in identifiers;
    if |known| != |identifiers| {
      return Err(DuplicateIds);
    }
    ClosedExactly(obligations);
    assert forall d :: d in known <==> d in identifiers;
    if exists item, d :: item in obligations && d in item.deps && d !in known {
      return Err(DanglingDependency);
    }
    var dependencies := GraphOf(ById(obligations));
    GraphContents(obligations);
    var acyclic := SearchFromAll(dependencies, identifiers);
    return if acyclic then Ok(()) else Err(CyclicDependency);
  }

  /** Duplicates first, then unknown dependencies, then cycles of any length. */
  ghost function GraphVerdict(obligations: seq<Obligation>): Result<(), BundleError> {
    if !DistinctKeys(IdOf, obligations) then Err(DuplicateIds)
    else if !Closed(GraphOf(ById(obligations))) then Err(DanglingDependency)
    else if Cyclic(GraphOf(ById(obligations))) then Err(CyclicDependency)
    else Ok(())
  }

  // ---------------------------------------------------------------- derived composites

  predicate AnyState(children: seq<Obligation>, s: State) {
    exists c :: c in children && c.state == s
  }

  /** The state, reason and effect a composite takes from its derived children. */
  function Combine(item: Obligation, children: seq<Obligation>): (r: Obligation)
    ensures r.id == item.id && r.target == item.target && r.supports == item.supports && r.deps == item.deps
  {
    if AnyState(children, Unsupported) then
      item.(state := Unsupported, reason := DependencyUnsupported, effect := BlocksPartial)
    else if AnyState(children, Missing) then
      item.(state := Missing, reason := DependencyMissing, effect := BlocksPartial)
    else if AnyState(children, Ambiguous) then
      if forall c :: c in children ==> c.state == Satisfied || c.effect == RequiresMapping then
        item.(state := Ambiguous, reason := FirstAmbiguousReason(children), effect := RequiresMapping)
      else
        item.(state := Ambiguous, reason := ClarificationNotBounded, effect := BlocksPartial)
    else
      item.(state := Satisfied, reason := ValidatedDependenciesSatisfied, effect := NoEffect)
  }

  /** The reason of the first ambiguous child in dependency order. */
  function FirstAmbiguousReason(children: seq<Obligation>): (r: Reason)
    requires AnyState(children, Ambiguous)
    ensures exists c :: c in children && c.state == Ambiguous && c.reason == r
  {
    children[FirstAmbiguousFrom(children, 0)].reason
  }

  function FirstAmbiguousFrom(children: seq<Obligation>, i: nat): (k: nat)
    requires exists j :: i <= j < |children| && children[j].state == Ambiguous
    ensures i <= k < |children| && children[k].state == Ambiguous
    ensures forall j :: i <= j < k ==> children[j].state != Ambiguous
    decreases |children| - i
  {
    if children[i].state == Ambiguous then i else FirstAmbiguousFrom(children, i + 1)
  }

  ghost function Height(byId: Index, id: string): nat {
    |Reach(GraphOf(byId), id)|
  }

  lemma HeightBound(byId: Index, id: string)
    ensures Height(byId, id) <= |byId|
  {
    SubsetSize(Reach(GraphOf(byId), id), byId.Keys);
  }

  /** What an identifier means: its leaf, or the combination of what its dependencies mean. */
  ghost function Derived(byId: Index, id: string): (r: Obligation)
    requires Admissible(byId) && id in byId
    ensures r.target == byId[id].target && r.supports == byId[id].supports && r.deps == byId[id].deps
    ensures r.id == byId[id].id
    decreases Height(byId, id), 1
  {
    var item := byId[id];
    if item.target.Some? then item else Combine(item, Children(byId, id))
  }

  ghost function Children(byId: Index, id: string): (r: seq<Obligation>)
    requires Admissible(byId) && id in byId
    ensures |r| == |byId[id].deps|
    decreases Height(byId, id), 0
  {
    seq(|byId[id].deps|, i requires 0 <= i < |byId[id].deps| =>
      (DependencyIsLower(byId, id, byId[id].deps[i]); Derived(byId, byId[id].deps[i])))
  }

  lemma DependencyIsLower(byId: Index, id: string, d: string)
    requires Admissible(byId) && id in byId && d in byId[id].deps
    ensures d in byId && Height(byId, d) < Height(byId, id)
  {
    var g := GraphOf(byId);
    assert id in g && d in g[id];
    assert d in g;
    ReachShrinks(g, id, d);
  }

  /** What every identifier of an admitted graph means. */
  ghost function Meaning(byId: Index): Index
    requires Admissible(byId)
  {
    map id | id in byId :: Derived(byId, id)
  }

  /** One step of the recursion, with the answers for the dependencies already in m. */
  ghost function Step(byId: Index, m: Index, id: string): Obligation
    requires id in byId && forall d :: d in byId[id].deps ==> d in m
  {
    var item := byId[id];
    if item.target.Some? then item
    else Combine(item, seq(|item.deps|,
      i requires 0 <= i < |item.deps| => assert item.deps[i] in item.deps; m[item.deps[i]]))
  }

  /** m solves the recursion at every identifier. */
  ghost predicate Explains(byId: Index, m: Index) {
    && m.Keys == byId.Keys
    && (forall id :: id in byId ==> byId[id].id == id)
    && (forall id :: id in byId ==> forall d :: d in byId[id].deps ==> d in m)
    && forall id {:trigger Step(byId, m, id)} :: id in byId ==> m[id] == Step(byId, m, id)
  }

  lemma MeaningExplains(byId: Index)
    requires Admissible(byId) && forall id :: id in byId ==> byId[id].id == id
    ensures Explains(byId, Meaning(byId))
  {
    var m := Meaning(byId);
    forall id | id in byId ensures forall d :: d in byId[id].deps ==> d in m {
      forall d | d in byId[id].deps ensures d in m { DependencyIsLower(byId, id, d); }
    }
    forall id | id in byId ensures m[id] == Step(byId, m, id) {
      var item := byId[id];
      if item.target.None? {
        var children := seq(|item.deps|,
          i requires 0 <= i < |item.deps| => assert item.deps[i] in item.deps; m[item.deps[i]]);
        assert children == Children(byId, id);
      }
    }
  }

  lemma ExplainedComposite(byId: Index, m: Index, id: string, children: seq<Obligation>)
    requires Explains(byId, m) && id in byId && byId[id].target.None?
    requires |children| == |byId[id].deps|
    requires forall i :: 0 <= i < |children| ==> byId[id].deps[i] in m && children[i] == m[byId[id].deps[i]]
    ensures m[id] == Combine(byId[id], children)
  {
    var item := byId[id];
    assert m[id] == Step(byId, m, id);
    assert children == seq(|item.deps|,
      i requires 0 <= i < |item.deps| => assert item.deps[i] in item.deps; m[item.deps[i]]);
  }

  lemma ExplainedLeaf(byId: Index, m: Index, id: string)
    requires Explains(byId, m) && id in byId && byId[id].target.Some?
    ensures m[id] == byId[id]
  {
    assert m[id] == Step(byId, m, id);
  }

  /** The shared cache dictionary of the recursion. */
  class Derivation {
    const byId: Index
    ghost const meaning: Index
    var cache: Index

    /** Facts about the fixed fields alone. */
    ghost predicate Grounded() {
      Admissible(byId) && Explains(byId, meaning)
    }

    ghost predicate Valid()
      reads this
    {
      forall id :: id in cache ==> id in meaning && cache[id] == meaning[id]
    }

    constructor (byId: Index)
      requires Admissible(byId) && forall id :: id in byId ==> byId[id].id == id
      ensures Grounded() && Valid() && this.byId == byId && meaning == Meaning(byId)
    {
      this.byId := byId;
      meaning := Meaning(byId);
      cache := map[];
      MeaningExplains(byId);
    }

    /** Whatever the cache already holds, the answer is the meaning of the identifier. */
    method Derive(item: Obligation) returns (derived: Obligation)
      requires Grounded() && Valid() && item.id in byId && byId[item.id] == item
      modifies this
      ensures Valid() && derived == meaning[item.id]
      decreases Height(byId, item.id), 1
    {
      if item.id in cache {
        return cache[item.id];
      }
      if item.target.Some? {
        ExplainedLeaf(byId, meaning, item.id);
        cache := cache[item.id := item];
        return item;
      }
      forall k | 0 <= k < |item.deps|
        ensures item.deps[k] in byId && Height(byId, item.deps[k]) < Height(byId, item.id)
      {
        DependencyIsLower(byId, item.id, item.deps[k]);
      }
      var children := DeriveEach(item.deps, Height(byId, item.id));
      ExplainedComposite(byId, meaning, item.id, children);
      derived := Combine(item, children);
      cache := cache[item.id := derived];
    }

    /** One pass over identifiers, all below a bound on how much they reach. */
    method DeriveEach(ids: seq<string>, ghost bound: nat) returns (derived: seq<Obligation>)
      requires Grounded() && Valid()
      requires forall k :: 0 <= k < |ids| ==> ids[k] in byId && Height(byId, ids[k]) < bound
      modifies this
      ensures Valid() && |derived| == |ids|
      ensures forall k :: 0 <= k < |ids| ==> derived[k] == meaning[ids[k]]
      decreases bound, 0
    {
      derived := [];
      for i := 0 to |ids|
        invariant Valid() && |derived| == i
        invariant forall k :: 0 <= k < i ==> derived[k] == meaning[ids[k]]
      {
        var d := Derive(byId[ids[i]]);
        derived := derived + [d];
      }
    }
  }

  // ---------------------------------------------------------------- derivation as a fact about leaves

  /** The leaves some nesting of composites reaches from id. */
  ghost predicate LeafUnder(byId: Index, id: string, leaf: string) {
    leaf in byId && byId[leaf].target.Some? && Reaches(GraphOf(byId), id, leaf)
  }

  ghost predicate SomeLeaf(byId: Index, id: string, s: State) {
    exists leaf :: LeafUnder(byId, id, leaf) && byId[leaf].state == s
  }

  ghost function WorstLeafState(byId: Index, id: string): State {
    if SomeLeaf(byId, id, Unsupported) then Unsupported
    else if SomeLeaf(byId, id, Missing) then Missing
    else if SomeLeaf(byId, id, Ambiguous) then Ambiguous
    else Satisfied
  }

  /** Some reachable unsatisfied leaf that no mapping can settle. */
  ghost predicate SomeBlockingLeaf(byId: Index, id: string) {
    exists leaf :: LeafUnder(byId, id, leaf) && byId[leaf].state != Satisfied && byId[leaf].effect != RequiresMapping
  }

  /** o reports the worst reachable leaf, and asks for a mapping exactly when mappings settle every open leaf. */
  ghost predicate Summarises(byId: Index, id: string, o: Obligation) {
    && o.state == WorstLeafState(byId, id)
    && (o.effect == RequiresMapping <==> WorstLeafState(byId, id) != Satisfied && !SomeBlockingLeaf(byId, id))
  }

  ghost predicate AllValid(byId: Index) {
    forall id :: id in byId ==> byId[id].Valid() && byId[id].id == id
  }

  lemma LeavesOfComposite(byId: Index, id: string)
    requires Admissible(byId) && id in byId && byId[id].target.None?
    ensures forall leaf :: LeafUnder(byId, id, leaf) <==> exists d :: d in byId[id].deps && LeafUnder(byId, d, leaf)
  {
    forall leaf ensures LeafUnder(byId, id, leaf) <==> exists d :: d in byId[id].deps && LeafUnder(byId, d, leaf) {
      if leaf in byId {
        ReachesStep(GraphOf(byId), id, leaf);
        assert GraphOf(byId)[id] == byId[id].deps;
      }
    }
  }

  lemma LeavesOfLeaf(byId: Index, id: string)
    requires Admissible(byId) && id in byId && byId[id].target.Some? && byId[id].deps == []
    ensures forall leaf :: LeafUnder(byId, id, leaf) <==> leaf == id
  {
    forall leaf ensures LeafUnder(byId, id, leaf) <==> leaf == id {
      ReachesStep(GraphOf(byId), id, leaf);
    }
  }

  lemma SomeLeafStep(byId: Index, id: string, s: State)
    requires Admissible(byId) && id in byId && byId[id].target.None?
    ensures SomeLeaf(byId, id, s) <==> exists d :: d in byId[id].deps && SomeLeaf(byId, d, s)
  {
    LeavesOfComposite(byId, id);
  }

  lemma SomeBlockingStep(byId: Index, id: string)
    requires Admissible(byId) && id in byId && byId[id].target.None?
    ensures SomeBlockingLeaf(byId, id) <==> exists d :: d in byId[id].deps && SomeBlockingLeaf(byId, d)
  {
    LeavesOfComposite(byId, id);
  }

  lemma SettledExactly(byId: Index, id: string, o: Obligation)
    requires Summarises(byId, id, o)
    ensures o.state == Satisfied || o.effect == RequiresMapping <==> !SomeBlockingLeaf(byId, id)
  {
    if SomeBlockingLeaf(byId, id) {
      var leaf :| LeafUnder(byId, id, leaf) && byId[leaf].state != Satisfied && byId[leaf].effect != RequiresMapping;
      assert SomeLeaf(byId, id, byId[leaf].state);
    }
  }

  ghost predicate ChildrenSummarise(byId: Index, deps: seq<string>, children: seq<Obligation>) {
    && |children| == |deps|
    && forall i :: 0 <= i < |deps| ==> Summarises(byId, deps[i], children[i])
  }

  lemma AnyStateByLeaf(byId: Index, deps: seq<string>, children: seq<Obligation>, s: State)
    requires ChildrenSummarise(byId, deps, children)
    ensures AnyState(children, s) <==> exists d :: d in deps && WorstLeafState(byId, d) == s
  {
    if d :| d in deps && WorstLeafState(byId, d) == s {
      var i :| 0 <= i < |deps| && deps[i] == d;
      assert children[i] in children;
    }
  }

  ghost predicate SomeWorst(byId: Index, deps: seq<string>, s: State) {
    exists d :: d in deps && WorstLeafState(byId, d) == s
  }

  lemma WorstStep(byId: Index, id: string)
    requires Admissible(byId) && id in byId && byId[id].target.None?
    ensures var deps := byId[id].deps;
            WorstLeafState(byId, id) ==
            if SomeWorst(byId, deps, Unsupported) then Unsupported
            else if SomeWorst(byId, deps, Missing) then Missing
            else if SomeWorst(byId, deps, Ambiguous) then Ambiguous
            else Satisfied
  {
    SomeLeafStep(byId, id, Unsupported);
    SomeLeafStep(byId, id, Missing);
    SomeLeafStep(byId, id, Ambiguous);
  }

  lemma CombineSummarises(byId: Index, id: string, children: seq<Obligation>)
    requires Admissible(byId) && AllValid(byId) && id in byId && byId[id].target.None?
    requires ChildrenSummarise(byId, byId[id].deps, children)
    ensures Summarises(byId, id, Combine(byId[id], children))
  {
    hide WorstLeafState, SomeBlockingLeaf, ChildrenSummarise, Admissible, AllValid, AnyState;
    var deps := byId[id].deps;
    WorstStep(byId, id);
    AnyStateByLeaf(byId, deps, children, Unsupported);
    AnyStateByLeaf(byId, deps, children, Missing);
    AnyStateByLeaf(byId, deps, children, Ambiguous);
    SomeBlockingStep(byId, id);
    CombineSettled(byId, deps, children);
    if WorstLeafState(byId, id) in {Missing, Unsupported} {
      WorseThanAmbiguousBlocks(byId, id);
    }
  }

  /** Missing or unsupported evidence cannot be settled by a mapping. */
  lemma WorseThanAmbiguousBlocks(byId: Index, id: string)
    requires AllValid(byId)
    requires WorstLeafState(byId, id) in {Missing, Unsupported}
    ensures SomeBlockingLeaf(byId, id)
  {
    var leaf :| LeafUnder(byId, id, leaf) && byId[leaf].state == WorstLeafState(byId, id);
    assert byId[leaf].Valid();
  }

  lemma CombineSettled(byId: Index, deps: seq<string>, children: seq<Obligation>)
    requires ChildrenSummarise(byId, deps, children)
    ensures (forall c :: c in children ==> c.state == Satisfied || c.effect == RequiresMapping) <==>
            !exists d :: d in deps && SomeBlockingLeaf(byId, d)
  {
    forall i | 0 <= i < |deps|
      ensures children[i].state == Satisfied || children[i].effect == RequiresMapping <==>
        !SomeBlockingLeaf(byId, deps[i])
    {
      SettledExactly(byId, deps[i], children[i]);
    }
    if d :| d in deps && SomeBlockingLeaf(byId, d) {
      var i :| 0 <= i < |deps| && deps[i] == d;
      assert children[i] in children;
    }
  }

  /** A composite is as bad as the worst leaf it reaches, whatever the nesting in between. */
  lemma {:induction false} DerivedSummarisesLeaves(byId: Index, id: string)
    requires Admissible(byId) && AllValid(byId) && id in byId
    ensures Summarises(byId, id, Derived(byId, id))
    decreases Height(byId, id)
  {
    var item := byId[id];
    assert item.Valid();
    if item.target.Some? {
      LeavesOfLeaf(byId, id);
      assert LeafUnder(byId, id, id);
    } else {
      forall i | 0 <= i < |item.deps| ensures Summarises(byId, item.deps[i], Children(byId, id)[i]) {
        DependencyIsLower(byId, id, item.deps[i]);
        DerivedSummarisesLeaves(byId, item.deps[i]);
      }
      CombineSummarises(byId, id, Children(byId, id));
    }
  }

  /** Derivation never produces an obligation its own constructor would refuse. */
  lemma {:induction false} DerivedIsValid(byId: Index, id: string)
    requires Admissible(byId) && AllValid(byId) && id in byId
    ensures Derived(byId, id).Valid()
    decreases Height(byId, id)
  {
    var item := byId[id];
    assert item.Valid();
    if item.target.None? {
      var children := Children(byId, id);
      forall c | c in children && c.state == Ambiguous ensures c.reason.Ambiguous() {
        var i :| 0 <= i < |children| && children[i] == c;
        DependencyIsLower(byId, id, item.deps[i]);
        DerivedIsValid(byId, item.deps[i]);
      }
      CombineIsValid(item, children);
    }
  }

  lemma CombineIsValid(item: Obligation, children: seq<Obligation>)
    requires item.Valid() && item.target.None?
    requires forall c :: c in children && c.state == Ambiguous ==> c.reason.Ambiguous()
    ensures Combine(item, children).Valid()
  {
    assert item.supports == [];
  }
}
