/** Rebuilding a READY bundle after one artifact slot proves not to be representable. */
module NativeRepresentation {
  import opened Common
  import opened DependencyGraphs
  import opened Ordering
  import opened Obligations
  import opened ObligationBundles

  datatype FailureError = PolicyMismatch | NotReady | NoMatchingSlot | Rebuild(error: BundleError)

  /** The artifact slot a materialisation limit names; no split means either split. */
  datatype Slot = Slot(kind: ArtifactKind, role: Role, split: Option<Split>)

  predicate Matches(o: Obligation, slot: Slot) {
    && o.target.Some? && o.target.value.ArtifactSlot?
    && o.target.value.kind == slot.kind && o.target.value.role == slot.role
    && (slot.split.None? || o.target.value.split == slot.split)
  }

  function Degraded(o: Obligation, slot: Slot): (r: Obligation)
    ensures r.id == o.id && r.target == o.target && r.deps == o.deps
  {
    if Matches(o, slot) then
      o.(state := Unsupported, reason := NativeRepresentationNotSupported, effect := BlocksPartial, supports := [])
    else o
  }

  function DegradeAll(obligations: seq<Obligation>, slot: Slot): (r: seq<Obligation>)
    ensures |r| == |obligations| && forall i :: 0 <= i < |r| ==> r[i] == Degraded(obligations[i], slot)
  {
    seq(|obligations|, i requires 0 <= i < |obligations| => Degraded(obligations[i], slot))
  }

  ghost predicate Hit(obligations: seq<Obligation>, slot: Slot, id: string) {
    exists o :: o in obligations && Matches(o, slot) && o.id == id
  }

  ghost function FailureOf(bundle: Bundle, policyId: string, slot: Slot): Result<Bundle, FailureError> {
    if bundle.policyId != policyId then Err(PolicyMismatch)
    else if bundle.decision != Ready then Err(NotReady)
    else if !exists id :: Hit(bundle.obligations, slot, id) then Err(NoMatchingSlot)
    else match BundleOf(bundle.claimId, policyId, true, DegradeAll(bundle.obligations, slot), None)
         case Ok(b) => Ok(b)
         case Err(e) => Err(Rebuild(e))
  }

  method WithNativeRepresentationFailure(bundle: Bundle, policyId: string, slot: Slot)
    returns (r: Result<Bundle, FailureError>)
    ensures r == FailureOf(bundle, policyId, slot)
  {
    if bundle.policyId != policyId {
      return Err(PolicyMismatch);
    }
    if bundle.decision != Ready {
      return Err(NotReady);
    }
    var changed, obligations := DegradeLoop(bundle.obligations, slot);
    if !changed {
      return Err(NoMatchingSlot);
    }
    var rebuilt := BuildBundle(bundle.claimId, policyId, true, obligations, None);
    return match rebuilt case Ok(b) => Ok(b) case Err(e) => Err(Rebuild(e));
  }

  method DegradeLoop(items: seq<Obligation>, slot: Slot) returns (changed: bool, obligations: seq<Obligation>)
    ensures changed <==> exists id :: Hit(items, slot, id)
    ensures obligations == DegradeAll(items, slot)
  {
    changed, obligations := false, [];
    for i := 0 to |items|
      invariant |obligations| == i && forall k :: 0 <= k < i ==> obligations[k] == Degraded(items[k], slot)
      invariant changed <==> exists k :: 0 <= k < i && Matches(items[k], slot)
    {
      var item := items[i];
      if Matches(item, slot) {
        changed := true;
        item := item.(state := Unsupported, reason := NativeRepresentationNotSupported,
                      effect := BlocksPartial, supports := []);
      }
      obligations := obligations + [item];
    }
    if changed {
      var k :| 0 <= k < |items| && Matches(items[k], slot);
      assert Hit(items, slot, items[k].id);
    }
  }

  // ---------------------------------------------------------------- what a failure changes, and what it does not

  /** A bundle the engine produced from consistent obligations. */
  ghost predicate Issued(b: Bundle) {
    exists supported, obligations: seq<Obligation>, question ::
      && AllConsistent(obligations)
      && BundleOf(b.claimId, b.policyId, supported, obligations, question) == Ok(b)
  }

  /** Ready bundles with a matching slot exist: one satisfied artifact leaf makes one. */
  lemma OneLeafIsReady(claimId: string, policyId: string, o: Obligation)
    requires o.Valid() && o.target.Some? && o.target.value.ArtifactSlot? && o.state == Satisfied
    ensures BundleOf(claimId, policyId, true, [o], None).Ok?
    ensures var b, slot := BundleOf(claimId, policyId, true, [o], None).value,
                           Slot(o.target.value.kind, o.target.value.role, o.target.value.split);
            Issued(b) && b.decision == Ready && b.obligations == [o] && Hit(b.obligations, slot, o.id)
  {
    OneLeafIsAccepted(o);
    OneLeafIsItsMeaning(o);
    ArtifactsNameNoClaim(o, claimId);
    DecisionMeaning(claimId, policyId, true, [o], None);
  }

  lemma ArtifactsNameNoClaim(o: Obligation, claimId: string)
    requires o.Valid() && o.target.Some? && o.target.value.ArtifactSlot?
    ensures !ForeignClaim([o], claimId)
  {
    assert forall s :: s in o.supports ==> Supports(s, o.target.value);
  }

  lemma OneLeafIsAccepted(o: Obligation)
    requires o.Valid() && o.target.Some?
    ensures GraphVerdict([o]).Ok? && TotalSupports([o]) == |o.supports|
  {
    assert [o][..0] == [];
    assert ById([o]) == map[o.id := o];
    RankedIsAcyclic(GraphOf(ById([o])), map[o.id := 0]);
    assert [o][1..] == [];
  }

  lemma OneLeafIsItsMeaning(o: Obligation)
    requires o.Valid() && o.target.Some? && GraphVerdict([o]).Ok?
    ensures o.id in Meaning(ById([o])) && Arranged([o], Meaning(ById([o]))) == [o]
  {
    ByIdContents([o]);
    assert o in [o];
    var m := Meaning(ById([o]));
    assert m[o.id] == o;
    SortByFixed(IdOf, [o]);
    assert Replaced([o], m) == [o];
  }

  lemma IssuedFacts(b: Bundle)
    requires Issued(b)
    ensures |b.obligations| <= 16 && TotalSupports(b.obligations) <= 32
    ensures !ForeignClaim(b.obligations, b.claimId) && Accepted(b.obligations)
    ensures AllConsistent(b.obligations)
    ensures b.decision == Ready ==> AllLeavesSatisfied(b.obligations)
  {
    var supported, obligations: seq<Obligation>, question :|
      && AllConsistent(obligations)
      && BundleOf(b.claimId, b.policyId, supported, obligations, question) == Ok(b);
    var out := BundleUnfolds(b.claimId, b.policyId, supported, obligations, question);
    BundleTuple(obligations);
    assert out == b.obligations;
    forall o | o in out ensures o.Valid() {
      BundleShowsWorstLeaves(b.claimId, b.policyId, supported, obligations, question, o);
    }
    BundleIsIdempotent(b.claimId, b.policyId, supported, obligations, question, question);
    DecisionMeaning(b.claimId, b.policyId, supported, out, question);
  }

  lemma {:induction false} DegradedSupports(obligations: seq<Obligation>, slot: Slot)
    ensures TotalSupports(DegradeAll(obligations, slot)) <= TotalSupports(obligations)
  {
    if obligations != [] {
      DegradedSupports(obligations[1..], slot);
      assert DegradeAll(obligations, slot)[1..] == DegradeAll(obligations[1..], slot);
    }
  }

  lemma DegradedMembers(obligations: seq<Obligation>, slot: Slot)
    ensures forall o :: o in obligations ==> Degraded(o, slot) in DegradeAll(obligations, slot)
    ensures forall d :: d in DegradeAll(obligations, slot) ==> exists o :: o in obligations && d == Degraded(o, slot)
  {
    var all := DegradeAll(obligations, slot);
    forall o | o in obligations ensures Degraded(o, slot) in all {
      var k :| 0 <= k < |obligations| && obligations[k] == o;
      assert all[k] in all;
    }
    forall d | d in all ensures exists o :: o in obligations && d == Degraded(o, slot) {
      var k :| 0 <= k < |all| && all[k] == d;
      assert obligations[k] in obligations;
    }
  }

  function DegradedEntries(byId: Index, slot: Slot): Index {
    map id | id in byId :: Degraded(byId[id], slot)
  }

  lemma DegradedIndexes(byId: Index, obligations: seq<Obligation>, slot: Slot)
    requires Indexes(byId, obligations)
    ensures Indexes(DegradedEntries(byId, slot), DegradeAll(obligations, slot))
  {
    var after, m := DegradeAll(obligations, slot), DegradedEntries(byId, slot);
    forall i, j | 0 <= i < j < |after| ensures IdOf(after[i]) != IdOf(after[j]) {
      assert IdOf(obligations[i]) != IdOf(obligations[j]);
    }
    DegradedMembers(obligations, slot);
    forall o | o in after ensures o.id in m && m[o.id] == o {
      var was :| was in obligations && o == Degraded(was, slot);
    }
    forall o: Obligation | o.id in m && m[o.id] == o ensures o in after {
      assert byId[o.id] in obligations;
    }
  }

  /** Degrading keeps identifiers and dependencies, hence the graph. */
  lemma DegradedIndex(obligations: seq<Obligation>, slot: Slot)
    requires DistinctKeys(IdOf, obligations)
    ensures var after := DegradeAll(obligations, slot);
            && DistinctKeys(IdOf, after)
            && ById(after) == DegradedEntries(ById(obligations), slot)
            && GraphOf(ById(after)) == GraphOf(ById(obligations))
  {
    var after := DegradeAll(obligations, slot);
    ByIdIndexes(obligations);
    DegradedIndexes(ById(obligations), obligations, slot);
    ByIdIndexes(after);
    IndexUnique(ById(after), DegradedEntries(ById(obligations), slot), after);
  }

  lemma DegradedConsistent(obligations: seq<Obligation>, slot: Slot)
    requires AllConsistent(obligations)
    ensures AllConsistent(DegradeAll(obligations, slot))
  {
    hide Degraded, DegradeAll, Obligation.Valid;
    DegradedMembers(obligations, slot);
    forall d | d in DegradeAll(obligations, slot) ensures d.Valid() {
      var o :| o in obligations && d == Degraded(o, slot);
      DegradedIsValid(o, slot);
    }
  }

  lemma DegradedIsValid(o: Obligation, slot: Slot)
    requires o.Valid()
    ensures Degraded(o, slot).Valid()
  {
  }

  /** The degraded tuple is acceptable and its open leaves are exactly the hits. */
  lemma DegradedIsAcceptable(b: Bundle, slot: Slot)
    requires Issued(b) && b.decision == Ready
    ensures var after := DegradeAll(b.obligations, slot);
            && |after| <= 16 && TotalSupports(after) <= 32 && Accepted(after) && AllConsistent(after)
            && !ForeignClaim(after, b.claimId)
            && (forall id :: OpenLeaf(after, id) <==> Hit(b.obligations, slot, id))
  {
    IssuedFacts(b);
    DegradedIndex(b.obligations, slot);
    DegradedSupports(b.obligations, slot);
    DegradedMembers(b.obligations, slot);
    DegradedConsistent(b.obligations, slot);
  }

  /** Derivation only keeps support the tuple already carried. */
  lemma DerivedCarriesNoNewSupport(obligations: seq<Obligation>, claimId: string)
    requires Accepted(obligations) && !ForeignClaim(obligations, claimId)
    ensures forall o :: o in obligations ==> o.id in Meaning(ById(obligations))
    ensures !ForeignClaim(Arranged(obligations, Meaning(ById(obligations))), claimId)
  {
    BundleTuple(obligations);
    var byId := ById(obligations);
    var m := Meaning(byId);
    ByIdIndexes(obligations);
    MeaningShape(byId);
    var out := Arranged(obligations, m);
    forall d | d in out ensures exists o :: o in obligations && o.supports == d.supports {
      assert byId[d.id] in obligations;
    }
  }

  ghost predicate ReachesHit(obligations: seq<Obligation>, slot: Slot, id: string) {
    exists hit :: Hit(obligations, slot, hit) && Reaches(GraphOf(ById(obligations)), id, hit)
  }

  /** Degrading some leaves of a fully satisfied graph makes exactly what reaches them unsupported. */
  lemma WorstAfterDegrading(before: Index, slot: Slot, id: string)
    requires forall leaf :: leaf in before && before[leaf].target.Some? ==> before[leaf].state == Satisfied
    ensures var after := DegradedEntries(before, slot);
            GraphOf(after) == GraphOf(before) &&
            WorstLeafState(after, id) ==
            if exists hit :: hit in before && Matches(before[hit], slot) && Reaches(GraphOf(before), id, hit)
            then Unsupported else Satisfied
  {
    var after := DegradedEntries(before, slot);
    assert GraphOf(after) == GraphOf(before);
    if hit :| hit in before && Matches(before[hit], slot) && Reaches(GraphOf(before), id, hit) {
      assert LeafUnder(after, id, hit) && after[hit].state == Unsupported;
    }
  }

  lemma LeafAfterFailure(obligations: seq<Obligation>, slot: Slot, id: string)
    requires Accepted(obligations) && AllLeavesSatisfied(obligations)
    ensures WorstLeafState(ById(DegradeAll(obligations, slot)), id) ==
            if ReachesHit(obligations, slot, id) then Unsupported else Satisfied
  {
    DegradedIndex(obligations, slot);
    ByIdIndexes(obligations);
    var before := ById(obligations);
    forall leaf | leaf in before && before[leaf].target.Some? ensures before[leaf].state == Satisfied {
      assert before[leaf] in obligations;
    }
    WorstAfterDegrading(before, slot, id);
    forall hit ensures Hit(obligations, slot, hit) <==> hit in before && Matches(before[hit], slot) {
      if hit in before { assert before[hit] in obligations; }
    }
  }

  /** Within the bounds, an acceptable tuple without foreign support builds a bundle. */
  lemma AcceptedBuilds(claimId: string, policyId: string, obligations: seq<Obligation>)
    requires |obligations| <= 16 && TotalSupports(obligations) <= 32 && Accepted(obligations)
    requires !ForeignClaim(obligations, claimId)
    ensures BundleOf(claimId, policyId, true, obligations, None).Ok?
  {
    DerivedCarriesNoNewSupport(obligations, claimId);
  }

  lemma FailureRebuilds(b: Bundle, slot: Slot) returns (after: Bundle)
    requires Issued(b) && b.decision == Ready
    requires exists id :: Hit(b.obligations, slot, id)
    ensures FailureOf(b, b.policyId, slot) == Ok(after)
    ensures BundleOf(b.claimId, b.policyId, true, DegradeAll(b.obligations, slot), None) == Ok(after)
  {
    DegradedIsAcceptable(b, slot);
    AcceptedBuilds(b.claimId, b.policyId, DegradeAll(b.obligations, slot));
    after := BundleOf(b.claimId, b.policyId, true, DegradeAll(b.obligations, slot), None).value;
  }

  /** The outcome is PARTIAL and its blockers are exactly the degraded leaves. */
  lemma FailureBlocks(b: Bundle, slot: Slot)
    requires Issued(b) && b.decision == Ready
    requires exists id :: Hit(b.obligations, slot, id)
    ensures FailureOf(b, b.policyId, slot).Ok?
    ensures FailureOf(b, b.policyId, slot).value.decision == Partial
    ensures forall id :: id in FailureOf(b, b.policyId, slot).value.blockers <==> Hit(b.obligations, slot, id)
  {
    var after := FailureRebuilds(b, slot);
    DegradedIsAcceptable(b, slot);
    DecisionMeaning(b.claimId, b.policyId, true, DegradeAll(b.obligations, slot), None);
    var id :| Hit(b.obligations, slot, id);
    assert OpenLeaf(DegradeAll(b.obligations, slot), id);
  }

  /** Leaves outside the slot are untouched; a composite turns UNSUPPORTED exactly when it reaches a
      degraded leaf and stays SATISFIED otherwise. */
  lemma FailureIsContained(b: Bundle, slot: Slot)
    requires Issued(b) && b.decision == Ready
    requires exists id :: Hit(b.obligations, slot, id)
    ensures FailureOf(b, b.policyId, slot).Ok?
    ensures var after := FailureOf(b, b.policyId, slot).value.obligations;
            && (forall o :: o in b.obligations && o.target.Some? ==> Degraded(o, slot) in after)
            && (forall c :: c in after && c.target.None? ==>
                 c.state == if ReachesHit(b.obligations, slot, c.id) then Unsupported else Satisfied)
  {
    var after := FailureRebuilds(b, slot);
    var degraded := DegradeAll(b.obligations, slot);
    LeavesSurvive(b.claimId, b.policyId, degraded);
    DegradedMembers(b.obligations, slot);
    forall c | c in after.obligations && c.target.None?
      ensures c.state == if ReachesHit(b.obligations, slot, c.id) then Unsupported else Satisfied
    {
      CompositeAfterFailure(b, slot, after, c);
    }
  }

  lemma CompositeAfterFailure(b: Bundle, slot: Slot, after: Bundle, c: Obligation)
    requires Issued(b) && b.decision == Ready
    requires BundleOf(b.claimId, b.policyId, true, DegradeAll(b.obligations, slot), None) == Ok(after)
    requires c in after.obligations
    ensures c.state == if ReachesHit(b.obligations, slot, c.id) then Unsupported else Satisfied
  {
    IssuedFacts(b);
    DegradedIsAcceptable(b, slot);
    BundleShowsWorstLeaves(b.claimId, b.policyId, true, DegradeAll(b.obligations, slot), None, c);
    LeafAfterFailure(b.obligations, slot, c.id);
  }

  lemma LeavesSurvive(claimId: string, policyId: string, obligations: seq<Obligation>)
    requires BundleOf(claimId, policyId, true, obligations, None).Ok?
    ensures var out := BundleOf(claimId, policyId, true, obligations, None).value.obligations;
            forall o: Obligation | o.target.Some? :: o in obligations <==> o in out
  {
    var out := BundleUnfolds(claimId, policyId, true, obligations, None);
    BundleTuple(obligations);
    ByIdIndexes(obligations);
    MeaningShape(ById(obligations));
    SameLeaves(obligations, ById(obligations), out, Meaning(ById(obligations)));
  }

  // ---------------------------------------------------------------- field by field

  /** A leaf for artifacts of this kind and role, and of this split where one is named. */
  ghost predicate ArtifactLeaf(o: Obligation, kind: ArtifactKind, role: Role, split: Option<Split>) {
    exists s :: o.target == Some(ArtifactSlot(kind, role, s)) && (split == None || split == s)
  }

  lemma MatchesByFields(o: Obligation, slot: Slot)
    ensures Matches(o, slot) <==> ArtifactLeaf(o, slot.kind, slot.role, slot.split)
  {
    if Matches(o, slot) {
      assert o.target == Some(ArtifactSlot(slot.kind, slot.role, o.target.value.split));
    }
  }

  ghost predicate SomeArtifactLeaf(b: Bundle, id: string, slot: Slot) {
    exists o :: o in b.obligations && o.id == id && ArtifactLeaf(o, slot.kind, slot.role, slot.split)
  }

  lemma HitByFields(b: Bundle, slot: Slot)
    ensures forall id :: Hit(b.obligations, slot, id) <==> SomeArtifactLeaf(b, id, slot)
  {
    hide Matches, ArtifactLeaf;
    forall o | o in b.obligations ensures Matches(o, slot) <==> ArtifactLeaf(o, slot.kind, slot.role, slot.split) {
      MatchesByFields(o, slot);
    }
  }

  /** On a ready bundle a failure is refused exactly when no leaf is of the slot's kind, role and named split; otherwise
      the blockers are exactly these leaves. */
  lemma FailureBySlot(b: Bundle, slot: Slot)
    requires Issued(b) && b.decision == Ready
    ensures FailureOf(b, b.policyId, slot) == Err(NoMatchingSlot) <==> forall id :: !SomeArtifactLeaf(b, id, slot)
    ensures FailureOf(b, b.policyId, slot).Ok? <==> exists id :: SomeArtifactLeaf(b, id, slot)
    ensures FailureOf(b, b.policyId, slot).Ok? ==>
      forall id :: id in FailureOf(b, b.policyId, slot).value.blockers <==> SomeArtifactLeaf(b, id, slot)
  {
    hide SomeArtifactLeaf, Hit, Issued;
    HitByFields(b, slot);
    if id :| SomeArtifactLeaf(b, id, slot) {
      FailureBlocks(b, slot);
    } else {
      RefusedWithoutHit(b, slot);
    }
  }

  lemma RefusedWithoutHit(b: Bundle, slot: Slot)
    requires b.decision == Ready && forall id :: !Hit(b.obligations, slot, id)
    ensures FailureOf(b, b.policyId, slot) == Err(NoMatchingSlot)
  {
  }

  /** A leaf of the slot turns UNSUPPORTED for want of a native form, blocks, and loses its support; a leaf of another
      kind, role or named split, or for something else than artifacts, is in the result as it was. */
  lemma LeafAfterSlotFailure(b: Bundle, slot: Slot, o: Obligation)
    requires Issued(b) && b.decision == Ready && FailureOf(b, b.policyId, slot).Ok?
    requires o in b.obligations && o.target.Some?
    ensures var after := FailureOf(b, b.policyId, slot).value.obligations;
      if ArtifactLeaf(o, slot.kind, slot.role, slot.split)
      then Obligation(o.id, o.target, Unsupported, NativeRepresentationNotSupported, BlocksPartial, [], o.deps) in after
      else o in after
  {
    hide Issued, ArtifactLeaf;
    FailureBySlot(b, slot);
    HitByFields(b, slot);
    MatchesByFields(o, slot);
    FailureIsContained(b, slot);
  }

  /** A failure of one arm's slot leaves every leaf of the other arm as it was. */
  lemma OtherArmUntouched(b: Bundle, slot: Slot, o: Obligation)
    requires Issued(b) && b.decision == Ready && FailureOf(b, b.policyId, slot).Ok?
    requires o in b.obligations && o.target.Some? && o.target.value.ArtifactSlot? && o.target.value.role != slot.role
    ensures o in FailureOf(b, b.policyId, slot).value.obligations
  {
    hide Issued;
    LeafAfterSlotFailure(b, slot, o);
  }
}
