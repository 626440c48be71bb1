/** When a bundle is refused, said of the obligations handed in; and what its compiler fields and composites say. */
module BundleClaims {
  import opened Common
  import opened Obligations
  import opened ObligationBundles
  import opened NativeRepresentation

  /** Some handed obligation carries support for a field of another claim. */
  ghost predicate ForeignSupport(obligations: seq<Obligation>, claimId: string) {
    exists o, k: nat, id, other, field, constraint ::
      o in obligations && k < |o.supports| && o.supports[k] == ClaimFieldSupport(id, other, field, constraint)
      && other != claimId
  }

  lemma ForeignSupportIs(obligations: seq<Obligation>, claimId: string)
    ensures ForeignSupport(obligations, claimId) <==> ForeignClaim(obligations, claimId)
  {
    if ForeignClaim(obligations, claimId) {
      var o, s :| o in obligations && s in o.supports && s.ClaimFieldSupport? && s.claimId != claimId;
      var k: nat :| k < |o.supports| && o.supports[k] == s;
      assert o.supports[k] == ClaimFieldSupport(s.supportId, s.claimId, s.field, s.constraint);
    }
    if ForeignSupport(obligations, claimId) {
      var o, k: nat, id, other, field, constraint :|
        o in obligations && k < |o.supports| && o.supports[k] == ClaimFieldSupport(id, other, field, constraint)
        && other != claimId;
      assert o.supports[k] in o.supports;
    }
  }

  /** Derivation neither adds nor drops support. */
  lemma SupportIsKept(obligations: seq<Obligation>, claimId: string)
    requires Accepted(obligations)
    ensures forall o :: o in obligations ==> o.id in Meaning(ById(obligations))
    ensures ForeignClaim(Arranged(obligations, Meaning(ById(obligations))), claimId) <==>
            ForeignClaim(obligations, claimId)
  {
    BundleTuple(obligations);
    var byId := ById(obligations);
    var m := Meaning(byId);
    ByIdIndexes(obligations);
    MeaningShape(byId);
    var out := Arranged(obligations, m);
    forall o | o in obligations ensures exists d :: d in out && d.supports == o.supports {
      assert m[o.id] in out;
    }
    forall d | d in out ensures exists o :: o in obligations && o.supports == d.supports {
      assert byId[d.id] in obligations;
    }
  }

  /** Within the bounds and on an accepted graph a bundle is refused if and only if some handed obligation carries
      support for a field of another claim. */
  lemma RefusedForForeignClaim(claimId: string, policyId: string, compilerSupported: bool,
                               obligations: seq<Obligation>, question: Option<string>)
    requires |obligations| <= 16 && TotalSupports(obligations) <= 32 && GraphVerdict(obligations).Ok?
    ensures var r := BundleOf(claimId, policyId, compilerSupported, obligations, question);
      && (r == Err(ClaimMismatch) <==> ForeignSupport(obligations, claimId))
      && (r.Ok? <==> !ForeignSupport(obligations, claimId))
  {
    hide ForeignSupport, ForeignClaim;
    ForeignSupportIs(obligations, claimId);
    SupportIsKept(obligations, claimId);
  }

  /** Which bound or graph defect refuses a bundle, first to last. */
  lemma RefusedForStructure(claimId: string, policyId: string, compilerSupported: bool,
                            obligations: seq<Obligation>, question: Option<string>)
    ensures var r := BundleOf(claimId, policyId, compilerSupported, obligations, question);
      && (r == Err(StructuralBound) <==> |obligations| > 16)
      && (r == Err(SupportBound) <==> |obligations| <= 16 && TotalSupports(obligations) > 32)
      && (|obligations| <= 16 && TotalSupports(obligations) <= 32 && GraphVerdict(obligations).Err? ==>
           r.Err? && r.error == GraphVerdict(obligations).error)
  {
    hide ForeignClaim;
  }

  /** Each support counts once, wherever it stands. */
  lemma {:induction false} SupportsAreCounted(obligations: seq<Obligation>, n: nat)
    requires forall i :: 0 <= i < |obligations| ==> |obligations[i].supports| == n
    ensures TotalSupports(obligations) == n * |obligations|
  {
    if obligations != [] {
      SupportsAreCounted(obligations[1..], n);
    }
  }

  /** A satisfied leaf for a field of the claim makes a ready bundle of this claim, and of no other claim. */
  lemma OwnSupportIsReady(claimId: string, policyId: string, o: Obligation)
    requires o.Valid() && o.target.Some? && o.target.value.ClaimField? && o.state == Satisfied
    requires forall s :: s in o.supports ==> s.ClaimFieldSupport? && s.claimId == claimId
    ensures BundleOf(claimId, policyId, true, [o], None).Ok?
    ensures var b := BundleOf(claimId, policyId, true, [o], None).value;
      b.decision == Ready && b.obligations == [o] && forall id :: id !in b.blockers
    ensures forall other :: other != claimId ==> BundleOf(other, policyId, true, [o], None) == Err(ClaimMismatch)
  {
    OneLeafIsAccepted(o);
    OneLeafIsItsMeaning(o);
    assert !ForeignClaim([o], claimId);
    DecisionMeaning(claimId, policyId, true, [o], None);
    forall other | other != claimId ensures BundleOf(other, policyId, true, [o], None) == Err(ClaimMismatch) {
      var s := o.supports[0];
      assert s in o.supports && o in [o];
      assert ForeignClaim([o], other);
    }
  }

  /** Whom a bundle is about and what its compiler says: satisfied, or a claim type that blocks for want of a
      compiler. */
  lemma CompilerFields(claimId: string, policyId: string, compilerSupported: bool, obligations: seq<Obligation>,
                       question: Option<string>)
    requires BundleOf(claimId, policyId, compilerSupported, obligations, question).Ok?
    ensures var b := BundleOf(claimId, policyId, compilerSupported, obligations, question).value;
      && b.claimId == claimId && b.policyId == policyId
      && (compilerSupported ==>
           b.compilerState == Satisfied && b.compilerReason == ValidatedDependenciesSatisfied
           && b.compilerEffect == NoEffect)
      && (!compilerSupported ==>
           b.compilerState == Unsupported && b.compilerReason == ClaimTypeNotExecutable
           && b.compilerEffect == BlocksPartial && b.decision == Partial)
  {
    hide Blockers, LeafWithEffect, Accepted, ForeignClaim, Arranged, GraphVerdict;
    var derived := BundleUnfolds(claimId, policyId, compilerSupported, obligations, question);
  }

  // ---------------------------------------------------------------- composites in full

  /** The first leaf, dependency by dependency in their order, that is ambiguous. */
  ghost function FirstOpen(byId: Index, id: string): (leaf: string)
    requires Admissible(byId) && AllValid(byId) && id in byId && SomeLeaf(byId, id, Ambiguous)
    ensures leaf in byId && byId[leaf].target.Some? && byId[leaf].state == Ambiguous
    decreases Height(byId, id), |byId[id].deps| + 1
  {
    if byId[id].target.Some? then LeavesOfValidLeaf(byId, id); id
    else OpenBelow(byId, id); FirstOpenOf(byId, id, 0)
  }

  lemma OpenBelow(byId: Index, id: string)
    requires Admissible(byId) && id in byId && byId[id].target.None? && SomeLeaf(byId, id, Ambiguous)
    ensures OpenFrom(byId, byId[id].deps, 0)
  {
    hide SomeLeaf;
    SomeLeafStep(byId, id, Ambiguous);
    var d :| d in byId[id].deps && SomeLeaf(byId, d, Ambiguous);
    var k :| 0 <= k < |byId[id].deps| && byId[id].deps[k] == d;
  }

  /** From the i-th dependency on, some dependency reaches an ambiguous leaf. */
  ghost predicate OpenFrom(byId: Index, deps: seq<string>, i: nat) {
    exists k :: i <= k < |deps| && SomeLeaf(byId, deps[k], Ambiguous)
  }

  lemma OpenHere(byId: Index, deps: seq<string>, i: nat)
    requires OpenFrom(byId, deps, i)
    ensures i < |deps| && deps[i] in deps && (!SomeLeaf(byId, deps[i], Ambiguous) ==> OpenFrom(byId, deps, i + 1))
  {
    hide SomeLeaf;
  }

  ghost function FirstOpenOf(byId: Index, id: string, i: nat): (leaf: string)
    requires Admissible(byId) && AllValid(byId) && id in byId && OpenFrom(byId, byId[id].deps, i)
    ensures leaf in byId && byId[leaf].target.Some? && byId[leaf].state == Ambiguous
    decreases Height(byId, id), |byId[id].deps| - i
  {
    hide SomeLeaf, AllValid, Admissible, OpenFrom, Height;
    OpenHere(byId, byId[id].deps, i);
    DependencyIsLower(byId, id, byId[id].deps[i]);
    if SomeLeaf(byId, byId[id].deps[i], Ambiguous) then FirstOpen(byId, byId[id].deps[i])
    else FirstOpenOf(byId, id, i + 1)
  }

  lemma LeavesOfValidLeaf(byId: Index, id: string)
    requires Admissible(byId) && AllValid(byId) && id in byId && byId[id].target.Some?
    ensures forall s :: SomeLeaf(byId, id, s) <==> byId[id].state == s
  {
    assert byId[id].Valid();
    LeavesOfLeaf(byId, id);
    assert LeafUnder(byId, id, id);
  }

  /** What a composite says beside its state: the reason that goes with it, and whether it blocks or asks for a mapping.
      A composite that asks takes over the reason of the first ambiguous leaf. */
  lemma {:induction false} CompositeInFull(byId: Index, id: string)
    requires Admissible(byId) && AllValid(byId) && id in byId && byId[id].target.None?
    ensures var o := Derived(byId, id);
      && (o.state == Unsupported ==> o.reason == DependencyUnsupported && o.effect == BlocksPartial)
      && (o.state == Missing ==> o.reason == DependencyMissing && o.effect == BlocksPartial)
      && (o.state == Satisfied ==> o.reason == ValidatedDependenciesSatisfied && o.effect == NoEffect)
      && (o.state == Ambiguous && SomeBlockingLeaf(byId, id) ==>
           o.reason == ClarificationNotBounded && o.effect == BlocksPartial)
    ensures WorstLeafState(byId, id) == Ambiguous && !SomeBlockingLeaf(byId, id) ==>
      Derived(byId, id).effect == RequiresMapping && Derived(byId, id).reason == byId[FirstOpen(byId, id)].reason
  {
    hide SomeBlockingLeaf, SomeLeaf, WorstLeafState, Combine, AllValid, Admissible;
    DerivedSummarisesLeaves(byId, id);
    CombineInFull(byId[id], Children(byId, id));
    if WorstLeafState(byId, id) == Ambiguous && !SomeBlockingLeaf(byId, id) {
      ReasonOfFirst(byId, id);
    }
  }

  lemma CombineInFull(item: Obligation, children: seq<Obligation>)
    ensures var o := Combine(item, children);
      && (o.state == Unsupported ==> o.reason == DependencyUnsupported && o.effect == BlocksPartial)
      && (o.state == Missing ==> o.reason == DependencyMissing && o.effect == BlocksPartial)
      && (o.state == Satisfied ==> o.reason == ValidatedDependenciesSatisfied && o.effect == NoEffect)
      && (o.state == Ambiguous && o.effect != RequiresMapping ==>
           o.reason == ClarificationNotBounded && o.effect == BlocksPartial)
  {
    hide AnyState, FirstAmbiguousReason;
  }

  lemma {:induction false} ReasonOfFirst(byId: Index, id: string)
    requires Admissible(byId) && AllValid(byId) && id in byId
    requires WorstLeafState(byId, id) == Ambiguous && !SomeBlockingLeaf(byId, id)
    ensures Derived(byId, id).state == Ambiguous
    ensures Derived(byId, id).reason == byId[FirstOpen(byId, id)].reason
    decreases Height(byId, id), |byId[id].deps| + 1
  {
    hide SomeBlockingLeaf, SomeLeaf;
    DerivedSummarisesLeaves(byId, id);
    if byId[id].target.Some? {
      LeavesOfValidLeaf(byId, id);
    } else {
      OpenBelow(byId, id);
      SomeBlockingStep(byId, id);
      ReasonOfFirstFrom(byId, id, 0);
      CombinesFirst(byId[id], Children(byId, id));
    }
  }

  lemma CombinesFirst(item: Obligation, children: seq<Obligation>)
    requires var r := Combine(item, children); r.state == Ambiguous && r.effect == RequiresMapping
    ensures AnyState(children, Ambiguous) && Combine(item, children).reason == FirstAmbiguousReason(children)
  {
  }

  lemma ReasonOfFirstFrom(byId: Index, id: string, i: nat)
    requires Admissible(byId) && AllValid(byId) && id in byId && byId[id].target.None?
    requires OpenFrom(byId, byId[id].deps, i)
    requires forall d :: d in byId[id].deps ==> !SomeBlockingLeaf(byId, d)
    ensures exists k :: i <= k < |Children(byId, id)| && Children(byId, id)[k].state == Ambiguous
    ensures Children(byId, id)[FirstAmbiguousFrom(Children(byId, id), i)].reason ==
            byId[FirstOpenOf(byId, id, i)].reason
    decreases Height(byId, id), |byId[id].deps| - i
  {
    hide SomeBlockingLeaf, SomeLeaf, AllValid, Admissible, Height, OpenFrom;
    OpenHere(byId, byId[id].deps, i);
    var d := byId[id].deps[i];
    DependencyIsLower(byId, id, d);
    assert Children(byId, id)[i] == Derived(byId, d);
    DerivedSummarisesLeaves(byId, d);
    NothingWorse(byId, d);
    if SomeLeaf(byId, d, Ambiguous) {
      ReasonOfFirst(byId, d);
    } else {
      ReasonOfFirstFrom(byId, id, i + 1);
    }
  }

  lemma NothingWorse(byId: Index, id: string)
    requires AllValid(byId) && !SomeBlockingLeaf(byId, id)
    ensures WorstLeafState(byId, id) == if SomeLeaf(byId, id, Ambiguous) then Ambiguous else Satisfied
  {
    if WorstLeafState(byId, id) in {Missing, Unsupported} {
      WorseThanAmbiguousBlocks(byId, id);
      assert false;
    }
  }
}
