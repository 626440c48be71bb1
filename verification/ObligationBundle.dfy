/** The evidence bundle of one claim: derived obligations in identifier order, blockers and a decision. */
module ObligationBundles {
  import opened Common
  import opened Ordering
  import opened Obligations

  datatype Decision = Ready | Partial | MappingNeeded

  datatype Bundle = Bundle(
    claimId: string, policyId: string,
    compilerState: State, compilerReason: Reason, compilerEffect: Effect,
    obligations: seq<Obligation>, blockers: seq<string>,
    decision: Decision, question: Option<string>)

  function TotalSupports(obligations: seq<Obligation>): nat {
    if obligations == [] then 0 else |obligations[0].supports| + TotalSupports(obligations[1..])
  }

  predicate ForeignClaim(derived: seq<Obligation>, claimId: string) {
    exists o, s :: o in derived && s in o.supports && s.ClaimFieldSupport? && s.claimId != claimId
  }

  /** Identifiers of the unsatisfied leaves, in bundle order. */
  function Blockers(derived: seq<Obligation>): (ids: seq<string>)
  {
    if derived == [] then []
    else (if derived[0].target.Some? && derived[0].state != Satisfied then [derived[0].id] else [])
         + Blockers(derived[1..])
  }

  predicate LeafWithEffect(derived: seq<Obligation>, effect: Effect) {
    exists o :: o in derived && o.target.Some? && o.effect == effect
  }

  function Decide(claimId: string, policyId: string, compilerSupported: bool,
                  derived: seq<Obligation>, question: Option<string>): Bundle
  {
    var decision :=
      if !compilerSupported || LeafWithEffect(derived, BlocksPartial) then Partial
      else if LeafWithEffect(derived, RequiresMapping) then
        if question.Some? then MappingNeeded else Partial
      else Ready;
    Bundle(claimId, policyId,
           if compilerSupported then Satisfied else Unsupported,
           if compilerSupported then ValidatedDependenciesSatisfied else ClaimTypeNotExecutable,
           if compilerSupported then NoEffect else BlocksPartial,
           derived, Blockers(derived), decision,
           if decision == MappingNeeded then question else None)
  }

  /** The tuple with every obligation replaced through m, in identifier order. */
  ghost function Arranged(obligations: seq<Obligation>, m: Index): seq<Obligation>
    requires forall o :: o in obligations ==> o.id in m
  {
    SortBy(IdOf, Replaced(obligations, m))
  }

  ghost function Replaced(obligations: seq<Obligation>, m: Index): (r: seq<Obligation>)
    requires forall o :: o in obligations ==> o.id in m
    ensures |r| == |obligations| && forall i :: 0 <= i < |r| ==> r[i] == m[obligations[i].id]
  {
    seq(|obligations|, i requires 0 <= i < |obligations| => assert obligations[i] in obligations; m[obligations[i].id])
  }

  ghost function BundleOf(claimId: string, policyId: string, compilerSupported: bool,
                          obligations: seq<Obligation>, question: Option<string>): Result<Bundle, BundleError>
  {
    if |obligations| > 16 then Err(StructuralBound)
    else if TotalSupports(obligations) > 32 then Err(SupportBound)
    else if GraphVerdict(obligations).Err? then Err(GraphVerdict(obligations).error)
    else
      ByIdContents(obligations);
      Assembled(claimId, policyId, compilerSupported, Arranged(obligations, Meaning(ById(obligations))), question)
  }

  function Assembled(claimId: string, policyId: string, compilerSupported: bool,
                     derived: seq<Obligation>, question: Option<string>): Result<Bundle, BundleError>
  {
    if ForeignClaim(derived, claimId) then Err(ClaimMismatch)
    else Ok(Decide(claimId, policyId, compilerSupported, derived, question))
  }

  method BuildBundle(claimId: string, policyId: string, compilerSupported: bool,
                     obligations: seq<Obligation>, question: Option<string>)
    returns (r: Result<Bundle, BundleError>)
    ensures r == BundleOf(claimId, policyId, compilerSupported, obligations, question)
  {
    if |obligations| > 16 {
      return Err(StructuralBound);
    }
    if TotalSupports(obligations) > 32 {
      return Err(SupportBound);
    }
    var verdict := ValidateGraph(obligations);
    if verdict.Err? {
      return Err(verdict.error);
    }
    ByIdContents(obligations);
    var derived := DeriveAll(obligations, ById(obligations));
    return Assembled(claimId, policyId, compilerSupported, SortBy(IdOf, derived), question);
  }

  /** One cache serves the whole tuple; what it already holds never changes an answer. */
  method DeriveAll(obligations: seq<Obligation>, byId: Index) returns (derived: seq<Obligation>)
    requires Admissible(byId)
    requires forall id :: id in byId ==> byId[id].id == id
    requires forall o :: o in obligations ==> o.id in byId && byId[o.id] == o
    ensures derived == Replaced(obligations, Meaning(byId))
  {
    var ids := Identifiers(obligations);
    forall k | 0 <= k < |ids| ensures ids[k] in byId && Height(byId, ids[k]) < |byId| + 1 {
      assert obligations[k] in obligations;
      HeightBound(byId, ids[k]);
    }
    var derivation := new Derivation(byId);
    derived := derivation.DeriveEach(ids, |byId| + 1);
    assert derived == Replaced(obligations, Meaning(byId));
  }

  // ---------------------------------------------------------------- the input order does not matter

  lemma {:induction false} SupportsOfPermutation(a: seq<Obligation>, b: seq<Obligation>)
    requires multiset(a) == multiset(b)
    ensures TotalSupports(a) == TotalSupports(b)
  {
    SameMembers(a, b);
    if a != [] {
      assert a[0] in b;
      var k :| 0 <= k < |b| && b[k] == a[0];
      SupportsWithout(b, k);
      SameMultisetWithout(a, b, k);
      SupportsOfPermutation(a[1..], b[..k] + b[k + 1..]);
    }
  }

  lemma SameMultisetWithout<T>(a: seq<T>, b: seq<T>, k: nat)
    requires a != [] && k < |b| && b[k] == a[0] && multiset(a) == multiset(b)
    ensures multiset(a[1..]) == multiset(b[..k] + b[k + 1..])
  {
    assert a == [a[0]] + a[1..];
    assert b == b[..k] + [b[k]] + b[k + 1..];
    assert multiset(a[1..]) == multiset(a) - multiset{a[0]};
    assert multiset(b[..k] + b[k + 1..]) == multiset(b) - multiset{b[k]};
  }

  lemma SupportsWithout(b: seq<Obligation>, k: nat)
    requires k < |b|
    ensures TotalSupports(b) == |b[k].supports| + TotalSupports(b[..k] + b[k + 1..])
  {
    SupportsOfAppend(b[..k], b[k + 1..]);
    SupportsOfAppend(b[..k], b[k..]);
    assert b == b[..k] + b[k..];
    assert b[k..] == [b[k]] + b[k + 1..];
  }

  lemma {:induction false} SupportsOfAppend(a: seq<Obligation>, b: seq<Obligation>)
    ensures TotalSupports(a + b) == TotalSupports(a) + TotalSupports(b)
  {
    if a == [] {
      assert a + b == b;
    } else {
      SupportsOfAppend(a[1..], b);
      assert a + b == [a[0]] + (a[1..] + b);
    }
  }

  /** byId holds exactly the obligations of the tuple, each under its own identifier. */
  ghost predicate Indexes(byId: Index, obligations: seq<Obligation>) {
    && DistinctKeys(IdOf, obligations)
    && (forall o :: o in obligations <==> o.id in byId && byId[o.id] == o)
    && (forall id :: id in byId ==> byId[id].id == id)
  }

  lemma ByIdIndexes(obligations: seq<Obligation>)
    requires DistinctKeys(IdOf, obligations)
    ensures Indexes(ById(obligations), obligations)
  {
    ByIdContents(obligations);
  }

  lemma IndexUnique(m: Index, n: Index, a: seq<Obligation>)
    requires Indexes(m, a) && Indexes(n, a)
    ensures m == n
  {
    forall id | id in m ensures id in n && n[id] == m[id] { assert m[id] in a; }
    forall id | id in n ensures id in m { assert n[id] in a; }
  }

  /** The same graph over the same leaves; composites may carry any state, reason and effect. */
  ghost predicate SameLeavesAndShape(m: Index, n: Index) {
    && m.Keys == n.Keys
    && forall id :: id in m ==>
         && m[id].id == n[id].id == id && m[id].target == n[id].target
         && m[id].supports == n[id].supports && m[id].deps == n[id].deps
         && (m[id].target.Some? ==> m[id] == n[id])
  }

  lemma MeaningShape(byId: Index)
    requires Admissible(byId) && forall id :: id in byId ==> byId[id].id == id
    ensures SameLeavesAndShape(byId, Meaning(byId))
  {
  }

  lemma ReplacedContents(obligations: seq<Obligation>, byId: Index, m: Index)
    requires Indexes(byId, obligations) && SameLeavesAndShape(byId, m)
    ensures forall o :: o in obligations ==> o.id in m
    ensures Indexes(m, Replaced(obligations, m))
  {
    var r := Replaced(obligations, m);
    forall i | 0 <= i < |r| ensures r[i].id == obligations[i].id && r[i].id in m && m[r[i].id] == r[i] {
      assert obligations[i] in obligations;
    }
    forall i, j | 0 <= i < j < |r| ensures IdOf(r[i]) != IdOf(r[j]) {
      assert IdOf(obligations[i]) != IdOf(obligations[j]);
    }
    forall o: Obligation | o.id in m && m[o.id] == o ensures o in r {
      assert byId[o.id] in obligations;
      var k :| 0 <= k < |obligations| && obligations[k] == byId[o.id];
      assert r[k] == o;
    }
  }

  lemma ArrangedContents(obligations: seq<Obligation>, byId: Index, m: Index)
    requires Indexes(byId, obligations) && SameLeavesAndShape(byId, m)
    ensures forall o :: o in obligations ==> o.id in m
    ensures var out := Arranged(obligations, m);
            StrictlySortedBy(IdOf, out) && Indexes(m, out) && |out| == |obligations|
  {
    ReplacedContents(obligations, byId, m);
    var r := Replaced(obligations, m);
    SortBySorts(IdOf, r);
    SortByPermutes(IdOf, r);
    SortByFixed(IdOf, SortBy(IdOf, r));
  }

  lemma ArrangedUnique(a: seq<Obligation>, b: seq<Obligation>, byA: Index, byB: Index, m: Index)
    requires Indexes(byA, a) && SameLeavesAndShape(byA, m)
    requires Indexes(byB, b) && SameLeavesAndShape(byB, m)
    ensures forall o :: o in a ==> o.id in m
    ensures forall o :: o in b ==> o.id in m
    ensures Arranged(a, m) == Arranged(b, m)
  {
    ArrangedContents(a, byA, m);
    ArrangedContents(b, byB, m);
    StrictlySortedUnique(IdOf, Arranged(a, m), Arranged(b, m));
  }

  lemma MemberIdentifiers(a: seq<Obligation>)
    ensures forall o :: o in a ==> o.id in Identifiers(a)
    ensures forall id :: id in Identifiers(a) ==> exists o :: o in a && o.id == id
  {
    forall o | o in a ensures o.id in Identifiers(a) {
      var k :| 0 <= k < |a| && a[k] == o;
      assert Identifiers(a)[k] == o.id;
    }
    forall id | id in Identifiers(a) ensures exists o :: o in a && o.id == id {
      var k :| 0 <= k < |a| && Identifiers(a)[k] == id;
      assert a[k] in a;
    }
  }

  lemma DistinctKeysOfPermutation(a: seq<Obligation>, b: seq<Obligation>)
    requires multiset(a) == multiset(b) && DistinctKeys(IdOf, a)
    ensures DistinctKeys(IdOf, b)
  {
    SameMembers(a, b);
    MemberIdentifiers(a);
    MemberIdentifiers(b);
    assert (set x | x in Identifiers(a)) == (set x | x in Identifiers(b));
    DistinctIdentifiers(a);
    DistinctIdentifiers(b);
    DistinctBySize(Identifiers(a));
    DistinctBySize(Identifiers(b));
  }

  lemma VerdictOfPermutation(a: seq<Obligation>, b: seq<Obligation>)
    requires multiset(a) == multiset(b)
    ensures GraphVerdict(a) == GraphVerdict(b)
    ensures GraphVerdict(a).Ok? ==> ById(a) == ById(b)
  {
    if DistinctKeys(IdOf, a) {
      DistinctKeysOfPermutation(a, b);
      SameMembers(a, b);
      ByIdIndexes(a);
      ByIdIndexes(b);
      IndexUnique(ById(a), ById(b), a);
    } else if DistinctKeys(IdOf, b) {
      DistinctKeysOfPermutation(b, a);
    }
  }

  /** Any reordering of the obligations gives the same bundle, or the same error. */
  lemma BundleIgnoresOrder(claimId: string, policyId: string, compilerSupported: bool,
                           a: seq<Obligation>, b: seq<Obligation>, question: Option<string>)
    requires multiset(a) == multiset(b)
    ensures BundleOf(claimId, policyId, compilerSupported, a, question) ==
            BundleOf(claimId, policyId, compilerSupported, b, question)
  {
    SameMembers(a, b);
    SupportsOfPermutation(a, b);
    VerdictOfPermutation(a, b);
    if GraphVerdict(a).Ok? {
      var byId := ById(a);
      ByIdIndexes(a);
      ByIdIndexes(b);
      MeaningShape(byId);
      ArrangedUnique(a, b, byId, byId, Meaning(byId));
    }
  }

  // ---------------------------------------------------------------- what the handed states cannot change

  lemma {:induction false} DerivedIgnoresHandedStates(m: Index, n: Index, id: string)
    requires SameLeavesAndShape(m, n) && Admissible(m) && Admissible(n) && id in m
    ensures Derived(m, id) == Derived(n, id)
    decreases Height(m, id)
  {
    if m[id].target.None? {
      forall i | 0 <= i < |m[id].deps| ensures Children(m, id)[i] == Children(n, id)[i] {
        DependencyIsLower(m, id, m[id].deps[i]);
        DerivedIgnoresHandedStates(m, n, m[id].deps[i]);
      }
      assert Children(m, id) == Children(n, id);
    }
  }

  lemma ShapeKeepsGraph(m: Index, n: Index)
    requires SameLeavesAndShape(m, n)
    ensures GraphOf(m) == GraphOf(n)
  {
  }

  /** The meaning of the meanings is the meaning. */
  lemma MeaningIsFixed(byId: Index)
    requires Admissible(byId) && forall id :: id in byId ==> byId[id].id == id
    ensures Admissible(Meaning(byId)) && Meaning(Meaning(byId)) == Meaning(byId)
  {
    var m := Meaning(byId);
    MeaningShape(byId);
    ShapeKeepsGraph(byId, m);
    forall id | id in byId ensures Derived(m, id) == m[id] {
      DerivedIgnoresHandedStates(byId, m, id);
    }
  }

  ghost predicate Accepted(obligations: seq<Obligation>) {
    DistinctKeys(IdOf, obligations) && Admissible(ById(obligations))
  }

  lemma ArrangedAgain(obligations: seq<Obligation>, byId: Index, m: Index)
    requires Indexes(byId, obligations) && SameLeavesAndShape(byId, m)
    ensures forall o :: o in obligations ==> o.id in m
    ensures var out := Arranged(obligations, m);
            && (forall o :: o in out ==> o.id in m)
            && ById(out) == m && Arranged(out, m) == out
  {
    ArrangedContents(obligations, byId, m);
    var out := Arranged(obligations, m);
    ByIdIndexes(out);
    IndexUnique(ById(out), m, out);
    ShapeReflexive(m);
    ArrangedUnique(out, obligations, m, byId, m);
  }

  lemma ArrangedSupports(obligations: seq<Obligation>, byId: Index, m: Index)
    requires Indexes(byId, obligations) && SameLeavesAndShape(byId, m)
    ensures forall o :: o in obligations ==> o.id in m
    ensures TotalSupports(Arranged(obligations, m)) == TotalSupports(obligations)
  {
    var r := Replaced(obligations, m);
    SortByPermutes(IdOf, r);
    SupportsOfPermutation(Arranged(obligations, m), r);
    assert forall i :: 0 <= i < |r| ==> obligations[i] in obligations;
    SupportsOfReplaced(obligations, r);
  }

  /** The obligations of a bundle: sorted, again acceptable, and their own meaning. */
  lemma BundleTuple(obligations: seq<Obligation>)
    requires Accepted(obligations)
    ensures forall o :: o in obligations ==> o.id in Meaning(ById(obligations))
    ensures var m := Meaning(ById(obligations));
            var out := Arranged(obligations, m);
            && StrictlySortedBy(IdOf, out) && |out| == |obligations|
            && Accepted(out) && Indexes(m, out) && ById(out) == m && Meaning(m) == m
            && (forall o :: o in out ==> o.id in m) && Arranged(out, m) == out
            && TotalSupports(out) == TotalSupports(obligations)
  {
    var byId := ById(obligations);
    var m := Meaning(byId);
    ByIdIndexes(obligations);
    MeaningShape(byId);
    ArrangedContents(obligations, byId, m);
    ArrangedAgain(obligations, byId, m);
    ArrangedSupports(obligations, byId, m);
    MeaningIsFixed(byId);
  }

  lemma ShapeReflexive(m: Index)
    requires forall id :: id in m ==> m[id].id == id
    ensures SameLeavesAndShape(m, m)
  {
  }

  lemma {:induction false} SupportsOfReplaced(a: seq<Obligation>, r: seq<Obligation>)
    requires |a| == |r| && forall i :: 0 <= i < |a| ==> a[i].supports == r[i].supports
    ensures TotalSupports(a) == TotalSupports(r)
  {
    if a != [] {
      SupportsOfReplaced(a[1..], r[1..]);
    }
  }

  /** What a successful build establishes. */
  lemma BundleUnfolds(claimId: string, policyId: string, compilerSupported: bool,
                      obligations: seq<Obligation>, question: Option<string>) returns (derived: seq<Obligation>)
    requires BundleOf(claimId, policyId, compilerSupported, obligations, question).Ok?
    ensures |obligations| <= 16 && TotalSupports(obligations) <= 32 && Accepted(obligations)
    ensures forall o :: o in obligations ==> o.id in Meaning(ById(obligations))
    ensures derived == Arranged(obligations, Meaning(ById(obligations)))
    ensures !ForeignClaim(derived, claimId)
    ensures BundleOf(claimId, policyId, compilerSupported, obligations, question).value ==
            Decide(claimId, policyId, compilerSupported, derived, question)
  {
    ByIdContents(obligations);
    derived := Arranged(obligations, Meaning(ById(obligations)));
  }

  lemma BundleOfOwnMeaning(claimId: string, policyId: string, compilerSupported: bool,
                           out: seq<Obligation>, m: Index, question: Option<string>)
    requires |out| <= 16 && TotalSupports(out) <= 32 && Accepted(out)
    requires ById(out) == m && Meaning(m) == m
    requires (forall o :: o in out ==> o.id in m) && Arranged(out, m) == out && !ForeignClaim(out, claimId)
    ensures BundleOf(claimId, policyId, compilerSupported, out, question) ==
            Ok(Decide(claimId, policyId, compilerSupported, out, question))
  {
  }

  /** Feeding a bundle's own obligations back yields the bundle again. */
  lemma BundleIsIdempotent(claimId: string, policyId: string, compilerSupported: bool,
                           obligations: seq<Obligation>, question: Option<string>, again: Option<string>)
    requires BundleOf(claimId, policyId, compilerSupported, obligations, question).Ok?
    requires var b := BundleOf(claimId, policyId, compilerSupported, obligations, question).value;
             again in {question, b.question}
    ensures var b := BundleOf(claimId, policyId, compilerSupported, obligations, question).value;
            BundleOf(claimId, policyId, compilerSupported, b.obligations, again) == Ok(b)
  {
    var out := BundleUnfolds(claimId, policyId, compilerSupported, obligations, question);
    BundleTuple(obligations);
    BundleOfOwnMeaning(claimId, policyId, compilerSupported, out, Meaning(ById(obligations)), again);
  }

  // ---------------------------------------------------------------- what the decision means

  ghost predicate OpenLeaf(obligations: seq<Obligation>, id: string) {
    exists o :: o in obligations && o.id == id && o.target.Some? && o.state != Satisfied
  }

  ghost predicate AllLeavesSatisfied(obligations: seq<Obligation>) {
    forall o :: o in obligations && o.target.Some? ==> o.state == Satisfied
  }

  ghost predicate OpenLeavesNeedMapping(obligations: seq<Obligation>) {
    forall o :: o in obligations && o.target.Some? && o.state != Satisfied ==> o.effect == RequiresMapping
  }

  ghost predicate AllConsistent(obligations: seq<Obligation>) {
    forall o :: o in obligations ==> o.Valid()
  }

  function Self(id: string): string { id }

  lemma {:induction false} BlockersAreOpenLeaves(derived: seq<Obligation>)
    requires StrictlySortedBy(IdOf, derived)
    ensures StrictlySortedBy(Self, Blockers(derived))
    ensures forall id :: id in Blockers(derived) <==> OpenLeaf(derived, id)
  {
    if derived != [] {
      var rest := derived[1..];
      BlockersAreOpenLeaves(rest);
      forall id ensures OpenLeaf(derived, id) <==>
        (derived[0].id == id && derived[0].target.Some? && derived[0].state != Satisfied) || OpenLeaf(rest, id)
      {
        assert forall o :: o in derived <==> o == derived[0] || o in rest;
      }
      forall i | 0 <= i < |Blockers(rest)| ensures Less(derived[0].id, Blockers(rest)[i]) {
        assert Blockers(rest)[i] in Blockers(rest);
        var o :| o in rest && o.id == Blockers(rest)[i];
        var k :| 0 <= k < |rest| && rest[k] == o;
        assert Less(IdOf(derived[0]), IdOf(derived[k + 1]));
      }
    }
  }

  /** Derivation rewrites composites only. */
  lemma SameLeaves(a: seq<Obligation>, byA: Index, b: seq<Obligation>, byB: Index)
    requires Indexes(byA, a) && Indexes(byB, b) && SameLeavesAndShape(byA, byB)
    ensures forall o: Obligation | o.target.Some? :: o in a <==> o in b
  {
  }

  /** READY says the claim compiles and every leaf is satisfied; blockers name every leaf that is not. */
  lemma DecisionMeaning(claimId: string, policyId: string, compilerSupported: bool,
                        obligations: seq<Obligation>, question: Option<string>)
    requires AllConsistent(obligations)
    requires BundleOf(claimId, policyId, compilerSupported, obligations, question).Ok?
    ensures var b := BundleOf(claimId, policyId, compilerSupported, obligations, question).value;
            && (b.decision == Ready <==> compilerSupported && AllLeavesSatisfied(obligations))
            && (b.decision == MappingNeeded <==>
                && compilerSupported && question.Some?
                && !AllLeavesSatisfied(obligations) && OpenLeavesNeedMapping(obligations))
            && b.question == (if b.decision == MappingNeeded then question else None)
            && StrictlySortedBy(Self, b.blockers)
            && (forall id :: id in b.blockers <==> OpenLeaf(obligations, id))
  {
    var derived := BundleUnfolds(claimId, policyId, compilerSupported, obligations, question);
    BundleTuple(obligations);
    ByIdIndexes(obligations);
    ByIdIndexes(derived);
    MeaningShape(ById(obligations));
    SameLeaves(obligations, ById(obligations), derived, ById(derived));
    BlockersAreOpenLeaves(derived);
    EffectsOfLeaves(obligations, derived);
  }

  lemma EffectsOfLeaves(obligations: seq<Obligation>, derived: seq<Obligation>)
    requires AllConsistent(obligations)
    requires forall o: Obligation | o.target.Some? :: o in obligations <==> o in derived
    ensures LeafWithEffect(derived, BlocksPartial) <==> !OpenLeavesNeedMapping(obligations)
    ensures OpenLeavesNeedMapping(obligations) ==>
            (LeafWithEffect(derived, RequiresMapping) <==> !AllLeavesSatisfied(obligations))
    ensures forall id :: OpenLeaf(derived, id) <==> OpenLeaf(obligations, id)
  {
  }

  /** In a bundle every composite shows the worst leaf it reaches. */
  lemma BundleShowsWorstLeaves(claimId: string, policyId: string, compilerSupported: bool,
                               obligations: seq<Obligation>, question: Option<string>, o: Obligation)
    requires AllConsistent(obligations)
    requires BundleOf(claimId, policyId, compilerSupported, obligations, question).Ok?
    requires o in BundleOf(claimId, policyId, compilerSupported, obligations, question).value.obligations
    ensures Admissible(ById(obligations)) && Summarises(ById(obligations), o.id, o) && o.Valid()
  {
    var derived := BundleUnfolds(claimId, policyId, compilerSupported, obligations, question);
    BundleTuple(obligations);
    var byId := ById(obligations);
    ByIdIndexes(obligations);
    forall id | id in byId ensures byId[id].Valid() && byId[id].id == id { assert byId[id] in obligations; }
    assert o.id in Meaning(byId) && o == Derived(byId, o.id);
    DerivedSummarisesLeaves(byId, o.id);
    DerivedIsValid(byId, o.id);
  }
}
