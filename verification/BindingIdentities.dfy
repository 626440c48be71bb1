/** When two arms on one path are told apart, said of their mappings and predicates. */
module BindingIdentities {
  import opened TableNumbers
  import opened TableSelectors
  import opened TableBindings

  /** The positions of the table mappings of this identity. */
  ghost function At(mappings: seq<Mapping>, x: MappingIdentity): set<nat> {
    set k: nat | k < |mappings| && mappings[k].selector.Table?
      && IdentityOf(mappings[k].target, mappings[k].selector.table) == x
  }

  /** A binding's identity counts its table mappings, each under its own identity. */
  lemma {:induction false} IdentityCounts(mappings: seq<Mapping>, x: MappingIdentity)
    ensures TableIdentity(mappings)[x] == |At(mappings, x)|
  {
    hide IdentityOf;
    if mappings == [] {
      assert At(mappings, x) == {};
    } else {
      var init, last := mappings[..|mappings| - 1], mappings[|mappings| - 1];
      IdentityCounts(init, x);
      var here := last.selector.Table? && IdentityOf(last.target, last.selector.table) == x;
      assert At(mappings, x) == At(init, x) + if here then {|init|} else {};
      assert |init| !in At(init, x);
    }
  }

  predicate HasTable(mappings: seq<Mapping>) { exists m :: m in mappings && m.selector.Table? }

  /** The same table mappings, up to their order and the spelling of numbers. */
  ghost predicate SameTables(m: seq<Mapping>, n: seq<Mapping>) {
    forall x :: |At(m, x)| == |At(n, x)|
  }

  lemma SameTablesIs(m: seq<Mapping>, n: seq<Mapping>)
    ensures SameTables(m, n) <==> TableIdentity(m) == TableIdentity(n)
  {
    hide TableIdentity, At;
    forall x ensures TableIdentity(m)[x] == |At(m, x)| && TableIdentity(n)[x] == |At(n, x)| {
      IdentityCounts(m, x);
      IdentityCounts(n, x);
    }
  }

  lemma {:induction false} HasTableIs(mappings: seq<Mapping>)
    ensures HasTable(mappings) <==> TableIdentity(mappings) != multiset{}
  {
    hide IdentityOf;
    if mappings != [] {
      var init, last := mappings[..|mappings| - 1], mappings[|mappings| - 1];
      HasTableIs(init);
      assert mappings == init + [last];
      if last.selector.Table? {
        assert IdentityOf(last.target, last.selector.table) in TableIdentity(mappings);
      }
    }
  }

  predicate OfArm(b: Binding) { b.role in {Baseline, Candidate} }

  /** Arms on a shared path are told apart if and only if each binding of an arm maps some table cell and no two of them
      map the same tables. */
  lemma IdentifiedMeans(group: seq<Binding>)
    ensures Identified(group) <==>
      && (forall i :: 0 <= i < |group| && OfArm(group[i]) ==> HasTable(group[i].mappings))
      && (forall i, j :: 0 <= i < j < |group| && OfArm(group[i]) && OfArm(group[j]) ==>
           !SameTables(group[i].mappings, group[j].mappings))
  {
    hide HasTable, SameTables, TableIdentity;
    forall i | 0 <= i < |group|
      ensures HasTable(group[i].mappings) <==> TableIdentity(group[i].mappings) != multiset{}
    {
      HasTableIs(group[i].mappings);
    }
    forall i, j | 0 <= i < |group| && 0 <= j < |group|
      ensures SameTables(group[i].mappings, group[j].mappings) <==>
        TableIdentity(group[i].mappings) == TableIdentity(group[j].mappings)
    {
      SameTablesIs(group[i].mappings, group[j].mappings);
    }
  }

  /** Equal as predicates: the same kind of test on the same text or flag, or on numbers of the same canonical form. */
  predicate SameTest(s: Test, t: Test) {
    s == t || (s.NumberIs? && t.NumberIs? && Canonical(s.number) == Canonical(t.number))
  }

  /** Each predicate of s has a partner in t, on the same column and the same as a test. */
  ghost predicate Partnered(s: TableSelector, t: TableSelector) {
    forall p :: p in s.predicates ==>
      exists q :: q in t.predicates && q.column == p.column && SameTest(p.test, q.test)
  }

  lemma CanonicalTestIs(s: Test, t: Test)
    ensures CanonicalTest(s) == CanonicalTest(t) <==> SameTest(s, t)
  {
    hide Canonical;
  }

  lemma SameColumns(s: TableSelector, t: TableSelector, target: string, other: string)
    requires WellFormed(s) && WellFormed(t)
    requires IdentityOf(target, s).predicates == IdentityOf(other, t).predicates
    ensures Partnered(s, t)
  {
    hide CanonicalTest, WellFormed, ByColumn, SameTest;
    HoldsByColumn(s);
    HoldsByColumn(t);
    var l, r := IdentityOf(target, s).predicates, IdentityOf(other, t).predicates;
    forall p | p in s.predicates
      ensures exists q :: q in t.predicates && q.column == p.column && SameTest(p.test, q.test)
    {
      assert p.column in l && l[p.column] == CanonicalTest(p.test);
      assert p.column in r;
      var q := Predicate(p.column, ByColumn(t.predicates)[p.column]);
      assert q in t.predicates && r[p.column] == CanonicalTest(q.test);
      CanonicalTestIs(p.test, q.test);
    }
  }

  lemma HoldsByColumn(s: TableSelector)
    requires WellFormed(s)
    ensures forall p :: p in s.predicates <==>
      p.column in ByColumn(s.predicates) && ByColumn(s.predicates)[p.column] == p.test
    ensures forall column :: column in ByColumn(s.predicates) ==>
      Predicate(column, ByColumn(s.predicates)[column]) in s.predicates
  {
    hide ByColumn;
    ByColumnHolds(s.predicates);
    forall column | column in ByColumn(s.predicates)
      ensures Predicate(column, ByColumn(s.predicates)[column]) in s.predicates
    {
      var p := Predicate(column, ByColumn(s.predicates)[column]);
      assert p in s.predicates <==>
        p.column in ByColumn(s.predicates) && ByColumn(s.predicates)[p.column] == p.test;
    }
  }

  lemma PartneredColumns(s: TableSelector, t: TableSelector, column: string)
    requires WellFormed(s) && WellFormed(t) && Partnered(s, t) && column in ByColumn(s.predicates)
    ensures column in ByColumn(t.predicates)
    ensures CanonicalTest(ByColumn(s.predicates)[column]) == CanonicalTest(ByColumn(t.predicates)[column])
  {
    hide CanonicalTest, WellFormed, ByColumn, SameTest;
    HoldsByColumn(s);
    HoldsByColumn(t);
    var p := Predicate(column, ByColumn(s.predicates)[column]);
    var q :| q in t.predicates && q.column == p.column && SameTest(p.test, q.test);
    CanonicalTestIs(p.test, q.test);
  }

  /** Two mappings have one identity exactly when they map the same target to the same column of equally many rows
      chosen by the same predicates, in any order. */
  lemma SameIdentity(target: string, s: TableSelector, other: string, t: TableSelector)
    requires WellFormed(s) && WellFormed(t)
    ensures IdentityOf(target, s) == IdentityOf(other, t) <==>
      target == other && s.column == t.column && s.cardinality == t.cardinality && Partnered(s, t) && Partnered(t, s)
  {
    hide CanonicalTest, WellFormed, ByColumn, SameTest, Partnered;
    var l, r := IdentityOf(target, s).predicates, IdentityOf(other, t).predicates;
    if l == r {
      SameColumns(s, t, target, other);
      SameColumns(t, s, other, target);
    }
    if Partnered(s, t) && Partnered(t, s) {
      forall column | column in l ensures column in r && l[column] == r[column] { PartneredColumns(s, t, column); }
      forall column | column in r ensures column in l { PartneredColumns(t, s, column); }
      assert l == r;
    }
  }

  // ---------------------------------------------------------------- paths of one arm

  ghost predicate UsedBy(bindings: seq<Binding>, path: string, role: ExperimentRole) {
    exists i :: 0 <= i < |bindings| && bindings[i].path == path && bindings[i].role == role
  }

  /** Only paths that both arms use are restricted: where each path serves at most one of them, distinct keys
      suffice. */
  lemma OneArmPerPath(bindings: seq<Binding>)
    requires bindings != [] && DistinctKeys(bindings)
    requires forall path: string :: !(UsedBy(bindings, path, Baseline) && UsedBy(bindings, path, Candidate))
    ensures Acceptable(bindings)
  {
    hide Identified, NeverShareCell;
    forall path: string ensures !SharedPath(AtPath(bindings, path)) {
      SharedByBoth(bindings, path);
    }
  }

  /** A path is shared exactly when a binding of either arm uses it. */
  lemma SharedByBoth(bindings: seq<Binding>, path: string)
    ensures SharedPath(AtPath(bindings, path)) <==>
      UsedBy(bindings, path, Baseline) && UsedBy(bindings, path, Candidate)
  {
    AtPathSubset(bindings, path);
    forall role ensures UsedBy(bindings, path, role) <==> exists b :: b in AtPath(bindings, path) && b.role == role {
      if UsedBy(bindings, path, role) {
        var i :| 0 <= i < |bindings| && bindings[i].path == path && bindings[i].role == role;
        assert bindings[i] in AtPath(bindings, path);
      }
    }
  }
}
