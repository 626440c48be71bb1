/** Artifact bindings: which artifact plays which part, and that no measured cell serves both arms. */
module TableBindings {
  import opened Common
  import opened TableNumbers
  import opened TableSelectors

  datatype ExperimentRole = Baseline | Candidate | Reference | Unspecified

  datatype Selector = Field(kind: string, expression: string) | Table(table: TableSelector)

  datatype Mapping = Mapping(target: string, selector: Selector)

  datatype Binding = Binding(path: string, kind: string, role: ExperimentRole, split: Option<string>,
                             mappings: seq<Mapping>)

  datatype Key = Key(path: string, kind: string, role: ExperimentRole, split: Option<string>)

  function KeyOf(b: Binding): Key { Key(b.path, b.kind, b.role, b.split) }

  predicate HasArm(b: Binding) { b.role.Baseline? || b.role.Candidate? }

  // ---------------------------------------------------------------- identities

  function CanonicalTest(test: Test): Test {
    if test.NumberIs? then NumberIs(Canonical(test.number)) else test
  }

  /** Selectors keep their predicates sorted by column, so the identity does not depend on the order given. */
  datatype MappingIdentity = MappingIdentity(target: string, column: string, cardinality: nat,
                                             predicates: map<string, Test>)

  function IdentityOf(target: string, t: TableSelector): MappingIdentity {
    var tests := ByColumn(t.predicates);
    MappingIdentity(target, t.column, t.cardinality, map column | column in tests :: CanonicalTest(tests[column]))
  }

  /** The identities of a binding's table mappings; sorting makes their order irrelevant. */
  function TableIdentity(mappings: seq<Mapping>): multiset<MappingIdentity> {
    if mappings == [] then multiset{}
    else
      var last := mappings[|mappings| - 1];
      TableIdentity(mappings[..|mappings| - 1])
      + if last.selector.Table? then multiset{IdentityOf(last.target, last.selector.table)} else multiset{}
  }

  predicate Picks(b: Binding, t: TableSelector) {
    exists m :: m in b.mappings && m.selector == Table(t)
  }

  // ---------------------------------------------------------------- the rule for one path

  predicate SharedPath(group: seq<Binding>) {
    (exists b :: b in group && b.role.Baseline?) && (exists c :: c in group && c.role.Candidate?)
  }

  predicate Identified(group: seq<Binding>) {
    && (forall i :: 0 <= i < |group| && HasArm(group[i]) ==> TableIdentity(group[i].mappings) != multiset{})
    && (forall i, j :: 0 <= i < j < |group| && HasArm(group[i]) && HasArm(group[j]) ==>
          TableIdentity(group[i].mappings) != TableIdentity(group[j].mappings))
  }

  /** Two mappings overlap when they name one column and their selectors are not shown disjoint. */
  predicate Overlap(m: Mapping, n: Mapping) {
    && m.selector.Table? && n.selector.Table? && m.selector.table.column == n.selector.table.column
    && !RowDisjoint(m.selector.table, n.selector.table)
  }

  predicate Overlapping(group: seq<Binding>) {
    exists b, c :: b in group && c in group && b.role.Baseline? && c.role.Candidate?
      && exists m, n :: m in b.mappings && n in c.mappings && Overlap(m, n)
  }

  predicate GroupAccepted(group: seq<Binding>) {
    SharedPath(group) ==> Identified(group) && !Overlapping(group)
  }

  // ---------------------------------------------------------------- validation

  /** The first n bindings that name this path, in order. */
  function AtPathTo(bindings: seq<Binding>, n: nat, path: string): seq<Binding>
    requires n <= |bindings|
  {
    if n == 0 then []
    else AtPathTo(bindings, n - 1, path) + if bindings[n - 1].path == path then [bindings[n - 1]] else []
  }

  function AtPath(bindings: seq<Binding>, path: string): seq<Binding> {
    AtPathTo(bindings, |bindings|, path)
  }

  ghost predicate DistinctKeys(bindings: seq<Binding>) {
    forall i, j :: 0 <= i < j < |bindings| ==> KeyOf(bindings[i]) != KeyOf(bindings[j])
  }

  /** Both arms pick this very cell: a column of a row. */
  ghost predicate PickSameCell(s: TableSelector, t: TableSelector, row: Row) {
    s.column == t.column && Satisfies(row, s) && Satisfies(row, t)
  }

  /** No row of any table gives a baseline and a candidate selector of the group the same cell. */
  ghost predicate NeverShareCell(group: seq<Binding>) {
    forall b, c, s, t, row ::
      (b in group && c in group && b.role.Baseline? && c.role.Candidate? && Picks(b, s) && Picks(c, t)) ==>
      !PickSameCell(s, t, row)
  }

  /** What is acceptable, in terms of the cells that selectors can pick. */
  ghost predicate Acceptable(bindings: seq<Binding>) {
    && bindings != [] && DistinctKeys(bindings)
    && forall path: string :: SharedPath(AtPath(bindings, path)) ==>
         Identified(AtPath(bindings, path)) && NeverShareCell(AtPath(bindings, path))
  }

  ghost predicate WellFormedBinding(b: Binding) {
    forall t :: Picks(b, t) ==> WellFormed(t)
  }

  /** Overlap, decided from the predicates, is a shared cell. */
  lemma OverlapIsSharedCell(group: seq<Binding>)
    requires forall b :: b in group ==> WellFormedBinding(b)
    ensures Overlapping(group) <==> !NeverShareCell(group)
  {
    if Overlapping(group) {
      var b, c :| b in group && c in group && b.role.Baseline? && c.role.Candidate?
        && exists m, n :: m in b.mappings && n in c.mappings && Overlap(m, n);
      var m, n :| m in b.mappings && n in c.mappings && Overlap(m, n);
      var s, t := m.selector.table, n.selector.table;
      assert Picks(b, s) && Picks(c, t);
      RowDisjointIsExact(s, t);
      var row: Row :| Satisfies(row, s) && Satisfies(row, t);
      assert PickSameCell(s, t, row);
    }
    if !NeverShareCell(group) {
      var b, c, s, t, row :| b in group && c in group && b.role.Baseline? && c.role.Candidate?
        && Picks(b, s) && Picks(c, t) && PickSameCell(s, t, row);
      RowDisjointIsExact(s, t);
      var m :| m in b.mappings && m.selector == Table(s);
      var n :| n in c.mappings && n.selector == Table(t);
      assert Overlap(m, n);
    }
  }

  lemma {:induction false} AtPathToSubset(bindings: seq<Binding>, n: nat, path: string)
    requires n <= |bindings|
    ensures forall b :: b in AtPathTo(bindings, n, path) <==> b in bindings[..n] && b.path == path
  {
    if n > 0 {
      AtPathToSubset(bindings, n - 1, path);
      assert bindings[..n] == bindings[..n - 1] + [bindings[n - 1]];
    }
  }

  lemma AtPathSubset(bindings: seq<Binding>, path: string)
    ensures forall b :: b in AtPath(bindings, path) <==> b in bindings && b.path == path
  {
    AtPathToSubset(bindings, |bindings|, path);
    assert bindings[..|bindings|] == bindings;
  }

  method UniqueKeys(bindings: seq<Binding>) returns (unique: bool)
    ensures unique <==> DistinctKeys(bindings)
  {
    var keys: set<Key> := {};
    for i := 0 to |bindings|
      invariant forall key :: key in keys <==> exists k :: 0 <= k < i && KeyOf(bindings[k]) == key
      invariant forall k, l :: 0 <= k < l < i ==> KeyOf(bindings[k]) != KeyOf(bindings[l])
    {
      if KeyOf(bindings[i]) in keys {
        return false;
      }
      keys := keys + {KeyOf(bindings[i])};
    }
    return true;
  }

  ghost predicate Grouped(groups: map<string, seq<Binding>>, bindings: seq<Binding>, n: nat)
    requires n <= |bindings|
  {
    forall path: string :: (if path in groups then groups[path] else []) == AtPathTo(bindings, n, path)
  }

  lemma GroupedNext(groups: map<string, seq<Binding>>, bindings: seq<Binding>, n: nat)
    requires n < |bindings| && Grouped(groups, bindings, n)
    ensures var b := bindings[n];
            Grouped(groups[b.path := (if b.path in groups then groups[b.path] else []) + [b]], bindings, n + 1)
  {
  }

  method GroupByPath(bindings: seq<Binding>) returns (groups: map<string, seq<Binding>>)
    ensures forall path: string :: (if path in groups then groups[path] else []) == AtPath(bindings, path)
  {
    groups := map[];
    assert Grouped(groups, bindings, 0);
    for i := 0 to |bindings|
      invariant Grouped(groups, bindings, i)
    {
      var b := bindings[i];
      GroupedNext(groups, bindings, i);
      groups := groups[b.path := (if b.path in groups then groups[b.path] else []) + [b]];
    }
  }

  /** Bindings are accepted if and only if they are acceptable. */
  method ValidateBindings(bindings: seq<Binding>) returns (ok: bool)
    requires forall b :: b in bindings ==> WellFormedBinding(b)
    ensures ok <==> Acceptable(bindings)
  {
    if |bindings| == 0 {
      return false;
    }
    var unique := UniqueKeys(bindings);
    if !unique {
      return false;
    }
    var groups := GroupByPath(bindings);
    ok := forall path :: path in groups ==> GroupAccepted(groups[path]);
    hide Identified, NeverShareCell, Overlapping, SharedPath;
    forall path: string
      ensures GroupAccepted(AtPath(bindings, path)) <==> (SharedPath(AtPath(bindings, path)) ==>
        Identified(AtPath(bindings, path)) && NeverShareCell(AtPath(bindings, path)))
    {
      AtPathSubset(bindings, path);
      OverlapIsSharedCell(AtPath(bindings, path));
    }
    forall path: string | path !in groups ensures GroupAccepted(AtPath(bindings, path)) {
      assert AtPath(bindings, path) == [];
    }
  }

  /** In accepted bindings, a baseline and a candidate selector on one path never pick the same cell of any row. */
  lemma ArmsNeverShareCell(bindings: seq<Binding>, b: Binding, c: Binding, s: TableSelector, t: TableSelector, row: Row)
    requires Acceptable(bindings) && b in bindings && c in bindings && b.path == c.path
    requires b.role.Baseline? && c.role.Candidate? && Picks(b, s) && Picks(c, t)
    ensures !PickSameCell(s, t, row)
  {
    AtPathSubset(bindings, b.path);
    assert SharedPath(AtPath(bindings, b.path));
  }
}
