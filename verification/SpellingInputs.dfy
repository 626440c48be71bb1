/** Inputs on which a drift report and the configuration check disagree about two evaluations. */
module SpellingInputs {
  import opened Common
  import opened Decimals
  import opened Findings
  import opened ConfigFairness
  import opened DottedKeys
  import opened DatasetIdentity
  import opened EvaluationFlattening
  import opened FlattenedMappings
  import Drift = MeasurementDrift
  import opened MeasurementRecovery
  import opened MeasurementSpelling

  // ---------------------------------------------------------------- evaluations without nesting

  /** Bounded scalars, and possibly mappings without entries. */
  predicate Shallow(evaluation: Config) {
    && |evaluation| <= MAX_NODES
    && forall key :: key in evaluation ==>
         0 < |key| <= MAX_KEY && (JsonScalar(evaluation[key]) || evaluation[key] == Mapping(map[]))
  }

  function Scalars(evaluation: Config): Evaluation {
    map key | key in evaluation && !evaluation[key].Mapping? :: evaluation[key]
  }

  lemma ShallowLookup(evaluation: Config, p: Path)
    requires Shallow(evaluation) && p != []
    ensures Lookup(evaluation, p) ==
            if |p| == 1 && p[0] in evaluation then Some(evaluation[p[0]]) else None
  {
    if |p| > 1 && p[0] in evaluation && evaluation[p[0]].Mapping? {
      assert p[1..][0] !in evaluation[p[0]].entries;
    }
  }

  lemma {:induction false} SingletonPaths(keys: set<string>)
    ensures |set key | key in keys :: [key]| <= |keys|
  {
    var paths := set key | key in keys :: [key];
    if keys == {} {
      assert paths == {};
    } else {
      var any := AMember(keys);
      var rest := keys - {any};
      SingletonPaths(rest);
      assert paths == (set key | key in rest :: [key]) + {[any]};
    }
  }

  lemma ShallowAccepts(evaluation: Config)
    requires Shallow(evaluation)
    ensures Accepts(evaluation) && Flattens(Scalars(evaluation), evaluation)
  {
    hide Nodes, Lookup, JsonScalar;
    forall p: Path ensures p in Nodes(evaluation) <==> |p| == 1 && p[0] in evaluation {
      NodesAreLookups(evaluation, p);
      if p != [] { ShallowLookup(evaluation, p); }
    }
    forall p: Path | p in Nodes(evaluation) ensures Fine(evaluation, p) {
      ShallowLookup(evaluation, p);
    }
    var paths := set key | key in evaluation.Keys :: [key];
    forall p: Path | p in Nodes(evaluation) ensures p in paths {
      assert p == [p[0]];
    }
    SingletonPaths(evaluation.Keys);
    SubsetSize(Nodes(evaluation), paths);
    assert |evaluation.Keys| == |evaluation|;
    ShallowFlattens(evaluation);
  }

  lemma ShallowFlattens(evaluation: Config)
    requires Shallow(evaluation)
    ensures Flattens(Scalars(evaluation), evaluation)
  {
    hide Lookup, JsonScalar;
    var flattened := Scalars(evaluation);
    forall key | key in flattened ensures FromLeaf(flattened[key], key, evaluation) {
      ShallowLookup(evaluation, [key]);
      assert IsLeaf(evaluation, [key]) && Join([key]) == key;
    }
    forall p: Path | IsLeaf(evaluation, p) ensures Join(p) in flattened {
      ShallowLookup(evaluation, p);
    }
  }

  /** An arm of a configuration that holds nothing but this evaluation, flattened so. */
  ghost function ArmWith(evaluation: Config, flattened: Evaluation, records: multiset<string>, id: Identity): Arm
    requires Usable(flattened)
  {
    Arm(Some(map["evaluation" := Mapping(evaluation)]), Some(flattened), Some(records),
      Some(DeclaredFields(flattened, id)))
  }

  ghost predicate HasReport(b: Arm, c: Arm, metric: string) {
    exists rules, drift :: FullReport(b, c, metric, rules, drift)
  }

  /** There are reports on these two arms, and each one is in this state. */
  ghost predicate AlwaysReported(b: Arm, c: Arm, state: Drift.DriftState) {
    && (forall metric :: HasReport(b, c, metric))
    && (forall metric, rules, drift :: FullReport(b, c, metric, rules, drift) ==> drift == state)
  }

  /** There are reports on these two arms, and each one is VERIFIED beside a mismatch of their evaluations. */
  ghost predicate AlwaysVerifiedBesideMismatch(b: Arm, c: Arm) {
    && (forall metric :: HasReport(b, c, metric))
    && (forall metric, rules, drift :: FullReport(b, c, metric, rules, drift) ==> VerifiedBesideMismatch(rules, drift))
  }

  ghost predicate FullArms(b: Arm, c: Arm) {
    RecoveredArm(b) && RecoveredArm(c) && WhollyRecovered(b) && WhollyRecovered(c)
  }

  lemma ArmIsFull(evaluation: Config, flattened: Evaluation, records: multiset<string>, id: Identity)
    requires Accepts(evaluation) && Flattens(flattened, evaluation) && Usable(flattened) && EvaluationFits(flattened)
    requires Identifies(id, records) && HexDigests(records)
    ensures RecoveredArm(ArmWith(evaluation, flattened, records, id))
    ensures WhollyRecovered(ArmWith(evaluation, flattened, records, id))
    ensures MappingOf(ArmWith(evaluation, flattened, records, id)) == evaluation
  {
    hide Identifies, HexDigests, Accepts, Flattens, Usable, EvaluationFits;
  }

  lemma AWorst(b: Drift.Protocol, c: Drift.Protocol, rules: set<Rule>) returns (drift: Drift.DriftState)
    requires Drift.Metric in b
    ensures Drift.Worst(b, c, rules, drift)
  {
    hide Drift.StateAt;
    var states := set kind: Drift.Kind | Drift.Compared(b, c, kind) :: Drift.StateAt(b, c, kind, rules);
    assert Drift.Compared(b, c, Drift.Metric) && Drift.StateAt(b, c, Drift.Metric, rules) in states;
    drift := WorstOf(states);
    forall kind: Drift.Kind | Drift.Compared(b, c, kind)
      ensures Drift.Rank(Drift.StateAt(b, c, kind, rules)) <= Drift.Rank(drift)
    {
      assert Drift.StateAt(b, c, kind, rules) in states;
    }
  }

  lemma {:induction false} WorstOf(states: set<Drift.DriftState>) returns (worst: Drift.DriftState)
    requires states != {}
    ensures worst in states && forall s :: s in states ==> Drift.Rank(s) <= Drift.Rank(worst)
  {
    worst := AMember(states);
    if states != {worst} {
      var other := WorstOf(states - {worst});
      if Drift.Rank(worst) < Drift.Rank(other) { worst := other; }
    }
  }

  lemma AProtocol(arm: Arm, metric: string, bindings: Drift.Kind -> seq<string>) returns (protocol: Drift.Protocol)
    ensures ProtocolOf(protocol, arm, metric, bindings) && Drift.Metric in protocol
  {
    hide ComponentOf;
    protocol := map kind: Drift.Kind | true :: ComponentOf(kind, metric, arm.evaluation, arm.dataset, bindings(kind));
  }

  /** An audit that reports what there is to report, and the comparison of what is recovered. */
  lemma AReport(b: Arm, c: Arm, metric: string)
    requires FullArms(b, c)
    ensures HasReport(b, c, metric)
  {
    hide RecoveredArm, WhollyRecovered, EvaluationsDiffer, ProtocolOf, Drift.Worst;
    var rules: set<Rule> := (if b.records != c.records then {DatasetEvaluationMismatch} else {})
      + (if EvaluationsDiffer(b, c) then {ConfigEvaluationMismatch} else {});
    Recorded(b);
    Recorded(c);
    var bindings := (kind: Drift.Kind) => [];
    var pb := AProtocol(b, metric, bindings);
    var pc := AProtocol(c, metric, bindings);
    var drift := AWorst(pb, pc, rules);
    assert FullReport(b, c, metric, rules, drift);
  }

  lemma Recorded(arm: Arm)
    requires WhollyRecovered(arm)
    ensures arm.records.Some?
  {
  }

  /** Full arms of equal mappings, over the same records but flattened differently, are always left undecided. */
  lemma AlwaysUndecided(b: Arm, c: Arm)
    requires FullArms(b, c) && b.records == c.records && b.evaluation != c.evaluation && EqualMappingsOf(b, c)
    ensures AlwaysReported(b, c, Drift.InsufficientDrift)
  {
    hide FullReport, FullArms, EqualMappingsOf, HasReport;
    forall metric ensures HasReport(b, c, metric) { AReport(b, c, metric); }
    forall metric, rules, drift | FullReport(b, c, metric, rules, drift) ensures drift == Drift.InsufficientDrift {
      UndecidedExactly(b, c, metric, rules, drift);
    }
  }

  /** Full arms of unequal mappings, over the same records and flattened alike, are always verified. */
  lemma AlwaysVerified(b: Arm, c: Arm)
    requires FullArms(b, c) && b.records == c.records && b.evaluation == c.evaluation && !EqualMappingsOf(b, c)
    ensures AlwaysVerifiedBesideMismatch(b, c)
  {
    hide RecoveredArm, WhollyRecovered, EqualMappingsOf, ComparedAs, EvaluationsDiffer, HasReport;
    MismatchIsUnequal(b, c);
    forall metric ensures HasReport(b, c, metric) { AReport(b, c, metric); }
    forall metric, rules, drift | FullReport(b, c, metric, rules, drift) ensures VerifiedBesideMismatch(rules, drift) {
      ReportOnFullArms(b, c, metric, rules, drift);
    }
  }

  /** Only the three declarations. */
  function Declares(identifier: string, version: Value, split: string): Config {
    map[DECLARATIONS[0] := Str(identifier), DECLARATIONS[1] := version, DECLARATIONS[2] := Str(split)]
  }

  predicate PlainText(s: string) { NonBlank(s) && JsonScalar(Str(s)) }

  lemma DeclarationsDiffer()
    ensures DECLARATIONS[0] != DECLARATIONS[1] && DECLARATIONS[0] != DECLARATIONS[2]
      && DECLARATIONS[1] != DECLARATIONS[2]
    ensures forall name :: name in DECLARATIONS ==> 0 < |name| <= MAX_KEY
  {
    assert |DECLARATIONS[0]| == 18 && |DECLARATIONS[1]| == 15 && |DECLARATIONS[2]| == 5;
  }

  predicate IdText(s: string) { forall i :: 0 <= i < |s| ==> Alphanumeric(s[i]) || s[i] in "._:/+-" }

  lemma CanonicalJoin(a: string, b: string)
    requires a != "" && Alphanumeric(a[0]) && IdText(a) && IdText(b) && |a| + |b| <= 256
    ensures CanonicalId(a + b)
  {
  }

  lemma NamesAreIdText()
    ensures IdText(PREFIX) && IdText(DECLARATIONS[0]) && IdText(DECLARATIONS[1]) && IdText(DECLARATIONS[2])
    ensures |PREFIX| == 11 && Alphanumeric(PREFIX[0])
  {
  }

  lemma ThreeEntries(a: string, x: Value, b: string, y: Value, c: string, z: Value)
    requires 0 < |a| <= MAX_KEY && 0 < |b| <= MAX_KEY && 0 < |c| <= MAX_KEY
    requires JsonScalar(x) && JsonScalar(y) && JsonScalar(z)
    ensures var e: Config := map[a := x, b := y, c := z]; |e| <= 3 && Shallow(e) && Scalars(e) == e
  {
    var e: Config := map[a := x, b := y, c := z];
    assert e.Keys == {a, b, c};
    assert |e| == |e.Keys| <= 3;
  }

  lemma DeclaresShallow(identifier: string, version: Value, split: string)
    requires PlainText(identifier) && PlainText(split) && version.Num?
    ensures var e := Declares(identifier, version, split); |e| <= 3 && Shallow(e) && Scalars(e) == e
  {
    hide NonBlank, Shallow, Scalars;
    DeclarationsDiffer();
    ThreeEntries(DECLARATIONS[0], Str(identifier), DECLARATIONS[1], version, DECLARATIONS[2], Str(split));
  }

  lemma DeclaresUsable(identifier: string, version: Value, split: string)
    requires PlainText(identifier) && PlainText(split) && version.Num?
    ensures Usable(Declares(identifier, version, split))
  {
    hide NonBlank, JsonScalar;
    DeclarationsDiffer();
    forall name | name in DECLARATIONS
      ensures name == DECLARATIONS[0] || name == DECLARATIONS[1] || name == DECLARATIONS[2] {}
  }

  lemma DeclaresCanonical(identifier: string, version: Value, split: string)
    ensures forall key :: key in Declares(identifier, version, split) ==> CanonicalId(PREFIX + key)
  {
    hide CanonicalId, IdText;
    DeclarationsDiffer();
    NamesAreIdText();
    forall key | key in Declares(identifier, version, split) ensures CanonicalId(PREFIX + key) {
      assert key == DECLARATIONS[0] || key == DECLARATIONS[1] || key == DECLARATIONS[2];
      CanonicalJoin(PREFIX, key);
    }
  }

  lemma DeclaresFits(identifier: string, version: Value, split: string)
    requires PlainText(identifier) && PlainText(split) && version.Num?
    ensures var e := Declares(identifier, version, split);
            |e| <= 3 && Shallow(e) && Scalars(e) == e && Usable(e) && EvaluationFits(e)
  {
    hide PlainText, CanonicalId, Shallow, Usable, Declares, Scalars;
    DeclaresShallow(identifier, version, split);
    DeclaresUsable(identifier, version, split);
    DeclaresCanonical(identifier, version, split);
  }

  // ---------------------------------------------------------------- a mapping beside scalars

  function Dotted(a: string, b: string): string { a + ['.'] + b }

  function Nested(m: Config, a: string, b: string, w: Value): Config { m[a := Mapping(map[b := w])] }

  /** Scalars only. */
  predicate Flat(m: Config) { Shallow(m) && Scalars(m) == m }

  lemma FlatValues(m: Config, key: string)
    requires Flat(m) && key in m
    ensures !m[key].Mapping? && 0 < |key| <= MAX_KEY && JsonScalar(m[key])
  {
    assert key in Scalars(m);
  }

  lemma NestedLookup(m: Config, a: string, b: string, w: Value, p: Path)
    requires Flat(m) && a !in m && !w.Mapping? && p != []
    ensures Lookup(Nested(m, a, b, w), p) ==
            if p == [a] then Some(Mapping(map[b := w]))
            else if p == [a, b] then Some(w)
            else if |p| == 1 && p[0] in m then Some(m[p[0]])
            else None
  {
    hide Shallow, JsonScalar, Scalars;
    var e := Nested(m, a, b, w);
    if p[0] in m { FlatValues(m, p[0]); }
    if p[0] == a && |p| > 1 {
      assert e[a] == Mapping(map[b := w]);
      assert Lookup(e, p) == Lookup(map[b := w], p[1..]);
      InSingleton(b, w, p[1..]);
      assert p == [a, b] <==> p[1..] == [b];
    } else {
      assert p == [p[0]] <==> |p| == 1;
    }
  }

  lemma InSingleton(b: string, w: Value, q: Path)
    requires q != [] && !w.Mapping?
    ensures Lookup(map[b := w], q) == if q == [b] then Some(w) else None
  {
    if |q| == 1 { assert q == [q[0]]; }
  }

  lemma JoinTwo(a: string, b: string)
    ensures Join([a, b]) == Dotted(a, b) && Join([a]) == a
  {
    assert [a, b][1..] == [b];
  }

  lemma NestedNode(m: Config, a: string, b: string, w: Value, p: Path)
    requires Flat(m) && a !in m && JsonScalar(w) && a != "" && b != "" && |Dotted(a, b)| <= MAX_KEY
    requires p in Nodes(Nested(m, a, b, w))
    ensures Fine(Nested(m, a, b, w), p)
    ensures p == [a] || p == [a, b] || exists key :: key in m && p == [key]
  {
    hide Nodes, Lookup, Flat, JsonScalar;
    JoinTwo(a, b);
    ScalarIsNoMapping(w);
    NodesAreLookups(Nested(m, a, b, w), p);
    NestedLookup(m, a, b, w, p);
    if p != [a] && p != [a, b] {
      FlatValues(m, p[0]);
      assert p == [p[0]];
      JoinTwo(p[0], b);
    }
  }

  lemma NestedAccepted(m: Config, a: string, b: string, w: Value)
    requires Flat(m) && a !in m && |m| + 2 <= MAX_NODES && JsonScalar(w)
    requires a != "" && b != "" && |Dotted(a, b)| <= MAX_KEY
    ensures Accepts(Nested(m, a, b, w))
  {
    hide Nodes, Lookup, JsonScalar, Flat, Fine, Dotted, Nested;
    var e := Nested(m, a, b, w);
    var paths := set key | key in m.Keys :: [key];
    forall p: Path | p in Nodes(e) ensures Fine(e, p) && p in paths + {[a], [a, b]} {
      NestedNode(m, a, b, w, p);
    }
    SingletonPaths(m.Keys);
    SubsetSize(Nodes(e), paths + {[a], [a, b]});
    assert |m.Keys| == |m|;
  }

  lemma ScalarIsNoMapping(v: Value)
    requires JsonScalar(v)
    ensures !v.Mapping?
  {
  }

  /** The mapping flattens to m with the dotted key added, or, if m has that key, to either of the two values. */
  lemma NestedFlattened(m: Config, a: string, b: string, w: Value, flattened: Evaluation)
    requires Flat(m) && a !in m && !w.Mapping?
    requires flattened == m[Dotted(a, b) := w] || (Dotted(a, b) in m && flattened == m)
    ensures Flattens(flattened, Nested(m, a, b, w))
  {
    hide Lookup, Flat;
    var e := Nested(m, a, b, w);
    JoinTwo(a, b);
    forall key | key in flattened ensures FromLeaf(flattened[key], key, e) {
      var p := if key == Dotted(a, b) && flattened[key] == w then [a, b] else [key];
      NestedLookup(m, a, b, w, p);
      if p == [key] {
        FlatValues(m, key);
        JoinTwo(key, b);
      }
      assert IsLeaf(e, p) && Join(p) == key && Lookup(e, p) == Some(flattened[key]);
    }
    forall p: Path | IsLeaf(e, p) ensures Join(p) in flattened {
      NestedLookup(m, a, b, w, p);
    }
  }

  // ---------------------------------------------------------------- four disagreements

  /** Two keys that may stand in an evaluation beside the declarations. */
  predicate KeyPair(a: string, b: string) {
    && a != "" && b != "" && IdText(a) && IdText(b) && |Dotted(a, b)| <= 245 && a !in DECLARATIONS
  }

  lemma DottedIsNew(a: string, b: string)
    ensures Dotted(a, b) !in DECLARATIONS && Dotted(a, b) != a
  {
    DeclarationsArePlain();
    assert Dotted(a, b)[|a|] == '.';
  }

  lemma DottedIsText(a: string, b: string)
    requires IdText(a) && IdText(b)
    ensures IdText(Dotted(a, b))
  {
  }

  lemma OneMore(m: Config, key: string, v: Value)
    requires Flat(m) && key !in m && 0 < |key| <= MAX_KEY && JsonScalar(v) && |m| < MAX_NODES
    ensures Flat(m[key := v]) && |m[key := v]| == |m| + 1
  {
    hide JsonScalar, Scalars, Shallow;
    var more := m[key := v];
    assert more.Keys == m.Keys + {key};
    assert |more| == |more.Keys| && |m| == |m.Keys|;
    ScalarIsNoMapping(v);
    forall k | k in more ensures !more[k].Mapping? && 0 < |k| <= MAX_KEY && JsonScalar(more[k]) {
      if k != key { FlatValues(m, k); }
    }
    AllScalars(more);
  }

  lemma AllScalars(m: Config)
    requires |m| <= MAX_NODES
    requires forall k :: k in m ==> !m[k].Mapping? && 0 < |k| <= MAX_KEY && JsonScalar(m[k])
    ensures Flat(m)
  {
    hide JsonScalar;
  }

  /** The declarations with one dotted key more, whichever its value. */
  lemma DeclaresDotted(g: Config, a: string, b: string, v: Value, flattened: Evaluation)
    requires Flat(g) && Usable(g) && EvaluationFits(g) && |g| <= 3 && (forall key :: key in g ==> key in DECLARATIONS)
    requires KeyPair(a, b) && JsonScalar(v) && flattened == g[Dotted(a, b) := v]
    ensures Flat(flattened) && |flattened| <= 4 && Usable(flattened) && EvaluationFits(flattened)
    ensures a !in flattened && a !in g && Dotted(a, b) !in g
  {
    hide Flat, JsonScalar, IdText, CanonicalId, PresentScalar;
    DottedIsNew(a, b);
    DottedIsText(a, b);
    OneMore(g, Dotted(a, b), v);
    NamesAreIdText();
    CanonicalJoin(PREFIX, Dotted(a, b));
    forall name | name in DECLARATIONS ensures Declaration(flattened, name) == Declaration(g, name) {}
  }

  /** A number written with one zero more is equal to a configuration check and different to a component. */
  lemma SpellingDiffers(n: int, exp: int)
    requires n != 0
    ensures Equal(Num(Dec(n, exp)), Num(Dec(10 * n, exp - 1)))
    ensures Num(Dec(n, exp)) != Num(Dec(10 * n, exp - 1))
  {
    assert Shift(n, 1) == 10 * n;
    assert Decimals.At(Dec(n, exp), exp - 1) == Shift(n, 1);
    CompareAt(Dec(n, exp), Dec(10 * n, exp - 1), exp - 1);
  }

  lemma DeclaresFull(identifier: string, version: Value, split: string, records: multiset<string>, id: Identity)
    requires PlainText(identifier) && PlainText(split) && version.Num? && Identifies(id, records) && HexDigests(records)
    ensures var e := Declares(identifier, version, split);
            && Usable(e) && RecoveredArm(ArmWith(e, e, records, id)) && WhollyRecovered(ArmWith(e, e, records, id))
            && MappingOf(ArmWith(e, e, records, id)) == e
  {
    hide PlainText, Identifies, HexDigests, Accepts, Flattens, Shallow, Usable, EvaluationFits, Declares, Scalars;
    DeclaresFits(identifier, version, split);
    ShallowAccepts(Declares(identifier, version, split));
    ArmIsFull(Declares(identifier, version, split), Declares(identifier, version, split), records, id);
  }

  lemma DeclaresEqual(identifier: string, v: Value, w: Value, split: string)
    requires Equal(v, w)
    ensures Equal(Mapping(Declares(identifier, v, split)), Mapping(Declares(identifier, w, split)))
  {
    DeclarationsDiffer();
    SameText(identifier);
    SameText(split);
  }

  lemma SameText(s: string)
    ensures Equal(Str(s), Str(s))
  {
  }

  lemma VersionOf(identifier: string, version: Value, split: string)
    ensures DECLARATIONS[1] in Declares(identifier, version, split)
    ensures Declares(identifier, version, split)[DECLARATIONS[1]] == version
  {
    DeclarationsDiffer();
  }

  /** Two arms that differ only in writing their dataset version as 1 and as 1.0, over the same records, are equal to
      every audit rule and different components: the report on them is insufficient. */
  lemma SpellingIsUndecided(identifier: string, split: string, n: int, exp: int, records: multiset<string>,
                            id: Identity)
    requires PlainText(identifier) && PlainText(split) && n != 0 && Identifies(id, records) && HexDigests(records)
    ensures var e := Declares(identifier, Num(Dec(n, exp)), split);
            var f := Declares(identifier, Num(Dec(10 * n, exp - 1)), split);
            && Usable(e) && Usable(f)
            && var b, c := ArmWith(e, e, records, id), ArmWith(f, f, records, id);
               FullArms(b, c) && !EvaluationsDiffer(b, c) && AlwaysReported(b, c, Drift.InsufficientDrift)
  {
    hide PlainText, Identifies, HexDigests, Usable, RecoveredArm, WhollyRecovered, Declares, Equal, AlwaysReported,
      MappingOf, EvaluationsDiffer;
    var v, w := Num(Dec(n, exp)), Num(Dec(10 * n, exp - 1));
    var e, f := Declares(identifier, v, split), Declares(identifier, w, split);
    DeclaresFull(identifier, v, split, records, id);
    DeclaresFull(identifier, w, split, records, id);
    SpellingDiffers(n, exp);
    DeclaresEqual(identifier, v, w, split);
    VersionOf(identifier, v, split);
    VersionOf(identifier, w, split);
    MismatchIsUnequal(ArmWith(e, e, records, id), ArmWith(f, f, records, id));
    AlwaysUndecided(ArmWith(e, e, records, id), ArmWith(f, f, records, id));
  }

  lemma OneEmptyMapping(e: Config, key: string)
    requires Shallow(e) && |e| < MAX_NODES && key !in e && 0 < |key| <= MAX_KEY
    ensures Shallow(e[key := Mapping(map[])]) && Scalars(e[key := Mapping(map[])]) == Scalars(e)
    ensures !Equal(Mapping(e), Mapping(e[key := Mapping(map[])]))
  {
    hide JsonScalar;
    var f := e[key := Mapping(map[])];
    assert f.Keys == e.Keys + {key} && key in f.Keys && key !in e.Keys;
  }

  /** An evaluation mapping with one more, empty, mapping in it flattens to the same entries: the configuration check
      reports the difference, and the drift report is VERIFIED. */
  lemma EmptyMappingIsUnseen(identifier: string, split: string, version: Value, key: string, records: multiset<string>,
                             id: Identity)
    requires PlainText(identifier) && PlainText(split) && version.Num?
    requires key !in DECLARATIONS && 0 < |key| <= MAX_KEY && Identifies(id, records) && HexDigests(records)
    ensures var e := Declares(identifier, version, split);
            && Usable(e)
            && var b, c := ArmWith(e, e, records, id), ArmWith(e[key := Mapping(map[])], e, records, id);
               FullArms(b, c) && AlwaysVerifiedBesideMismatch(b, c)
  {
    hide PlainText, Identifies, HexDigests, EvaluationFits, Usable, RecoveredArm, WhollyRecovered, Shallow, Scalars,
      Equal, Accepts, Flattens, AlwaysVerifiedBesideMismatch, MappingOf;
    var e := Declares(identifier, version, split);
    var f := e[key := Mapping(map[])];
    DeclaresFits(identifier, version, split);
    DeclaresFull(identifier, version, split, records, id);
    OneEmptyMapping(e, key);
    ShallowAccepts(f);
    ArmIsFull(f, e, records, id);
    AlwaysVerified(ArmWith(e, e, records, id), ArmWith(f, e, records, id));
  }

  /** A dotted key beside a nested one under the same joined key: of one and the same configuration, either value may
      survive.  Two such arms over the same records are equal to every audit rule, the values need not even be equal,
      and the report on them is insufficient. */
  lemma CollisionIsUndecided(identifier: string, split: string, version: Value, a: string, b: string, v: Value,
                             w: Value, records: multiset<string>, id: Identity)
    requires PlainText(identifier) && PlainText(split) && version.Num? && KeyPair(a, b)
    requires JsonScalar(v) && JsonScalar(w) && v != w && Identifies(id, records) && HexDigests(records)
    ensures var g := Declares(identifier, version, split);
            var x, y := g[Dotted(a, b) := v], g[Dotted(a, b) := w];
            var e := Nested(x, a, b, w);
            && Usable(x) && Usable(y)
            && var l, r := ArmWith(e, x, records, id), ArmWith(e, y, records, id);
               FullArms(l, r) && !EvaluationsDiffer(l, r) && AlwaysReported(l, r, Drift.InsufficientDrift)
  {
    hide PlainText, Identifies, HexDigests, EvaluationFits, Usable, RecoveredArm, WhollyRecovered, Equal, JsonScalar,
      Accepts, Flattens, AlwaysReported, MappingOf, Declares, KeyPair, Nested, Shallow, Scalars, EvaluationsDiffer;
    var g := Declares(identifier, version, split);
    var x, y := g[Dotted(a, b) := v], g[Dotted(a, b) := w];
    var e := Nested(x, a, b, w);
    DeclaredFlat(identifier, version, split);
    DeclaresDotted(g, a, b, v, x);
    DeclaresDotted(g, a, b, w, y);
    PairFits(a, b);
    NestedAccepted(x, a, b, w);
    assert y == x[Dotted(a, b) := w];
    ScalarIsNoMapping(w);
    NestedFlattened(x, a, b, w, x);
    NestedFlattened(x, a, b, w, y);
    ArmIsFull(e, x, records, id);
    ArmIsFull(e, y, records, id);
    EqualReflexive(Mapping(e));
    assert x[Dotted(a, b)] == v && y[Dotted(a, b)] == w;
    MismatchIsUnequal(ArmWith(e, x, records, id), ArmWith(e, y, records, id));
    AlwaysUndecided(ArmWith(e, x, records, id), ArmWith(e, y, records, id));
  }

  lemma PairFits(a: string, b: string)
    requires KeyPair(a, b)
    ensures a != "" && b != "" && |Dotted(a, b)| <= MAX_KEY
  {
  }

  lemma DeclaredFlat(identifier: string, version: Value, split: string)
    requires PlainText(identifier) && PlainText(split) && version.Num?
    ensures var g := Declares(identifier, version, split);
            && Flat(g) && Usable(g) && EvaluationFits(g) && |g| <= 3 && forall key :: key in g ==> key in DECLARATIONS
  {
    hide PlainText, Usable, EvaluationFits, Shallow, Scalars;
    DeclaresFits(identifier, version, split);
  }

  /** A value under a dotted key, and the same value under a nested one, flatten alike: the configuration check reports
      the difference, and the drift report is VERIFIED. */
  lemma DottedKeyIsUnseen(identifier: string, split: string, version: Value, a: string, b: string, v: Value,
                          records: multiset<string>, id: Identity)
    requires PlainText(identifier) && PlainText(split) && version.Num? && KeyPair(a, b)
    requires JsonScalar(v) && Identifies(id, records) && HexDigests(records)
    ensures var g := Declares(identifier, version, split);
            var e := g[Dotted(a, b) := v];
            && Usable(e)
            && var l, r := ArmWith(e, e, records, id), ArmWith(Nested(g, a, b, v), e, records, id);
               FullArms(l, r) && AlwaysVerifiedBesideMismatch(l, r)
  {
    hide PlainText, Identifies, HexDigests, EvaluationFits, Usable, RecoveredArm, WhollyRecovered, JsonScalar,
      Accepts, Flattens, AlwaysVerifiedBesideMismatch, MappingOf, Declares, KeyPair, Shallow, Scalars, Nested, Equal;
    var g := Declares(identifier, version, split);
    var e := g[Dotted(a, b) := v];
    DeclaredFlat(identifier, version, split);
    DeclaresDotted(g, a, b, v, e);
    PairFits(a, b);
    NestedAccepted(g, a, b, v);
    ScalarIsNoMapping(v);
    NestedFlattened(g, a, b, v, e);
    ShallowAccepts(e);
    ArmIsFull(e, e, records, id);
    ArmIsFull(Nested(g, a, b, v), e, records, id);
    NestedDiffers(g, a, b, v);
    AlwaysVerified(ArmWith(e, e, records, id), ArmWith(Nested(g, a, b, v), e, records, id));
  }

  lemma NestedDiffers(g: Config, a: string, b: string, v: Value)
    requires a !in g
    ensures !Equal(Mapping(g[Dotted(a, b) := v]), Mapping(Nested(g, a, b, v)))
  {
    DottedIsNew(a, b);
    assert a in Nested(g, a, b, v).Keys && a !in g[Dotted(a, b) := v].Keys;
  }
}
