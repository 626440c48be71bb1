/** Where a drift report and the configuration check disagree about two evaluations. */
module MeasurementSpelling {
  import opened Common
  import opened Findings
  import opened ConfigFairness
  import opened DottedKeys
  import opened EvaluationFlattening
  import opened FlattenedMappings
  import Drift = MeasurementDrift
  import opened MeasurementRecovery

  // ---------------------------------------------------------------- plain keys

  lemma LongJoinHasDot(p: Path)
    requires |p| > 1
    ensures '.' in Join(p)
  {
    assert Join(p)[|p[0]|] == '.';
  }

  /** A plain key of the flattened evaluation is that key of the configuration. */
  lemma PlainKey(arm: Arm, name: string)
    requires RecoveredArm(arm) && arm.evaluation.Some? && DotFree(name) && name != "" && name in arm.evaluation.value
    ensures Lookup(arm.config.value, ["evaluation", name]) == Some(arm.evaluation.value[name])
  {
    hide ReadsDataset, Accepts, Lookup;
    var flattened, evaluation := arm.evaluation.value, EvaluationOf(arm.config.value);
    assert FromLeaf(flattened[name], name, evaluation);
    var p :| IsLeaf(evaluation, p) && Join(p) == name && Lookup(evaluation, p) == Some(flattened[name]);
    if |p| > 1 {
      LongJoinHasDot(p);
      assert false;
    }
    assert p == [name];
    LookupBelow(arm.config.value, [name]);
    assert ["evaluation"] + [name] == ["evaluation", name];
  }

  lemma DeclarationsArePlain()
    ensures forall name :: name in DECLARATIONS ==> DotFree(name) && name != ""
  {
    assert DotFree("dataset_identifier") && DotFree("dataset_version") && DotFree("split");
  }

  lemma DeclarationsAreConfig(arm: Arm)
    requires RecoveredArm(arm) && arm.evaluation.Some? && Usable(arm.evaluation.value)
    ensures arm.config.Some? && HasEvaluation(arm.config.value) && EvaluationComplete(arm.config.value)
  {
    hide ReadsDataset, Flattens, Accepts, Lookup, NonBlank;
    DeclarationsArePlain();
    forall name | name in DECLARATIONS ensures PresentScalar(Lookup(arm.config.value, ["evaluation", name])) {
      PlainKey(arm, name);
    }
    assert DECLARATIONS[0] in DECLARATIONS && DECLARATIONS[1] in DECLARATIONS && DECLARATIONS[2] in DECLARATIONS;
  }

  // ---------------------------------------------------------------- two full arms

  /** The evaluation mapping of an arm. */
  function MappingOf(arm: Arm): Config {
    if arm.config.Some? && HasEvaluation(arm.config.value) then EvaluationOf(arm.config.value) else map[]
  }

  /** Both arms are recovered in full, and the report drift is drawn up on them beside what an audit reports. */
  ghost predicate FullReport(b: Arm, c: Arm, metric: string, rules: set<Rule>, drift: Drift.DriftState) {
    && RecoveredArm(b) && RecoveredArm(c) && WhollyRecovered(b) && WhollyRecovered(c)
    && Reports(rules, b, c) && ComparedAs(b, c, metric, rules, drift)
  }

  ghost predicate EqualMappingsOf(b: Arm, c: Arm) { Equal(Mapping(MappingOf(b)), Mapping(MappingOf(c))) }

  /** In neither arm two leaves with different values share a joined key. */
  ghost predicate NoCollisions(b: Arm, c: Arm) { NoCollision(MappingOf(b)) && NoCollision(MappingOf(c)) }

  ghost predicate DotFreeArms(b: Arm, c: Arm) { DotFreeLeaves(MappingOf(b)) && DotFreeLeaves(MappingOf(c)) }

  lemma FullArm(arm: Arm)
    requires RecoveredArm(arm) && WhollyRecovered(arm)
    ensures Flattens(arm.evaluation.value, MappingOf(arm))
    ensures arm.config.Some? && HasEvaluation(arm.config.value) && EvaluationComplete(arm.config.value)
  {
    hide ReadsDataset, Flattens, Accepts, EvaluationComplete, Usable, EvaluationFits;
    DeclarationsAreConfig(arm);
  }

  /** The configuration check reports a mismatch exactly between unequal mappings. */
  lemma MismatchIsUnequal(b: Arm, c: Arm)
    requires RecoveredArm(b) && RecoveredArm(c) && WhollyRecovered(b) && WhollyRecovered(c)
    ensures EvaluationsDiffer(b, c) <==> !EqualMappingsOf(b, c)
  {
    hide RecoveredArm, WhollyRecovered, EvaluationComplete, Flattens;
    FullArm(b);
    FullArm(c);
    assert Lookup(b.config.value, ["evaluation"]) == Some(Mapping(MappingOf(b)));
    assert Lookup(c.config.value, ["evaluation"]) == Some(Mapping(MappingOf(c)));
  }

  /** The keys of both evaluations; where the values are not equal, two leaves of the mapping share the key. */
  ghost predicate SpellingOrCollision(b: Arm, c: Arm)
    requires b.evaluation.Some? && c.evaluation.Some?
  {
    forall key :: key in b.evaluation.value ==>
      key in c.evaluation.value
      && (Equal(b.evaluation.value[key], c.evaluation.value[key]) || Collides(MappingOf(b), key))
  }

  /** What two full arms leave undecided: the records are the same, the mappings are equal, and some key, of a nested
      value or not, was flattened to different values.  Each such key holds equal values in two spellings, such as 1
      and 1.0, or stands for two leaves of which another one survived on either side. */
  lemma UndecidedExactly(b: Arm, c: Arm, metric: string, rules: set<Rule>, drift: Drift.DriftState)
    requires FullReport(b, c, metric, rules, drift)
    ensures drift == Drift.InsufficientDrift <==>
      b.records == c.records && EqualMappingsOf(b, c) && b.evaluation != c.evaluation
    ensures EqualMappingsOf(b, c) ==>
      b.evaluation.value.Keys == c.evaluation.value.Keys && SpellingOrCollision(b, c)
  {
    hide RecoveredArm, Reports, ComparedAs, EvaluationFits, Usable, Flattens, EvaluationsDiffer, Collides, Equal;
    FullArm(b);
    FullArm(c);
    MismatchIsUnequal(b, c);
    ReportOnFullArms(b, c, metric, rules, drift);
    if EqualMappingsOf(b, c) {
      forall key | key in b.evaluation.value
        ensures key in c.evaluation.value
        ensures Equal(b.evaluation.value[key], c.evaluation.value[key]) || Collides(MappingOf(b), key)
      {
        EqualFlattened(b.evaluation.value, c.evaluation.value, MappingOf(b), MappingOf(c), key);
      }
      EqualSymmetric(Mapping(MappingOf(b)), Mapping(MappingOf(c)));
      forall key | key in c.evaluation.value ensures key in b.evaluation.value {
        EqualFlattened(c.evaluation.value, b.evaluation.value, MappingOf(c), MappingOf(b), key);
      }
    }
  }

  /** Unless leaves collide, full arms are left undecided if and only if their records are the same, the mappings equal
      and some leaf, nested or not, is spelled differently in the two. */
  lemma UndecidedMeansSpelling(b: Arm, c: Arm, metric: string, rules: set<Rule>, drift: Drift.DriftState)
    requires FullReport(b, c, metric, rules, drift) && NoCollisions(b, c)
    ensures drift == Drift.InsufficientDrift <==>
      b.records == c.records && EqualMappingsOf(b, c) && SpelledApart(MappingOf(b), MappingOf(c))
    ensures drift == Drift.InsufficientDrift <==>
      b.records == c.records && EqualMappingsOf(b, c) && MappingOf(b) != MappingOf(c)
  {
    hide RecoveredArm, Reports, ComparedAs, EvaluationFits, Usable, Flattens, NoCollision, SpelledApart, Equal,
      SpellingOrCollision;
    FullArm(b);
    FullArm(c);
    UndecidedExactly(b, c, metric, rules, drift);
    if EqualMappingsOf(b, c) {
      EqualFlattenedApart(b.evaluation.value, c.evaluation.value, MappingOf(b), MappingOf(c));
    }
  }

  /** A VERIFIED report beside a reported mismatch of the evaluations. */
  ghost predicate VerifiedBesideMismatch(rules: set<Rule>, drift: Drift.DriftState) {
    drift == Drift.Verified && ConfigEvaluationMismatch in rules
  }

  lemma VerifiedMismatch(b: Arm, c: Arm, metric: string, rules: set<Rule>, drift: Drift.DriftState)
    requires FullReport(b, c, metric, rules, drift) && NoCollisions(b, c)
    ensures drift == Drift.Verified <==> b.records == c.records && SameJoined(MappingOf(b), MappingOf(c))
    ensures VerifiedBesideMismatch(rules, drift) <==> drift == Drift.Verified && MappingOf(b) != MappingOf(c)
  {
    hide RecoveredArm, ComparedAs, EvaluationFits, Usable, Flattens, NoCollision, Equal, EvaluationsDiffer, SameJoined,
      SpelledApart;
    FullArm(b);
    FullArm(c);
    MismatchIsUnequal(b, c);
    ReportOnFullArms(b, c, metric, rules, drift);
    AlikeMeaning(b.evaluation.value, c.evaluation.value, MappingOf(b), MappingOf(c));
    EqualReflexive(Mapping(MappingOf(b)));
    if EqualMappingsOf(b, c) {
      EqualFlattenedApart(b.evaluation.value, c.evaluation.value, MappingOf(b), MappingOf(c));
    }
  }

  /** Unless leaves collide, a VERIFIED report stands beside a reported mismatch if and only if the records are the same
      and the mappings are different but have the same leaves under the same joined keys. */
  lemma VerifiedBesideMismatchExactly(b: Arm, c: Arm, metric: string, rules: set<Rule>, drift: Drift.DriftState)
    requires FullReport(b, c, metric, rules, drift) && NoCollisions(b, c)
    ensures VerifiedBesideMismatch(rules, drift) <==>
      b.records == c.records && SameJoined(MappingOf(b), MappingOf(c)) && MappingOf(b) != MappingOf(c)
  {
    hide FullReport, NoCollisions, SameJoined, VerifiedBesideMismatch;
    VerifiedMismatch(b, c, metric, rules, drift);
  }

  /** Without dots inside keys that is: the mappings differ, and only by mappings in them that hold no leaf.  Where no
      mapping is without leaves, VERIFIED excludes the mismatch. */
  lemma VerifiedExcludesMismatch(b: Arm, c: Arm, metric: string, rules: set<Rule>, drift: Drift.DriftState)
    requires FullReport(b, c, metric, rules, drift) && DotFreeArms(b, c)
    ensures VerifiedBesideMismatch(rules, drift) <==>
      b.records == c.records && Prune(MappingOf(b)) == Prune(MappingOf(c)) && MappingOf(b) != MappingOf(c)
    ensures LeavesEverywhere(MappingOf(b)) && LeavesEverywhere(MappingOf(c)) ==> !VerifiedBesideMismatch(rules, drift)
  {
    hide FullReport, SameJoined, VerifiedBesideMismatch, SameLeaves, Prune, LeavesEverywhere, NoCollision,
      DotFreeLeaves;
    DotFreeNeverCollide(b, c);
    VerifiedBesideMismatchExactly(b, c, metric, rules, drift);
    DotFreePartners(MappingOf(b), MappingOf(c));
    SameLeavesMeaning(MappingOf(b), MappingOf(c));
  }

  lemma DotFreeNeverCollide(b: Arm, c: Arm)
    requires DotFreeArms(b, c)
    ensures NoCollisions(b, c)
  {
    hide NoCollision;
    DotFreeNeverCollides(MappingOf(b));
    DotFreeNeverCollides(MappingOf(c));
  }
}
