/** What the configuration check reports, said of the fields themselves: which ones it asks for, which basis it
    compares, and what a change of a single field leads to. */
module ConfigChanges {
  import opened Common
  import opened Decimals
  import opened Findings
  import opened ConfigFairness

  // ---------------------------------------------------------------- fields

  predicate PositiveEntry(config: Config, name: string) {
    name in config && config[name].Num? && config[name].number.coef > 0
  }

  /** A text of nothing but white space declares nothing, and one with any letter or digit in it does. */
  lemma BlankDeclaresNothing(s: string)
    ensures PresentScalar(Some(Str(s))) <==> !forall i :: 0 <= i < |s| ==> Whitespace(s[i])
    ensures (forall i :: 0 <= i < |s| ==> s[i] == ' ' || s[i] == '\t') ==> !PresentScalar(Some(Str(s)))
    ensures (exists i :: 0 <= i < |s| && ('a' <= s[i] <= 'z' || 'A' <= s[i] <= 'Z' || '0' <= s[i] <= '9')) ==>
      PresentScalar(Some(Str(s)))
  {
    if i :| 0 <= i < |s| && ('a' <= s[i] <= 'z' || 'A' <= s[i] <= 'Z' || '0' <= s[i] <= '9') {
      assert !Whitespace(s[i]);
    }
  }

  predicate ScalarEntry(config: Config, name: string) {
    name in config && (config[name].Num? || (config[name].Str? && NonBlank(config[name].text)))
  }

  predicate Section(config: Config, name: string) { name in config && config[name].Mapping? }

  lemma EntryAt(config: Config, name: string)
    ensures PositiveNumber(Lookup(config, [name])).Some? <==> PositiveEntry(config, name)
    ensures PositiveEntry(config, name) ==> PositiveAt(config, name) == Some(config[name].number)
    ensures PresentScalar(Lookup(config, [name])) <==> ScalarEntry(config, name)
  {
  }

  lemma EntryBelow(config: Config, section: string, name: string)
    ensures Lookup(config, [section, name]) ==
      if Section(config, section) && name in config[section].entries then Some(config[section].entries[name]) else None
    ensures PresentScalar(Lookup(config, [section, name])) <==>
      Section(config, section) && ScalarEntry(config[section].entries, name)
  {
    assert [section, name][1..] == [name];
  }

  /** Complete are the configurations with four positive numbers, a model, and the declarations of both datasets. */
  lemma CompleteMeans(config: Config)
    ensures Complete(config) <==>
      && PositiveEntry(config, "training_steps") && PositiveEntry(config, "epochs")
      && PositiveEntry(config, "batch_size") && PositiveEntry(config, "learning_rate") && ScalarEntry(config, "model")
      && Section(config, "dataset")
      && ScalarEntry(config["dataset"].entries, "identifier") && ScalarEntry(config["dataset"].entries, "version")
      && Section(config, "evaluation") && ScalarEntry(config["evaluation"].entries, "dataset_identifier")
      && ScalarEntry(config["evaluation"].entries, "dataset_version")
      && ScalarEntry(config["evaluation"].entries, "split")
  {
    hide NonBlank, Lookup, PresentScalar, PositiveNumber;
    EntryAt(config, "training_steps");
    EntryAt(config, "epochs");
    EntryAt(config, "batch_size");
    EntryAt(config, "learning_rate");
    EntryAt(config, "model");
    EntryBelow(config, "dataset", "identifier");
    EntryBelow(config, "dataset", "version");
    EntryBelow(config, "evaluation", "dataset_identifier");
    EntryBelow(config, "evaluation", "dataset_version");
    EntryBelow(config, "evaluation", "split");
    CompleteIsEach(config);
  }

  ghost predicate EachDeclared(config: Config) {
    && Declared(config, Field(["training_steps"], Positive)) && Declared(config, Field(["epochs"], Positive))
    && Declared(config, Field(["batch_size"], Positive)) && Declared(config, Field(["learning_rate"], Positive))
    && Declared(config, Field(["model"], Present)) && Declared(config, Field(["dataset", "identifier"], Present))
    && Declared(config, Field(["dataset", "version"], Present))
    && Declared(config, Field(["evaluation", "dataset_identifier"], Present))
    && Declared(config, Field(["evaluation", "dataset_version"], Present))
    && Declared(config, Field(["evaluation", "split"], Present))
  }

  lemma AllRequired(config: Config, fields: seq<Field>)
    requires forall field :: field in fields <==> Required(field)
    ensures (forall field :: field in fields ==> Declared(config, field)) <==> EachDeclared(config)
  {
    hide Declared;
    forall field | EachDeclared(config) && Required(field) ensures Declared(config, field) {}
  }

  lemma CompleteIsEach(config: Config)
    ensures Complete(config) <==> EachDeclared(config)
  {
    hide Declared, Required, EachDeclared;
    forall field ensures field in REQUIRED_FIELDS <==> Required(field) {
      RequiredFields(field);
    }
    AllRequired(config, REQUIRED_FIELDS);
  }

  /** Every field that is asked for, and how. */
  ghost predicate Required(field: Field) {
    || field == Field(["training_steps"], Positive) || field == Field(["epochs"], Positive)
    || field == Field(["batch_size"], Positive) || field == Field(["learning_rate"], Positive)
    || field == Field(["model"], Present) || field == Field(["dataset", "identifier"], Present)
    || field == Field(["dataset", "version"], Present) || field == Field(["evaluation", "dataset_identifier"], Present)
    || field == Field(["evaluation", "dataset_version"], Present) || field == Field(["evaluation", "split"], Present)
  }

  lemma RequiredFields(field: Field)
    ensures field in REQUIRED_FIELDS <==> Required(field)
  {
    if field in REQUIRED_FIELDS {
      var i :| 0 <= i < |REQUIRED_FIELDS| && REQUIRED_FIELDS[i] == field;
      assert i < 10;
    }
    if Required(field) {
      var i := if field == REQUIRED_FIELDS[0] then 0 else if field == REQUIRED_FIELDS[1] then 1
        else if field == REQUIRED_FIELDS[2] then 2 else if field == REQUIRED_FIELDS[3] then 3
        else if field == REQUIRED_FIELDS[4] then 4 else if field == REQUIRED_FIELDS[5] then 5
        else if field == REQUIRED_FIELDS[6] then 6 else if field == REQUIRED_FIELDS[7] then 7
        else if field == REQUIRED_FIELDS[8] then 8 else 9;
      assert REQUIRED_FIELDS[i] == field;
    }
  }

  // ---------------------------------------------------------------- the basis of comparison

  /** Both arms declare a positive number under this name. */
  predicate InBoth(b: Config, c: Config, name: string) { PositiveEntry(b, name) && PositiveEntry(c, name) }

  /** Steps come before epochs, and each is multiplied by the batch size where both arms declare that too. */
  function BasisFor(b: Config, c: Config): Option<Basis> {
    if InBoth(b, c, "training_steps") then Some(if InBoth(b, c, "batch_size") then StepsTimesBatch else Steps)
    else if InBoth(b, c, "epochs") then Some(if InBoth(b, c, "batch_size") then EpochsTimesBatch else Epochs)
    else None
  }

  /** What an arm spends on a basis. */
  function Spent(config: Config, basis: Basis): Dec
    requires PositiveEntry(config, if basis.StepsTimesBatch? || basis.Steps? then "training_steps" else "epochs")
    requires basis.StepsTimesBatch? || basis.EpochsTimesBatch? ==> PositiveEntry(config, "batch_size")
  {
    var first := config[if basis.StepsTimesBatch? || basis.Steps? then "training_steps" else "epochs"].number;
    if basis.StepsTimesBatch? || basis.EpochsTimesBatch? then ExactProduct(first, config["batch_size"].number)
    else first
  }

  lemma ProxyByEntries(config: Config, basis: Basis)
    ensures ExactProxy(config, basis).Some? <==>
      && PositiveEntry(config, if basis.StepsTimesBatch? || basis.Steps? then "training_steps" else "epochs")
      && (basis.StepsTimesBatch? || basis.EpochsTimesBatch? ==> PositiveEntry(config, "batch_size"))
    ensures ExactProxy(config, basis).Some? ==> ExactProxy(config, basis).value == Spent(config, basis)
  {
    hide Lookup, PositiveNumber, PositiveEntry;
    EntryAt(config, "training_steps");
    EntryAt(config, "epochs");
    EntryAt(config, "batch_size");
  }

  lemma BasisIsDeclared(b: Config, c: Config, basis: Basis)
    requires BasisFor(b, c) == Some(basis)
    ensures ExactProxy(b, basis) == Some(Spent(b, basis)) && ExactProxy(c, basis) == Some(Spent(c, basis))
  {
    hide PositiveEntry;
    ProxyByEntries(b, basis);
    ProxyByEntries(c, basis);
  }

  lemma ComparableByEntries(b: Config, c: Config)
    ensures Comparable(b, c, Steps) <==> InBoth(b, c, "training_steps")
    ensures Comparable(b, c, StepsTimesBatch) <==> InBoth(b, c, "training_steps") && InBoth(b, c, "batch_size")
    ensures Comparable(b, c, Epochs) <==> InBoth(b, c, "epochs")
    ensures Comparable(b, c, EpochsTimesBatch) <==> InBoth(b, c, "epochs") && InBoth(b, c, "batch_size")
  {
    hide PositiveEntry, ExactProxy;
    ProxyByEntries(b, Steps);
    ProxyByEntries(c, Steps);
    ProxyByEntries(b, StepsTimesBatch);
    ProxyByEntries(c, StepsTimesBatch);
    ProxyByEntries(b, Epochs);
    ProxyByEntries(c, Epochs);
    ProxyByEntries(b, EpochsTimesBatch);
    ProxyByEntries(c, EpochsTimesBatch);
  }

  lemma FirstBasis(b: Config, c: Config)
    ensures BasisFor(b, c).None? ==> forall i: nat :: !CommonBasis(b, c, i)
    ensures BasisFor(b, c).Some? ==> exists i: nat :: CommonBasis(b, c, i) && BASES[i] == BasisFor(b, c).value
    ensures forall i: nat :: CommonBasis(b, c, i) ==> BasisFor(b, c) == Some(BASES[i])
  {
    hide Comparable, InBoth;
    ComparableByEntries(b, c);
    assert BASES[0] == StepsTimesBatch && BASES[1] == Steps && BASES[2] == EpochsTimesBatch && BASES[3] == Epochs;
    var i: nat := if BasisFor(b, c) == Some(StepsTimesBatch) then 0 else if BasisFor(b, c) == Some(Steps) then 1
      else if BasisFor(b, c) == Some(EpochsTimesBatch) then 2 else 3;
    if BasisFor(b, c).Some? {
      assert CommonBasis(b, c, i);
      forall k: nat | CommonBasis(b, c, k) ensures k == i {}
    }
  }

  /** What the two arms are compared on, and when the candidate spends too much: at least 3/2 of the baseline,
      exactly. */
  lemma ComputeRuleByEntries(b: Config, c: Config, evidence: ConfigEvidence)
    requires EvidenceIs(b, c, evidence)
    ensures evidence.basis == BasisFor(b, c)
    ensures BasisFor(b, c).None? ==> !ComputeTooLarge(b, c) && evidence.ratio.None?
    ensures BasisFor(b, c).Some? ==>
      var basis := BasisFor(b, c).value;
      ComputeTooLarge(b, c) <==> !Below(Spent(c, basis), ExactProduct(THREE_HALVES, Spent(b, basis)))
  {
    hide CommonBasis, BasisFor, Below, Spent, InBoth, PositiveEntry, Undeclared;
    FirstBasis(b, c);
    if BasisFor(b, c).Some? {
      BasisIsDeclared(b, c, BasisFor(b, c).value);
      TooLargeOn(b, c);
    }
  }

  lemma TooLargeOn(b: Config, c: Config)
    requires exists i: nat :: CommonBasis(b, c, i) && BASES[i] == BasisFor(b, c).value
    requires BasisFor(b, c).Some?
    requires forall i: nat :: CommonBasis(b, c, i) ==> BasisFor(b, c) == Some(BASES[i])
    ensures var basis := BasisFor(b, c).value;
      && ExactProxy(b, basis).Some? && ExactProxy(c, basis).Some?
      && (ComputeTooLarge(b, c) <==>
           !Below(ExactProxy(c, basis).value, ExactProduct(THREE_HALVES, ExactProxy(b, basis).value)))
  {
    hide BasisFor, Below;
    var i: nat :| CommonBasis(b, c, i) && BASES[i] == BasisFor(b, c).value;
  }

  // ---------------------------------------------------------------- a single change

  lemma EqualToItself(v: Option<Value>)
    ensures EqualOrBothMissing(v, v)
  {
    if v.Some? { EqualReflexive(v.value); }
  }

  /** A change under one key does not show on paths that begin with another. */
  lemma ElsewhereTheSame(b: Config, key: string, v: Value, path: seq<string>)
    requires path != [] && path[0] != key
    ensures !Differs(b, b[key := v], path) && Lookup(b[key := v], path) == Lookup(b, path)
  {
    EqualToItself(Lookup(b, path));
  }

  lemma DiffersAtKey(b: Config, key: string, v: Value)
    requires key in b
    ensures Differs(b, b[key := v], [key]) <==> !Equal(b[key], v)
  {
  }

  /** The five ways in which the visible fields of two configurations can differ, by the key of the change. */
  lemma OneKeyDiffers(b: Config, key: string, v: Value)
    requires key in b
    ensures var c := b[key := v];
      && (LearningRateDiffers(b, c) <==> key == "learning_rate" && !Equal(b[key], v))
      && (ModelDiffers(b, c) <==> key == "model" && !Equal(b[key], v))
      && (ParametersDiffer(b, c) <==> key in {"training_steps", "epochs", "batch_size"} && !Equal(b[key], v))
      && (EvaluationDiffers(b, c) <==>
           key == "evaluation" && EvaluationComplete(b) && EvaluationComplete(c) && !Equal(b[key], v))
      && (key != "dataset" ==> !TrainingDatasetDiffers(b, c))
  {
    hide Differs, Equal, EvaluationComplete;
    DiffersAtKey(b, key, v);
    if key != "learning_rate" { ElsewhereTheSame(b, key, v, ["learning_rate"]); }
    if key != "model" { ElsewhereTheSame(b, key, v, ["model"]); }
    if key != "training_steps" { ElsewhereTheSame(b, key, v, ["training_steps"]); }
    if key != "epochs" { ElsewhereTheSame(b, key, v, ["epochs"]); }
    if key != "batch_size" { ElsewhereTheSame(b, key, v, ["batch_size"]); }
    if key != "evaluation" { ElsewhereTheSame(b, key, v, ["evaluation"]); }
    if key != "dataset" {
      ElsewhereTheSame(b, key, v, ["dataset", "identifier"]);
      ElsewhereTheSame(b, key, v, ["dataset", "version"]);
    }
  }

  /** A training dataset differs when its identifier or its version does; other entries of the section do not count. */
  lemma DatasetSection(b: Config, d: map<string, Value>)
    requires Section(b, "dataset")
    requires "identifier" in b["dataset"].entries && "version" in b["dataset"].entries
    requires "identifier" in d && "version" in d
    ensures TrainingDatasetDiffers(b, b["dataset" := Mapping(d)]) <==>
      || !Equal(b["dataset"].entries["identifier"], d["identifier"])
      || !Equal(b["dataset"].entries["version"], d["version"])
  {
    hide Equal;
    EntryBelow(b, "dataset", "identifier");
    EntryBelow(b, "dataset", "version");
    EntryBelow(b["dataset" := Mapping(d)], "dataset", "identifier");
    EntryBelow(b["dataset" := Mapping(d)], "dataset", "version");
  }

  /** Whoever spends the same does not spend too much. */
  lemma SameSpending(b: Config, c: Config)
    requires Complete(b) && Complete(c)
    requires PositiveAt(b, "training_steps") == PositiveAt(c, "training_steps")
    requires PositiveAt(b, "batch_size") == PositiveAt(c, "batch_size")
    ensures !ComputeTooLarge(b, c)
  {
    hide Complete, ComputeTooLarge;
    ComputeRuleOnCompleteConfigs(b, c);
    var steps, batch := PositiveAt(b, "training_steps").value, PositiveAt(b, "batch_size").value;
    PositiveProduct(steps, batch);
  }

  lemma PositiveProduct(steps: Dec, batch: Dec)
    requires steps.coef > 0 && batch.coef > 0
    ensures At(ExactProduct(steps, batch), steps.exp + batch.exp) > 0
  {
    assert steps.coef * batch.coef > 0;
  }

  lemma MissingNothing(b: Config, c: Config)
    requires Complete(b) && Complete(c)
    ensures !FieldsMissing(b, c) && EvaluationComplete(b) && EvaluationComplete(c)
  {
    hide Lookup, PresentScalar, PositiveNumber;
    EvaluationDeclared(b);
    EvaluationDeclared(c);
  }

  lemma EvaluationDeclared(config: Config)
    ensures EvaluationComplete(config) <==>
      && Section(config, "evaluation") && ScalarEntry(config["evaluation"].entries, "dataset_identifier")
      && ScalarEntry(config["evaluation"].entries, "dataset_version")
      && ScalarEntry(config["evaluation"].entries, "split")
    ensures Complete(config) ==> EvaluationComplete(config)
  {
    hide NonBlank, Lookup, PresentScalar, PositiveNumber, PositiveEntry, Complete, ScalarEntry;
    EntryBelow(config, "evaluation", "dataset_identifier");
    EntryBelow(config, "evaluation", "dataset_version");
    EntryBelow(config, "evaluation", "split");
    CompleteMeans(config);
  }

  /** Two complete configurations that differ under one key: the check reports the one rule that belongs to this key, or
      that the configurations are fair. */
  lemma OneChange(b: Config, key: string, v: Value)
    requires key in b && !Equal(b[key], v) && Complete(b) && Complete(b[key := v])
    ensures var c := b[key := v];
      && (key == "learning_rate" ==> OrderedRules(b, c) == [ConfigLearningRateDifference])
      && (key == "model" ==> OrderedRules(b, c) == [ConfigModelDifference])
      && (key == "evaluation" ==> OrderedRules(b, c) == [ConfigEvaluationMismatch])
      && (key == "epochs" ==> OrderedRules(b, c) == [ConfigTrainingParameterDifference])
      && (key in {"training_steps", "batch_size"} ==>
           OrderedRules(b, c) ==
           [if ComputeTooLarge(b, c) then ConfigComputeMismatch else ConfigTrainingParameterDifference])
      && (key == "dataset" ==>
           OrderedRules(b, c) ==
           [if TrainingDatasetDiffers(b, c) then ConfigTrainingDatasetMismatch else ConfigFairnessVerified])
      && (key !in {"learning_rate", "model", "evaluation", "epochs", "training_steps", "batch_size", "dataset"} ==>
           OrderedRules(b, c) == [ConfigFairnessVerified])
  {
    hide Complete, Equal, ComputeTooLarge, FieldsMissing, EvaluationDiffers, TrainingDatasetDiffers, ParametersDiffer,
      LearningRateDiffers, ModelDiffers, EvaluationComplete;
    var c := b[key := v];
    MissingNothing(b, c);
    OneKeyDiffers(b, key, v);
    if key != "training_steps" && key != "batch_size" {
      ElsewhereTheSame(b, key, v, ["training_steps"]);
      ElsewhereTheSame(b, key, v, ["batch_size"]);
      SameSpending(b, c);
    }
  }

  /** Complete configurations are fair to themselves. */
  lemma FairToItself(b: Config)
    requires Complete(b)
    ensures OrderedRules(b, b) == [ConfigFairnessVerified]
  {
    hide Complete, ComputeTooLarge, FieldsMissing, EvaluationComplete;
    MissingNothing(b, b);
    SameSpending(b, b);
    EqualToItself(Lookup(b, ["learning_rate"]));
    EqualToItself(Lookup(b, ["model"]));
    EqualToItself(Lookup(b, ["training_steps"]));
    EqualToItself(Lookup(b, ["epochs"]));
    EqualToItself(Lookup(b, ["batch_size"]));
    EqualToItself(Lookup(b, ["evaluation"]));
    EqualToItself(Lookup(b, ["dataset", "identifier"]));
    EqualToItself(Lookup(b, ["dataset", "version"]));
  }
}
