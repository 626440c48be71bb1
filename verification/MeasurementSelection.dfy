/** Which entries of a flattened evaluation each measurement component takes up. */
module MeasurementSelection {
  import opened DottedKeys
  import opened MeasurementDrift
  import opened MeasurementRecovery

  /** The names under which an optional component is declared. */
  predicate NameOf(kind: Kind, name: string) {
    match kind
    case EvaluatorImplementation => name == "evaluator" || name == "scorer"
    case PromptTemplate => name == "prompt" || name == "prompt_template" || name == "template"
    case DecodingParameters => name == "decoding" || name == "sampling"
    case TestSelection => name == "test_selection" || name == "selection" || name == "subset" || name == "filter"
    case RetryAggregation =>
      name == "aggregation" || name == "aggregation_procedure" || name == "retry" || name == "adjudication"
    case Normalization => name == "normalization" || name == "postprocessing" || name == "postprocess"
    case BenchmarkVersion => name == "benchmark"
    case _ => false
  }

  /** A key is a name, or goes on with a dot after it, exactly when the name is its first segment. */
  lemma FirstSegment(key: string, name: string)
    requires DotFree(name)
    ensures key == name || name + "." <= key <==> Split(key)[0] == name
  {
    JoinSplit(key);
    if key == name {
      SplitWithoutDot(name);
    } else if name + "." <= key {
      var rest := key[|name| + 1..];
      assert key == name + ['.'] + rest;
      SplitAtDot(name, rest);
    }
    if Split(key)[0] == name && |Split(key)| > 1 {
      assert key == name + ['.'] + Join(Split(key)[1..]);
      assert name + "." == name + ['.'];
    }
  }

  lemma TokensAreNames(kind: Kind, name: string)
    ensures name in TokensOf(kind) <==> NameOf(kind, name)
  {
  }

  predicate Letters(s: string) { forall i :: 0 <= i < |s| ==> 'a' <= s[i] <= 'z' || s[i] == '_' }

  lemma LettersHaveNoDot(s: string)
    requires Letters(s)
    ensures DotFree(s)
  {
  }

  lemma ShortNames()
    ensures Letters("evaluator") && Letters("scorer") && Letters("prompt") && Letters("template") && Letters("decoding")
    ensures Letters("sampling") && Letters("benchmark")
  {
  }

  lemma SelectionNames()
    ensures Letters("selection") && Letters("subset") && Letters("filter") && Letters("retry")
    ensures Letters("adjudication") && Letters("aggregation") && Letters("normalization")
  {
  }

  lemma LongNames()
    ensures Letters("prompt_template") && Letters("test_selection") && Letters("aggregation_procedure")
    ensures Letters("postprocessing") && Letters("postprocess")
  {
  }

  lemma NamesAreLetters(kind: Kind, name: string)
    requires NameOf(kind, name)
    ensures Letters(name)
  {
    hide Letters;
    ShortNames();
    SelectionNames();
    LongNames();
  }

  /** An optional component takes exactly the entries whose first segment is one of its names. */
  lemma SelectedByName(kind: Kind, key: string)
    requires !Required(kind)
    ensures Selects(kind, key) <==> NameOf(kind, Split(key)[0])
  {
    hide NameOf, TokensOf, Letters;
    forall name ensures name in TokensOf(kind) && (key == name || name + "." <= key) <==>
      NameOf(kind, name) && Split(key)[0] == name
    {
      TokensAreNames(kind, name);
      if NameOf(kind, name) {
        NamesAreLetters(kind, name);
        LettersHaveNoDot(name);
        FirstSegment(key, name);
      }
    }
    SelectsByToken(kind, key);
    TokensAreNames(kind, Split(key)[0]);
  }

  lemma SelectsByToken(kind: Kind, key: string)
    requires !Required(kind)
    ensures Selects(kind, key) <==> exists name :: name in TokensOf(kind) && (key == name || name + "." <= key)
  {
    hide TokensOf;
  }

  /** The evaluation component takes every entry; the metric takes its four plain names and what is under its own
      section. */
  lemma RequiredSelections(key: string)
    ensures Selects(EvaluationConfig, key)
    ensures Selects(Metric, key) <==>
      || key == "metric" || key == "metric_name" || key == "metric_definition" || key == "metric_version"
      || "metric_config." <= key
  {
  }
}
