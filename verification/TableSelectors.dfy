/** Typed row predicates over table cells, and the decision that two selectors can never pick the same row. */
module TableSelectors {
  import opened Common
  import opened Decimals
  import opened TableNumbers

  /** What a predicate asks of its column's cell. */
  datatype Test = StringIs(text: string) | NumberIs(number: Dec) | BooleanIs(flag: bool) | NullIs

  datatype Predicate = Predicate(column: string, test: Test)

  datatype TableSelector = TableSelector(column: string, predicates: seq<Predicate>, cardinality: nat)

  /** A physical cell: raw text, or a null of a table with a schema. */
  datatype Cell = Null | Text(text: string)

  type Row = map<string, Cell>

  function BooleanText(flag: bool): string { if flag then "true" else "false" }

  /** How an adapter reads a cell: None where it rejects the cell as not of the predicate's type. */
  function CellMatches(cell: Cell, test: Test): Option<bool> {
    match (cell, test)
    case (Null, NullIs) => Some(true)
    case (Null, _) => Some(false)
    case (Text(_), NullIs) => Some(false)
    case (Text(s), StringIs(t)) => Some(s == t)
    case (Text(s), BooleanIs(b)) => if s == "true" || s == "false" then Some(s == BooleanText(b)) else None
    case (Text(s), NumberIs(v)) =>
      match ParseNumber(s)
      case None => None
      case Some(d) => Some(SameValue(d, Expected(v)))
  }

  predicate Fits(cell: Cell, test: Test) { CellMatches(cell, test) == Some(true) }

  /** A comma-separated table rejects null predicates altogether. */
  function CsvCellMatches(cell: string, test: Test): Option<bool> {
    if test.NullIs? then None else CellMatches(Text(cell), test)
  }

  // ---------------------------------------------------------------- one cell, two predicates

  /** Whether two predicates on one column can be met by one cell, decided from the predicates alone. */
  predicate MayMatch(left: Test, right: Test) {
    if left.NullIs? then right.NullIs?
    else if right.NullIs? then false
    else if left.StringIs? && right.StringIs? then left.text == right.text
    else if left.BooleanIs? && right.BooleanIs? then left.flag == right.flag
    else if left.NumberIs? && right.NumberIs? then CanonicalText(left.number) == CanonicalText(right.number)
    else if left.StringIs? then StringMayMatch(left.text, right)
    else if right.StringIs? then StringMayMatch(right.text, left)
    else false
  }

  predicate StringMayMatch(text: string, other: Test) {
    match other
    case BooleanIs(b) => text == BooleanText(b)
    case NumberIs(v) =>
      (match ParseNumber(text)
       case None => false
       case Some(d) => SameValue(d, Expected(v)))
    case _ => false
  }

  /** A cell that a predicate accepts. */
  function Sample(test: Test): (cell: Cell)
    ensures Fits(cell, test)
  {
    match test
    case StringIs(s) => Text(s)
    case BooleanIs(b) => Text(BooleanText(b))
    case NumberIs(v) =>
      CanonicalReads(v);
      Text(CanonicalText(v))
    case NullIs => Null
  }

  /** The decision is exact: it holds if and only if some cell satisfies both predicates. */
  lemma MayMatchIsExact(left: Test, right: Test)
    ensures MayMatch(left, right) <==> exists cell :: Fits(cell, left) && Fits(cell, right)
  {
    if MayMatch(left, right) {
      CommonCell(left, right);
    }
    if cell :| Fits(cell, left) && Fits(cell, right) {
      SharedCellMayMatch(cell, left, right);
    }
  }

  lemma CommonCell(left: Test, right: Test)
    requires MayMatch(left, right)
    ensures exists cell :: Fits(cell, left) && Fits(cell, right)
  {
    if left.StringIs? {
      assert Fits(Text(left.text), left) && Fits(Text(left.text), right);
    } else if right.StringIs? {
      assert Fits(Text(right.text), left) && Fits(Text(right.text), right);
    } else {
      assert Fits(Sample(left), left) && Fits(Sample(left), right);
    }
  }

  lemma SharedCellMayMatch(cell: Cell, left: Test, right: Test)
    requires Fits(cell, left) && Fits(cell, right)
    ensures MayMatch(left, right)
  {
    WordsAreNotNumbers();
    if left.NumberIs? && right.NumberIs? {
      var d := ParseNumber(cell.text).value;
      SameCanonical(d, left.number, right.number);
    }
  }

  lemma SameCanonical(d: Dec, v: Dec, w: Dec)
    requires SameValue(d, Canonical(v)) && SameValue(d, Canonical(w))
    ensures Canonical(v) == Canonical(w)
  {
    StrippedIsNormal(Rounded(v, CONTEXT_DIGITS));
    StrippedIsNormal(Rounded(w, CONTEXT_DIGITS));
    SameValueSymmetric(d, Canonical(v));
    SameValueTransitive(Canonical(v), d, Canonical(w));
    NormalUnique(Canonical(v), Canonical(w));
  }

  /** Within 28 significant digits two number predicates are the same exactly when their numbers are. */
  lemma CanonicalKeepsValue(v: Dec, w: Dec)
    requires DigitCount(v) <= CONTEXT_DIGITS && DigitCount(w) <= CONTEXT_DIGITS
    ensures Canonical(v) == Canonical(w) <==> SameValue(v, w)
  {
    StrippedIsNormal(v);
    StrippedIsNormal(w);
    if SameValue(v, w) {
      SameValueTransitive(Canonical(v), v, w);
      SameValueSymmetric(Canonical(w), w);
      SameValueTransitive(Canonical(v), w, Canonical(w));
      NormalUnique(Canonical(v), Canonical(w));
    } else if Canonical(v) == Canonical(w) {
      SameValueSymmetric(Canonical(v), v);
      SameValueTransitive(v, Canonical(v), w);
    }
  }

  // ---------------------------------------------------------------- rows and selectors

  ghost predicate WellFormed(s: TableSelector) {
    1 <= |s.predicates| <= 8
    && forall i, j :: 0 <= i < j < |s.predicates| ==> s.predicates[i].column != s.predicates[j].column
  }

  ghost predicate Satisfies(row: Row, s: TableSelector) {
    forall p :: p in s.predicates ==> p.column in row && Fits(row[p.column], p.test)
  }

  /** The source's dictionary from columns to predicates, after the first n of them. */
  function ByColumnTo(predicates: seq<Predicate>, n: nat): map<string, Test>
    requires n <= |predicates|
  {
    if n == 0 then map[] else ByColumnTo(predicates, n - 1)[predicates[n - 1].column := predicates[n - 1].test]
  }

  function ByColumn(predicates: seq<Predicate>): map<string, Test> { ByColumnTo(predicates, |predicates|) }

  ghost predicate Listed(predicates: seq<Predicate>, n: nat, column: string, test: Test)
    requires n <= |predicates|
  {
    exists i :: 0 <= i < n && predicates[i].column == column && predicates[i].test == test
  }

  lemma {:induction false} ByColumnToHolds(predicates: seq<Predicate>, n: nat, column: string, test: Test)
    requires forall i, j :: 0 <= i < j < |predicates| ==> predicates[i].column != predicates[j].column
    requires n <= |predicates|
    ensures Listed(predicates, n, column, test) <==>
            column in ByColumnTo(predicates, n) && ByColumnTo(predicates, n)[column] == test
  {
    if n > 0 {
      ByColumnToHolds(predicates, n - 1, column, test);
      if predicates[n - 1].column == column {
        assert !Listed(predicates, n - 1, column, test);
      }
    }
  }

  lemma ByColumnHolds(predicates: seq<Predicate>)
    requires forall i, j :: 0 <= i < j < |predicates| ==> predicates[i].column != predicates[j].column
    ensures forall p :: p in predicates <==>
      p.column in ByColumn(predicates) && ByColumn(predicates)[p.column] == p.test
  {
    forall p ensures p in predicates <==> p.column in ByColumn(predicates) && ByColumn(predicates)[p.column] == p.test {
      ByColumnToHolds(predicates, |predicates|, p.column, p.test);
      if Listed(predicates, |predicates|, p.column, p.test) {
        var i :| 0 <= i < |predicates| && predicates[i].column == p.column && predicates[i].test == p.test;
        assert predicates[i] == p;
      }
    }
  }

  /** Some shared column carries predicates that no cell can meet together. */
  predicate RowDisjoint(left: TableSelector, right: TableSelector) {
    var l, r := ByColumn(left.predicates), ByColumn(right.predicates);
    exists column :: column in l && column in r && !MayMatch(l[column], r[column])
  }

  ghost predicate Agrees(cell: Cell, tests: map<string, Test>, column: string) {
    column in tests ==> Fits(cell, tests[column])
  }

  ghost predicate RowMeets(row: Row, tests: map<string, Test>) {
    forall column :: column in tests ==> column in row && Fits(row[column], tests[column])
  }

  lemma SatisfiesByColumn(row: Row, s: TableSelector)
    requires WellFormed(s)
    ensures Satisfies(row, s) <==> RowMeets(row, ByColumn(s.predicates))
  {
    ByColumnHolds(s.predicates);
    if Satisfies(row, s) {
      var tests := ByColumn(s.predicates);
      forall column | column in tests ensures column in row && Fits(row[column], tests[column]) {
        assert Predicate(column, tests[column]) in s.predicates;
      }
    }
  }

  /** A cell for each column that meets whichever predicates there are. */
  lemma CellFor(l: map<string, Test>, r: map<string, Test>, column: string) returns (cell: Cell)
    requires column in l && column in r ==> MayMatch(l[column], r[column])
    ensures Agrees(cell, l, column) && Agrees(cell, r, column)
  {
    if column in l && column in r {
      CommonCell(l[column], r[column]);
      cell :| Fits(cell, l[column]) && Fits(cell, r[column]);
    } else if column in l {
      cell := Sample(l[column]);
    } else if column in r {
      cell := Sample(r[column]);
    } else {
      cell := Null;
    }
  }

  lemma {:induction false} RowFor(l: map<string, Test>, r: map<string, Test>, columns: set<string>) returns (row: Row)
    requires forall column :: column in l && column in r ==> MayMatch(l[column], r[column])
    ensures row.Keys == columns
    ensures forall column :: column in columns ==> Agrees(row[column], l, column) && Agrees(row[column], r, column)
    decreases columns
  {
    row := map[];
    if columns != {} {
      var column :| column in columns;
      row := RowFor(l, r, columns - {column});
      var cell := CellFor(l, r, column);
      row := row[column := cell];
    }
  }

  /** Row disjointness is exact: two selectors are declared disjoint if and only if no row satisfies both. */
  lemma RowDisjointIsExact(left: TableSelector, right: TableSelector)
    requires WellFormed(left) && WellFormed(right)
    ensures RowDisjoint(left, right) <==> !exists row: Row :: Satisfies(row, left) && Satisfies(row, right)
  {
    var l, r := ByColumn(left.predicates), ByColumn(right.predicates);
    if RowDisjoint(left, right) {
      var column :| column in l && column in r && !MayMatch(l[column], r[column]);
      forall row | Satisfies(row, left) ensures !Satisfies(row, right) {
        SatisfiesByColumn(row, left);
        SatisfiesByColumn(row, right);
        if RowMeets(row, r) {
          SharedCellMayMatch(row[column], l[column], r[column]);
        }
      }
    } else {
      var row := RowFor(l, r, l.Keys + r.Keys);
      SatisfiesByColumn(row, left);
      SatisfiesByColumn(row, right);
    }
  }

  // ---------------------------------------------------------------- tables without nulls

  ghost predicate CsvSatisfies(row: map<string, string>, s: TableSelector) {
    forall p :: p in s.predicates ==> p.column in row && CsvCellMatches(row[p.column], p.test) == Some(true)
  }

  ghost predicate UsesNull(s: TableSelector) { exists p :: p in s.predicates && p.test.NullIs? }

  /** On comma-separated tables the decision stays sound, and it is exact exactly when no null predicate makes a
      selector match nothing that the decision has not seen. */
  lemma CsvDisjoint(left: TableSelector, right: TableSelector)
    requires WellFormed(left) && WellFormed(right)
    ensures (!exists row: map<string, string> :: CsvSatisfies(row, left) && CsvSatisfies(row, right)) <==>
            RowDisjoint(left, right) || UsesNull(left) || UsesNull(right)
  {
    RowDisjointIsExact(left, right);
    if row: map<string, string> :| CsvSatisfies(row, left) && CsvSatisfies(row, right) {
      var typed: Row := map column | column in row :: Text(row[column]);
      CsvRowIsRow(row, typed, left);
      CsvRowIsRow(row, typed, right);
      assert Satisfies(typed, left) && Satisfies(typed, right);
    }
    if !RowDisjoint(left, right) && !UsesNull(left) && !UsesNull(right) {
      var row: Row :| Satisfies(row, left) && Satisfies(row, right);
      var texts: map<string, string> := map column | column in row ::
        if row[column].Text? then row[column].text else "";
      RowIsCsvRow(row, texts, left);
      RowIsCsvRow(row, texts, right);
    }
  }

  lemma CsvRowIsRow(row: map<string, string>, typed: Row, s: TableSelector)
    requires CsvSatisfies(row, s) && typed == map column | column in row :: Text(row[column])
    ensures Satisfies(typed, s) && !UsesNull(s)
  {
  }

  lemma RowIsCsvRow(row: Row, texts: map<string, string>, s: TableSelector)
    requires Satisfies(row, s) && !UsesNull(s)
    requires texts == map column | column in row :: if row[column].Text? then row[column].text else ""
    ensures CsvSatisfies(texts, s)
  {
    forall p | p in s.predicates
      ensures p.column in texts && CsvCellMatches(texts[p.column], p.test) == Some(true)
    {
      assert Fits(row[p.column], p.test) && !p.test.NullIs?;
    }
  }
}
