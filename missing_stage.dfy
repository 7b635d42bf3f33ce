/**
 * Stage 1 of the cleaner, `_handle_missing_data`: every column with a null,
 * in the order of the columns when the stage starts, is imputed by the method
 * its missing percentage selects, and the choice is recorded and logged.
 */
module MissingStage {
  import opened Wrappers
  import opened Floats
  import opened Tables
  import opened Foreign
  import opened MissingData
  import opened Imputation
  import opened CleaningLog
  import opened Analyzer

  /**
   * The column `drop_column` leaves behind: the column is dropped, then the
   * empty series returned for it is assigned to the same name, which appends
   * an all-null object column.
   */
  function AllNull(name: string, rows: nat): (c: Column)
    ensures c.name == name && |c.cells| == rows && NullCount(c.cells) == rows
  {
    var cells := seq(rows, i => None);
    NullCountFull(cells);
    Column(name, Object, cells)
  }

  /** The columns without the one at position `k`. */
  function Without(cols: seq<Column>, k: nat): (r: seq<Column>)
    requires k < |cols|
    ensures |r| == |cols| - 1
    ensures forall c :: c in r <==> exists j :: 0 <= j < |cols| && j != k && cols[j] == c
  {
    var r := cols[..k] + cols[k + 1..];
    assert forall j :: 0 <= j < |cols| && j != k ==> cols[j] == r[if j < k then j else j - 1];
    r
  }

  /** `drop_column` on the table: the column at `k` is removed and an all-null one of its name appended. */
  function DropAndReappend(t: Table, k: nat): (r: Table)
    requires WellFormed(t) && DistinctNames(t.columns) && k < |t.columns|
    ensures WellFormed(r) && DistinctNames(r.columns) && r.labels == t.labels
    ensures forall d :: d in t.columns && d.name != t.columns[k].name ==> d in r.columns
    ensures AllNull(t.columns[k].name, |t.labels|) in r.columns
  {
    var name := t.columns[k].name;
    var rest := Without(t.columns, k);
    var cols := rest + [AllNull(name, |t.labels|)];
    forall d | d in t.columns && d.name != name
      ensures d in rest
    {
      var j :| 0 <= j < |t.columns| && t.columns[j] == d;
      assert j != k;
    }
    ReappendedDistinct(t.columns, k, AllNull(name, |t.labels|));
    assert forall d :: d in rest ==> d in t.columns;
    Table(t.labels, cols)
  }

  lemma ReappendedDistinct(cols: seq<Column>, k: nat, x: Column)
    requires DistinctNames(cols) && k < |cols| && x.name == cols[k].name
    ensures DistinctNames(Without(cols, k) + [x])
  {
    var rest := Without(cols, k);
    var out := rest + [x];
    assert rest == cols[..k] + cols[k + 1..];
    forall i, j | 0 <= i < j < |out|
      ensures out[i].name != out[j].name
    {
      var i' := if i < k then i else i + 1;
      assert out[i] == cols[i'];
      if j < |rest| {
        var j' := if j < k then j else j + 1;
        assert out[j] == cols[j'];
      }
    }
  }

  /** Puts the result of imputing the column at position `k` into the table. */
  function Install(t: Table, k: nat, f: Fill): (r: Table)
    requires WellFormed(t) && DistinctNames(t.columns) && k < |t.columns|
    requires f.Filled? ==> f.column.name == t.columns[k].name && |f.column.cells| == |t.labels|
    ensures WellFormed(r) && DistinctNames(r.columns) && r.labels == t.labels
    ensures forall d :: d in t.columns && d.name != t.columns[k].name ==> d in r.columns
    ensures (if f.Dropped? then AllNull(t.columns[k].name, |t.labels|) else f.column) in r.columns
  {
    match f
    case Filled(c, _) =>
      var r := ReplaceColumn(t, k, c);
      assert r.columns[k] == c;
      forall d | d in t.columns && d.name != t.columns[k].name
        ensures d in r.columns
      {
        var j :| 0 <= j < |t.columns| && t.columns[j] == d;
        assert r.columns[j] == d;
      }
      r
    case Dropped => DropAndReappend(t, k)
  }

  /** The method chosen for a column with nulls. */
  function Chosen(c: Column, pcts: map<string, ColumnMissing>): ImputationMethod
    requires c.name in pcts
  {
    SelectImputationMethod(pcts[c.name].pct, IsNumeric(c.dtype))
  }

  /** The imputers a fill records. */
  function Record(imputers: map<string, Imputer>, name: string, f: Fill): map<string, Imputer> {
    if f.Filled? && f.imputer.Some? then imputers[name := f.imputer.value] else imputers
  }

  /** One turn of the loop of `_handle_missing_data`, for the column named `name`. */
  function ImputeOne(lib: Library, p: Pipeline, name: string, pcts: map<string, ColumnMissing>): (r: Result<Pipeline, CleanError>)
    requires Valid(p) && HasColumn(p.table.columns, name)
    ensures r.Ok? ==> Valid(r.value) && r.value.table.labels == p.table.labels
    ensures r.Ok? ==> forall d :: d in p.table.columns && d.name != name ==> d in r.value.table.columns
  {
    var t := p.table;
    var k := IndexOf(t.columns, name);
    var c := t.columns[k];
    assert c in t.columns;
    var missing := NullCount(c.cells);
    if missing == 0 then Ok(p)
    else if name !in pcts then Err(MissingPercentageOf(name))
    else
      var m := SelectImputationMethod(pcts[name].pct, IsNumeric(c.dtype));
      match ApplyImputation(lib, t, k, m)
      case Err(e) => Err(e)
      case Ok(f) =>
        var t' := Install(t, k, f);
        var installed := if f.Dropped? then AllNull(name, |t.labels|) else f.column;
        ColumnNamedUnique(t'.columns, installed);
        var s := p.results.imputationSummary;
        var q := p.(table := t', imputers := Record(p.imputers, name, f),
          results := p.results.(imputationSummary := ImputationSummary(s.columnsImputed + [name], s.methodsUsed[name := m])));
        Ok(Log(q, Imputed(missing, name, m)))
  }

  /**
   * One turn leaves a column without a null as it was. For a column with a
   * null it records the chosen method, appends one log line, and installs
   * either an all-null column (dropped) or a fill of the nulls only.
   */
  lemma ImputeOneEffect(lib: Library, p: Pipeline, name: string, pcts: map<string, ColumnMissing>)
    requires Valid(p) && HasColumn(p.table.columns, name)
    ensures var c := ColumnNamed(p.table.columns, name);
      NullCount(c.cells) == 0 ==> ImputeOne(lib, p, name, pcts) == Ok(p)
    ensures var c := ColumnNamed(p.table.columns, name);
      var r := ImputeOne(lib, p, name, pcts);
      r.Ok? && NullCount(c.cells) > 0 ==>
        name in pcts &&
        var q := r.value;
        var m := Chosen(c, pcts);
        q.results.cleaningSteps == p.results.cleaningSteps + [Imputed(NullCount(c.cells), name, m)] &&
        q.results.imputationSummary.columnsImputed == p.results.imputationSummary.columnsImputed + [name] &&
        q.results.imputationSummary.methodsUsed == p.results.imputationSummary.methodsUsed[name := m] &&
        HasColumn(q.table.columns, name) &&
        (m == DropColumn ==> ColumnNamed(q.table.columns, name) == AllNull(name, |p.table.labels|)) &&
        (m != DropColumn ==> FillsNullsOnly(c, ColumnNamed(q.table.columns, name)))
  {
    var t := p.table;
    var k := IndexOf(t.columns, name);
    var c := t.columns[k];
    var r := ImputeOne(lib, p, name, pcts);
    if r.Ok? && NullCount(c.cells) > 0 {
      var m := SelectImputationMethod(pcts[name].pct, IsNumeric(c.dtype));
      var f := ApplyImputation(lib, t, k, m).value;
      var installed := if f.Dropped? then AllNull(name, |t.labels|) else f.column;
      ColumnNamedUnique(Install(t, k, f).columns, installed);
    }
  }

  /** The loop of `_handle_missing_data` over the columns as they were when it started. */
  function ImputeColumns(lib: Library, p: Pipeline, cols: seq<Column>, pcts: map<string, ColumnMissing>): (r: Result<Pipeline, CleanError>)
    requires Valid(p) && DistinctNames(cols)
    requires forall c :: c in cols ==> c in p.table.columns
    ensures r.Ok? ==> Valid(r.value) && r.value.table.labels == p.table.labels
    decreases |cols|
  {
    if cols == [] then Ok(p)
    else
      ColumnNamedUnique(p.table.columns, cols[0]);
      match ImputeOne(lib, p, cols[0].name, pcts)
      case Err(e) => Err(e)
      case Ok(q) =>
        assert forall c :: c in cols[1..] ==> c.name != cols[0].name by {
          forall c | c in cols[1..]
            ensures c.name != cols[0].name
          {
            var j :| 0 <= j < |cols[1..]| && cols[1..][j] == c;
            assert cols[j + 1] == c;
          }
        }
        ImputeColumns(lib, q, cols[1..], pcts)
  }

  /** The percentages the stage uses: the analysis's, or its own of the table. */
  function MissingPercentages(t: Table, analysis: Option<AnalysisReport>): map<string, ColumnMissing>
    requires WellFormed(t)
  {
    if analysis.Some? then analysis.value.missingData.columnMissing
    else ColumnMissingMap(t.columns, |t.labels|)
  }

  /** `_handle_missing_data`. */
  function ImputeStage(lib: Library, p: Pipeline, analysis: Option<AnalysisReport>): (r: Result<Pipeline, CleanError>)
    requires Valid(p)
    ensures r.Ok? ==> Valid(r.value) && r.value.table.labels == p.table.labels
  {
    var pcts := MissingPercentages(p.table, analysis);
    var start := p.(results := p.results.(imputationSummary := ImputationSummary([], map[])));
    ImputeColumns(lib, start, p.table.columns, pcts)
  }

  // ----- what the stage records -----

  predicate NeedsImputation(c: Column) {
    NullCount(c.cells) > 0
  }

  predicate Covered(cols: seq<Column>, pcts: map<string, ColumnMissing>) {
    forall c :: c in cols && NeedsImputation(c) ==> c.name in pcts
  }

  /** The log lines of the loop: one per column with a null, in column order. */
  function Entries(cols: seq<Column>, pcts: map<string, ColumnMissing>): (r: seq<Step>)
    requires Covered(cols, pcts)
  {
    if cols == [] then []
    else
      var c := cols[0];
      (if NeedsImputation(c) then [Imputed(NullCount(c.cells), c.name, Chosen(c, pcts))] else []) +
      Entries(cols[1..], pcts)
  }

  /** The names of the columns with a null, in column order. */
  function ImputedNames(cols: seq<Column>): (r: seq<string>)
    ensures |r| <= |cols|
  {
    if cols == [] then []
    else
      (if NeedsImputation(cols[0]) then [cols[0].name] else []) + ImputedNames(cols[1..])
  }

  /** The state of a column after the loop. */
  predicate Treated(c: Column, cols: seq<Column>, pcts: map<string, ColumnMissing>, rows: nat)
    requires DistinctNames(cols)
  {
    if !NeedsImputation(c) then c in cols
    else
      c.name in pcts && HasColumn(cols, c.name) &&
      var m := Chosen(c, pcts);
      (m == DropColumn ==> ColumnNamed(cols, c.name) == AllNull(c.name, rows)) &&
      (m != DropColumn ==> FillsNullsOnly(c, ColumnNamed(cols, c.name)))
  }

  /** The first turn of the loop, in the terms of the records. */
  lemma ImputeFirst(lib: Library, p: Pipeline, cols: seq<Column>, pcts: map<string, ColumnMissing>) returns (q: Pipeline)
    requires Valid(p) && DistinctNames(cols) && cols != []
    requires forall c :: c in cols ==> c in p.table.columns
    requires ImputeColumns(lib, p, cols, pcts).Ok?
    ensures Valid(q) && (forall c :: c in cols[1..] ==> c in q.table.columns)
    ensures ImputeColumns(lib, p, cols, pcts) == ImputeColumns(lib, q, cols[1..], pcts)
    ensures Covered([cols[0]], pcts)
    ensures q.results.cleaningSteps == p.results.cleaningSteps + Entries([cols[0]], pcts)
    ensures q.results.imputationSummary.columnsImputed == p.results.imputationSummary.columnsImputed + ImputedNames([cols[0]])
    ensures NeedsImputation(cols[0]) ==>
      q.results.imputationSummary.methodsUsed == p.results.imputationSummary.methodsUsed[cols[0].name := Chosen(cols[0], pcts)]
    ensures !NeedsImputation(cols[0]) ==> q == p
  {
    var c := cols[0];
    ColumnNamedUnique(p.table.columns, c);
    q := ImputeOne(lib, p, c.name, pcts).value;
    ImputeOneEffect(lib, p, c.name, pcts);
    LaterNamesDiffer(cols);
    assert [c][1..] == [];
    assert ImputedNames([c]) == if NeedsImputation(c) then [c.name] else [];
  }

  /** A run that completes had a percentage for every column with a null. */
  lemma {:induction false} ImputeColumnsCovered(lib: Library, p: Pipeline, cols: seq<Column>, pcts: map<string, ColumnMissing>)
    requires Valid(p) && DistinctNames(cols)
    requires forall c :: c in cols ==> c in p.table.columns
    ensures ImputeColumns(lib, p, cols, pcts).Ok? ==> Covered(cols, pcts)
    decreases |cols|
  {
    if cols != [] && ImputeColumns(lib, p, cols, pcts).Ok? {
      var q := ImputeFirst(lib, p, cols, pcts);
      DistinctTail(cols);
      ImputeColumnsCovered(lib, q, cols[1..], pcts);
      CoveredSplit(cols, pcts);
    }
  }

  /** The loop logs one line per column with a null, in column order, and nothing else. */
  lemma {:induction false} ImputeColumnsLogs(lib: Library, p: Pipeline, cols: seq<Column>, pcts: map<string, ColumnMissing>)
    requires Valid(p) && DistinctNames(cols) && Covered(cols, pcts)
    requires forall c :: c in cols ==> c in p.table.columns
    ensures var r := ImputeColumns(lib, p, cols, pcts);
      r.Ok? ==> r.value.results.cleaningSteps == p.results.cleaningSteps + Entries(cols, pcts)
    decreases |cols|
  {
    if cols != [] && ImputeColumns(lib, p, cols, pcts).Ok? {
      var q := ImputeFirst(lib, p, cols, pcts);
      DistinctTail(cols);
      EntriesSplit(cols, pcts);
      ImputeColumnsLogs(lib, q, cols[1..], pcts);
      var r := ImputeColumns(lib, q, cols[1..], pcts).value;
      assert r.results.cleaningSteps == p.results.cleaningSteps + (Entries([cols[0]], pcts) + Entries(cols[1..], pcts));
    }
  }

  lemma EntriesSplit(cols: seq<Column>, pcts: map<string, ColumnMissing>)
    requires cols != [] && Covered(cols, pcts)
    ensures Covered([cols[0]], pcts) && Covered(cols[1..], pcts)
    ensures Entries(cols, pcts) == Entries([cols[0]], pcts) + Entries(cols[1..], pcts)
  {
    CoveredSplit(cols, pcts);
    assert [cols[0]][1..] == [];
  }

  /** The loop adds exactly one `columns_imputed` entry per column with a null, in column order. */
  lemma {:induction false} ImputeColumnsNames(lib: Library, p: Pipeline, cols: seq<Column>, pcts: map<string, ColumnMissing>)
    requires Valid(p) && DistinctNames(cols)
    requires forall c :: c in cols ==> c in p.table.columns
    ensures var r := ImputeColumns(lib, p, cols, pcts);
      r.Ok? ==>
        r.value.results.imputationSummary.columnsImputed == p.results.imputationSummary.columnsImputed + ImputedNames(cols)
    decreases |cols|
  {
    if cols != [] && ImputeColumns(lib, p, cols, pcts).Ok? {
      var q := ImputeFirst(lib, p, cols, pcts);
      var rest := cols[1..];
      DistinctTail(cols);
      ImputeColumnsNames(lib, q, rest, pcts);
      ImputedNamesSplit(cols);
      assert ImputeColumns(lib, q, rest, pcts).value.results.imputationSummary.columnsImputed ==
        p.results.imputationSummary.columnsImputed + (ImputedNames([cols[0]]) + ImputedNames(rest));
    }
  }

  lemma ImputedNamesSplit(cols: seq<Column>)
    requires cols != []
    ensures ImputedNames(cols) == ImputedNames([cols[0]]) + ImputedNames(cols[1..])
  {
    assert [cols[0]][1..] == [];
  }

  /** The loop records, for every column with a null, the method chosen for it. */
  lemma {:induction false} ImputeColumnsMethods(lib: Library, p: Pipeline, cols: seq<Column>, pcts: map<string, ColumnMissing>)
    requires Valid(p) && DistinctNames(cols) && Covered(cols, pcts)
    requires forall c :: c in cols ==> c in p.table.columns
    ensures var r := ImputeColumns(lib, p, cols, pcts);
      r.Ok? ==> forall c :: c in cols && NeedsImputation(c) ==>
        c.name in r.value.results.imputationSummary.methodsUsed &&
        r.value.results.imputationSummary.methodsUsed[c.name] == Chosen(c, pcts)
    decreases |cols|
  {
    if cols != [] && ImputeColumns(lib, p, cols, pcts).Ok? {
      var q := ImputeFirst(lib, p, cols, pcts);
      var rest := cols[1..];
      DistinctTail(cols);
      CoveredSplit(cols, pcts);
      ImputeColumnsMethods(lib, q, rest, pcts);
      ImputeColumnsKeepsMethod(lib, q, rest, pcts, cols[0].name);
      assert forall d :: d in cols <==> d == cols[0] || d in rest;
    }
  }

  /** The loop over `cols` leaves the method recorded for `name` alone when no column of `cols` has that name. */
  lemma {:induction false} ImputeColumnsKeepsMethod(lib: Library, p: Pipeline, cols: seq<Column>, pcts: map<string, ColumnMissing>, name: string)
    requires Valid(p) && DistinctNames(cols)
    requires forall c :: c in cols ==> c in p.table.columns
    requires forall c :: c in cols ==> c.name != name
    ensures var r := ImputeColumns(lib, p, cols, pcts);
      r.Ok? && name in p.results.imputationSummary.methodsUsed ==>
        name in r.value.results.imputationSummary.methodsUsed &&
        r.value.results.imputationSummary.methodsUsed[name] == p.results.imputationSummary.methodsUsed[name]
    decreases |cols|
  {
    if cols != [] && ImputeColumns(lib, p, cols, pcts).Ok? {
      var q := ImputeFirst(lib, p, cols, pcts);
      DistinctTail(cols);
      ImputeColumnsKeepsMethod(lib, q, cols[1..], pcts, name);
    }
  }

  lemma CoveredSplit(cols: seq<Column>, pcts: map<string, ColumnMissing>)
    requires cols != []
    ensures Covered(cols, pcts) <==> Covered([cols[0]], pcts) && Covered(cols[1..], pcts)
  {
    assert forall d :: d in cols <==> d == cols[0] || d in cols[1..];
  }

  /**
   * After the loop a column without a null is as it was; a column with one
   * is either replaced by an all-null column (dropped) or keeps its present
   * cells and has no null left.
   */
  lemma {:induction false} ImputeColumnsTreats(lib: Library, p: Pipeline, cols: seq<Column>, pcts: map<string, ColumnMissing>)
    requires Valid(p) && DistinctNames(cols)
    requires forall c :: c in cols ==> c in p.table.columns
    ensures var r := ImputeColumns(lib, p, cols, pcts);
      r.Ok? ==> forall c :: c in cols ==> Treated(c, r.value.table.columns, pcts, |p.table.labels|)
    decreases |cols|
  {
    var r := ImputeColumns(lib, p, cols, pcts);
    if cols != [] && r.Ok? {
      var c := cols[0];
      ColumnNamedUnique(p.table.columns, c);
      var q := ImputeOne(lib, p, c.name, pcts).value;
      ImputeOneEffect(lib, p, c.name, pcts);
      var rest := cols[1..];
      LaterNamesDiffer(cols);
      assert r == ImputeColumns(lib, q, rest, pcts);
      ImputeColumnsTreats(lib, q, rest, pcts);
      var s := r.value;
      assert forall d :: d in cols <==> d == c || d in rest;
      // The first column is not touched again: its name differs from every later one.
      ImputeColumnsFrame(lib, q, rest, pcts, c.name);
      if NeedsImputation(c) {
        var installed := ColumnNamed(q.table.columns, c.name);
        assert installed in s.table.columns;
        ColumnNamedUnique(s.table.columns, installed);
        assert Treated(c, s.table.columns, pcts, |p.table.labels|);
      } else {
        assert q == p;
      }
    }
  }

  /** The loop over `cols` leaves alone the column named `name` when no column of `cols` has that name. */
  lemma {:induction false} ImputeColumnsFrame(lib: Library, p: Pipeline, cols: seq<Column>, pcts: map<string, ColumnMissing>, name: string)
    requires Valid(p) && DistinctNames(cols)
    requires forall c :: c in cols ==> c in p.table.columns
    requires forall c :: c in cols ==> c.name != name
    ensures var r := ImputeColumns(lib, p, cols, pcts);
      r.Ok? ==> forall d :: d in p.table.columns && d.name == name ==> d in r.value.table.columns
    decreases |cols|
  {
    if cols != [] && ImputeColumns(lib, p, cols, pcts).Ok? {
      ColumnNamedUnique(p.table.columns, cols[0]);
      var q := ImputeOne(lib, p, cols[0].name, pcts).value;
      assert forall c :: c in cols[1..] ==> c.name != cols[0].name by {
        forall c | c in cols[1..]
          ensures c.name != cols[0].name
        {
          var j :| 0 <= j < |cols[1..]| && cols[1..][j] == c;
          assert cols[j + 1] == c;
        }
      }
      ImputeColumnsFrame(lib, q, cols[1..], pcts, name);
    }
  }

  /** No turn of the loop touches `original_shape`. */
  lemma {:induction false} ImputeColumnsShape(lib: Library, p: Pipeline, cols: seq<Column>, pcts: map<string, ColumnMissing>)
    requires Valid(p) && DistinctNames(cols)
    requires forall c :: c in cols ==> c in p.table.columns
    ensures var r := ImputeColumns(lib, p, cols, pcts);
      r.Ok? ==> r.value.results.originalShape == p.results.originalShape
    decreases |cols|
  {
    if cols != [] && ImputeColumns(lib, p, cols, pcts).Ok? {
      ColumnNamedUnique(p.table.columns, cols[0]);
      ImputeOneShape(lib, p, cols[0].name, pcts);
      var q := ImputeOne(lib, p, cols[0].name, pcts).value;
      LaterNamesDiffer(cols);
      DistinctTail(cols);
      ImputeColumnsShape(lib, q, cols[1..], pcts);
    }
  }

  lemma ImputeOneShape(lib: Library, p: Pipeline, name: string, pcts: map<string, ColumnMissing>)
    requires Valid(p) && HasColumn(p.table.columns, name)
    ensures var r := ImputeOne(lib, p, name, pcts);
      r.Ok? ==> r.value.results.originalShape == p.results.originalShape
  {
  }

  /** The analyzer's percentages of a table, when it analyses it, are the ones the stage would compute itself. */
  lemma AnalysisPercentagesAgree(lib: Library, t: Table)
    requires WellFormed(t) && Analyze(lib, t).Ok?
    ensures MissingPercentages(t, Some(Analyze(lib, t).value)) == MissingPercentages(t, None)
  {
  }

  /** With its own percentages the stage never lacks one. */
  lemma OwnPercentagesCover(t: Table)
    requires WellFormed(t)
    ensures Covered(t.columns, MissingPercentages(t, None))
  {
  }
}
