/**
 * The missing-data part of the quality analysis: null counts and
 * percentages, the severity tier, completely missing columns and rows, and
 * the runs ("clusters") of consecutive nulls in each column.
 */
module MissingData {
  import opened Wrappers
  import opened Floats
  import opened Tables

  /**
   * What `analyze_dataset` raises on a table pandas accepts: a `ValueError`
   * when two columns share a name, since `missing_matrix[col]` is then a
   * frame whose `any()` has no single truth value; and the indexing error of
   * `df[df.duplicated(keep=False)]` on a table with rows but no column, whose
   * duplicate mask pandas leaves empty; and the `AttributeError` of the
   * `.str` accessor on an object column holding only numbers or only
   * timestamps, which the format check of the type analysis raises.
   */
  datatype AnalysisError = AmbiguousTruthValue | UnalignableMask | StrAccessorRefused

  /** Some other column carries the name of column `k`. */
  predicate SharedName(cols: seq<Column>, k: nat)
    requires k < |cols|
  {
    exists j :: 0 <= j < |cols| && j != k && cols[j].name == cols[k].name
  }

  /** Some column shares its name exactly when the names are not distinct. */
  lemma SharedNameIffRepeated(cols: seq<Column>)
    ensures (exists k :: 0 <= k < |cols| && SharedName(cols, k)) <==> !DistinctNames(cols)
  {
    if !DistinctNames(cols) {
      var i, j :| 0 <= i < j < |cols| && cols[i].name == cols[j].name;
      assert SharedName(cols, i);
    }
  }

  /** The three tiers every assessment of the analyzer reports. */
  datatype Severity = Low | Medium | High

  function SeverityRank(s: Severity): nat {
    match s
    case Low => 0
    case Medium => 1
    case High => 2
  }

  /** Nulls over every column (`df.isnull().sum().sum()`). */
  function TotalMissing(cols: seq<Column>): nat {
    if cols == [] then 0
    else TotalMissing(cols[..|cols| - 1]) + NullCount(cols[|cols| - 1].cells)
  }

  /** `df.size`: rows times columns. */
  function TotalCells(t: Table): nat {
    |t.labels| * |t.columns|
  }

  lemma {:induction false} TotalMissingBound(cols: seq<Column>, rows: nat)
    requires forall c :: c in cols ==> |c.cells| == rows
    ensures TotalMissing(cols) <= |cols| * rows
  {
    if cols != [] {
      var p := cols[..|cols| - 1];
      assert forall c :: c in p ==> c in cols;
      TotalMissingBound(p, rows);
      assert cols[|cols| - 1] in cols;
      calc {
        |cols| * rows;
        == (|p| + 1) * rows;
        == |p| * rows + rows;
      }
    }
  }

  /** Null cells as a percentage of all cells; NaN for a table without cells. */
  function MissingPercentage(t: Table): (r: Float)
    requires WellFormed(t)
    ensures r.NaN? <==> |t.labels| == 0 || |t.columns| == 0
    ensures r.Finite? ==> 0.0 <= r.v <= 100.0
    ensures r.Finite? ==> r.v * (TotalCells(t) as real) == 100.0 * (TotalMissing(t.columns) as real)
  {
    TotalMissingBound(t.columns, |t.labels|);
    Percent(TotalMissing(t.columns), TotalCells(t))
  }

  /** One entry of `column_missing` and `column_missing_pct`. */
  datatype ColumnMissing = ColumnMissing(count: nat, pct: Float)

  /**
   * The per-column null counts and percentages keyed by column name
   * (`to_dict()`: a later column of the same name overrides an earlier one).
   */
  function ColumnMissingMap(cols: seq<Column>, rows: nat): (m: map<string, ColumnMissing>)
    requires forall c :: c in cols ==> |c.cells| == rows
    ensures forall c :: c in cols ==> c.name in m
  {
    if cols == [] then map[]
    else
      var p := cols[..|cols| - 1];
      var last := cols[|cols| - 1];
      assert forall c :: c in p ==> c in cols;
      ColumnMissingMap(p, rows)[last.name := ColumnMissing(NullCount(last.cells), Percent(NullCount(last.cells), rows))]
  }

  /** The entry of a column is its own count and percentage unless a later column has the same name. */
  lemma {:induction false} ColumnMissingMapEntry(cols: seq<Column>, rows: nat, k: nat)
    requires forall c :: c in cols ==> |c.cells| == rows
    requires k < |cols|
    requires forall j :: k < j < |cols| ==> cols[j].name != cols[k].name
    ensures ColumnMissingMap(cols, rows)[cols[k].name]
      == ColumnMissing(NullCount(cols[k].cells), Percent(NullCount(cols[k].cells), rows))
  {
    if k < |cols| - 1 {
      var p := cols[..|cols| - 1];
      assert forall c :: c in p ==> c in cols;
      ColumnMissingMapEntry(p, rows, k);
    }
  }

  /** `_assess_missing_severity`: under 5% low, under 20% medium, otherwise (NaN included) high. */
  function AssessMissingSeverity(pct: Float): (s: Severity)
    ensures s == Low <==> Below(pct, 5.0)
    ensures s == High <==> pct.NaN? || pct.v >= 20.0
  {
    if Below(pct, 5.0) then Low
    else if Below(pct, 20.0) then Medium
    else High
  }

  /** A larger finite percentage never gets a milder tier. */
  lemma MissingSeverityMonotone(p: real, q: real)
    requires p <= q
    ensures SeverityRank(AssessMissingSeverity(Finite(p))) <= SeverityRank(AssessMissingSeverity(Finite(q)))
  {
  }

  /** The names of the columns whose every cell is null (all of them when there are no rows). */
  function CompletelyMissingColumns(cols: seq<Column>): (r: seq<string>)
    ensures forall n :: n in r <==> exists c :: c in cols && c.name == n && NullCount(c.cells) == |c.cells|
    ensures |r| <= |cols|
  {
    if cols == [] then []
    else
      var p := cols[..|cols| - 1];
      var last := cols[|cols| - 1];
      assert forall c :: c in cols ==> c in p || c == last;
      CompletelyMissingColumns(p) + (if NullCount(last.cells) == |last.cells| then [last.name] else [])
  }

  /** Every cell of row `i` is null (vacuously so in a table without columns). */
  predicate RowIsNull(t: Table, i: nat)
    requires WellFormed(t) && i < |t.labels|
  {
    forall c :: 0 <= c < |t.columns| ==> t.columns[c].cells[i].None?
  }

  /** The number of all-null rows among the first `n`. */
  function NullRowsUpTo(t: Table, n: nat): (r: nat)
    requires WellFormed(t) && n <= |t.labels|
    ensures r <= n
  {
    if n == 0 then 0
    else NullRowsUpTo(t, n - 1) + (if RowIsNull(t, n - 1) then 1 else 0)
  }

  /** `df[df.isnull().all(axis=1)].shape[0]`. */
  function CompletelyMissingRows(t: Table): nat
    requires WellFormed(t)
  {
    NullRowsUpTo(t, |t.labels|)
  }

  lemma {:induction false} NullRowsCountsEveryRow(t: Table, n: nat)
    requires WellFormed(t) && n <= |t.labels|
    requires forall i :: 0 <= i < n ==> RowIsNull(t, i)
    ensures NullRowsUpTo(t, n) == n
  {
    if n > 0 {
      NullRowsCountsEveryRow(t, n - 1);
    }
  }

  /** Without columns every row counts as completely missing. */
  lemma NoColumnsAllRowsMissing(t: Table)
    requires WellFormed(t) && t.columns == []
    ensures CompletelyMissingRows(t) == |t.labels|
  {
    NullRowsCountsEveryRow(t, |t.labels|);
  }

  /** A run of consecutive nulls at positions [start, stop). */
  datatype Run = Run(start: nat, stop: nat)

  /** The end of the null run that begins at position `i` (`i` itself when cell `i` is present). */
  function RunStop(cells: seq<Cell>, i: nat): (j: nat)
    requires i <= |cells|
    ensures i <= j <= |cells|
    ensures forall k :: i <= k < j ==> cells[k].None?
    ensures j == |cells| || cells[j].Some?
    decreases |cells| - i
  {
    if i == |cells| || cells[i].Some? then i else RunStop(cells, i + 1)
  }

  /** The maximal null runs from position `i` on, in position order. */
  function RunsFrom(cells: seq<Cell>, i: nat): (rs: seq<Run>)
    requires i <= |cells|
    ensures forall k :: 0 <= k < |rs| ==> i <= rs[k].start < rs[k].stop <= |cells|
    decreases |cells| - i
  {
    if i == |cells| then []
    else if cells[i].Some? then RunsFrom(cells, i + 1)
    else
      var j := RunStop(cells, i);
      assert j > i;
      [Run(i, j)] + RunsFrom(cells, j)
  }

  /** Every cell of every run is null. */
  lemma {:induction false} RunsAreNull(cells: seq<Cell>, i: nat)
    requires i <= |cells|
    ensures var rs := RunsFrom(cells, i);
      forall k, p :: 0 <= k < |rs| && rs[k].start <= p < rs[k].stop ==> cells[p].None?
    decreases |cells| - i
  {
    if i < |cells| {
      if cells[i].Some? {
        assert RunsFrom(cells, i) == RunsFrom(cells, i + 1);
        RunsAreNull(cells, i + 1);
      } else {
        var j := RunStop(cells, i);
        RunsAreNull(cells, j);
        assert RunsFrom(cells, i) == [Run(i, j)] + RunsFrom(cells, j);
      }
    }
  }

  /**
   * Runs are maximal: each starts at the top of the column or below a
   * present cell and ends at the bottom or above a present cell.
   */
  predicate Maximal(cells: seq<Cell>, rs: seq<Run>) {
    forall k :: 0 <= k < |rs| ==>
      rs[k].start < rs[k].stop <= |cells| &&
      (rs[k].start == 0 || cells[rs[k].start - 1].Some?) &&
      (rs[k].stop == |cells| || cells[rs[k].stop].Some?)
  }

  lemma {:induction false} RunsAreMaximal(cells: seq<Cell>, i: nat)
    requires i <= |cells|
    requires i == 0 || i == |cells| || cells[i - 1].Some? || cells[i].Some?
    ensures Maximal(cells, RunsFrom(cells, i))
    decreases |cells| - i
  {
    if i < |cells| {
      if cells[i].Some? {
        assert RunsFrom(cells, i) == RunsFrom(cells, i + 1);
        RunsAreMaximal(cells, i + 1);
      } else {
        var j := RunStop(cells, i);
        RunsAreMaximal(cells, j);
        assert RunsFrom(cells, i) == [Run(i, j)] + RunsFrom(cells, j);
        MaximalCons(cells, Run(i, j), RunsFrom(cells, j));
      }
    }
  }

  lemma MaximalCons(cells: seq<Cell>, run: Run, rest: seq<Run>)
    requires Maximal(cells, rest) && Maximal(cells, [run])
    ensures Maximal(cells, [run] + rest)
  {
    var rs := [run] + rest;
    forall k | 0 < k < |rs|
      ensures rs[k] == rest[k - 1]
    {
    }
  }

  /** Each run ends strictly before the next one starts. */
  predicate Separated(rs: seq<Run>) {
    forall k :: 0 <= k < |rs| - 1 ==> rs[k].stop < rs[k + 1].start
  }

  /** Neighbouring runs are separated by at least one present cell. */
  lemma {:induction false} RunsSeparated(cells: seq<Cell>, i: nat)
    requires i <= |cells|
    ensures Separated(RunsFrom(cells, i))
    decreases |cells| - i
  {
    if i < |cells| {
      if cells[i].Some? {
        assert RunsFrom(cells, i) == RunsFrom(cells, i + 1);
        RunsSeparated(cells, i + 1);
      } else {
        var j := RunStop(cells, i);
        RunsSeparated(cells, j);
        RunsAreMaximal(cells, j);
        var rest, rs := RunsFrom(cells, j), RunsFrom(cells, i);
        assert rs == [Run(i, j)] + rest;
        forall k | 0 <= k < |rs| - 1
          ensures rs[k].stop < rs[k + 1].start
        {
          if k == 0 {
            assert cells[j - 1].None?;
          } else {
            assert rs[k] == rest[k - 1] && rs[k + 1] == rest[k];
          }
        }
      }
    }
  }

  /** Every null from position `i` on lies in one of the runs. */
  lemma {:induction false} RunsCoverNulls(cells: seq<Cell>, i: nat)
    requires i <= |cells|
    ensures var rs := RunsFrom(cells, i);
      forall p :: i <= p < |cells| && cells[p].None? ==> exists k :: 0 <= k < |rs| && rs[k].start <= p < rs[k].stop
    decreases |cells| - i
  {
    if i < |cells| {
      if cells[i].Some? {
        assert RunsFrom(cells, i) == RunsFrom(cells, i + 1);
        RunsCoverNulls(cells, i + 1);
      } else {
        var j := RunStop(cells, i);
        RunsCoverNulls(cells, j);
        var rest := RunsFrom(cells, j);
        var rs := RunsFrom(cells, i);
        assert rs == [Run(i, j)] + rest;
        forall p | i <= p < |cells| && cells[p].None?
          ensures exists k :: 0 <= k < |rs| && rs[k].start <= p < rs[k].stop
        {
          if p < j {
            assert rs[0].start <= p < rs[0].stop;
          } else {
            var k :| 0 <= k < |rest| && rest[k].start <= p < rest[k].stop;
            assert rs[k + 1] == rest[k];
          }
        }
      }
    }
  }

  /** A column without nulls has no runs. */
  lemma {:induction false} NoNullsNoRuns(cells: seq<Cell>, i: nat)
    requires i <= |cells|
    requires forall k :: i <= k < |cells| ==> cells[k].Some?
    ensures RunsFrom(cells, i) == []
    decreases |cells| - i
  {
    if i < |cells| {
      NoNullsNoRuns(cells, i + 1);
    }
  }

  /** One reported cluster: the labels of its first and last row and its length. */
  datatype Cluster = Cluster(column: string, startIndex: int, endIndex: int, length: nat)

  function ToClusters(name: string, labels: seq<int>, rs: seq<Run>): (r: seq<Cluster>)
    requires forall k :: 0 <= k < |rs| ==> rs[k].start < rs[k].stop <= |labels|
    ensures |r| == |rs|
  {
    if rs == [] then []
    else
      [Cluster(name, labels[rs[0].start], labels[rs[0].stop - 1], rs[0].stop - rs[0].start)]
        + ToClusters(name, labels, rs[1..])
  }

  /** The sum of the `length` fields. */
  function TotalLength(cs: seq<Cluster>): nat {
    if cs == [] then 0 else cs[0].length + TotalLength(cs[1..])
  }

  /** The clusters from position `i` on are as long, together, as the nulls from `i` on are many. */
  lemma {:induction false} ClusterLengthsFrom(name: string, labels: seq<int>, cells: seq<Cell>, i: nat)
    requires i <= |cells| == |labels|
    ensures TotalLength(ToClusters(name, labels, RunsFrom(cells, i))) == NullCount(cells[i..])
    decreases |cells| - i
  {
    if i == |cells| {
      assert cells[i..] == [];
    } else if cells[i].Some? {
      ClusterLengthsFrom(name, labels, cells, i + 1);
      assert cells[i..] == [cells[i]] + cells[i + 1..];
      NullCountAppend([cells[i]], cells[i + 1..]);
      assert [cells[i]][..0] == [];
    } else {
      var j := RunStop(cells, i);
      var rest := RunsFrom(cells, j);
      assert RunsFrom(cells, i) == [Run(i, j)] + rest;
      assert ([Run(i, j)] + rest)[1..] == rest;
      var cs := ToClusters(name, labels, RunsFrom(cells, i));
      assert cs[0].length == j - i && cs[1..] == ToClusters(name, labels, rest);
      ClusterLengthsFrom(name, labels, cells, j);
      NullRunCount(cells, i, j);
    }
  }

  /** A run of nulls from `i` to `j` adds its length to the null count after it. */
  lemma NullRunCount(cells: seq<Cell>, i: nat, j: nat)
    requires i <= j <= |cells|
    requires forall k :: i <= k < j ==> cells[k].None?
    ensures NullCount(cells[i..]) == (j - i) + NullCount(cells[j..])
  {
    assert cells[i..] == cells[i..j] + cells[j..];
    NullCountAppend(cells[i..j], cells[j..]);
    NullCountFull(cells[i..j]);
  }

  /** The lengths of a column's clusters add up to its null count. */
  lemma ClusterLengthsCountNulls(c: Column, labels: seq<int>)
    requires |c.cells| == |labels|
    ensures TotalLength(ColumnClusters(c, labels)) == NullCount(c.cells)
  {
    ClusterLengthsFrom(c.name, labels, c.cells, 0);
    assert c.cells[0..] == c.cells;
  }

  /** The clusters of one column. */
  function ColumnClusters(c: Column, labels: seq<int>): seq<Cluster>
    requires |c.cells| == |labels|
  {
    ToClusters(c.name, labels, RunsFrom(c.cells, 0))
  }

  /** The clusters of every column, column after column. */
  function AllClusters(cols: seq<Column>, labels: seq<int>): seq<Cluster>
    requires forall c :: c in cols ==> |c.cells| == |labels|
  {
    if cols == [] then []
    else
      assert cols[|cols| - 1] in cols;
      AllClusters(cols[..|cols| - 1], labels) + ColumnClusters(cols[|cols| - 1], labels)
  }

  /** A block of nulls from `i` to `j` opens the clusters from `i` on. */
  lemma ClustersStep(name: string, labels: seq<int>, cells: seq<Cell>, i: nat, j: nat)
    requires i < j <= |cells| == |labels| && cells[i].None?
    requires RunStop(cells, j) == RunStop(cells, i) && (j == |cells| || cells[j].Some?)
    ensures ToClusters(name, labels, RunsFrom(cells, i)) ==
      [Cluster(name, labels[i], labels[j - 1], j - i)] + ToClusters(name, labels, RunsFrom(cells, j))
  {
    var rs := RunsFrom(cells, i);
    assert rs == [Run(i, j)] + RunsFrom(cells, j);
    assert rs[1..] == RunsFrom(cells, j);
  }

  lemma AppendAssoc<T>(a: seq<T>, b: seq<T>, c: seq<T>)
    ensures (a + b) + c == a + (b + c)
  {
  }

  /** Steps from the null at `i` past the last null of its block. */
  method ScanNullRun(cells: seq<Cell>, i: nat) returns (j: nat)
    requires i < |cells| && cells[i].None?
    ensures i < j <= |cells| && j == RunStop(cells, i)
    ensures RunStop(cells, j) == RunStop(cells, i) && (j == |cells| || cells[j].Some?)
  {
    j := i + 1;
    while j < |cells| && cells[j].None?
      invariant i < j <= |cells|
      invariant RunStop(cells, j) == RunStop(cells, i)
      decreases |cells| - j
    {
      j := j + 1;
    }
  }

  /** Walks one column and reports every block of consecutive nulls, in order. */
  method ColumnClustersLoop(col: Column, labels: seq<int>) returns (clusters: seq<Cluster>)
    requires |col.cells| == |labels|
    ensures clusters == ColumnClusters(col, labels)
  {
    var cells := col.cells;
    var n := |cells|;
    clusters := [];
    var i := 0;
    while i < n
      invariant 0 <= i <= n
      invariant clusters + ToClusters(col.name, labels, RunsFrom(cells, i)) == ColumnClusters(col, labels)
      decreases n - i
    {
      if cells[i].Some? {
        i := i + 1;
      } else {
        var j := ScanNullRun(cells, i);
        ClustersStep(col.name, labels, cells, i, j);
        ghost var later := ToClusters(col.name, labels, RunsFrom(cells, j));
        AppendAssoc(clusters, [Cluster(col.name, labels[i], labels[j - 1], j - i)], later);
        clusters := clusters + [Cluster(col.name, labels[i], labels[j - 1], j - i)];
        i := j;
      }
    }
  }

  /**
   * `_find_missing_clusters`: the clusters of every column that has a null,
   * column after column. A column whose name another column shares raises,
   * whether or not it has a null.
   */
  method FindMissingClusters(t: Table) returns (r: Result<seq<Cluster>, AnalysisError>)
    requires WellFormed(t)
    ensures r.Err? <==> !DistinctNames(t.columns)
    ensures r.Err? ==> r.error == AmbiguousTruthValue
    ensures r.Ok? ==> r.value == AllClusters(t.columns, t.labels)
  {
    var clusters := [];
    var ci := 0;
    while ci < |t.columns|
      invariant 0 <= ci <= |t.columns|
      invariant clusters == AllClusters(t.columns[..ci], t.labels)
      invariant forall k :: 0 <= k < ci ==> !SharedName(t.columns, k)
    {
      var col := t.columns[ci];
      if exists j :: 0 <= j < |t.columns| && j != ci && t.columns[j].name == col.name {
        assert SharedName(t.columns, ci);
        SharedNameIffRepeated(t.columns);
        return Err(AmbiguousTruthValue);
      }
      assert col in t.columns;
      assert t.columns[..ci + 1][..ci] == t.columns[..ci];
      if NullCount(col.cells) > 0 {
        var more := ColumnClustersLoop(col, t.labels);
        clusters := clusters + more;
      } else {
        NullCountZero(col.cells);
        NoNullsNoRuns(col.cells, 0);
      }
      ci := ci + 1;
    }
    assert t.columns[..|t.columns|] == t.columns;
    SharedNameIffRepeated(t.columns);
    r := Ok(clusters);
  }

  /** With the default row labels 0, 1, 2, ... a cluster spans end - start + 1 rows. */
  lemma {:induction false} ClusterSpan(name: string, labels: seq<int>, rs: seq<Run>)
    requires forall k :: 0 <= k < |rs| ==> rs[k].start < rs[k].stop <= |labels|
    requires forall p :: 0 <= p < |labels| ==> labels[p] == p
    ensures forall c :: c in ToClusters(name, labels, rs) ==> c.endIndex - c.startIndex + 1 == c.length
  {
    if rs != [] {
      ClusterSpan(name, labels, rs[1..]);
    }
  }

  /** The patterns part of the missing-data report. */
  datatype MissingPatterns = MissingPatterns(
    completelyMissingColumns: seq<string>,
    completelyMissingRows: nat,
    missingClusters: seq<Cluster>)

  datatype MissingReport = MissingReport(
    totalMissing: nat,
    totalCells: nat,
    missingPercentage: Float,
    columnMissing: map<string, ColumnMissing>,
    patterns: MissingPatterns,
    severity: Severity)

  /**
   * `_analyze_missing_data` of the analyzer; it raises, in the cluster
   * search, exactly when two columns share a name.
   */
  function AnalyzeMissing(t: Table): (r: Result<MissingReport, AnalysisError>)
    requires WellFormed(t)
    ensures r.Err? <==> !DistinctNames(t.columns)
    ensures r.Err? ==> r.error == AmbiguousTruthValue
    ensures r.Ok? ==> r.value.totalMissing <= r.value.totalCells
    ensures r.Ok? ==> (r.value.severity == Low <==> Below(r.value.missingPercentage, 5.0))
    ensures r.Ok? && r.value.missingPercentage.NaN? ==> r.value.severity == High
    ensures r.Ok? ==> forall c :: c in t.columns ==> c.name in r.value.columnMissing
  {
    if !DistinctNames(t.columns) then Err(AmbiguousTruthValue)
    else
      TotalMissingBound(t.columns, |t.labels|);
      var pct := MissingPercentage(t);
      Ok(MissingReport(TotalMissing(t.columns), TotalCells(t), pct,
        ColumnMissingMap(t.columns, |t.labels|),
        MissingPatterns(CompletelyMissingColumns(t.columns), CompletelyMissingRows(t), AllClusters(t.columns, t.labels)),
        AssessMissingSeverity(pct)))
  }
}
