/**
 * The in-memory table (a pandas DataFrame): a row index of integer labels and
 * an ordered sequence of named, typed columns whose cells may be null.
 */
module Tables {
  import opened Wrappers

  /** A present cell value: a number, a string, or a timestamp (nanoseconds). */
  datatype Value = Num(x: real) | Str(s: string) | Stamp(t: int)

  /** A cell; `None` is pandas' null (NaN, None, NaT). */
  type Cell = Option<Value>

  /** The column dtypes the pipeline meets. */
  datatype Dtype = Int64 | Float64 | Object | Category | Datetime

  /** `str(df[col].dtype)`. */
  function DtypeName(d: Dtype): string {
    match d
    case Int64 => "int64"
    case Float64 => "float64"
    case Object => "object"
    case Category => "category"
    case Datetime => "datetime64[ns]"
  }

  /** `select_dtypes(include=[np.number])` and `is_numeric_dtype`. */
  predicate IsNumeric(d: Dtype) {
    d == Int64 || d == Float64
  }

  datatype Column = Column(name: string, dtype: Dtype, cells: seq<Cell>)

  datatype Table = Table(labels: seq<int>, columns: seq<Column>)

  /** Every column holds exactly one cell per row label. */
  predicate WellFormed(t: Table) {
    forall c :: c in t.columns ==> |c.cells| == |t.labels|
  }

  predicate DistinctNames(cols: seq<Column>) {
    forall i, j :: 0 <= i < j < |cols| ==> cols[i].name != cols[j].name
  }

  function Names(cols: seq<Column>): (r: seq<string>)
    ensures |r| == |cols| && forall k :: 0 <= k < |cols| ==> r[k] == cols[k].name
  {
    if cols == [] then [] else Names(cols[..|cols| - 1]) + [cols[|cols| - 1].name]
  }

  /** The pandas `shape`: (rows, columns). */
  datatype Shape = Shape(rows: nat, cols: nat)

  function ShapeOf(t: Table): Shape {
    Shape(|t.labels|, |t.columns|)
  }

  type Row = seq<Cell>

  function RowAt(t: Table, i: nat): (r: Row)
    requires WellFormed(t) && i < |t.labels|
    ensures |r| == |t.columns|
  {
    seq(|t.columns|, c requires 0 <= c < |t.columns| => t.columns[c].cells[i])
  }

  function Rows(t: Table): (rs: seq<Row>)
    requires WellFormed(t)
    ensures |rs| == |t.labels|
  {
    seq(|t.labels|, i requires 0 <= i < |t.labels| => RowAt(t, i))
  }

  /** The table restricted to the rows at positions `ps`, in that order. */
  function SelectRows(t: Table, ps: seq<nat>): (r: Table)
    requires WellFormed(t)
    requires forall k :: 0 <= k < |ps| ==> ps[k] < |t.labels|
    ensures WellFormed(r) && |r.labels| == |ps| && |r.columns| == |t.columns|
    ensures forall k :: 0 <= k < |ps| ==> r.labels[k] == t.labels[ps[k]]
    ensures forall c :: 0 <= c < |t.columns| ==>
      r.columns[c].name == t.columns[c].name && r.columns[c].dtype == t.columns[c].dtype
    ensures forall c, k :: 0 <= c < |t.columns| && 0 <= k < |ps| ==>
      r.columns[c].cells[k] == t.columns[c].cells[ps[k]]
  {
    var cols := seq(|t.columns|, c requires 0 <= c < |t.columns| =>
      var col := t.columns[c];
      assert col in t.columns;
      col.(cells := seq(|ps|, k requires 0 <= k < |ps| => col.cells[ps[k]])));
    assert forall c :: c in cols ==> |c.cells| == |ps|;
    Table(seq(|ps|, k requires 0 <= k < |ps| => t.labels[ps[k]]), cols)
  }

  lemma SelectRowsRow(t: Table, ps: seq<nat>, k: nat)
    requires WellFormed(t)
    requires forall j :: 0 <= j < |ps| ==> ps[j] < |t.labels|
    requires k < |ps|
    ensures RowAt(SelectRows(t, ps), k) == RowAt(t, ps[k])
  {
  }

  /** Number of null cells. */
  function NullCount(cells: seq<Cell>): (n: nat)
    ensures n <= |cells|
  {
    if cells == [] then 0
    else NullCount(cells[..|cells| - 1]) + (if cells[|cells| - 1].None? then 1 else 0)
  }

  lemma {:induction false} NullCountAppend(a: seq<Cell>, b: seq<Cell>)
    ensures NullCount(a + b) == NullCount(a) + NullCount(b)
    decreases |b|
  {
    if b == [] {
      assert a + b == a;
    } else {
      assert (a + b)[..|a + b| - 1] == a + b[..|b| - 1];
      NullCountAppend(a, b[..|b| - 1]);
    }
  }

  lemma {:induction false} NullCountZero(cells: seq<Cell>)
    ensures NullCount(cells) == 0 <==> forall i :: 0 <= i < |cells| ==> cells[i].Some?
  {
    if cells != [] {
      var p := cells[..|cells| - 1];
      NullCountZero(p);
      assert forall i :: 0 <= i < |p| ==> p[i] == cells[i];
    }
  }

  lemma {:induction false} NullCountFull(cells: seq<Cell>)
    ensures NullCount(cells) == |cells| <==> forall i :: 0 <= i < |cells| ==> cells[i].None?
  {
    if cells != [] {
      var p := cells[..|cells| - 1];
      NullCountFull(p);
      assert forall i :: 0 <= i < |p| ==> p[i] == cells[i];
    }
  }

  /** The numbers among the present cells, in row order (`dropna()` of a numeric column). */
  function PresentNumbers(cells: seq<Cell>): (xs: seq<real>)
    ensures |xs| <= |cells|
  {
    if cells == [] then []
    else
      var last := cells[|cells| - 1];
      PresentNumbers(cells[..|cells| - 1]) + (if last.Some? && last.value.Num? then [last.value.x] else [])
  }

  /** Every present cell holds a number. */
  predicate NumbersOnly(cells: seq<Cell>) {
    forall i :: 0 <= i < |cells| && cells[i].Some? ==> cells[i].value.Num?
  }

  /**
   * The `.str` accessor refuses an object column whose present values are
   * all numbers or all timestamps: pandas infers "integer", "floating" or
   * "datetime" for it rather than a string type. An all-null column, or one
   * holding some string, is accepted.
   */
  predicate RefusesStr(cells: seq<Cell>) {
    (exists i :: 0 <= i < |cells| && cells[i].Some?) &&
    ((forall i :: 0 <= i < |cells| && cells[i].Some? ==> cells[i].value.Num?) ||
     (forall i :: 0 <= i < |cells| && cells[i].Some? ==> cells[i].value.Stamp?))
  }

  /** The distinct present values; its size is `nunique()`. */
  function PresentSet(cells: seq<Cell>): set<Value> {
    set i | 0 <= i < |cells| && cells[i].Some? :: cells[i].value
  }

  /** Replaces every null by `v` and leaves every present cell as it was (`fillna(v)`). */
  function FillNulls(cells: seq<Cell>, v: Value): (r: seq<Cell>)
    ensures |r| == |cells|
    ensures forall i :: 0 <= i < |cells| ==> r[i] == (if cells[i].None? then Some(v) else cells[i])
    ensures NullCount(r) == 0
  {
    if cells == [] then []
    else
      var r := FillNulls(cells[..|cells| - 1], v) + [Some(cells[|cells| - 1].GetOr(v))];
      assert r[..|r| - 1] == FillNulls(cells[..|cells| - 1], v);
      r
  }

  predicate HasColumn(cols: seq<Column>, name: string) {
    exists k :: 0 <= k < |cols| && cols[k].name == name
  }

  /** The position of the first column named `name`. */
  function IndexOf(cols: seq<Column>, name: string): (k: nat)
    requires HasColumn(cols, name)
    ensures k < |cols| && cols[k].name == name
    ensures forall j :: 0 <= j < k ==> cols[j].name != name
  {
    if cols[0].name == name then 0
    else
      assert HasColumn(cols[1..], name) by {
        var k :| 0 <= k < |cols| && cols[k].name == name;
        assert cols[1..][k - 1].name == name;
      }
      1 + IndexOf(cols[1..], name)
  }

  /** `df[name]`. */
  function ColumnNamed(cols: seq<Column>, name: string): (c: Column)
    requires HasColumn(cols, name)
    ensures c in cols && c.name == name
  {
    cols[IndexOf(cols, name)]
  }

  /** With distinct names, a column is the one its name selects. */
  lemma ColumnNamedUnique(cols: seq<Column>, c: Column)
    requires DistinctNames(cols) && c in cols
    ensures HasColumn(cols, c.name) && ColumnNamed(cols, c.name) == c
  {
    var k :| 0 <= k < |cols| && cols[k] == c;
    var j := IndexOf(cols, c.name);
    assert j == k;
  }
  /** The table with the column at position `j` replaced by one of the same name and length. */
  function ReplaceColumn(t: Table, j: nat, c: Column): (r: Table)
    requires WellFormed(t) && DistinctNames(t.columns) && j < |t.columns|
    requires c.name == t.columns[j].name && |c.cells| == |t.labels|
    ensures WellFormed(r) && DistinctNames(r.columns)
    ensures r.labels == t.labels && |r.columns| == |t.columns| && r.columns[j] == c
    ensures forall k :: 0 <= k < |t.columns| && k != j ==> r.columns[k] == t.columns[k]
  {
    var cols := t.columns[j := c];
    assert forall d :: d in cols ==> |d.cells| == |t.labels| by {
      forall d | d in cols
        ensures |d.cells| == |t.labels|
      {
        var k :| 0 <= k < |cols| && cols[k] == d;
        assert k != j ==> t.columns[k] in t.columns;
      }
    }
    Table(t.labels, cols)
  }

  /** Dropping the first column keeps the names distinct. */
  lemma DistinctTail(cols: seq<Column>)
    requires DistinctNames(cols) && cols != []
    ensures DistinctNames(cols[1..])
  {
    forall i, j | 0 <= i < j < |cols[1..]|
      ensures cols[1..][i].name != cols[1..][j].name
    {
      assert cols[1..][i] == cols[i + 1] && cols[1..][j] == cols[j + 1];
    }
  }

  /** The names after the first differ from the first. */
  lemma LaterNamesDiffer(cols: seq<Column>)
    requires DistinctNames(cols) && cols != []
    ensures forall d :: d in cols[1..] ==> d.name != cols[0].name
  {
    forall d | d in cols[1..]
      ensures d.name != cols[0].name
    {
      var j :| 0 <= j < |cols[1..]| && cols[1..][j] == d;
      assert cols[j + 1] == d;
    }
  }
}
