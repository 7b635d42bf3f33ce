/**
 * The cleaner's imputation of one column: the choice of method from the
 * column's missing percentage and dtype, and the fill each method performs.
 */
module Imputation {
  import opened Wrappers
  import opened Floats
  import opened Tables
  import opened Foreign
  import opened Ordering
  import opened Outliers
  import opened Distributions

  datatype ImputationMethod = DropColumn | MeanFill | MedianFill | KnnFill | ModeFill | ConstantFill {
    /** The name the cleaner logs and records. */
    function Name(): string {
      match this
      case DropColumn => "drop_column"
      case MeanFill => "mean"
      case MedianFill => "median"
      case KnnFill => "knn"
      case ModeFill => "mode"
      case ConstantFill => "constant"
    }

    /** Methods meant for numeric columns. */
    predicate ForNumbers() {
      this == MeanFill || this == MedianFill || this == KnnFill
    }
  }

  /**
   * `_select_imputation_method`: above 50% missing the column is dropped;
   * a numeric column takes mean below 5%, median below 20% and KNN otherwise;
   * any other column takes mode below 10% and a constant otherwise.
   */
  function SelectImputationMethod(pct: Float, numeric: bool): (m: ImputationMethod)
    ensures m == DropColumn <==> Above(pct, 50.0)
    ensures m != DropColumn ==> (m.ForNumbers() <==> numeric)
    ensures m == MeanFill <==> numeric && Below(pct, 5.0)
    ensures m == MedianFill <==> numeric && AtLeast(pct, 5.0) && Below(pct, 20.0)
    ensures m == KnnFill <==> numeric && !Above(pct, 50.0) && !Below(pct, 20.0)
    ensures m == ModeFill <==> !numeric && Below(pct, 10.0)
    ensures m == ConstantFill <==> !numeric && !Above(pct, 50.0) && !Below(pct, 10.0)
  {
    if Above(pct, 50.0) then DropColumn
    else if numeric then
      if Below(pct, 5.0) then MeanFill
      else if Below(pct, 20.0) then MedianFill
      else KnnFill
    else if Below(pct, 10.0) then ModeFill
    else ConstantFill
  }

  /** How far a method is from the lightest fill; rises with the missing percentage. */
  function Escalation(m: ImputationMethod): nat {
    match m
    case MeanFill => 0
    case ModeFill => 0
    case MedianFill => 1
    case KnnFill => 2
    case ConstantFill => 2
    case DropColumn => 3
  }

  /** More missing values never select a lighter method; exactly half missing is not dropped. */
  lemma SelectionEscalates(p: real, q: real, numeric: bool)
    requires p <= q
    ensures Escalation(SelectImputationMethod(Finite(p), numeric)) <= Escalation(SelectImputationMethod(Finite(q), numeric))
    ensures SelectImputationMethod(Finite(50.0), numeric) != DropColumn
  {
  }

  // ----- most frequent value -----

  /** The number of cells holding `v`. */
  function Count(cells: seq<Cell>, v: Value): (n: nat)
    ensures n <= |cells|
  {
    if cells == [] then 0
    else Count(cells[..|cells| - 1], v) + (if cells[|cells| - 1] == Some(v) then 1 else 0)
  }

  lemma {:induction false} CountPresent(cells: seq<Cell>, i: nat)
    requires i < |cells| && cells[i].Some?
    ensures Count(cells, cells[i].value) > 0
  {
    if i < |cells| - 1 {
      CountPresent(cells[..|cells| - 1], i);
    }
  }

  /** `a` beats `b` as a mode: more frequent, or as frequent and smaller. */
  predicate Beats(cells: seq<Cell>, a: Value, b: Value) {
    Count(cells, a) > Count(cells, b) || (Count(cells, a) == Count(cells, b) && ValueLess(a, b))
  }

  /** The better of two candidates. */
  function Better(cells: seq<Cell>, a: Value, b: Value): (r: Value)
    ensures r == a || r == b
    ensures r == a ==> !Beats(cells, b, a)
    ensures r == b ==> !Beats(cells, a, b)
  {
    ValueLessIrreflexive(a);
    if Beats(cells, b, a) then
      if ValueLess(b, a) then ValueLessAsymmetric(b, a); b
      else b
    else a
  }

  lemma ValueLessAsymmetric(a: Value, b: Value)
    requires ValueLess(a, b)
    ensures !ValueLess(b, a)
  {
    if ValueLess(b, a) {
      ValueLessTransitive(a, b, a);
      ValueLessIrreflexive(a);
    }
  }

  /** Beating is transitive, so the winner of a left-to-right scan beats every value it met. */
  lemma NotBeatenTransitive(cells: seq<Cell>, a: Value, b: Value, c: Value)
    requires !Beats(cells, b, a) && !Beats(cells, c, b)
    ensures !Beats(cells, c, a)
  {
    if Count(cells, c) == Count(cells, a) && ValueLess(c, a) {
      assert Count(cells, b) == Count(cells, a);
      if b == a {
      } else if b == c {
      } else {
        ValueLessTotal(a, b);
        ValueLessTotal(b, c);
        if ValueLess(b, a) {
        } else if ValueLess(c, b) {
        } else {
          ValueLessTransitive(a, b, c);
          ValueLessAsymmetric(c, a);
        }
      }
    }
  }

  /** The best value among the present cells at positions below `n`. */
  function ModeUpTo(cells: seq<Cell>, n: nat): (r: Option<Value>)
    requires n <= |cells|
    ensures r.None? <==> forall i :: 0 <= i < n ==> cells[i].None?
    ensures r.Some? ==> exists i :: 0 <= i < n && cells[i] == Some(r.value)
    ensures r.Some? ==> forall i :: 0 <= i < n && cells[i].Some? ==> !Beats(cells, cells[i].value, r.value)
  {
    if n == 0 then None
    else
      var prev := ModeUpTo(cells, n - 1);
      var c := cells[n - 1];
      if c.None? then prev
      else if prev.None? then
        ValueLessIrreflexive(c.value);
        Some(c.value)
      else
        var b := Better(cells, prev.value, c.value);
        forall i | 0 <= i < n && cells[i].Some?
          ensures !Beats(cells, cells[i].value, b)
        {
          ValueLessIrreflexive(b);
          if i < n - 1 && b == c.value {
            NotBeatenTransitive(cells, c.value, prev.value, cells[i].value);
            assert !Beats(cells, cells[i].value, prev.value);
          }
        }
        Some(b)
  }

  /**
   * `SimpleImputer(strategy='most_frequent')`: the most frequent present value,
   * the smallest of them on a tie.
   */
  function Mode(cells: seq<Cell>): (r: Option<Value>)
    ensures r.None? <==> NullCount(cells) == |cells|
    ensures r.Some? ==> r.value in PresentSet(cells)
    ensures r.Some? ==> forall v :: v in PresentSet(cells) ==>
      Count(cells, v) < Count(cells, r.value) || (Count(cells, v) == Count(cells, r.value) && !ValueLess(v, r.value))
  {
    NullCountFull(cells);
    var r := ModeUpTo(cells, |cells|);
    if r.None? then r
    else
      var i :| 0 <= i < |cells| && cells[i] == Some(r.value);
      assert r.value in PresentSet(cells);
      r
  }

  // ----- fills -----

  /** The model of a fitted imputer, kept per column. */
  datatype Imputer =
    | SimpleImputer(strategy: ImputationMethod, statistic: Value)
    | KnnImputer(neighbors: nat)

  /** What imputation does to the column: drops it, or replaces it (recording the fitted imputer, if any). */
  datatype Fill =
    | Dropped
    | Filled(column: Column, imputer: Option<Imputer>)

  /** The ways a cleaning run raises. */
  datatype CleanError =
    | MissingPercentageOf(column: string)
    | NothingToFit(column: string)
    | UnsupportedDtype(column: string)
    | NewCategory(column: string)
    | EmptyKnnFeature(column: string)
    | UnknownLabels
    | NotStrings(column: string)
    /** `StandardScaler` fitted on a table without rows. */
    | NoSamples

  /** The fill keeps every present cell and leaves no null. */
  predicate FillsNullsOnly(c: Column, r: Column) {
    r.name == c.name && |r.cells| == |c.cells| &&
    (forall i :: 0 <= i < |c.cells| && c.cells[i].Some? ==> r.cells[i] == c.cells[i]) &&
    NullCount(r.cells) == 0
  }

  /** A `SimpleImputer` fill: the statistic into every null. */
  function SimpleFill(c: Column, strategy: ImputationMethod, v: Value, dtype: Dtype): (f: Fill)
    ensures f.Filled? && FillsNullsOnly(c, f.column) && f.column.dtype == dtype
    ensures forall i :: 0 <= i < |c.cells| && c.cells[i].None? ==> f.column.cells[i] == Some(v)
  {
    Filled(Column(c.name, dtype, FillNulls(c.cells, v)), Some(SimpleImputer(strategy, v)))
  }

  /** Mean imputation: every null becomes the mean of the present numbers; the column turns float. */
  function MeanImpute(c: Column): (r: Result<Fill, CleanError>)
    ensures r.Err? <==> PresentNumbers(c.cells) == []
    ensures r.Ok? ==> r.value.Filled? && FillsNullsOnly(c, r.value.column) && r.value.column.dtype == Float64
    ensures r.Ok? ==> forall i :: 0 <= i < |c.cells| && c.cells[i].None? ==>
      var xs := PresentNumbers(c.cells);
      r.value.column.cells[i] == Some(Num(Mean(xs))) && Min(xs) <= Mean(xs) <= Max(xs)
  {
    var xs := PresentNumbers(c.cells);
    if xs == [] then Err(NothingToFit(c.name))
    else Ok(SimpleFill(c, MeanFill, Num(Mean(xs)), Float64))
  }

  /** Median imputation, with the library's median. */
  function MedianImpute(lib: Library, c: Column): (r: Result<Fill, CleanError>)
    ensures r.Err? <==> PresentNumbers(c.cells) == []
    ensures r.Ok? ==> r.value.Filled? && FillsNullsOnly(c, r.value.column) && r.value.column.dtype == Float64
  {
    var xs := PresentNumbers(c.cells);
    if xs == [] then Err(NothingToFit(c.name))
    else Ok(SimpleFill(c, MedianFill, Num(lib.median(xs)), Float64))
  }

  /** Mode imputation: refused for datetimes, and it needs a present value; the column turns object. */
  function ModeImpute(c: Column): (r: Result<Fill, CleanError>)
    ensures r.Err? <==> c.dtype == Datetime || NullCount(c.cells) == |c.cells|
    ensures r.Ok? ==> r.value.Filled? && FillsNullsOnly(c, r.value.column) && r.value.column.dtype == Object
    ensures r.Ok? ==> forall i :: 0 <= i < |c.cells| && c.cells[i].None? ==>
      r.value.column.cells[i] == Mode(c.cells)
  {
    if c.dtype == Datetime then Err(UnsupportedDtype(c.name))
    else match Mode(c.cells)
      case None => Err(NothingToFit(c.name))
      case Some(v) => Ok(SimpleFill(c, ModeFill, v, Object))
  }

  /** `fillna("Unknown")` on an object column and `fillna(-999)` on any other. */
  function ConstantImpute(c: Column): (r: Result<Fill, CleanError>)
    ensures r.Err? <==> c.dtype == Category
    ensures r.Ok? ==> r.value.Filled? && r.value.imputer.None? && FillsNullsOnly(c, r.value.column)
    ensures r.Ok? ==> forall i :: 0 <= i < |c.cells| && c.cells[i].None? ==>
      r.value.column.cells[i] == Some(if c.dtype == Object then Str("Unknown") else Num(-999.0))
    ensures r.Ok? ==> r.value.column.dtype == (if c.dtype == Datetime then Object else c.dtype)
  {
    match c.dtype
    case Category => Err(NewCategory(c.name))
    case Object => Ok(Filled(c.(cells := FillNulls(c.cells, Str("Unknown"))), None))
    case Datetime => Ok(Filled(Column(c.name, Object, FillNulls(c.cells, Num(-999.0))), None))
    case _ => Ok(Filled(c.(cells := FillNulls(c.cells, Num(-999.0))), None))
  }

  /** The columns other than the one named `name`, in order. */
  function OtherColumns(cols: seq<Column>, name: string): (r: seq<Column>)
    ensures forall c :: c in r <==> c in cols && c.name != name
    ensures |r| <= |cols|
  {
    if cols == [] then []
    else
      var last := cols[|cols| - 1];
      assert forall c :: c in cols ==> c in cols[..|cols| - 1] || c == last;
      OtherColumns(cols[..|cols| - 1], name) + (if last.name != name then [last] else [])
  }

  /** The nulls of the target column filled from the KNN imputer fitted on `temp`. */
  function KnnCells(lib: Library, temp: Table, target: nat, cells: seq<Cell>): (r: seq<Cell>)
    ensures |r| == |cells| && NullCount(r) == 0
    ensures forall i :: 0 <= i < |cells| && cells[i].Some? ==> r[i] == cells[i]
  {
    var r := seq(|cells|, i requires 0 <= i < |cells| =>
      if cells[i].None? then Some(Num(lib.knn(temp, target, i))) else cells[i]);
    NullCountZero(r);
    r
  }

  /**
   * KNN imputation: the other numeric columns are the features; the imputer
   * drops any all-null column it is given, which breaks the reshaping of its
   * output. Without another numeric column it falls back to the median.
   */
  function KnnImpute(lib: Library, t: Table, k: nat): (r: Result<Fill, CleanError>)
    requires WellFormed(t) && k < |t.columns|
    ensures r.Ok? ==> r.value.Filled? && FillsNullsOnly(t.columns[k], r.value.column) && r.value.column.dtype == Float64
    ensures r.Err? ==> (PresentNumbers(t.columns[k].cells) == [] ||
      exists c :: c in NumericColumns(t.columns) && NullCount(c.cells) == |t.labels|)
  {
    var c := t.columns[k];
    assert c in t.columns;
    var numeric := NumericColumns(t.columns);
    var features := OtherColumns(numeric, c.name);
    if IsNumeric(c.dtype) && |numeric| > 1 && features != [] then
      var temp := Table(t.labels, features + [c]);
      if exists j :: 0 <= j < |temp.columns| && NullCount(temp.columns[j].cells) == |t.labels| then
        var j :| 0 <= j < |temp.columns| && NullCount(temp.columns[j].cells) == |t.labels|;
        assert temp.columns[j] in numeric by {
          if j < |features| {
            assert temp.columns[j] in features;
          } else {
            assert temp.columns[j] == c;
          }
        }
        Err(EmptyKnnFeature(c.name))
      else
        var n := |t.labels|;
        Ok(Filled(Column(c.name, Float64, KnnCells(lib, temp, |features|, c.cells)),
          Some(KnnImputer(if n < 5 then n else 5))))
    else MedianImpute(lib, c)
  }

  /** `_apply_imputation` for the column at position `k` of `t`. */
  function ApplyImputation(lib: Library, t: Table, k: nat, m: ImputationMethod): (r: Result<Fill, CleanError>)
    requires WellFormed(t) && k < |t.columns|
    ensures r.Ok? && r.value.Filled? ==> FillsNullsOnly(t.columns[k], r.value.column)
    ensures r.Ok? && r.value.Dropped? <==> m == DropColumn
  {
    var c := t.columns[k];
    assert c in t.columns;
    match m
    case DropColumn => Ok(Dropped)
    case MeanFill => MeanImpute(c)
    case MedianFill => MedianImpute(lib, c)
    case KnnFill => KnnImpute(lib, t, k)
    case ModeFill => ModeImpute(c)
    case ConstantFill => ConstantImpute(c)
  }

  /**
   * Imputation never fails for a method chosen by the selection from the
   * column's own percentage, except by the KNN imputer meeting an all-null
   * numeric column, a mode of a datetime column, or a constant for a
   * categorical one.
   */
  lemma SelectedImputationSucceeds(lib: Library, t: Table, k: nat)
    requires WellFormed(t) && k < |t.columns| && |t.labels| > 0
    requires NullCount(t.columns[k].cells) > 0
    requires t.columns[k].dtype != Datetime && t.columns[k].dtype != Category
    requires IsNumeric(t.columns[k].dtype) ==>
      forall i :: 0 <= i < |t.columns[k].cells| && t.columns[k].cells[i].Some? ==> t.columns[k].cells[i].value.Num?
    requires forall c :: c in NumericColumns(t.columns) ==> NullCount(c.cells) < |t.labels|
    ensures var c := t.columns[k];
      var pct := Percent(NullCount(c.cells), |t.labels|);
      ApplyImputation(lib, t, k, SelectImputationMethod(pct, IsNumeric(c.dtype))).Ok?
  {
    var c := t.columns[k];
    assert c in t.columns;
    var pct := Percent(NullCount(c.cells), |t.labels|);
    var m := SelectImputationMethod(pct, IsNumeric(c.dtype));
    if m != DropColumn {
      HalfOrLessMissing(NullCount(c.cells), |t.labels|);
      if IsNumeric(c.dtype) {
        assert c in NumericColumns(t.columns);
        NumericPresent(c.cells);
        assert MedianImpute(lib, c).Ok?;
        if m == KnnFill {
          assert KnnImpute(lib, t, k).Ok?;
        } else if m == MeanFill {
          assert MeanImpute(c).Ok?;
        }
      } else {
        NullCountFull(c.cells);
        if m == ModeFill {
          assert ModeImpute(c).Ok?;
        } else {
          assert ConstantImpute(c).Ok?;
        }
      }
    }
  }

  /** At most half missing leaves a present cell. */
  lemma HalfOrLessMissing(part: nat, whole: nat)
    requires 0 < part <= whole
    requires !Above(Percent(part, whole), 50.0)
    ensures part < whole
  {
  }

  /** In a column holding only numbers, a present cell is a present number. */
  lemma {:induction false} NumericPresent(cells: seq<Cell>)
    requires NullCount(cells) < |cells|
    requires forall i :: 0 <= i < |cells| && cells[i].Some? ==> cells[i].value.Num?
    ensures PresentNumbers(cells) != []
  {
    var p := cells[..|cells| - 1];
    if cells[|cells| - 1].None? {
      assert forall i :: 0 <= i < |p| ==> p[i] == cells[i];
      NumericPresent(p);
    }
  }
}
