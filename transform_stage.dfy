/**
 * Stage 6 of the cleaner, `_apply_transformations`: standard scaling of the
 * numeric columns, then label encoding of every category or object column
 * with fewer than 50 distinct values.
 */
module Transformations {
  import opened Wrappers
  import opened Tables
  import opened Foreign
  import opened Ordering
  import opened Imputation
  import opened CleaningLog

  // ----- scaling -----

  /** The names of the numeric columns, in column order (`select_dtypes(include=[np.number])`). */
  function NumericNames(cols: seq<Column>): (r: seq<string>)
    ensures |r| <= |cols|
    ensures forall n :: n in r <==> exists k :: 0 <= k < |cols| && IsNumeric(cols[k].dtype) && cols[k].name == n
  {
    if cols == [] then []
    else
      var init := cols[..|cols| - 1];
      var last := cols[|cols| - 1];
      assert forall k :: 0 <= k < |init| ==> init[k] == cols[k];
      NumericNames(init) + (if IsNumeric(last.dtype) then [last.name] else [])
  }

  /** `StandardScaler` fitted on the column's present numbers and applied to each of them; nulls stay null. */
  function ScaleColumn(lib: Library, c: Column): (d: Column)
    ensures d.name == c.name && d.dtype == Float64 && |d.cells| == |c.cells|
    ensures forall i :: 0 <= i < |c.cells| ==> (d.cells[i].Some? <==> c.cells[i].Some?)
    ensures forall i :: 0 <= i < |c.cells| && c.cells[i].Some? && c.cells[i].value.Num? ==>
      d.cells[i] == Some(Num(lib.scale(PresentNumbers(c.cells), c.cells[i].value.x)))
  {
    var xs := PresentNumbers(c.cells);
    Column(c.name, Float64, seq(|c.cells|, i requires 0 <= i < |c.cells| =>
      match c.cells[i]
      case Some(Num(x)) => Some(Num(lib.scale(xs, x)))
      case other => other))
  }

  /** The columns after scaling: numeric ones scaled, the others as they were. */
  function ScaleAll(lib: Library, cols: seq<Column>): (r: seq<Column>)
    ensures |r| == |cols|
    ensures forall k :: 0 <= k < |cols| ==> r[k] == if IsNumeric(cols[k].dtype) then ScaleColumn(lib, cols[k]) else cols[k]
  {
    seq(|cols|, k requires 0 <= k < |cols| => if IsNumeric(cols[k].dtype) then ScaleColumn(lib, cols[k]) else cols[k])
  }

  /** The scaling half of the stage; fitting the scaler on a table without rows raises. */
  function ScaleNumeric(lib: Library, p: Pipeline): (r: Result<Pipeline, CleanError>)
    requires Valid(p)
    ensures r.Err? <==> NumericNames(p.table.columns) != [] && p.table.labels == []
    ensures r.Ok? ==> Valid(r.value) && r.value.table == Table(p.table.labels, ScaleAll(lib, p.table.columns))
    ensures r.Ok? ==> var names := NumericNames(p.table.columns);
      r.value.results.transformationSummary.scaledColumns == (if names == [] then p.results.transformationSummary.scaledColumns else Some(names)) &&
      r.value.results.cleaningSteps == p.results.cleaningSteps + (if names == [] then [] else [Scaled(|names|)]) &&
      r.value.scalers == (if names == [] then p.scalers else p.scalers["numeric" := names])
    ensures r.Ok? ==> r.value.encoders == p.encoders && r.value.imputers == p.imputers
    ensures r.Ok? ==> r.value.results.transformationSummary.encoded == p.results.transformationSummary.encoded
  {
    var names := NumericNames(p.table.columns);
    var cols := ScaleAll(lib, p.table.columns);
    assert forall k :: 0 <= k < |cols| ==> cols[k].name == p.table.columns[k].name && |cols[k].cells| == |p.table.columns[k].cells|;
    assert forall k :: 0 <= k < |cols| ==> p.table.columns[k] in p.table.columns;
    var scaled := p.(table := Table(p.table.labels, cols));
    if names == [] then
      assert cols == p.table.columns by {
        forall k | 0 <= k < |cols|
          ensures cols[k] == p.table.columns[k]
        {
          var n := p.table.columns[k].name;
          assert n !in names;
          assert !exists k' :: 0 <= k' < |p.table.columns| && IsNumeric(p.table.columns[k'].dtype) && p.table.columns[k'].name == n;
        }
      }
      Ok(p)
    else if p.table.labels == [] then Err(NoSamples)
    else
      var ts := p.results.transformationSummary;
      var q := scaled.(scalers := p.scalers["numeric" := names],
        results := p.results.(transformationSummary := ts.(scaledColumns := Some(names))));
      Ok(Log(q, Scaled(|names|)))
  }

  // ----- label encoding -----

  /** `astype(str)` of every cell, as a set: the classes `LabelEncoder` learns. */
  function Classes(lib: Library, cells: seq<Cell>): set<string> {
    set i | 0 <= i < |cells| :: AsText(lib, cells[i])
  }

  /** A class's code: its position in the sorted classes (the number of classes before it). */
  function Rank(classes: set<string>, s: string): nat {
    |set x | x in classes && StrLess(x, s)|
  }

  lemma SubsetCard<T>(a: set<T>, b: set<T>)
    requires a <= b
    ensures |a| <= |b|
  {
    assert b == a + (b - a);
  }

  /** Every code is below the number of classes. */
  lemma RankBelow(classes: set<string>, s: string)
    requires s in classes
    ensures Rank(classes, s) < |classes|
  {
    StrLessIrreflexive(s);
    SubsetCard((set x | x in classes && StrLess(x, s)), classes - {s});
  }

  /** Codes follow the string order: a class sorts first exactly when its code is smaller. */
  lemma RankOrder(classes: set<string>, a: string, b: string)
    requires a in classes && b in classes
    ensures StrLess(a, b) <==> Rank(classes, a) < Rank(classes, b)
  {
    if StrLess(a, b) {
      RankStrictlyIncreases(classes, a, b);
    } else if a == b {
    } else {
      StrLessTotal(a, b);
      RankStrictlyIncreases(classes, b, a);
    }
  }

  lemma RankStrictlyIncreases(classes: set<string>, a: string, b: string)
    requires a in classes && StrLess(a, b)
    ensures Rank(classes, a) < Rank(classes, b)
  {
    var below_a := set x | x in classes && StrLess(x, a);
    var below_b := set x | x in classes && StrLess(x, b);
    forall x | x in below_a
      ensures x in below_b
    {
      StrLessTransitive(x, a, b);
    }
    StrLessIrreflexive(a);
    assert a in below_b && a !in below_a;
    SubsetCard(below_a, below_b - {a});
  }

  /** Distinct classes get distinct codes. */
  lemma RankInjective(classes: set<string>, a: string, b: string)
    requires a in classes && b in classes && Rank(classes, a) == Rank(classes, b)
    ensures a == b
  {
    if a != b {
      StrLessTotal(a, b);
      RankOrder(classes, a, b);
      RankOrder(classes, b, a);
    }
  }

  /** The gate: a category or object column with fewer than 50 distinct present values. */
  predicate Encodes(c: Column) {
    (c.dtype == Category || c.dtype == Object) && |PresentSet(c.cells)| < 50
  }

  /** `LabelEncoder().fit_transform(col.astype(str))`. */
  function EncodeColumn(lib: Library, c: Column): (d: Column)
    ensures d.name == c.name && d.dtype == Int64 && |d.cells| == |c.cells|
    ensures forall i :: 0 <= i < |c.cells| ==> d.cells[i] == Some(Num(Rank(Classes(lib, c.cells), AsText(lib, c.cells[i])) as real))
  {
    var classes := Classes(lib, c.cells);
    Column(c.name, Int64, seq(|c.cells|, i requires 0 <= i < |c.cells| => Some(Num(Rank(classes, AsText(lib, c.cells[i])) as real))))
  }

  /**
   * The codes of an encoded column: every cell holds a whole number below
   * the number of classes, and two cells' codes compare as their texts do.
   */
  lemma EncodeColumnCodes(lib: Library, c: Column, i: nat, j: nat)
    requires i < |c.cells| && j < |c.cells|
    ensures var d := EncodeColumn(lib, c); var n := |Classes(lib, c.cells)|;
      d.cells[i].Some? && d.cells[i].value.Num? && 0.0 <= d.cells[i].value.x < n as real &&
      (d.cells[i].value.x < d.cells[j].value.x <==> StrLess(AsText(lib, c.cells[i]), AsText(lib, c.cells[j]))) &&
      (d.cells[i] == d.cells[j] <==> AsText(lib, c.cells[i]) == AsText(lib, c.cells[j]))
  {
    var classes := Classes(lib, c.cells);
    var a := AsText(lib, c.cells[i]);
    var b := AsText(lib, c.cells[j]);
    assert a in classes && b in classes;
    RankBelow(classes, a);
    RankOrder(classes, a, b);
    if Rank(classes, a) == Rank(classes, b) {
      RankInjective(classes, a, b);
    }
  }

  /** One iteration of the encoding loop, at column position `j`. */
  function EncodeAt(lib: Library, p: Pipeline, j: nat): (q: Pipeline)
    requires Valid(p) && j < |p.table.columns|
    ensures Valid(q) && q.table.labels == p.table.labels && |q.table.columns| == |p.table.columns|
    ensures var c := p.table.columns[j];
      q.table.columns[j] == (if Encodes(c) then EncodeColumn(lib, c) else c)
    ensures forall k :: 0 <= k < |p.table.columns| && k != j ==> q.table.columns[k] == p.table.columns[k]
    ensures var c := p.table.columns[j];
      q.results.cleaningSteps == p.results.cleaningSteps + (if Encodes(c) then [Encoded(c.name)] else []) &&
      q.results.transformationSummary.encoded == p.results.transformationSummary.encoded + (if Encodes(c) then [c.name] else []) &&
      q.encoders == (if Encodes(c) then p.encoders[c.name := Classes(lib, c.cells)] else p.encoders)
    ensures q.results.transformationSummary.scaledColumns == p.results.transformationSummary.scaledColumns
    ensures q.scalers == p.scalers && q.imputers == p.imputers
  {
    var c := p.table.columns[j];
    if !Encodes(c) then p
    else
      assert c in p.table.columns;
      var ts := p.results.transformationSummary;
      var q := p.(table := ReplaceColumn(p.table, j, EncodeColumn(lib, c)),
        encoders := p.encoders[c.name := Classes(lib, c.cells)],
        results := p.results.(transformationSummary := ts.(encoded := ts.encoded + [c.name])));
      Log(q, Encoded(c.name))
  }

  /** The encoding loop from column position `j` on. */
  function EncodeFrom(lib: Library, p: Pipeline, j: nat): (q: Pipeline)
    requires Valid(p) && j <= |p.table.columns|
    ensures Valid(q) && q.table.labels == p.table.labels && |q.table.columns| == |p.table.columns|
    ensures Continues(p, q)
    ensures q.scalers == p.scalers && q.imputers == p.imputers
    decreases |p.table.columns| - j
  {
    if j == |p.table.columns| then p else EncodeFrom(lib, EncodeAt(lib, p, j), j + 1)
  }

  /** `_apply_transformations`: resets the scaling and encoding summaries, scales, then encodes. */
  function TransformStage(lib: Library, p: Pipeline): (r: Result<Pipeline, CleanError>)
    requires Valid(p)
    ensures r.Err? <==> NumericNames(p.table.columns) != [] && p.table.labels == []
    ensures r.Ok? ==> Valid(r.value) && r.value.table.labels == p.table.labels && |r.value.table.columns| == |p.table.columns|
    ensures r.Ok? ==> Continues(p, r.value) && r.value.imputers == p.imputers
  {
    var ts := p.results.transformationSummary;
    var p0 := p.(results := p.results.(transformationSummary := ts.(scaledColumns := None, encoded := [])));
    match ScaleNumeric(lib, p0)
    case Err(e) => Err(e)
    case Ok(p1) => Ok(EncodeFrom(lib, p1, 0))
  }

  /** A column as the whole stage leaves it. */
  function Transformed(lib: Library, c: Column): Column {
    if IsNumeric(c.dtype) then ScaleColumn(lib, c)
    else if Encodes(c) then EncodeColumn(lib, c)
    else c
  }

  /** The column as the encoding loop leaves it. */
  function AfterEncoding(lib: Library, c: Column): Column {
    if Encodes(c) then EncodeColumn(lib, c) else c
  }

  /** `out` holds the columns before `j` as they were and the others as the encoding loop leaves them. */
  predicate EncodedFrom(lib: Library, cols: seq<Column>, out: seq<Column>, j: nat) {
    |out| == |cols| &&
    forall k :: 0 <= k < |cols| ==> out[k] == if k < j then cols[k] else AfterEncoding(lib, cols[k])
  }

  /** One iteration followed by the rest of the loop encodes from `j` on. */
  lemma EncodedStep(lib: Library, cols: seq<Column>, mid: seq<Column>, out: seq<Column>, j: nat)
    requires j < |cols| == |mid| && mid[j] == AfterEncoding(lib, cols[j])
    requires forall k :: 0 <= k < |cols| && k != j ==> mid[k] == cols[k]
    requires EncodedFrom(lib, mid, out, j + 1)
    ensures EncodedFrom(lib, cols, out, j)
  {
    forall k | 0 <= k < |cols|
      ensures out[k] == if k < j then cols[k] else AfterEncoding(lib, cols[k])
    {
      if k != j {
        assert mid[k] == cols[k];
      }
    }
  }

  /** From position `j` on, the encoding loop leaves every later column encoded if the gate admits it. */
  lemma {:induction false} EncodeFromColumns(lib: Library, p: Pipeline, j: nat)
    requires Valid(p) && j <= |p.table.columns|
    ensures EncodedFrom(lib, p.table.columns, EncodeFrom(lib, p, j).table.columns, j)
    decreases |p.table.columns| - j
  {
    var cols := p.table.columns;
    if j < |cols| {
      var p1 := EncodeAt(lib, p, j);
      EncodeFromColumns(lib, p1, j + 1);
      EncodedStep(lib, cols, p1.table.columns, EncodeFrom(lib, p1, j + 1).table.columns, j);
    }
  }

  /**
   * The whole stage, when it succeeds: every column is `Transformed`, so no
   * column is left of dtype category or object unless it has at least 50
   * distinct values.
   */
  lemma TransformStageColumns(lib: Library, p: Pipeline)
    requires Valid(p)
    requires TransformStage(lib, p).Ok?
    ensures var q := TransformStage(lib, p).value; var cols := p.table.columns;
      (forall k :: 0 <= k < |cols| ==> q.table.columns[k] == Transformed(lib, cols[k])) &&
      (forall k :: 0 <= k < |cols| && (q.table.columns[k].dtype == Category || q.table.columns[k].dtype == Object) ==>
        |PresentSet(q.table.columns[k].cells)| >= 50)
  {
    var ts := p.results.transformationSummary;
    var p0 := p.(results := p.results.(transformationSummary := ts.(scaledColumns := None, encoded := [])));
    var p1 := ScaleNumeric(lib, p0).value;
    var q := EncodeFrom(lib, p1, 0);
    EncodeFromColumns(lib, p1, 0);
    forall k | 0 <= k < |p.table.columns|
      ensures q.table.columns[k] == Transformed(lib, p.table.columns[k])
    {
      var c := p.table.columns[k];
      assert q.table.columns[k] == AfterEncoding(lib, p1.table.columns[k]);
      if IsNumeric(c.dtype) {
        assert p1.table.columns[k] == ScaleColumn(lib, c);
      } else {
        assert p1.table.columns[k] == c;
      }
    }
  }
}
