/**
 * Stage 4 of the cleaner, `_standardize_data_types`: each column gets the
 * dtype `_suggest_optimal_dtype` names, and the change is logged whenever the
 * suggestion's name differs from `str(dtype)`. The suggestion names
 * ("numeric", "datetime", "categorical", "object") never equal a pandas dtype
 * name other than "object", so every non-object column is logged, even when
 * nothing about it changes.
 */
module TypeStandardization {
  import opened Wrappers
  import opened Tables
  import opened Foreign
  import opened TypeAnalysis
  import opened CleaningLog

  /** `_suggest_optimal_dtype`: a datetime column stays a datetime; otherwise as the analyzer suggests. */
  function SuggestOptimalDtype(lib: Library, c: Column): (s: Suggestion)
    ensures c.dtype == Datetime ==> s == DatetimeKind
    ensures c.dtype != Datetime ==> s == SuggestDtype(lib, c.dtype, c.cells)
  {
    if c.dtype == Datetime then DatetimeKind else SuggestDtype(lib, c.dtype, c.cells)
  }

  /**
   * The cleaner and the analyzer disagree on every non-empty datetime
   * column: `pd.to_numeric` views it as integers, NaT included, so the
   * analyzer calls it numeric while the cleaner keeps it a datetime.
   */
  lemma DatetimeSuggestionsDisagree(lib: Library, c: Column)
    requires c.dtype == Datetime && |c.cells| > 0
    ensures SuggestOptimalDtype(lib, c) == DatetimeKind
    ensures SuggestDtype(lib, c.dtype, c.cells) == NumericKind
  {
    DatetimeSuggestsNumeric(lib, c.cells);
  }

  /** A suggestion's name equals a dtype's name only for an object column suggested to stay an object. */
  lemma NamesAgreeOnlyForObjects(s: Suggestion, d: Dtype)
    ensures s.Name() == DtypeName(d) <==> s == ObjectKind && d == Object
  {
    match s
    case NumericKind =>
      assert s.Name()[0] == 'n';
      assert DtypeName(d) != s.Name() by {
        match d
        case Int64 => assert DtypeName(d)[0] == 'i';
        case Float64 => assert DtypeName(d)[0] == 'f';
        case Object => assert DtypeName(d)[0] == 'o';
        case Category => assert DtypeName(d)[0] == 'c';
        case Datetime => assert |DtypeName(d)| != |s.Name()|;
      }
    case DatetimeKind =>
      assert DtypeName(d) != s.Name() by {
        match d
        case Int64 => assert DtypeName(d)[0] == 'i';
        case Float64 => assert DtypeName(d)[0] == 'f';
        case Object => assert DtypeName(d)[0] == 'o';
        case Category => assert DtypeName(d)[0] == 'c';
        case Datetime => assert |DtypeName(d)| != |s.Name()|;
      }
    case CategoricalKind =>
      assert DtypeName(d) != s.Name() by {
        match d
        case Int64 => assert DtypeName(d)[0] == 'i';
        case Float64 => assert DtypeName(d)[0] == 'f';
        case Object => assert DtypeName(d)[0] == 'o';
        case Category => assert |DtypeName(d)| != |s.Name()|;
        case Datetime => assert DtypeName(d)[0] == 'd' && DtypeName(d)[1] == 'a' && s.Name()[0] == 'c';
      }
    case ObjectKind =>
      match d
      case Int64 => assert DtypeName(d)[0] == 'i';
      case Float64 => assert DtypeName(d)[0] == 'f';
      case Object =>
      case Category => assert DtypeName(d)[0] == 'c';
      case Datetime => assert DtypeName(d)[0] == 'd';
  }

  /**
   * `pd.to_datetime(errors='coerce')` of the cell at `i` of a column: a
   * timestamp, or null when it does not parse with the column's format.
   */
  function ToDatetime(lib: Library, cells: seq<Cell>, i: nat): (r: Cell)
    requires i < |cells|
    ensures r.Some? <==> cells[i].Some? && ColumnDate(lib, cells, i).Some?
    ensures r.Some? ==> r.value == Stamp(ColumnDate(lib, cells, i).value)
    ensures cells[i].Some? && cells[i].value.Stamp? ==> r == cells[i]
  {
    if cells[i].None? then None
    else match ColumnDate(lib, cells, i)
      case Some(t) => Some(Stamp(t))
      case None => None
  }

  /** `pd.to_numeric(errors='coerce')` of one cell of dtype `d`: a number, or null when it does not convert. */
  function ToNumeric(lib: Library, d: Dtype, c: Cell): (r: Cell)
    ensures r.Some? <==> AsNumber(lib, d, c).Some?
    ensures r.Some? ==> r.value == Num(AsNumber(lib, d, c).value)
  {
    match AsNumber(lib, d, c)
    case Some(x) => Some(Num(x))
    case None => None
  }

  /** The column converted to the suggested kind; an "object" suggestion leaves it as it is. */
  function ConvertColumn(lib: Library, c: Column, s: Suggestion): (d: Column)
    ensures d.name == c.name && |d.cells| == |c.cells|
    ensures s == DatetimeKind ==>
      d.dtype == Datetime && forall i :: 0 <= i < |c.cells| ==> d.cells[i] == ToDatetime(lib, c.cells, i)
    ensures s == NumericKind ==>
      IsNumeric(d.dtype) && NumbersOnly(d.cells) && forall i :: 0 <= i < |c.cells| ==> d.cells[i] == ToNumeric(lib, c.dtype, c.cells[i])
    ensures s == CategoricalKind ==> d == c.(dtype := Category)
    ensures s == ObjectKind ==> d == c
  {
    match s
    case DatetimeKind =>
      Column(c.name, Datetime, seq(|c.cells|, i requires 0 <= i < |c.cells| => ToDatetime(lib, c.cells, i)))
    case NumericKind =>
      Column(c.name, if IsNumeric(c.dtype) then c.dtype else Float64,
        seq(|c.cells|, i requires 0 <= i < |c.cells| => ToNumeric(lib, c.dtype, c.cells[i])))
    case CategoricalKind => c.(dtype := Category)
    case ObjectKind => c
  }

  /**
   * Whether the loop converts and logs the column. The source compares the
   * suggestion's name with `str(dtype)`; `ConvertsIffNamesDiffer` shows that
   * this is the same test.
   */
  predicate Converts(lib: Library, c: Column) {
    !(c.dtype == Object && SuggestOptimalDtype(lib, c) == ObjectKind)
  }

  lemma ConvertsIffNamesDiffer(lib: Library, c: Column)
    ensures Converts(lib, c) <==> SuggestOptimalDtype(lib, c).Name() != DtypeName(c.dtype)
  {
    NamesAgreeOnlyForObjects(SuggestOptimalDtype(lib, c), c.dtype);
  }

  /** The column as the stage leaves it. */
  function Standardized(lib: Library, c: Column): Column {
    if Converts(lib, c) then ConvertColumn(lib, c, SuggestOptimalDtype(lib, c)) else c
  }

  /** The log line for one column, if it is converted. */
  function StepFor(lib: Library, c: Column): seq<Step> {
    if Converts(lib, c) then [Converted(c.name, DtypeName(c.dtype), SuggestOptimalDtype(lib, c))] else []
  }

  /** The log lines for the columns, in column order. */
  function ConversionSteps(lib: Library, cols: seq<Column>): seq<Step> {
    if cols == [] then [] else StepFor(lib, cols[0]) + ConversionSteps(lib, cols[1..])
  }

  /** One iteration of the loop, at column position `j`. */
  function ConvertAt(lib: Library, p: Pipeline, j: nat): (q: Pipeline)
    requires Valid(p) && j < |p.table.columns|
    ensures Valid(q) && q.table.labels == p.table.labels && |q.table.columns| == |p.table.columns|
    ensures q.table.columns[j] == Standardized(lib, p.table.columns[j])
    ensures forall k :: 0 <= k < |p.table.columns| && k != j ==> q.table.columns[k] == p.table.columns[k]
    ensures q.results.cleaningSteps == p.results.cleaningSteps + StepFor(lib, p.table.columns[j])
    ensures q.imputers == p.imputers && q.encoders == p.encoders && q.scalers == p.scalers
  {
    var c := p.table.columns[j];
    if !Converts(lib, c) then p
    else
      var s := SuggestOptimalDtype(lib, c);
      assert c in p.table.columns;
      var t := ReplaceColumn(p.table, j, ConvertColumn(lib, c, s));
      var ts := p.results.transformationSummary;
      var q := p.(table := t, results := p.results.(transformationSummary :=
        ts.(typeConversions := ts.typeConversions[c.name := TypeConversion(DtypeName(c.dtype), s)])));
      Log(q, Converted(c.name, DtypeName(c.dtype), s))
  }

  /** The `type_conversions` entry one iteration records: the converted column's old and new type. */
  function ConversionsAfter(lib: Library, m: map<string, TypeConversion>, c: Column): map<string, TypeConversion> {
    if Converts(lib, c) then m[c.name := TypeConversion(DtypeName(c.dtype), SuggestOptimalDtype(lib, c))] else m
  }

  lemma ConvertAtConversions(lib: Library, p: Pipeline, j: nat)
    requires Valid(p) && j < |p.table.columns|
    ensures ConvertAt(lib, p, j).results.transformationSummary.typeConversions ==
      ConversionsAfter(lib, p.results.transformationSummary.typeConversions, p.table.columns[j])
  {
  }

  /** Besides the log and `type_conversions`, one iteration leaves the results alone. */
  lemma ConvertAtSummary(lib: Library, p: Pipeline, j: nat)
    requires Valid(p) && j < |p.table.columns|
    ensures var q := ConvertAt(lib, p, j); var ts := p.results.transformationSummary;
      q.results.transformationSummary == ts.(typeConversions := q.results.transformationSummary.typeConversions) &&
      q.results.(cleaningSteps := p.results.cleaningSteps, transformationSummary := ts) == p.results
  {
  }

  /** The loop from column position `j` on. */
  function ConvertFrom(lib: Library, p: Pipeline, j: nat): (q: Pipeline)
    requires Valid(p) && j <= |p.table.columns|
    ensures Valid(q) && q.table.labels == p.table.labels && |q.table.columns| == |p.table.columns|
    ensures q.imputers == p.imputers && q.encoders == p.encoders && q.scalers == p.scalers
    ensures Continues(p, q)
    decreases |p.table.columns| - j
  {
    if j == |p.table.columns| then p else ConvertFrom(lib, ConvertAt(lib, p, j), j + 1)
  }

  /** `_standardize_data_types`: resets `type_conversions`, then runs the loop. */
  function TypeStage(lib: Library, p: Pipeline): (q: Pipeline)
    requires Valid(p)
    ensures Valid(q) && q.table.labels == p.table.labels && |q.table.columns| == |p.table.columns|
    ensures Continues(p, q)
  {
    var ts := p.results.transformationSummary;
    ConvertFrom(lib, p.(results := p.results.(transformationSummary := ts.(typeConversions := map[]))), 0)
  }

  lemma ConversionStepsUnfold(lib: Library, cols: seq<Column>, j: nat)
    requires j < |cols|
    ensures ConversionSteps(lib, cols[j..]) == StepFor(lib, cols[j]) + ConversionSteps(lib, cols[j + 1..])
  {
    assert cols[j..][0] == cols[j] && cols[j..][1..] == cols[j + 1..];
  }

  /** `out` holds the columns before `j` as they were and the others standardized. */
  predicate StandardizedFrom(lib: Library, cols: seq<Column>, out: seq<Column>, j: nat) {
    |out| == |cols| &&
    forall k :: 0 <= k < |cols| ==> out[k] == if k < j then cols[k] else Standardized(lib, cols[k])
  }

  /** One iteration followed by the rest of the loop standardizes from `j` on. */
  lemma StandardizedStep(lib: Library, cols: seq<Column>, mid: seq<Column>, out: seq<Column>, j: nat)
    requires j < |cols| == |mid| && mid[j] == Standardized(lib, cols[j])
    requires forall k :: 0 <= k < |cols| && k != j ==> mid[k] == cols[k]
    requires StandardizedFrom(lib, mid, out, j + 1)
    ensures StandardizedFrom(lib, cols, out, j)
  {
    forall k | 0 <= k < |cols|
      ensures out[k] == if k < j then cols[k] else Standardized(lib, cols[k])
    {
      if k != j {
        assert mid[k] == cols[k];
      }
    }
  }

  /** From position `j` on, the loop leaves every column standardized and the earlier ones alone. */
  lemma {:induction false} ConvertFromColumns(lib: Library, p: Pipeline, j: nat)
    requires Valid(p) && j <= |p.table.columns|
    ensures StandardizedFrom(lib, p.table.columns, ConvertFrom(lib, p, j).table.columns, j)
    decreases |p.table.columns| - j
  {
    var cols := p.table.columns;
    if j < |cols| {
      var p1 := ConvertAt(lib, p, j);
      ConvertFromColumns(lib, p1, j + 1);
      StandardizedStep(lib, cols, p1.table.columns, ConvertFrom(lib, p1, j + 1).table.columns, j);
    }
  }

  /**
   * A log grown by `step` and then by `rest` is the log grown by both at once;
   * stated apart so that the regrouping is proved outside the large context
   * of the loop lemma below.
   */
  lemma LogRegrouped(before: seq<Step>, step: seq<Step>, rest: seq<Step>, after: seq<Step>)
    requires after == (before + step) + rest
    ensures after == before + (step + rest)
  {
  }

  /** From position `j` on, the loop logs one line per converted column, in column order. */
  lemma {:induction false} ConvertFromSteps(lib: Library, p: Pipeline, j: nat)
    requires Valid(p) && j <= |p.table.columns|
    ensures ConvertFrom(lib, p, j).results.cleaningSteps == p.results.cleaningSteps + ConversionSteps(lib, p.table.columns[j..])
    decreases |p.table.columns| - j
  {
    var cols := p.table.columns;
    if j < |cols| {
      var p1 := ConvertAt(lib, p, j);
      var q := ConvertFrom(lib, p1, j + 1);
      assert ConvertFrom(lib, p, j) == q;
      ConvertFromSteps(lib, p1, j + 1);
      assert p1.table.columns[j + 1..] == cols[j + 1..];
      ConversionStepsUnfold(lib, cols, j);
      LogRegrouped(p.results.cleaningSteps, StepFor(lib, cols[j]), ConversionSteps(lib, cols[j + 1..]), q.results.cleaningSteps);
    } else {
      assert cols[j..] == [];
    }
  }

  /** The `type_conversions` the loop leaves, starting from `m`, over the columns in order. */
  function ConversionsOf(lib: Library, m: map<string, TypeConversion>, cols: seq<Column>): map<string, TypeConversion>
    decreases |cols|
  {
    if cols == [] then m else ConversionsOf(lib, ConversionsAfter(lib, m, cols[0]), cols[1..])
  }

  /** From position `j` on, the loop's `type_conversions` are the fold of the later columns. */
  lemma {:induction false} ConvertFromConversions(lib: Library, p: Pipeline, j: nat)
    requires Valid(p) && j <= |p.table.columns|
    ensures ConvertFrom(lib, p, j).results.transformationSummary.typeConversions ==
      ConversionsOf(lib, p.results.transformationSummary.typeConversions, p.table.columns[j..])
    decreases |p.table.columns| - j
  {
    var cols := p.table.columns;
    if j < |cols| {
      var p1 := ConvertAt(lib, p, j);
      ConvertAtConversions(lib, p, j);
      ConvertFromConversions(lib, p1, j + 1);
      assert p1.table.columns[j + 1..] == cols[j + 1..];
      assert cols[j..][0] == cols[j] && cols[j..][1..] == cols[j + 1..];
    } else {
      assert cols[j..] == [];
    }
  }

  /** An entry for a name none of the columns has survives the loop. */
  lemma {:induction false} ConversionsKeep(lib: Library, m: map<string, TypeConversion>, cols: seq<Column>, name: string)
    requires name in m && forall c :: c in cols ==> c.name != name
    ensures var r := ConversionsOf(lib, m, cols); name in r && r[name] == m[name]
    decreases |cols|
  {
    if cols != [] {
      assert cols[0] in cols;
      ConversionsKeep(lib, ConversionsAfter(lib, m, cols[0]), cols[1..], name);
    }
  }

  /** With distinct names, every converted column is recorded with its old and new type. */
  lemma {:induction false} ConversionsRecord(lib: Library, m: map<string, TypeConversion>, cols: seq<Column>)
    requires DistinctNames(cols)
    ensures var r := ConversionsOf(lib, m, cols);
      forall c :: c in cols && Converts(lib, c) ==>
        c.name in r && r[c.name] == TypeConversion(DtypeName(c.dtype), SuggestOptimalDtype(lib, c))
    decreases |cols|
  {
    if cols != [] {
      var m1 := ConversionsAfter(lib, m, cols[0]);
      DistinctTail(cols);
      LaterNamesDiffer(cols);
      ConversionsRecord(lib, m1, cols[1..]);
      if Converts(lib, cols[0]) {
        ConversionsKeep(lib, m1, cols[1..], cols[0].name);
      }
      forall c | c in cols && Converts(lib, c)
        ensures var r := ConversionsOf(lib, m, cols);
          c.name in r && r[c.name] == TypeConversion(DtypeName(c.dtype), SuggestOptimalDtype(lib, c))
      {
        if c != cols[0] {
          assert c in cols[1..];
        }
      }
    }
  }

  /** Every name in the result was in `m` or is a converted column's. */
  lemma {:induction false} ConversionsOnly(lib: Library, m: map<string, TypeConversion>, cols: seq<Column>)
    ensures forall name :: name in ConversionsOf(lib, m, cols) ==>
      name in m || exists c :: c in cols && Converts(lib, c) && c.name == name
    decreases |cols|
  {
    if cols != [] {
      var m1 := ConversionsAfter(lib, m, cols[0]);
      ConversionsOnly(lib, m1, cols[1..]);
      forall name | name in ConversionsOf(lib, m, cols)
        ensures name in m || exists c :: c in cols && Converts(lib, c) && c.name == name
      {
        if name !in m1 {
          var c :| c in cols[1..] && Converts(lib, c) && c.name == name;
          assert c in cols;
        } else if name !in m {
          assert Converts(lib, cols[0]) && cols[0].name == name;
        }
      }
    }
  }

  /**
   * The whole stage: every column ends up as `Standardized` says, the log
   * grows by one line per converted column, and `type_conversions` holds
   * exactly the converted columns.
   */
  lemma TypeStageEffect(lib: Library, p: Pipeline)
    requires Valid(p)
    ensures var q := TypeStage(lib, p); var cols := p.table.columns;
      (forall k :: 0 <= k < |cols| ==> q.table.columns[k] == Standardized(lib, cols[k])) &&
      q.results.cleaningSteps == p.results.cleaningSteps + ConversionSteps(lib, cols) &&
      (forall c :: c in cols && Converts(lib, c) ==>
        c.name in q.results.transformationSummary.typeConversions &&
        q.results.transformationSummary.typeConversions[c.name] == TypeConversion(DtypeName(c.dtype), SuggestOptimalDtype(lib, c))) &&
      (forall name :: name in q.results.transformationSummary.typeConversions <==>
        exists c :: c in cols && Converts(lib, c) && c.name == name)
  {
    var cols := p.table.columns;
    var ts := p.results.transformationSummary;
    var p0 := p.(results := p.results.(transformationSummary := ts.(typeConversions := map[])));
    ConvertFromColumns(lib, p0, 0);
    ConvertFromSteps(lib, p0, 0);
    ConvertFromConversions(lib, p0, 0);
    assert cols[0..] == cols;
    ConversionsRecord(lib, map[], cols);
    ConversionsOnly(lib, map[], cols);
  }

  /** Every column that is not of dtype object is logged as converted. */
  lemma NonObjectColumnsConvert(lib: Library, c: Column)
    requires c.dtype != Object
    ensures Converts(lib, c)
    ensures SuggestOptimalDtype(lib, c).Name() != DtypeName(c.dtype)
  {
    ConvertsIffNamesDiffer(lib, c);
  }

  /** After the stage a column without a present value is a datetime column. */
  lemma AllNullBecomesDatetime(lib: Library, c: Column)
    requires forall i :: 0 <= i < |c.cells| ==> c.cells[i].None?
    ensures Standardized(lib, c).dtype == Datetime
    ensures Standardized(lib, c).cells == c.cells
  {
    if c.dtype != Datetime {
      AllNullSuggestsDatetime(lib, c.dtype, c.cells);
    }
  }

  /**
   * A column other than a datetime64 one whose present values are all
   * timestamp objects (a datetime column after a constant fill turned it
   * into objects, say) becomes a datetime column again, with the same cells:
   * its timestamps are not numbers to `pd.to_numeric`.
   */
  lemma StampObjectsBecomeDatetime(lib: Library, c: Column)
    requires c.dtype != Datetime
    requires forall i :: 0 <= i < |c.cells| ==> c.cells[i].None? || c.cells[i].value.Stamp?
    ensures SuggestOptimalDtype(lib, c) == DatetimeKind
    ensures Standardized(lib, c) == c.(dtype := Datetime)
  {
    StampsDoNotCount(lib, c.dtype, c.cells);
    var d := Standardized(lib, c);
    assert d.cells == c.cells;
  }
}
