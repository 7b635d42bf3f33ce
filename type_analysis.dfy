/**
 * Column type analysis: the mixed numeric/string check, the date-format
 * probe, and the dtype each column is suggested to have.
 */
module TypeAnalysis {
  import opened Wrappers
  import opened Floats
  import opened Tables
  import opened Foreign
  import opened MissingData

  /** Cells of a column of dtype `d` that `pd.to_numeric(errors='coerce')` turns into a number. */
  function NumericCount(lib: Library, d: Dtype, cells: seq<Cell>): (n: nat)
    ensures n <= |cells|
    ensures d != Datetime ==> n <= |cells| - NullCount(cells)
  {
    if cells == [] then 0
    else NumericCount(lib, d, cells[..|cells| - 1]) + (if AsNumber(lib, d, cells[|cells| - 1]).Some? then 1 else 0)
  }

  /** Outside a datetime64 column every number converts, and nothing else but parsed strings does. */
  lemma {:induction false} NumbersCount(lib: Library, d: Dtype, cells: seq<Cell>)
    requires d != Datetime
    requires forall i :: 0 <= i < |cells| ==> cells[i].Some? ==> cells[i].value.Num?
    ensures NumericCount(lib, d, cells) == |cells| - NullCount(cells)
  {
    if cells != [] {
      NumbersCount(lib, d, cells[..|cells| - 1]);
    }
  }

  /** Timestamp objects outside a datetime64 column never convert. */
  lemma {:induction false} StampsDoNotCount(lib: Library, d: Dtype, cells: seq<Cell>)
    requires d != Datetime
    requires forall i :: 0 <= i < |cells| ==> cells[i].None? || cells[i].value.Stamp?
    ensures NumericCount(lib, d, cells) == 0
  {
    if cells != [] {
      StampsDoNotCount(lib, d, cells[..|cells| - 1]);
    }
  }

  /** In a datetime64 column every cell converts, NaT included. */
  lemma {:induction false} DatetimeCountsAll(lib: Library, cells: seq<Cell>)
    ensures NumericCount(lib, Datetime, cells) == |cells|
  {
    if cells != [] {
      DatetimeCountsAll(lib, cells[..|cells| - 1]);
    }
  }

  /** `_detect_date_formats`: "detected" once some present string parses as a date. */
  function DetectDateFormats(lib: Library, cells: seq<Cell>): (r: seq<string>)
    ensures |r| <= 1
    ensures r != [] <==> exists i :: 0 <= i < |cells| && cells[i].Some? && cells[i].value.Str? && lib.parseDate(cells[i].value.s).Some?
  {
    if exists i :: 0 <= i < |cells| && cells[i].Some? && cells[i].value.Str? && lib.parseDate(cells[i].value.s).Some?
    then ["detected"] else []
  }

  /**
   * `_check_mixed_types` of a column of dtype `d`: a column is mixed when
   * some cells convert to numbers and some do not; nulls count among those
   * that do not, except in a datetime64 column. The date probe can only ever
   * find one format, so "mixed_date_formats" is never reported.
   */
  function CheckMixedTypes(lib: Library, d: Dtype, cells: seq<Cell>): (issues: seq<string>)
    ensures issues == [] || issues == ["mixed_numeric_string"]
    ensures issues != [] <==> 0 < NumericCount(lib, d, cells) < |cells|
  {
    var numericCount := NumericCount(lib, d, cells);
    var stringCount := |cells| - numericCount;
    (if numericCount > 0 && stringCount > 0 then ["mixed_numeric_string"] else [])
      + (if |DetectDateFormats(lib, cells)| > 1 then ["mixed_date_formats"] else [])
  }

  /** A numeric column with some, but not all, cells null is reported as mixing numbers and strings. */
  lemma NullsCountAsStrings(lib: Library, d: Dtype, cells: seq<Cell>)
    requires d != Datetime
    requires forall i :: 0 <= i < |cells| ==> cells[i].Some? ==> cells[i].value.Num?
    requires 0 < NullCount(cells) < |cells|
    ensures CheckMixedTypes(lib, d, cells) == ["mixed_numeric_string"]
  {
    NumbersCount(lib, d, cells);
  }

  /** A datetime64 column is never reported as mixed, whatever NaT it holds. */
  lemma DatetimeNeverMixed(lib: Library, cells: seq<Cell>)
    ensures CheckMixedTypes(lib, Datetime, cells) == []
  {
    DatetimeCountsAll(lib, cells);
  }

  /** The four suggestions, with the names the source reports. */
  datatype Suggestion = NumericKind | DatetimeKind | CategoricalKind | ObjectKind {
    function Name(): string {
      match this
      case NumericKind => "numeric"
      case DatetimeKind => "datetime"
      case CategoricalKind => "categorical"
      case ObjectKind => "object"
    }
  }

  /**
   * More than 80% of the cells convert to numbers (`notna().sum() / len >
   * 0.8`, stated without the division; never for an empty column, where 0/0
   * is NaN). `MostlyNumericRatio` relates the two forms.
   */
  predicate MostlyNumeric(lib: Library, d: Dtype, cells: seq<Cell>) {
    |cells| > 0 && 5 * NumericCount(lib, d, cells) > 4 * |cells|
  }

  lemma MostlyNumericRatio(lib: Library, d: Dtype, cells: seq<Cell>)
    requires |cells| > 0
    ensures MostlyNumeric(lib, d, cells) <==> (NumericCount(lib, d, cells) as real) / (|cells| as real) > 0.8
  {
    QuotientCompare(NumericCount(lib, d, cells) as real, |cells| as real, 0.8);
  }

  /**
   * `pd.to_datetime(series)` succeeds: every present value parses with the
   * format inferred from the column (nulls become NaT).
   */
  predicate ParsesAsDates(lib: Library, cells: seq<Cell>) {
    forall i :: 0 <= i < |cells| && cells[i].Some? ==> ColumnDate(lib, cells, i).Some?
  }

  /** Fewer distinct present values than half the cells (`nunique() / len < 0.5`, stated without the division). */
  predicate FewDistinct(cells: seq<Cell>) {
    |cells| > 0 && 2 * |PresentSet(cells)| < |cells|
  }

  lemma FewDistinctRatio(cells: seq<Cell>)
    requires |cells| > 0
    ensures FewDistinct(cells) <==> (|PresentSet(cells)| as real) / (|cells| as real) < 0.5
  {
    QuotientCompare(|PresentSet(cells)| as real, |cells| as real, 0.5);
  }

  /** `_suggest_dtype` of a column of dtype `d`: numeric, else datetime, else categorical, else object. */
  function SuggestDtype(lib: Library, d: Dtype, cells: seq<Cell>): (s: Suggestion)
    ensures s == NumericKind <==> MostlyNumeric(lib, d, cells)
    ensures s == DatetimeKind <==> !MostlyNumeric(lib, d, cells) && ParsesAsDates(lib, cells)
    ensures s == CategoricalKind <==> !MostlyNumeric(lib, d, cells) && !ParsesAsDates(lib, cells) && FewDistinct(cells)
  {
    if MostlyNumeric(lib, d, cells) then NumericKind
    else if ParsesAsDates(lib, cells) then DatetimeKind
    else if FewDistinct(cells) then CategoricalKind
    else ObjectKind
  }

  /**
   * A column other than a datetime64 one without a present value (an empty
   * one included) is suggested to be a datetime.
   */
  lemma AllNullSuggestsDatetime(lib: Library, d: Dtype, cells: seq<Cell>)
    requires d != Datetime
    requires forall i :: 0 <= i < |cells| ==> cells[i].None?
    ensures SuggestDtype(lib, d, cells) == DatetimeKind
  {
    StampsDoNotCount(lib, d, cells);
  }

  /** Every non-empty datetime64 column, all-NaT ones included, is suggested to be numeric. */
  lemma DatetimeSuggestsNumeric(lib: Library, cells: seq<Cell>)
    requires |cells| > 0
    ensures SuggestDtype(lib, Datetime, cells) == NumericKind
  {
    DatetimeCountsAll(lib, cells);
  }

  /** The entry of the type report for one column (format checks are not modelled). */
  datatype TypeInfo = TypeInfo(column: string, dtype: string, mixedTypes: seq<string>, suggestedDtype: Suggestion)

  /**
   * `_check_format_inconsistencies` takes `series.str.len()` of every object
   * column, and the `.str` accessor raises on one it refuses. The lengths
   * and the currency check that follow are not modelled.
   */
  predicate FormatCheckRaises(c: Column) {
    c.dtype == Object && RefusesStr(c.cells)
  }

  /**
   * `_analyze_data_types`: one entry per column, in column order; it raises
   * as soon as the format check of a column does.
   */
  function AnalyzeDataTypes(lib: Library, cols: seq<Column>): (r: Result<seq<TypeInfo>, AnalysisError>)
    ensures r.Err? <==> exists k :: 0 <= k < |cols| && FormatCheckRaises(cols[k])
    ensures r.Err? ==> r.error == StrAccessorRefused
    ensures r.Ok? ==> |r.value| == |cols|
    ensures r.Ok? ==> forall k :: 0 <= k < |cols| ==> r.value[k].column == cols[k].name && r.value[k].dtype == DtypeName(cols[k].dtype)
    ensures r.Ok? ==> forall k :: 0 <= k < |cols| ==>
      (r.value[k].mixedTypes != [] <==> 0 < NumericCount(lib, cols[k].dtype, cols[k].cells) < |cols[k].cells|)
    ensures r.Ok? ==> forall k :: 0 <= k < |cols| ==> r.value[k].suggestedDtype == SuggestDtype(lib, cols[k].dtype, cols[k].cells)
  {
    if exists k :: 0 <= k < |cols| && FormatCheckRaises(cols[k]) then Err(StrAccessorRefused)
    else
      Ok(seq(|cols|, k requires 0 <= k < |cols| =>
        TypeInfo(cols[k].name, DtypeName(cols[k].dtype), CheckMixedTypes(lib, cols[k].dtype, cols[k].cells),
          SuggestDtype(lib, cols[k].dtype, cols[k].cells))))
  }

  /**
   * An object column whose present values are all numbers, with at least one
   * present, makes the type analysis raise; a column of strings and nulls
   * never does.
   */
  lemma ObjectNumbersRaise(lib: Library, cols: seq<Column>, k: nat)
    requires k < |cols| && cols[k].dtype == Object
    requires exists i :: 0 <= i < |cols[k].cells| && cols[k].cells[i].Some?
    requires forall i :: 0 <= i < |cols[k].cells| && cols[k].cells[i].Some? ==> cols[k].cells[i].value.Num?
    ensures AnalyzeDataTypes(lib, cols) == Err(StrAccessorRefused)
  {
    assert FormatCheckRaises(cols[k]);
  }

  /** An object column holding some string, or no value at all, passes the format check. */
  lemma SomeStringPassesFormatCheck(c: Column)
    requires (exists i :: 0 <= i < |c.cells| && c.cells[i].Some? && c.cells[i].value.Str?)
             || (forall i :: 0 <= i < |c.cells| ==> c.cells[i].None?)
    ensures !FormatCheckRaises(c)
  {
    if exists i :: 0 <= i < |c.cells| && c.cells[i].Some? && c.cells[i].value.Str? {
      var i :| 0 <= i < |c.cells| && c.cells[i].Some? && c.cells[i].value.Str?;
      assert !c.cells[i].value.Num? && !c.cells[i].value.Stamp?;
    }
  }
}
