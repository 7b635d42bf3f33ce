/**
 * `AutoDataCleaner` as the object it is: the fields `cleaning_results`,
 * `imputers`, `encoders` and `scalers`, updated in place by each stage.
 * Every stage method is proved to leave the object and the table in the
 * state the matching stage function of the specification describes.
 */
module AutoCleaner {
  import opened Wrappers
  import opened Tables
  import opened Foreign
  import opened Imputation
  import opened CleaningLog
  import opened Analyzer
  import opened MissingStage
  import opened OutlierHandling
  import opened Deduplication
  import opened TypeStandardization
  import opened TextCleanup
  import opened Transformations
  import opened Cleaner

  class AutoDataCleaner {
    /** `cleaning_results`; `None` stands for the empty dict of a cleaner that has not run. */
    var cleaningResults: Option<CleaningResults>
    var imputers: map<string, Imputer>
    var encoders: map<string, set<string>>
    var scalers: map<string, seq<string>>

    constructor ()
      ensures cleaningResults.None? && imputers == map[] && encoders == map[] && scalers == map[]
    {
      cleaningResults := None;
      imputers := map[];
      encoders := map[];
      scalers := map[];
    }

    /** The object's fields together with the table a stage works on. */
    function State(t: Table): Pipeline
      reads this
      requires cleaningResults.Some?
    {
      Pipeline(t, cleaningResults.value, imputers, encoders, scalers)
    }

    /** Stores the fields of `q` and hands back its table. */
    method Adopt(q: Pipeline) returns (t: Table)
      modifies this
      ensures cleaningResults.Some? && State(t) == q
    {
      cleaningResults := Some(q.results);
      imputers := q.imputers;
      encoders := q.encoders;
      scalers := q.scalers;
      t := q.table;
    }

    /** `_handle_missing_data`: one turn per column of the table as it was on entry. */
    method HandleMissingData(lib: Library, df: Table, analysis: Option<AnalysisReport>) returns (r: Result<Table, CleanError>)
      requires cleaningResults.Some? && Valid(State(df))
      modifies this
      ensures var s := ImputeStage(lib, old(State(df)), analysis);
        (r.Ok? <==> s.Ok?) && (r.Ok? ==> cleaningResults.Some? && State(r.value) == s.value)
    {
      var pcts := MissingPercentages(df, analysis);
      cleaningResults := Some(cleaningResults.value.(imputationSummary := ImputationSummary([], map[])));
      var cols := df.columns;
      var out := df;
      var i := 0;
      while i < |cols|
        invariant i <= |cols| && cleaningResults.Some? && Valid(State(out))
        invariant DistinctNames(cols[i..]) && forall c :: c in cols[i..] ==> c in out.columns
        invariant ImputeColumns(lib, State(out), cols[i..], pcts) == ImputeStage(lib, old(State(df)), analysis)
      {
        var rest := cols[i..];
        assert rest[0] == cols[i] && rest[1..] == cols[i + 1..];
        ColumnNamedUnique(out.columns, cols[i]);
        LaterNamesDiffer(rest);
        DistinctTail(rest);
        match ImputeOne(lib, State(out), cols[i].name, pcts)
        case Err(e) =>
          return Err(e);
        case Ok(q) =>
          out := Adopt(q);
        i := i + 1;
      }
      r := Ok(out);
    }

    /**
     * `_handle_outliers`: nothing without an analysis; otherwise the listed
     * rows are dropped, then every numeric column is capped in turn.
     */
    method HandleOutliers(lib: Library, df: Table, analysis: Option<AnalysisReport>) returns (r: Result<Table, CleanError>)
      requires cleaningResults.Some? && Valid(State(df))
      modifies this
      ensures var s := OutlierStage(lib, old(State(df)), analysis);
        (r.Ok? <==> s.Ok?) && (r.Ok? ==> cleaningResults.Some? && State(r.value) == s.value)
    {
      if analysis.None? {
        return Ok(df);
      }
      cleaningResults := Some(cleaningResults.value.(outlierTreatment := Some(OutlierTreatment([], 0, 0, map[]))));
      var out;
      match RemoveOutlierRows(State(df), CombinedLabels(analysis.value))
      case Err(e) =>
        return Err(e);
      case Ok(q) =>
        out := Adopt(q);
      var j := 0;
      while j < |out.columns|
        invariant cleaningResults.Some? && Valid(State(out)) && j <= |out.columns|
        invariant cleaningResults.value.outlierTreatment.Some?
        invariant Ok(CapFrom(lib, State(out), j)) == OutlierStage(lib, old(State(df)), analysis)
        decreases |out.columns| - j
      {
        out := Adopt(CapAt(lib, State(out), j));
        j := j + 1;
      }
      r := Ok(out);
    }

    /** `_remove_duplicates`. */
    method RemoveDuplicates(df: Table) returns (out: Table)
      requires cleaningResults.Some? && Valid(State(df))
      modifies this
      ensures cleaningResults.Some? && State(out) == DedupStage(old(State(df)))
    {
      out := Adopt(DedupStage(State(df)));
    }

    /** `_standardize_data_types`: resets `type_conversions`, then converts column by column. */
    method StandardizeDataTypes(lib: Library, df: Table) returns (out: Table)
      requires cleaningResults.Some? && Valid(State(df))
      modifies this
      ensures cleaningResults.Some? && State(out) == TypeStage(lib, old(State(df)))
    {
      var ts := cleaningResults.value.transformationSummary;
      cleaningResults := Some(cleaningResults.value.(transformationSummary := ts.(typeConversions := map[])));
      out := df;
      var j := 0;
      while j < |out.columns|
        invariant cleaningResults.Some? && Valid(State(out)) && j <= |out.columns|
        invariant ConvertFrom(lib, State(out), j) == TypeStage(lib, old(State(df)))
        decreases |out.columns| - j
      {
        out := Adopt(ConvertAt(lib, State(out), j));
        j := j + 1;
      }
    }

    /** `_handle_inconsistencies`: the text of every object column, column by column. */
    method HandleInconsistencies(df: Table) returns (r: Result<Table, CleanError>)
      requires cleaningResults.Some? && Valid(State(df))
      modifies this
      ensures var s := TextStage(old(State(df)));
        (r.Ok? <==> s.Ok?) && (r.Ok? ==> cleaningResults.Some? && State(r.value) == s.value)
    {
      var out := df;
      var j := 0;
      while j < |out.columns|
        invariant cleaningResults.Some? && Valid(State(out)) && j <= |out.columns|
        invariant TextFrom(State(out), j) == TextStage(old(State(df)))
        decreases |out.columns| - j
      {
        match TextAt(State(out), j)
        case Err(e) =>
          return Err(e);
        case Ok(q) =>
          out := Adopt(q);
        j := j + 1;
      }
      r := Ok(out);
    }

    /** `_apply_transformations`: scales the numeric columns together, then encodes column by column. */
    method ApplyTransformations(lib: Library, df: Table) returns (r: Result<Table, CleanError>)
      requires cleaningResults.Some? && Valid(State(df))
      modifies this
      ensures var s := TransformStage(lib, old(State(df)));
        (r.Ok? <==> s.Ok?) && (r.Ok? ==> cleaningResults.Some? && State(r.value) == s.value)
    {
      var ts := cleaningResults.value.transformationSummary;
      cleaningResults := Some(cleaningResults.value.(transformationSummary := ts.(scaledColumns := None, encoded := [])));
      var out;
      match ScaleNumeric(lib, State(df))
      case Err(e) =>
        return Err(e);
      case Ok(q) =>
        out := Adopt(q);
      var j := 0;
      while j < |out.columns|
        invariant cleaningResults.Some? && Valid(State(out)) && j <= |out.columns|
        invariant Ok(EncodeFrom(lib, State(out), j)) == TransformStage(lib, old(State(df)))
        decreases |out.columns| - j
      {
        out := Adopt(EncodeAt(lib, State(out), j));
        j := j + 1;
      }
      r := Ok(out);
    }

    /**
     * `clean_dataset`: fresh `cleaning_results`, the six stages in order,
     * then the final shape and the rows removed. The fitted imputers,
     * encoders and scalers of earlier runs are kept and added to.
     */
    method CleanDataset(lib: Library, df: Table, analysis: Option<AnalysisReport>) returns (r: Result<Table, CleanError>)
      requires WellFormed(df) && DistinctNames(df.columns)
      modifies this
      ensures var s := Clean(lib, Start(df, old(imputers), old(encoders), old(scalers)), analysis);
        (r.Ok? <==> s.Ok?) && (r.Ok? ==> cleaningResults.Some? && State(r.value) == s.value)
    {
      cleaningResults := Some(InitialResults(ShapeOf(df)));
      ghost var p := State(df);
      assert p == Start(df, old(imputers), old(encoders), old(scalers));
      var r1 := HandleMissingData(lib, df, analysis);
      if r1.Err? {
        return Err(r1.error);
      }
      ghost var p1 := State(r1.value);
      var r2 := HandleOutliers(lib, r1.value, analysis);
      if r2.Err? {
        return Err(r2.error);
      }
      var t3 := RemoveDuplicates(r2.value);
      var t4 := StandardizeDataTypes(lib, t3);
      var r5 := HandleInconsistencies(t4);
      if r5.Err? {
        return Err(r5.error);
      }
      var r6 := ApplyTransformations(lib, r5.value);
      if r6.Err? {
        return Err(r6.error);
      }
      ghost var p6 := State(r6.value);
      assert LaterStages(lib, p1, analysis) == Ok(p6);
      var t := Adopt(Finish(State(r6.value)));
      r := Ok(t);
    }
  }
}
