/**
 * `AutoDataCleaner.clean_dataset`: the six stages in order, then the final
 * shape and the number of rows removed. `Clean` is the specification of a
 * run; the class below runs it stage by stage on its own fields.
 */
module Cleaner {
  import opened Wrappers
  import opened Tables
  import opened Foreign
  import opened MissingData
  import opened Imputation
  import opened CleaningLog
  import opened Analyzer
  import opened MissingStage
  import opened OutlierHandling
  import opened Deduplication
  import opened TypeStandardization
  import opened TextCleanup
  import opened Transformations

  /** The final shape and `rows_removed` agree with the table and the original shape. */
  predicate Finished(q: Pipeline) {
    q.results.finalShape == Some(ShapeOf(q.table)) &&
    q.results.rowsRemoved == Some(q.results.originalShape.rows - |q.table.labels|)
  }

  /** Records the final shape and `rows_removed`, the original row count minus the final one. */
  function Finish(p: Pipeline): (q: Pipeline)
    ensures q.table == p.table && q.imputers == p.imputers && q.encoders == p.encoders && q.scalers == p.scalers
    ensures q.results.cleaningSteps == p.results.cleaningSteps && q.results.originalShape == p.results.originalShape
    ensures Finished(q)
  {
    p.(results := p.results.(finalShape := Some(ShapeOf(p.table)),
      rowsRemoved := Some(p.results.originalShape.rows - |p.table.labels|)))
  }

  /** The state `clean_dataset` starts from: fresh results, and the fitted objects of earlier runs. */
  function Start(df: Table, imputers: map<string, Imputer>, encoders: map<string, set<string>>,
                 scalers: map<string, seq<string>>): (p: Pipeline)
    ensures p.table == df && p.results == InitialResults(ShapeOf(df))
  {
    Pipeline(df, InitialResults(ShapeOf(df)), imputers, encoders, scalers)
  }

  /** Stages 2 to 6 of `clean_dataset`, after the missing data is handled. */
  function LaterStages(lib: Library, p1: Pipeline, analysis: Option<AnalysisReport>): (r: Result<Pipeline, CleanError>)
    requires Valid(p1)
    ensures r.Ok? ==> Valid(r.value) && |r.value.table.labels| <= |p1.table.labels| && Continues(p1, r.value)
  {
    match OutlierStage(lib, p1, analysis)
    case Err(e) => Err(e)
    case Ok(p2) =>
      var p3 := DedupStage(p2);
      var p4 := TypeStage(lib, p3);
      ContinuesTransitive(p2, p3, p4);
      ContinuesTransitive(p1, p2, p4);
      match TextStage(p4)
      case Err(e) => Err(e)
      case Ok(p5) =>
        ContinuesTransitive(p1, p4, p5);
        var r := TransformStage(lib, p5);
        if r.Ok? then ContinuesTransitive(p1, p5, r.value); r else r
  }

  /**
   * A whole run of `clean_dataset`; the first stage that raises ends it. A
   * run that completes continues the log it was given, records the final
   * shape, and reports as removed the original row count minus the final one.
   */
  function Clean(lib: Library, p: Pipeline, analysis: Option<AnalysisReport>): (r: Result<Pipeline, CleanError>)
    requires Valid(p)
    ensures r.Ok? ==> Valid(r.value) && |r.value.table.labels| <= |p.table.labels| && Continues(p, r.value)
    ensures r.Ok? ==>
      Finished(r.value)
  {
    match ImputeStage(lib, p, analysis)
    case Err(e) => Err(e)
    case Ok(p1) =>
      ImputeStageContinues(lib, p, analysis);
      match LaterStages(lib, p1, analysis)
      case Err(e) => Err(e)
      case Ok(p6) =>
        ContinuesTransitive(p, p1, p6);
        Ok(Finish(p6))
  }

  /** The missing-data stage, when it succeeds, continues the run and logs one line per imputed column. */
  lemma {:induction false} ImputeStageLogs(lib: Library, p: Pipeline, analysis: Option<AnalysisReport>)
    requires Valid(p)
    ensures var r := ImputeStage(lib, p, analysis);
      r.Ok? ==>
        Continues(p, r.value) && Covered(p.table.columns, MissingPercentages(p.table, analysis)) &&
        r.value.results.cleaningSteps == p.results.cleaningSteps + Entries(p.table.columns, MissingPercentages(p.table, analysis))
  {
    var pcts := MissingPercentages(p.table, analysis);
    var start := p.(results := p.results.(imputationSummary := ImputationSummary([], map[])));
    ImputeColumnsCovered(lib, start, p.table.columns, pcts);
    if ImputeStage(lib, p, analysis).Ok? {
      ImputeColumnsLogs(lib, start, p.table.columns, pcts);
      ImputeColumnsShape(lib, start, p.table.columns, pcts);
    }
  }

  /** The missing-data stage keeps the original shape and only appends to the log. */
  lemma ImputeStageContinues(lib: Library, p: Pipeline, analysis: Option<AnalysisReport>)
    requires Valid(p)
    ensures var r := ImputeStage(lib, p, analysis); r.Ok? ==> Continues(p, r.value)
  {
    ImputeStageLogs(lib, p, analysis);
  }

  /**
   * The call the cleaning service makes: the analysis of the input table is
   * handed to the run, and imputation keeps the row labels, so the outlier
   * stage that follows cannot fail and, with distinct row labels, removes
   * exactly `outliers_removed` rows.
   */
  lemma AnalysedRunOutlierStage(lib: Library, p: Pipeline)
    requires Valid(p) && DistinctLabels(p.table.labels) && Analyze(lib, p.table).Ok?
    ensures var a := Some(Analyze(lib, p.table).value);
      var r1 := ImputeStage(lib, p, a);
      r1.Ok? ==>
        var r2 := OutlierStage(lib, r1.value, a);
        r2.Ok? && |r2.value.table.labels| == |p.table.labels| - r2.value.results.outlierTreatment.value.outliersRemoved
  {
    var r1 := ImputeStage(lib, p, Some(Analyze(lib, p.table).value));
    if r1.Ok? {
      AnalysedOutlierStage(lib, r1.value, p.table);
    }
  }

  /**
   * A finished state of a run started on the results `clean_dataset`
   * initialises, which kept or lost rows of the input, reports the shape of
   * the input as the original one and, as removed, exactly the rows it lost,
   * which is never negative. `Clean` promises each premise of a run that completes.
   */
  lemma RunRecords(p: Pipeline, q: Pipeline)
    requires p.results == InitialResults(ShapeOf(p.table))
    requires Continues(p, q) && Finished(q) && |q.table.labels| <= |p.table.labels|
    ensures q.results.originalShape == ShapeOf(p.table)
    ensures q.results.finalShape == Some(ShapeOf(q.table))
    ensures q.results.rowsRemoved == Some(|p.table.labels| - |q.table.labels|) && q.results.rowsRemoved.value >= 0
  {
  }

  /** A run's log opens with the imputations, one line per column with a null, in column order. */
  lemma {:induction false} CleanLogsImputationsFirst(lib: Library, p: Pipeline, analysis: Option<AnalysisReport>)
    requires Valid(p) && p.results.cleaningSteps == []
    ensures var r := Clean(lib, p, analysis);
      r.Ok? ==>
        Covered(p.table.columns, MissingPercentages(p.table, analysis)) &&
        Entries(p.table.columns, MissingPercentages(p.table, analysis)) <= r.value.results.cleaningSteps
  {
    var r := Clean(lib, p, analysis);
    if r.Ok? {
      var p1 := ImputeStage(lib, p, analysis).value;
      var p6 := LaterStages(lib, p1, analysis).value;
      assert r.value == Finish(p6);
      ImputeStageLogs(lib, p, analysis);
      var e := Entries(p.table.columns, MissingPercentages(p.table, analysis));
      assert p1.results.cleaningSteps == e;
      assert e <= p6.results.cleaningSteps;
    }
  }

  /**
   * After a successful run no column is left of dtype category or object
   * with fewer than 50 distinct values: the last stage label-encodes all of them.
   */
  lemma {:induction false} CleanEncodesSmallCategoricals(lib: Library, p: Pipeline, analysis: Option<AnalysisReport>)
    requires Valid(p)
    ensures var r := Clean(lib, p, analysis);
      r.Ok? ==>
        forall c :: c in r.value.table.columns && (c.dtype == Category || c.dtype == Object) ==>
          |PresentSet(c.cells)| >= 50
  {
    var r := Clean(lib, p, analysis);
    if r.Ok? {
      var p1 := ImputeStage(lib, p, analysis).value;
      var p2 := OutlierStage(lib, p1, analysis).value;
      var p4 := TypeStage(lib, DedupStage(p2));
      var p5 := TextStage(p4).value;
      assert r.value.table == TransformStage(lib, p5).value.table;
      TransformStageColumns(lib, p5);
    }
  }
}
