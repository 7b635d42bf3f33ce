/**
 * What the cleaner records about a run (`cleaning_results`) and the state a
 * run threads from stage to stage: the table, those results and the fitted
 * imputers, encoders and scalers.
 */
module CleaningLog {
  import opened Wrappers
  import opened Tables
  import opened Imputation
  import opened TypeAnalysis

  /** One line of `cleaning_steps`, kept as its parts rather than as formatted text. */
  datatype Step =
    | Imputed(count: nat, column: string, strategy: ImputationMethod)
    | RemovedOutliers(count: nat)
    | Capped(count: nat, column: string)
    | RemovedDuplicates(count: nat)
    | Converted(column: string, from: string, to: Suggestion)
    | Scaled(count: nat)
    | Encoded(column: string)

  datatype ImputationSummary = ImputationSummary(
    columnsImputed: seq<string>,
    methodsUsed: map<string, ImputationMethod>)

  datatype OutlierTreatment = OutlierTreatment(
    columnsProcessed: seq<string>,
    outliersRemoved: nat,
    outliersCapped: nat,
    methodsUsed: map<string, string>)

  datatype TypeConversion = TypeConversion(from: string, to: Suggestion)

  datatype TransformationSummary = TransformationSummary(
    typeConversions: map<string, TypeConversion>,
    /** `scaling["numeric_columns"]`, absent when there was no numeric column. */
    scaledColumns: Option<seq<string>>,
    /** The keys of `encoding`, each mapped to "label_encoding". */
    encoded: seq<string>)

  datatype CleaningResults = CleaningResults(
    originalShape: Shape,
    cleaningSteps: seq<Step>,
    imputationSummary: ImputationSummary,
    /** Absent (an empty dict) when no analysis was given. */
    outlierTreatment: Option<OutlierTreatment>,
    transformationSummary: TransformationSummary,
    finalShape: Option<Shape>,
    rowsRemoved: Option<int>)

  /** The results as `clean_dataset` initialises them. */
  function InitialResults(shape: Shape): (r: CleaningResults)
    ensures r.cleaningSteps == [] && r.outlierTreatment.None? && r.finalShape.None?
    ensures r.originalShape == shape
  {
    CleaningResults(shape, [], ImputationSummary([], map[]), None,
      TransformationSummary(map[], None, []), None, None)
  }

  /** Everything a run reads and writes: the table and the cleaner's fields. */
  datatype Pipeline = Pipeline(
    table: Table,
    results: CleaningResults,
    imputers: map<string, Imputer>,
    encoders: map<string, set<string>>,
    scalers: map<string, seq<string>>)

  predicate Valid(p: Pipeline) {
    WellFormed(p.table) && DistinctNames(p.table.columns)
  }

  /** Appends one line to the log. */
  function Log(p: Pipeline, s: Step): (q: Pipeline)
    ensures q.results.cleaningSteps == p.results.cleaningSteps + [s]
    ensures q.table == p.table && q.imputers == p.imputers && q.encoders == p.encoders && q.scalers == p.scalers
  {
    p.(results := p.results.(cleaningSteps := p.results.cleaningSteps + [s]))
  }

  /** `q` is a later state of the same run as `p`: the original shape is kept and the log only grows. */
  predicate Continues(p: Pipeline, q: Pipeline) {
    q.results.originalShape == p.results.originalShape && p.results.cleaningSteps <= q.results.cleaningSteps
  }

  /** Being a later state of the same run is transitive. */
  lemma ContinuesTransitive(p: Pipeline, q: Pipeline, r: Pipeline)
    requires Continues(p, q) && Continues(q, r)
    ensures Continues(p, r)
  {
    var a, b, c := p.results.cleaningSteps, q.results.cleaningSteps, r.results.cleaningSteps;
    assert b[..|a|] == a && c[..|b|] == b;
    assert c[..|a|] == c[..|b|][..|a|];
  }
}
