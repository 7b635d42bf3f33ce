/**
 * `DataQualityAnalyzer`: runs every analysis on a table, keeps the report in
 * its `analysisResults` field, and derives the quality score and the
 * recommendations from that field.
 */
module Analyzer {
  import opened Wrappers
  import opened Floats
  import opened Tables
  import opened Foreign
  import opened MissingData
  import opened Duplicates
  import opened Outliers
  import opened TypeAnalysis
  import opened Distributions
  import opened Quality

  datatype AnalysisReport = AnalysisReport(
    shape: Shape,
    missingData: MissingReport,
    duplicates: DuplicateReport,
    outliers: OutlierReport,
    dataTypes: seq<TypeInfo>,
    distributions: seq<DistributionInfo>,
    correlations: CorrelationReport,
    qualityScore: real,
    recommendations: seq<Advice>)

  /** `outliers.get("combined", {}).get("total_outliers", 0)`. */
  function TotalOutliers(o: OutlierReport): nat {
    match o
    case NoNumericColumns => 0
    case Found(_, _, c) => c.totalOutliers
  }

  /** The combined total when outliers were combined at all. */
  function CombinedTotal(o: OutlierReport): Option<nat> {
    match o
    case NoNumericColumns => None
    case Found(_, _, c) => Some(c.totalOutliers)
  }

  function MixedFlags(types: seq<TypeInfo>): (r: seq<MixedFlag>)
    ensures |r| == |types|
    ensures forall k :: 0 <= k < |types| ==> r[k] == MixedFlag(types[k].column, types[k].mixedTypes != [])
  {
    seq(|types|, k requires 0 <= k < |types| => MixedFlag(types[k].column, types[k].mixedTypes != []))
  }

  /** The score of a report, from its missing, duplicate and outlier parts. */
  function ScoreOf(r: AnalysisReport): (s: real)
    ensures 0.0 <= s <= 100.0
  {
    QualityScore(r.missingData.missingPercentage, r.duplicates.exactDuplicatePct, TotalOutliers(r.outliers), r.shape.rows)
  }

  function AdviceOf(r: AnalysisReport): seq<Advice> {
    GenerateAdvice(r.missingData.missingPercentage, r.duplicates.exactDuplicatePct,
      CombinedTotal(r.outliers), MixedFlags(r.dataTypes))
  }

  /**
   * `analyze_dataset`: every analysis, then the score and the recommendations
   * of that report. The missing-data analysis raises on a shared column name;
   * after it, the duplicate analysis on rows without columns; after that, the
   * type analysis on an object column the `.str` accessor refuses.
   */
  function Analyze(lib: Library, t: Table): (r: Result<AnalysisReport, AnalysisError>)
    requires WellFormed(t)
    ensures r.Err? <==> !DistinctNames(t.columns) || (t.columns == [] && |t.labels| > 0)
                        || exists k :: 0 <= k < |t.columns| && FormatCheckRaises(t.columns[k])
    ensures r.Err? ==> r.error == (if !DistinctNames(t.columns) then AmbiguousTruthValue
                                   else if t.columns == [] then UnalignableMask
                                   else StrAccessorRefused)
    ensures r.Ok? ==> r.value.shape == ShapeOf(t)
    ensures r.Ok? ==> 0.0 <= r.value.qualityScore <= 100.0
    ensures r.Ok? ==> r.value.qualityScore == ScoreOf(r.value) && r.value.recommendations == AdviceOf(r.value)
    ensures r.Ok? ==> Ok(r.value.missingData) == AnalyzeMissing(t) && Ok(r.value.duplicates) == AnalyzeDuplicates(t)
    ensures r.Ok? ==> r.value.outliers == AnalyzeOutliersSpec(lib, t)
    ensures r.Ok? ==> Ok(r.value.dataTypes) == AnalyzeDataTypes(lib, t.columns)
  {
    match AnalyzeMissing(t)
    case Err(e) => Err(e)
    case Ok(missing) =>
      match AnalyzeDuplicates(t)
      case Err(e) => Err(e)
      case Ok(duplicates) =>
        match AnalyzeDataTypes(lib, t.columns)
        case Err(e) => Err(e)
        case Ok(types) =>
          var partial := AnalysisReport(ShapeOf(t), missing, duplicates, AnalyzeOutliersSpec(lib, t),
            types, AnalyzeDistributions(lib, t.columns), AnalyzeCorrelations(lib, t), 0.0, []);
          Ok(partial.(qualityScore := ScoreOf(partial), recommendations := AdviceOf(partial)))
  }

  /**
   * A table with distinct column names, columns without nulls, no duplicate
   * rows and no numeric column is analysed exactly when no object column
   * holds only numbers or only timestamps, and then scores 100.
   */
  lemma CleanTableScoresPerfect(lib: Library, t: Table)
    requires WellFormed(t) && |t.labels| > 0 && |t.columns| > 0 && DistinctNames(t.columns)
    requires forall c :: c in t.columns ==> NullCount(c.cells) == 0
    requires DuplicatedRows(t) == 0
    requires NumericColumns(t.columns) == []
    ensures Analyze(lib, t).Ok? <==> forall c :: c in t.columns ==> !FormatCheckRaises(c)
    ensures Analyze(lib, t).Ok? ==> Analyze(lib, t).value.qualityScore == 100.0
  {
    NoNullsNoMissingPct(t);
    NoRepeatsNoDuplicatePct(t);
    if Analyze(lib, t).Ok? {
      var r := Analyze(lib, t).value;
      assert TotalOutliers(r.outliers) == 0;
      PerfectScore(|t.labels|);
    }
  }

  /**
   * A table with distinct column names and an object column holding numbers
   * and nulls only, at least one number, is never analysed: the format check
   * of the type analysis raises on it.
   */
  lemma NumericObjectColumnRaises(lib: Library, t: Table, k: nat)
    requires WellFormed(t) && DistinctNames(t.columns) && k < |t.columns| && t.columns[k].dtype == Object
    requires exists i :: 0 <= i < |t.columns[k].cells| && t.columns[k].cells[i].Some?
    requires forall i :: 0 <= i < |t.columns[k].cells| && t.columns[k].cells[i].Some? ==> t.columns[k].cells[i].value.Num?
    ensures Analyze(lib, t) == Err(StrAccessorRefused)
  {
    ObjectNumbersRaise(lib, t.columns, k);
  }

  lemma NoNullsNoMissingPct(t: Table)
    requires WellFormed(t) && |t.labels| > 0 && |t.columns| > 0 && DistinctNames(t.columns)
    requires forall c :: c in t.columns ==> NullCount(c.cells) == 0
    ensures AnalyzeMissing(t).Ok? && AnalyzeMissing(t).value.missingPercentage == Finite(0.0)
  {
    ZeroMissing(t.columns);
    assert MissingPercentage(t) == Percent(0, TotalCells(t));
  }

  lemma NoRepeatsNoDuplicatePct(t: Table)
    requires WellFormed(t) && |t.labels| > 0 && |t.columns| > 0
    requires DuplicatedRows(t) == 0
    ensures AnalyzeDuplicates(t).Ok? && AnalyzeDuplicates(t).value.exactDuplicatePct == Finite(0.0)
  {
  }

  /**
   * Every non-empty datetime64 column is reported as not mixed and suggested
   * to be numeric: `pd.to_numeric` views its timestamps and NaT as integers.
   */
  lemma DatetimeColumnsReportedNumeric(lib: Library, t: Table, k: nat)
    requires WellFormed(t) && k < |t.columns| && t.columns[k].dtype == Datetime && |t.labels| > 0
    requires Analyze(lib, t).Ok?
    ensures Analyze(lib, t).value.dataTypes[k].mixedTypes == []
    ensures Analyze(lib, t).value.dataTypes[k].suggestedDtype == NumericKind
  {
    assert t.columns[k] in t.columns;
    DatetimeNeverMixed(lib, t.columns[k].cells);
    DatetimeSuggestsNumeric(lib, t.columns[k].cells);
  }

  lemma {:induction false} ZeroMissing(cols: seq<Column>)
    requires forall c :: c in cols ==> NullCount(c.cells) == 0
    ensures TotalMissing(cols) == 0
  {
    if cols != [] {
      assert forall c :: c in cols[..|cols| - 1] ==> c in cols;
      ZeroMissing(cols[..|cols| - 1]);
      assert cols[|cols| - 1] in cols;
    }
  }

  class DataQualityAnalyzer {
    /** The last report; `None` stands for the empty dict before the first analysis. */
    var analysisResults: Option<AnalysisReport>

    constructor()
      ensures analysisResults == None
    {
      analysisResults := None;
    }

    /**
     * `_calculate_quality_score`, reading the stored report: the score starts
     * at 100 and each penalty is subtracted in turn; a NaN percentage makes
     * it NaN, which the final clamp turns into 100.
     */
    method CalculateQualityScore() returns (score: real)
      requires analysisResults.Some?
      ensures score == ScoreOf(analysisResults.value)
      ensures 0.0 <= score <= 100.0
    {
      var report := analysisResults.value;
      var s: Float := Finite(100.0);
      var missingPct := report.missingData.missingPercentage;
      s := if missingPct.NaN? then NaN else Finite(s.v - missingPct.v * 2.0);
      var duplicatePct := report.duplicates.exactDuplicatePct;
      s := if s.NaN? || duplicatePct.NaN? then NaN else Finite(s.v - duplicatePct.v * 1.5);
      var totalRows := report.shape.rows;
      var outlierPct := if totalRows > 0 then (TotalOutliers(report.outliers) as real) / (totalRows as real) * 100.0 else 0.0;
      s := if s.NaN? then NaN else Finite(s.v - outlierPct * 0.5);
      score := PyMax(0.0, PyMin(100.0, s));
    }

    /** `_generate_recommendations`, reading the stored report. */
    method GenerateRecommendations() returns (advice: seq<Advice>)
      requires analysisResults.Some?
      ensures advice == AdviceOf(analysisResults.value)
    {
      var report := analysisResults.value;
      advice := BuildAdvice(report.missingData.missingPercentage, report.duplicates.exactDuplicatePct,
        CombinedTotal(report.outliers), MixedFlags(report.dataTypes));
    }

    /**
     * `analyze_dataset`: stores the report with a zero score and no
     * recommendations, then fills both in from the stored report. When an
     * analysis raises, the report is never built and the field keeps its value.
     */
    method AnalyzeDataset(t: Table, lib: Library) returns (r: Result<AnalysisReport, AnalysisError>)
      requires WellFormed(t)
      modifies this
      ensures r == Analyze(lib, t)
      ensures r.Ok? ==> analysisResults == Some(r.value)
      ensures r.Err? ==> analysisResults == old(analysisResults)
    {
      TotalMissingBound(t.columns, |t.labels|);
      var pct := MissingPercentage(t);
      var clusters := FindMissingClusters(t);
      if clusters.Err? {
        return Err(clusters.error);
      }
      var missing := MissingReport(TotalMissing(t.columns), TotalCells(t), pct,
        ColumnMissingMap(t.columns, |t.labels|),
        MissingPatterns(CompletelyMissingColumns(t.columns), CompletelyMissingRows(t), clusters.value),
        AssessMissingSeverity(pct));
      assert AnalyzeMissing(t) == Ok(missing);
      var duplicates := AnalyzeDuplicates(t);
      if duplicates.Err? {
        return Err(duplicates.error);
      }

      var outliers: OutlierReport;
      var num := NumericColumns(t.columns);
      if num == [] {
        outliers := NoNumericColumns;
      } else {
        var stat := StatisticalOutliers(lib, t.labels, num);
        var ml := MlOutliers(lib, t);
        var combined := CombineOutlierResults(stat, ml);
        outliers := Found(stat, ml, combined);
      }
      assert outliers == AnalyzeOutliersSpec(lib, t);

      var correlations: CorrelationReport;
      if |num| < 2 {
        correlations := InsufficientColumns;
      } else {
        var names := Names(num);
        var pearson := CorrelationMatrix(num, lib.pearson);
        var high := FindHighCorrelations(names, pearson);
        correlations := Correlations(pearson, CorrelationMatrix(num, lib.spearman), high);
      }
      assert correlations == AnalyzeCorrelations(lib, t);

      var types := AnalyzeDataTypes(lib, t.columns);
      if types.Err? {
        return Err(types.error);
      }
      var partial := AnalysisReport(ShapeOf(t), missing, duplicates.value, outliers,
        types.value, AnalyzeDistributions(lib, t.columns), correlations, 0.0, []);
      assert Analyze(lib, t) == Ok(partial.(qualityScore := ScoreOf(partial), recommendations := AdviceOf(partial)));
      analysisResults := Some(partial);
      var score := CalculateQualityScore();
      analysisResults := Some(analysisResults.value.(qualityScore := score));
      var advice := GenerateRecommendations();
      analysisResults := Some(analysisResults.value.(recommendations := advice));
      r := Ok(analysisResults.value);
    }
  }
}
