/**
 * The rule table of the recommendations endpoint
 * (`get_analysis_recommendations`): from a stored analysis it derives a
 * severity-tagged list of recommendations, their count and the quality score.
 * The stored results are read with defaults, so every part may be absent.
 */
module Recommendations {
  import opened Wrappers
  import opened Floats
  import opened MissingData
  import opened Quality
  import opened Analyzer

  /** The parts of a stored analysis the rules read; `None` is a key that is absent. */
  datatype Findings = Findings(
    /** `missing_data.missing_percentage`, 0 when absent. */
    missingPct: Option<Float>,
    /** `duplicates.exact_duplicate_pct`, 0 when absent. */
    duplicatePct: Option<Float>,
    /** `outliers.combined.total_outliers`; `None` when there is no `combined` entry. */
    combinedOutliers: Option<nat>,
    /** The entries of `data_types`, in order, each with whether `mixed_types` is non-empty. */
    types: seq<MixedFlag>,
    /** `quality_score`, 0.0 when absent. */
    qualityScore: Option<real>)

  /** One recommendation: its type, its severity and the figure its message quotes. */
  datatype Recommendation =
    | MissingDataRec(severity: Severity, pct: real)
    | DuplicatesRec(severity: Severity, pct: real)
    | OutliersRec(severity: Severity, total: nat)
    | DataTypesRec(severity: Severity, column: string)

  datatype Response = Response(recommendations: seq<Recommendation>, totalRecommendations: nat, qualityScore: real)

  /** The rule for missing data: above 5%, and high above 20%. */
  function MissingRule(pct: Float): (r: seq<Recommendation>)
    ensures |r| <= 1
    ensures r != [] <==> Above(pct, 5.0)
    ensures r != [] ==>
      r[0].MissingDataRec? && r[0].pct == pct.v && (r[0].severity == High <==> pct.v > 20.0) &&
      (r[0].severity == High || r[0].severity == Medium)
  {
    if Above(pct, 5.0) then [MissingDataRec(if Above(pct, 20.0) then High else Medium, pct.v)] else []
  }

  /** The rule for duplicates: above 1%, and high above 10%. */
  function DuplicateRule(pct: Float): (r: seq<Recommendation>)
    ensures |r| <= 1
    ensures r != [] <==> Above(pct, 1.0)
    ensures r != [] ==>
      r[0].DuplicatesRec? && r[0].pct == pct.v && (r[0].severity == High <==> pct.v > 10.0) &&
      (r[0].severity == High || r[0].severity == Medium)
  {
    if Above(pct, 1.0) then [DuplicatesRec(if Above(pct, 10.0) then High else Medium, pct.v)] else []
  }

  /** The rule for outliers: only with a `combined` entry and a positive total, always medium. */
  function OutlierRule(combined: Option<nat>): (r: seq<Recommendation>)
    ensures |r| <= 1
    ensures r != [] <==> combined.Some? && combined.value > 0
    ensures r != [] ==> r[0] == OutliersRec(Medium, combined.value)
  {
    if combined.Some? && combined.value > 0 then [OutliersRec(Medium, combined.value)] else []
  }

  /**
   * The loop over `data_types`, which appends one medium recommendation per
   * column with mixed types, in column order.
   */
  function DataTypeRules(flags: seq<MixedFlag>): (r: seq<Recommendation>)
    ensures |r| == |MixedAt(flags)|
    ensures forall k {:trigger MixedAt(flags)[k]} :: 0 <= k < |r| ==> r[k] == DataTypesRec(Medium, flags[MixedAt(flags)[k]].column)
    ensures forall x :: x in r ==> x.DataTypesRec? && x.severity == Medium
    ensures forall col :: DataTypesRec(Medium, col) in r <==> exists f :: f in flags && f.mixed && f.column == col
  {
    if flags == [] then []
    else
      var p := flags[..|flags| - 1];
      var last := flags[|flags| - 1];
      assert forall f :: f in flags ==> f in p || f == last;
      assert forall i :: 0 <= i < |p| ==> p[i] == flags[i];
      DataTypeRules(p) + (if last.mixed then [DataTypesRec(Medium, last.column)] else [])
  }

  /** `get_analysis_recommendations` after the job lookup: the rules in order, the count and the score. */
  function Recommend(f: Findings): (r: Response)
    ensures r.totalRecommendations == |r.recommendations|
    ensures r.qualityScore == (if f.qualityScore.Some? then f.qualityScore.value else 0.0)
  {
    var recs := MissingRule(f.missingPct.GetOr(Finite(0.0)))
      + DuplicateRule(f.duplicatePct.GetOr(Finite(0.0)))
      + OutlierRule(f.combinedOutliers)
      + DataTypeRules(f.types);
    Response(recs, |recs|, f.qualityScore.GetOr(0.0))
  }

  /**
   * The list is the missing-data entry, then the duplicates entry, then the
   * outlier entry, each present exactly when its rule fires, and then only
   * data-type entries.
   */
  lemma RecommendLayout(f: Findings)
    ensures var recs := Recommend(f).recommendations;
      var m := f.missingPct.GetOr(Finite(0.0));
      var d := f.duplicatePct.GetOr(Finite(0.0));
      var nm := if Above(m, 5.0) then 1 else 0;
      var nd := if Above(d, 1.0) then 1 else 0;
      var no := if f.combinedOutliers.Some? && f.combinedOutliers.value > 0 then 1 else 0;
      nm + nd + no <= |recs| &&
      (Above(m, 5.0) ==> recs[0].MissingDataRec? && recs[0].pct == m.v) &&
      (Above(d, 1.0) ==> recs[nm].DuplicatesRec? && recs[nm].pct == d.v) &&
      (no == 1 ==> recs[nm + nd] == OutliersRec(Medium, f.combinedOutliers.value)) &&
      forall k :: nm + nd + no <= k < |recs| ==> recs[k].DataTypesRec? && recs[k].severity == Medium
  {
    var m := f.missingPct.GetOr(Finite(0.0));
    var d := f.duplicatePct.GetOr(Finite(0.0));
    var mr, dr, or := MissingRule(m), DuplicateRule(d), OutlierRule(f.combinedOutliers);
    var head: seq<Recommendation> := mr + dr + or;
    var tail: seq<Recommendation> := DataTypeRules(f.types);
    var recs := head + tail;
    assert Recommend(f).recommendations == recs;
    var nm, nd := |mr|, |dr|;
    assert |head| == nm + nd + |or|;
    if mr != [] {
      assert recs[0] == head[0] == mr[0];
    }
    if dr != [] {
      assert recs[nm] == head[nm] == dr[0];
    }
    if or != [] {
      assert recs[nm + nd] == head[nm + nd] == or[0];
    }
    forall k | |head| <= k < |recs|
      ensures recs[k].DataTypesRec? && recs[k].severity == Medium
    {
      assert recs[k] == tail[k - |head|];
      assert tail[k - |head|] in tail;
    }
  }

  /** A missing-data entry is present exactly when more than 5% is missing; it is high exactly above 20%. */
  lemma MissingSeverityRule(f: Findings)
    ensures var recs := Recommend(f).recommendations; var m := f.missingPct.GetOr(Finite(0.0));
      (exists x :: x in recs && x.MissingDataRec?) <==> Above(m, 5.0)
    ensures var recs := Recommend(f).recommendations; var m := f.missingPct.GetOr(Finite(0.0));
      (exists x :: x in recs && x.MissingDataRec? && x.severity == High) <==> Above(m, 20.0)
  {
    var m := f.missingPct.GetOr(Finite(0.0));
    var head: seq<Recommendation> := MissingRule(m);
    var rest: seq<Recommendation> := DuplicateRule(f.duplicatePct.GetOr(Finite(0.0))) + OutlierRule(f.combinedOutliers) + DataTypeRules(f.types);
    assert Recommend(f).recommendations == head + rest;
    assert forall x :: x in rest ==> !x.MissingDataRec?;
  }

  /** A duplicates entry is present exactly when more than 1% is duplicated; it is high exactly above 10%. */
  lemma DuplicateSeverityRule(f: Findings)
    ensures var recs := Recommend(f).recommendations; var d := f.duplicatePct.GetOr(Finite(0.0));
      (exists x :: x in recs && x.DuplicatesRec?) <==> Above(d, 1.0)
    ensures var recs := Recommend(f).recommendations; var d := f.duplicatePct.GetOr(Finite(0.0));
      (exists x :: x in recs && x.DuplicatesRec? && x.severity == High) <==> Above(d, 10.0)
  {
    var d := f.duplicatePct.GetOr(Finite(0.0));
    var before: seq<Recommendation> := MissingRule(f.missingPct.GetOr(Finite(0.0)));
    var rule: seq<Recommendation> := DuplicateRule(d);
    var after: seq<Recommendation> := OutlierRule(f.combinedOutliers) + DataTypeRules(f.types);
    assert Recommend(f).recommendations == before + rule + after;
    assert forall x :: x in before + after ==> !x.DuplicatesRec?;
  }

  /** An outlier entry is present exactly when a `combined` entry has a positive total, and it is medium. */
  lemma OutlierSeverityRule(f: Findings)
    ensures var recs := Recommend(f).recommendations;
      (exists x :: x in recs && x.OutliersRec?) <==> f.combinedOutliers.Some? && f.combinedOutliers.value > 0
    ensures forall x :: x in Recommend(f).recommendations && x.OutliersRec? ==> x.severity == Medium
  {
    var before: seq<Recommendation> := MissingRule(f.missingPct.GetOr(Finite(0.0))) + DuplicateRule(f.duplicatePct.GetOr(Finite(0.0)));
    var rule: seq<Recommendation> := OutlierRule(f.combinedOutliers);
    var after: seq<Recommendation> := DataTypeRules(f.types);
    assert Recommend(f).recommendations == before + rule + after;
    assert forall x :: x in before + after ==> !x.OutliersRec?;
  }

  /** There is a data-type entry for a column exactly when its `mixed_types` is non-empty, and it is medium. */
  lemma MixedTypesRule(f: Findings)
    ensures forall col :: DataTypesRec(Medium, col) in Recommend(f).recommendations <==>
      exists t :: t in f.types && t.mixed && t.column == col
    ensures forall x :: x in Recommend(f).recommendations && x.DataTypesRec? ==> x.severity == Medium
  {
    var head: seq<Recommendation> := MissingRule(f.missingPct.GetOr(Finite(0.0))) + DuplicateRule(f.duplicatePct.GetOr(Finite(0.0)))
      + OutlierRule(f.combinedOutliers);
    var tail: seq<Recommendation> := DataTypeRules(f.types);
    assert Recommend(f).recommendations == head + tail;
    assert forall x :: x in head ==> !x.DataTypesRec?;
  }

  /** What the endpoint reads from a report the analyzer produced: every key is present. */
  function FindingsOf(a: AnalysisReport): Findings {
    Findings(Some(a.missingData.missingPercentage), Some(a.duplicates.exactDuplicatePct),
      CombinedTotal(a.outliers), MixedFlags(a.dataTypes), Some(a.qualityScore))
  }

  /** An endpoint recommendation and an analyzer recommendation for the same finding. */
  predicate SameFinding(r: Recommendation, a: Advice) {
    match r
    case MissingDataRec(_, p) => a == MissingAdvice(p)
    case DuplicatesRec(_, p) => a == DuplicateAdvice(p)
    case OutliersRec(_, n) => a == OutlierAdvice(n)
    case DataTypesRec(_, c) => a == MixedTypesAdvice(c)
  }

  predicate Corresponds(rs: seq<Recommendation>, advice: seq<Advice>) {
    |rs| == |advice| && forall k :: 0 <= k < |rs| ==> SameFinding(rs[k], advice[k])
  }

  /** The endpoint's data-type entries and the analyzer's mixed-type lines name the same columns, in the same order. */
  lemma DataTypeRulesMatch(flags: seq<MixedFlag>)
    ensures Corresponds(DataTypeRules(flags), MixedColumnAdvice(flags))
  {
    var rs, advice := DataTypeRules(flags), MixedColumnAdvice(flags);
    forall k | 0 <= k < |rs|
      ensures SameFinding(rs[k], advice[k])
    {
      assert rs[k] == DataTypesRec(Medium, flags[MixedAt(flags)[k]].column);
      assert advice[k] == MixedTypesAdvice(flags[MixedAt(flags)[k]].column);
    }
  }

  lemma CorrespondsConcat(rs: seq<Recommendation>, more: seq<Recommendation>, advice: seq<Advice>, moreAdvice: seq<Advice>)
    requires Corresponds(rs, advice) && Corresponds(more, moreAdvice)
    ensures Corresponds(rs + more, advice + moreAdvice)
  {
    forall k | 0 <= k < |rs + more|
      ensures SameFinding((rs + more)[k], (advice + moreAdvice)[k])
    {
      if k < |rs| {
        assert (rs + more)[k] == rs[k] && (advice + moreAdvice)[k] == advice[k];
      } else {
        assert (rs + more)[k] == more[k - |rs|] && (advice + moreAdvice)[k] == moreAdvice[k - |rs|];
      }
    }
  }

  /** The three threshold rules fire on the same figures as the analyzer's. */
  lemma HeadRulesMatch(m: Float, d: Float, c: Option<nat>)
    ensures Corresponds(MissingRule(m) + DuplicateRule(d) + OutlierRule(c), ThresholdAdvice(m, d, c))
  {
    var ma: seq<Advice> := if Above(m, 5.0) then [MissingAdvice(m.v)] else [];
    var da: seq<Advice> := if Above(d, 1.0) then [DuplicateAdvice(d.v)] else [];
    var oa: seq<Advice> := if c.Some? && c.value > 0 then [OutlierAdvice(c.value)] else [];
    assert Corresponds(MissingRule(m), ma);
    assert Corresponds(DuplicateRule(d), da);
    assert Corresponds(OutlierRule(c), oa);
    CorrespondsConcat(MissingRule(m), DuplicateRule(d), ma, da);
    CorrespondsConcat(MissingRule(m) + DuplicateRule(d), OutlierRule(c), ma + da, oa);
  }

  /**
   * On a report of the analyzer, the endpoint recommends for the same
   * findings, in the same order, as the analyzer's own recommendation list.
   */
  lemma AgreesWithAnalyzer(a: AnalysisReport)
    ensures Corresponds(Recommend(FindingsOf(a)).recommendations, AdviceOf(a))
  {
    var m := a.missingData.missingPercentage;
    var d := a.duplicates.exactDuplicatePct;
    var c := CombinedTotal(a.outliers);
    var flags := MixedFlags(a.dataTypes);
    var head: seq<Recommendation> := MissingRule(m) + DuplicateRule(d) + OutlierRule(c);
    var ahead := ThresholdAdvice(m, d, c);
    assert Recommend(FindingsOf(a)).recommendations == head + DataTypeRules(flags);
    assert AdviceOf(a) == ahead + MixedColumnAdvice(flags);
    HeadRulesMatch(m, d, c);
    DataTypeRulesMatch(flags);
    CorrespondsConcat(head, DataTypeRules(flags), ahead, MixedColumnAdvice(flags));
  }

  /**
   * At exactly 20% missing the endpoint rates the missing data medium,
   * while the analyzer's own severity for the same percentage is high.
   */
  lemma TwentyPercentTiers(f: Findings)
    requires f.missingPct == Some(Finite(20.0))
    ensures MissingDataRec(Medium, 20.0) in Recommend(f).recommendations
    ensures AssessMissingSeverity(Finite(20.0)) == High
  {
    assert Recommend(f).recommendations[0] == MissingDataRec(Medium, 20.0);
  }
}
