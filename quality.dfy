/**
 * The overall quality score and the analyzer's own recommendation list.
 */
module Quality {
  import opened Wrappers
  import opened Floats

  /** The outlier share in percent; 0 for a table without rows. */
  function OutlierPct(totalOutliers: nat, rows: nat): real {
    if rows > 0 then (totalOutliers as real) / (rows as real) * 100.0 else 0.0
  }

  /** 100 minus the penalties, before clamping; NaN once a percentage is NaN. */
  function RawScore(missingPct: Float, duplicatePct: Float, outlierPct: real): Float {
    if missingPct.NaN? || duplicatePct.NaN? then NaN
    else Finite(100.0 - missingPct.v * 2.0 - duplicatePct.v * 1.5 - outlierPct * 0.5)
  }

  /**
   * `_calculate_quality_score`: two points per percent missing, one and a
   * half per percent duplicated, half a point per percent outlying rows,
   * clamped with `max(0, min(100, score))`.
   */
  function QualityScore(missingPct: Float, duplicatePct: Float, totalOutliers: nat, rows: nat): (s: real)
    ensures 0.0 <= s <= 100.0
    ensures RawScore(missingPct, duplicatePct, OutlierPct(totalOutliers, rows)).Finite? ==>
      var raw := RawScore(missingPct, duplicatePct, OutlierPct(totalOutliers, rows)).v;
      (0.0 <= raw <= 100.0 ==> s == raw) && (raw < 0.0 ==> s == 0.0) && (raw > 100.0 ==> s == 100.0)
  {
    PyMax(0.0, PyMin(100.0, RawScore(missingPct, duplicatePct, OutlierPct(totalOutliers, rows))))
  }

  /** A table without defects scores 100. */
  lemma PerfectScore(rows: nat)
    ensures QualityScore(Finite(0.0), Finite(0.0), 0, rows) == 100.0
  {
  }

  /**
   * Python's `min(100.0, nan)` is 100.0: a table without cells, whose
   * missing percentage is NaN, scores a perfect 100.
   */
  lemma NaNScoresPerfect(duplicatePct: Float, totalOutliers: nat, rows: nat)
    ensures QualityScore(NaN, duplicatePct, totalOutliers, rows) == 100.0
  {
  }

  /** On a table without rows the outlier count carries no penalty. */
  lemma NoRowsNoOutlierPenalty(missingPct: Float, duplicatePct: Float, totalOutliers: nat)
    ensures QualityScore(missingPct, duplicatePct, totalOutliers, 0) == QualityScore(missingPct, duplicatePct, 0, 0)
  {
  }

  /** More missing data, more duplicates or more outliers never raise the score. */
  lemma ScoreMonotone(m1: real, m2: real, d1: real, d2: real, o1: nat, o2: nat, rows: nat)
    requires m1 <= m2 && d1 <= d2 && o1 <= o2
    ensures QualityScore(Finite(m2), Finite(d2), o2, rows) <= QualityScore(Finite(m1), Finite(d1), o1, rows)
  {
    if rows > 0 {
      var r := rows as real;
      assert (o1 as real) / r <= (o2 as real) / r by {
        QuotientMonotone(o1 as real, o2 as real, r);
      }
    }
  }

  lemma QuotientMonotone(a: real, b: real, n: real)
    requires a <= b && n > 0.0
    ensures a / n <= b / n
  {
    assert (b - a) / n >= 0.0;
    assert b / n - a / n == (b - a) / n;
  }

  /** One recommendation of the analyzer; the message text is not modelled. */
  datatype Advice =
    | MissingAdvice(missingPct: real)
    | DuplicateAdvice(duplicatePct: real)
    | OutlierAdvice(totalOutliers: nat)
    | MixedTypesAdvice(column: string)

  /** A column and whether its type analysis found mixed types. */
  datatype MixedFlag = MixedFlag(column: string, mixed: bool)

  /**
   * The positions of the mixed columns, in increasing order: the order in
   * which a loop over the columns meets them.
   */
  function MixedAt(flags: seq<MixedFlag>): (r: seq<nat>)
    ensures forall k :: 0 <= k < |r| ==> r[k] < |flags| && flags[r[k]].mixed
    ensures forall k, l :: 0 <= k < l < |r| ==> r[k] < r[l]
  {
    if flags == [] then []
    else
      var p := flags[..|flags| - 1];
      var r := MixedAt(p) + (if flags[|flags| - 1].mixed then [|flags| - 1] else []);
      assert forall i :: 0 <= i < |p| ==> p[i] == flags[i];
      r
  }

  /** No mixed column is skipped. */
  lemma {:induction false} MixedAtCovers(flags: seq<MixedFlag>, i: nat)
    requires i < |flags| && flags[i].mixed
    ensures i in MixedAt(flags)
  {
    var p := flags[..|flags| - 1];
    if i < |p| {
      assert p[i] == flags[i];
      MixedAtCovers(p, i);
    }
  }

  /** One line per column with mixed types, in column order. */
  function MixedColumnAdvice(flags: seq<MixedFlag>): (r: seq<Advice>)
    ensures |r| == |MixedAt(flags)|
    ensures forall k {:trigger MixedAt(flags)[k]} :: 0 <= k < |r| ==> r[k] == MixedTypesAdvice(flags[MixedAt(flags)[k]].column)
    ensures forall a :: a in r ==> a.MixedTypesAdvice?
    ensures forall col :: MixedTypesAdvice(col) in r <==> exists f :: f in flags && f.mixed && f.column == col
  {
    if flags == [] then []
    else
      var p := flags[..|flags| - 1];
      var last := flags[|flags| - 1];
      assert forall f :: f in flags ==> f in p || f == last;
      assert forall i :: 0 <= i < |p| ==> p[i] == flags[i];
      MixedColumnAdvice(p) + (if last.mixed then [MixedTypesAdvice(last.column)] else [])
  }

  /** The entries for missing data, duplicates and outliers, in that order. */
  function ThresholdAdvice(missingPct: Float, duplicatePct: Float, combinedOutliers: Option<nat>): (r: seq<Advice>)
    ensures |r| <= 3
    ensures forall a :: a in r ==> !a.MixedTypesAdvice?
    ensures (exists p :: MissingAdvice(p) in r) <==> Above(missingPct, 5.0)
    ensures (exists p :: DuplicateAdvice(p) in r) <==> Above(duplicatePct, 1.0)
    ensures (exists n :: OutlierAdvice(n) in r) <==> combinedOutliers.Some? && combinedOutliers.value > 0
  {
    (if Above(missingPct, 5.0) then [MissingAdvice(missingPct.v)] else [])
      + (if Above(duplicatePct, 1.0) then [DuplicateAdvice(duplicatePct.v)] else [])
      + (if combinedOutliers.Some? && combinedOutliers.value > 0 then [OutlierAdvice(combinedOutliers.value)] else [])
  }

  /**
   * `_generate_recommendations`: missing data above 5%, duplicates above
   * 1%, any combined outlier (only when outliers were combined), then every
   * column with mixed types, in that order.
   */
  function GenerateAdvice(missingPct: Float, duplicatePct: Float, combinedOutliers: Option<nat>, flags: seq<MixedFlag>): (r: seq<Advice>)
    ensures (exists p :: MissingAdvice(p) in r) <==> Above(missingPct, 5.0)
    ensures (exists p :: DuplicateAdvice(p) in r) <==> Above(duplicatePct, 1.0)
    ensures (exists n :: OutlierAdvice(n) in r) <==> combinedOutliers.Some? && combinedOutliers.value > 0
    ensures forall col :: MixedTypesAdvice(col) in r <==> exists f :: f in flags && f.mixed && f.column == col
    ensures |MixedAt(flags)| <= |r| <= |MixedAt(flags)| + 3
    ensures var n := |r| - |MixedAt(flags)|;
      (forall k :: 0 <= k < n ==> !r[k].MixedTypesAdvice?) &&
      r[n..] == MixedColumnAdvice(flags)
  {
    var head := ThresholdAdvice(missingPct, duplicatePct, combinedOutliers);
    var tail := MixedColumnAdvice(flags);
    ThresholdsThenMixed(head, tail);
    head + tail
  }

  /** Threshold lines followed by mixed-type lines: the threshold part holds no mixed-type line. */
  lemma ThresholdsThenMixed(head: seq<Advice>, tail: seq<Advice>)
    requires forall a :: a in head ==> !a.MixedTypesAdvice?
    ensures forall k :: 0 <= k < |head| ==> !(head + tail)[k].MixedTypesAdvice?
    ensures (head + tail)[|head|..] == tail
    ensures forall a :: a in head + tail <==> a in head || a in tail
  {
    assert forall k :: 0 <= k < |head| ==> (head + tail)[k] == head[k];
  }

  /**
   * The appends of `_generate_recommendations`: the three threshold checks,
   * then one entry per column with mixed types, in column order.
   */
  method BuildAdvice(missingPct: Float, duplicatePct: Float, combinedOutliers: Option<nat>, flags: seq<MixedFlag>)
    returns (advice: seq<Advice>)
    ensures advice == GenerateAdvice(missingPct, duplicatePct, combinedOutliers, flags)
  {
    advice := [];
    if Above(missingPct, 5.0) {
      advice := advice + [MissingAdvice(missingPct.v)];
    }
    if Above(duplicatePct, 1.0) {
      advice := advice + [DuplicateAdvice(duplicatePct.v)];
    }
    if combinedOutliers.Some? && combinedOutliers.value > 0 {
      advice := advice + [OutlierAdvice(combinedOutliers.value)];
    }
    assert advice == ThresholdAdvice(missingPct, duplicatePct, combinedOutliers);
    var mixed: seq<Advice> := [];
    var i := 0;
    while i < |flags|
      invariant i <= |flags|
      invariant mixed == MixedColumnAdvice(flags[..i])
    {
      assert flags[..i + 1][..i] == flags[..i];
      if flags[i].mixed {
        mixed := mixed + [MixedTypesAdvice(flags[i].column)];
      }
      i := i + 1;
    }
    assert flags[..i] == flags;
    advice := advice + mixed;
  }
}
