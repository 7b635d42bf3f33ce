/**
 * Outlier detection: per numeric column the IQR fences, the z-score and the
 * modified z-score tests; the isolation-forest and local-outlier-factor
 * detectors on the median-filled numeric table; and the union of every
 * flagged row label.
 */
module Outliers {
  import opened Wrappers
  import opened Floats
  import opened Tables
  import opened Foreign

  /** The numeric columns, in table order (`select_dtypes(include=[np.number])`). */
  function NumericColumns(cols: seq<Column>): (r: seq<Column>)
    ensures forall c :: c in r <==> c in cols && IsNumeric(c.dtype)
    ensures |r| <= |cols|
  {
    if cols == [] then []
    else
      var last := cols[|cols| - 1];
      assert forall c :: c in cols ==> c in cols[..|cols| - 1] || c == last;
      NumericColumns(cols[..|cols| - 1]) + (if IsNumeric(last.dtype) then [last] else [])
  }

  /** A present number of a column with the label of its row. */
  datatype Point = Point(rowLabel: int, x: real)

  /** `df[col].dropna()`: the present numbers with their labels, in row order. */
  function Points(labels: seq<int>, cells: seq<Cell>): (ps: seq<Point>)
    requires |labels| == |cells|
    ensures |ps| == |PresentNumbers(cells)|
    ensures forall k :: 0 <= k < |ps| ==> ps[k].x == PresentNumbers(cells)[k]
    ensures forall p :: p in ps ==> p.rowLabel in labels
  {
    if cells == [] then []
    else
      var n := |cells|;
      var last := cells[n - 1];
      assert forall l :: l in labels[..n - 1] ==> l in labels;
      Points(labels[..n - 1], cells[..n - 1]) + (if last.Some? && last.value.Num? then [Point(labels[n - 1], last.value.x)] else [])
  }

  /** The labels of the points whose value the test flags, in row order. */
  function Flagged(ps: seq<Point>, flag: real -> bool): (r: seq<int>)
    ensures |r| <= |ps|
    ensures forall p :: p in ps && flag(p.x) ==> p.rowLabel in r
    ensures forall l :: l in r ==> exists p :: p in ps && flag(p.x) && p.rowLabel == l
  {
    if ps == [] then []
    else
      var last := ps[|ps| - 1];
      assert forall p :: p in ps ==> p in ps[..|ps| - 1] || p == last;
      Flagged(ps[..|ps| - 1], flag) + (if flag(last.x) then [last.rowLabel] else [])
  }

  datatype Fences = Fences(lower: real, upper: real)

  /** Q1 - 1.5 IQR and Q3 + 1.5 IQR. */
  function IqrFences(q1: real, q3: real): (f: Fences)
    ensures f.upper - f.lower == 4.0 * (q3 - q1)
    ensures q1 <= q3 ==> f.lower <= q1 && q3 <= f.upper
    ensures f.lower + f.upper == q1 + q3
  {
    var iqr := q3 - q1;
    Fences(q1 - 1.5 * iqr, q3 + 1.5 * iqr)
  }

  /** The fences of a column from the library's quartiles. */
  function ColumnFences(lib: Library, xs: seq<real>): Fences {
    IqrFences(lib.quantile(xs, 0.25), lib.quantile(xs, 0.75))
  }

  /** Strictly below the lower fence or strictly above the upper one. */
  predicate Outside(x: real, f: Fences) {
    x < f.lower || x > f.upper
  }

  /** `|zscore| > 3`; a NaN z-score (a constant column) flags nothing. */
  predicate ZscoreFlag(lib: Library, xs: seq<real>, x: real) {
    Above(Abs(lib.zscore(xs, x)), 3.0)
  }

  function AbsDeviations(xs: seq<real>, m: real): (ds: seq<real>)
    ensures |ds| == |xs| && forall k :: 0 <= k < |xs| ==> ds[k] == AbsReal(xs[k] - m)
  {
    seq(|xs|, k requires 0 <= k < |xs| => AbsReal(xs[k] - m))
  }

  /**
   * `|0.6745 (x - median) / mad| > 3.5`. With a zero MAD the quotient is an
   * infinity for every value off the median (flagged) and NaN on it (not).
   */
  predicate ModifiedZFlag(x: real, median: real, mad: real) {
    if mad == 0.0 then x != median
    else AbsReal(0.6745 * (x - median) / mad) > 3.5
  }

  /** For a positive MAD the test is a distance threshold of 3.5 / 0.6745 MADs from the median. */
  lemma ModifiedZDistance(x: real, median: real, mad: real)
    requires mad > 0.0
    ensures ModifiedZFlag(x, median, mad) <==> 0.6745 * AbsReal(x - median) > 3.5 * mad
  {
    var q := 0.6745 * (x - median) / mad;
    assert q * mad == 0.6745 * (x - median);
    assert AbsReal(q) * mad == 0.6745 * AbsReal(x - median);
    if AbsReal(q) > 3.5 {
      assert AbsReal(q) * mad > 3.5 * mad;
    } else {
      assert AbsReal(q) * mad <= 3.5 * mad;
    }
  }

  /** The result for one numeric column with at least one present number. */
  datatype ColumnOutliers = ColumnOutliers(
    column: string,
    iqrOutliers: nat,
    zscoreOutliers: nat,
    modifiedZscoreOutliers: nat,
    iqrBounds: Fences,
    iqr: seq<int>,
    zscore: seq<int>,
    modifiedZscore: seq<int>)

  /** `_statistical_outlier_detection` for one column. */
  function ColumnStatistics(lib: Library, labels: seq<int>, c: Column): (r: ColumnOutliers)
    requires |c.cells| == |labels|
    ensures r.iqrOutliers == |r.iqr| && r.zscoreOutliers == |r.zscore| && r.modifiedZscoreOutliers == |r.modifiedZscore|
    ensures forall l :: l in r.iqr || l in r.zscore || l in r.modifiedZscore ==> l in labels
    ensures forall p :: p in Points(labels, c.cells) ==> (p.rowLabel in r.iqr <== Outside(p.x, r.iqrBounds))
  {
    var ps := Points(labels, c.cells);
    var xs := PresentNumbers(c.cells);
    var f := ColumnFences(lib, xs);
    var m := lib.median(xs);
    var mad := lib.median(AbsDeviations(xs, m));
    var iqr := Flagged(ps, x => Outside(x, f));
    var z := Flagged(ps, x => ZscoreFlag(lib, xs, x));
    var mz := Flagged(ps, x => ModifiedZFlag(x, m, mad));
    ColumnOutliers(c.name, |iqr|, |z|, |mz|, f, iqr, z, mz)
  }

  /** A label is in a column's IQR list exactly when a present value of that row is outside the fences. */
  lemma IqrListIff(lib: Library, labels: seq<int>, c: Column, l: int)
    requires |c.cells| == |labels|
    ensures var r := ColumnStatistics(lib, labels, c);
      l in r.iqr <==> exists p :: p in Points(labels, c.cells) && p.rowLabel == l && Outside(p.x, r.iqrBounds)
  {
  }

  /** The columns the statistical tests report on: numeric, with a present number. */
  function StatisticalOutliers(lib: Library, labels: seq<int>, cols: seq<Column>): (r: seq<ColumnOutliers>)
    requires forall c :: c in cols ==> |c.cells| == |labels|
    ensures |r| <= |cols|
    ensures forall k :: 0 <= k < |r| ==> forall l :: l in r[k].iqr || l in r[k].zscore || l in r[k].modifiedZscore ==> l in labels
  {
    if cols == [] then []
    else
      var last := cols[|cols| - 1];
      assert last in cols;
      StatisticalOutliers(lib, labels, cols[..|cols| - 1])
        + (if |PresentNumbers(last.cells)| == 0 then [] else [ColumnStatistics(lib, labels, last)])
  }

  /** A numeric column's nulls filled with its median; an all-null column stays as it is (its median is NaN). */
  function FillWithMedian(lib: Library, c: Column): (r: Column)
    ensures r.name == c.name && r.dtype == c.dtype && |r.cells| == |c.cells|
    ensures |PresentNumbers(c.cells)| > 0 ==> NullCount(r.cells) == 0
  {
    var xs := PresentNumbers(c.cells);
    if |xs| == 0 then c else c.(cells := FillNulls(c.cells, Num(lib.median(xs))))
  }

  /** `df[numeric_cols].fillna(df[numeric_cols].median())`. */
  function MedianFilled(lib: Library, t: Table): (r: Table)
    requires WellFormed(t)
    ensures WellFormed(r) && r.labels == t.labels
  {
    var num := NumericColumns(t.columns);
    Table(t.labels, seq(|num|, k requires 0 <= k < |num| => FillWithMedian(lib, num[k])))
  }

  /** The labels of the rows a detector marks with -1. */
  function DetectorLabels(labels: seq<int>, flags: seq<bool>): (r: seq<int>)
    ensures forall l :: l in r ==> l in labels
    ensures |r| <= |labels|
  {
    if labels == [] then []
    else
      var n := |labels|;
      assert forall l :: l in labels[..n - 1] ==> l in labels;
      DetectorLabels(labels[..n - 1], flags) + (if n - 1 < |flags| && flags[n - 1] then [labels[n - 1]] else [])
  }

  /** The result of one detector: its flagged labels, or the exception it raised. */
  function Detect(labels: seq<int>, outcome: Option<seq<bool>>): Option<seq<int>> {
    match outcome
    case None => None
    case Some(flags) => Some(DetectorLabels(labels, flags))
  }

  datatype MlResult =
    | InsufficientData
    | Detectors(isolationForest: Option<seq<int>>, localOutlierFactor: Option<seq<int>>)

  /** `_ml_outlier_detection`: nothing under ten rows, otherwise both detectors. */
  function MlOutliers(lib: Library, t: Table): (r: MlResult)
    requires WellFormed(t)
    ensures r.InsufficientData? <==> |t.labels| < 10
    ensures r.Detectors? ==> forall l ::
      (r.isolationForest.Some? && l in r.isolationForest.value) || (r.localOutlierFactor.Some? && l in r.localOutlierFactor.value)
      ==> l in t.labels
  {
    var numeric := MedianFilled(lib, t);
    if |numeric.labels| < 10 then InsufficientData
    else Detectors(Detect(t.labels, lib.isolationForest(numeric)), Detect(t.labels, lib.localOutlierFactor(numeric)))
  }

  /** Every list of flagged labels, in the order the combination visits them. */
  function IndexLists(stat: seq<ColumnOutliers>, ml: MlResult): (r: seq<seq<int>>)
  {
    var s := seq(|stat|, k requires 0 <= k < |stat| => [stat[k].iqr, stat[k].zscore, stat[k].modifiedZscore]);
    Concat(s) +
      (match ml
       case InsufficientData => []
       case Detectors(iso, lof) =>
         (if iso.Some? then [iso.value] else []) + (if lof.Some? then [lof.value] else []))
  }

  function Concat<T>(xss: seq<seq<T>>): (r: seq<T>)
    ensures forall k, x :: 0 <= k < |xss| && x in xss[k] ==> x in r
    ensures forall x :: x in r ==> exists k :: 0 <= k < |xss| && x in xss[k]
  {
    if xss == [] then []
    else
      var p := xss[..|xss| - 1];
      assert forall k :: 0 <= k < |p| ==> p[k] == xss[k];
      Concat(p) + xss[|xss| - 1]
  }

  /** The elements of `xs` in first-occurrence order, each once. */
  function Dedup(xs: seq<int>): (r: seq<int>)
    ensures forall x :: x in r <==> x in xs
  {
    if xs == [] then []
    else
      var p := xs[..|xs| - 1];
      var last := xs[|xs| - 1];
      assert forall x :: x in xs ==> x in p || x == last;
      Dedup(p) + (if last in p then [] else [last])
  }

  datatype Combined = Combined(totalOutliers: nat, allOutlierIndices: seq<int>)

  /** The combined view: every flagged label once. */
  function CombineSpec(stat: seq<ColumnOutliers>, ml: MlResult): Combined {
    var all := Dedup(Concat(IndexLists(stat, ml)));
    Combined(|all|, all)
  }

  /** `set.update(xs)`: adds the labels of `xs` not yet seen, keeping first-occurrence order. */
  method AddAll(ghost before: seq<int>, out: seq<int>, seen: set<int>, xs: seq<int>)
    returns (out': seq<int>, seen': set<int>)
    requires out == Dedup(before) && seen == Elements(out)
    ensures out' == Dedup(before + xs) && seen' == Elements(out')
  {
    out', seen' := out, seen;
    var j := 0;
    assert before + xs[..0] == before;
    while j < |xs|
      invariant 0 <= j <= |xs|
      invariant out' == Dedup(before + xs[..j])
      invariant seen' == Elements(out')
    {
      ghost var prefix := before + xs[..j];
      AppendSlice(before, xs, j);
      DedupSnoc(prefix, xs[j]);
      assert xs[j] in seen' <==> xs[j] in prefix;
      if xs[j] !in seen' {
        ElementsSnoc(out', xs[j]);
        seen' := seen' + {xs[j]};
        out' := out' + [xs[j]];
      }
      j := j + 1;
    }
    assert xs[..j] == xs;
  }

  /** No label appears twice in the deduplicated view. */
  lemma {:induction false} DedupDistinct(xs: seq<int>)
    ensures forall a, b :: 0 <= a < b < |Dedup(xs)| ==> Dedup(xs)[a] != Dedup(xs)[b]
  {
    if xs != [] {
      var p := xs[..|xs| - 1];
      DedupDistinct(p);
      var last := xs[|xs| - 1];
      var d, r := Dedup(p), Dedup(xs);
      assert r == d + (if last in p then [] else [last]);
      forall a, b | 0 <= a < b < |r|
        ensures r[a] != r[b]
      {
        assert r[a] == d[a] && d[a] in p;
        if b >= |d| {
          assert r[b] == last && last !in p;
        } else {
          assert r[b] == d[b] && d[a] != d[b];
        }
      }
    }
  }

  /** Appending one label adds it to the deduplicated view only when it is new. */
  lemma DedupSnoc(s: seq<int>, x: int)
    ensures Dedup(s + [x]) == Dedup(s) + (if x in s then [] else [x])
  {
    assert (s + [x])[..|s|] == s;
  }

  /** The labels of a sequence, as the set `seen` holds them. */
  function Elements(s: seq<int>): (r: set<int>)
    ensures forall x :: x in r <==> x in s
  {
    set x | x in s
  }

  lemma AppendSlice<T>(a: seq<T>, xs: seq<T>, j: nat)
    requires j < |xs|
    ensures a + xs[..j + 1] == (a + xs[..j]) + [xs[j]]
  {
    assert xs[..j + 1] == xs[..j] + [xs[j]];
  }

  lemma ElementsSnoc(s: seq<int>, x: int)
    ensures Elements(s + [x]) == Elements(s) + {x}
  {
  }

  lemma ConcatSnoc<T>(xss: seq<seq<T>>, i: nat)
    requires i < |xss|
    ensures Concat(xss[..i + 1]) == Concat(xss[..i]) + xss[i]
  {
    assert xss[..i + 1][..i] == xss[..i];
  }

  /**
   * `_combine_outlier_results`: walks every list of flagged labels and adds
   * each label to a set of those already seen.
   */
  method CombineOutlierResults(stat: seq<ColumnOutliers>, ml: MlResult) returns (c: Combined)
    ensures c == CombineSpec(stat, ml)
  {
    var lists := IndexLists(stat, ml);
    var seen: set<int> := {};
    var out: seq<int> := [];
    assert Elements(out) == {};
    var i := 0;
    while i < |lists|
      invariant 0 <= i <= |lists|
      invariant out == Dedup(Concat(lists[..i]))
      invariant seen == Elements(out)
    {
      ConcatSnoc(lists, i);
      out, seen := AddAll(Concat(lists[..i]), out, seen, lists[i]);
      i := i + 1;
    }
    assert lists[..i] == lists;
    c := Combined(|out|, out);
  }

  /** The combined result holds each flagged label exactly once, and nothing else. */
  lemma CombinedIsUnion(stat: seq<ColumnOutliers>, ml: MlResult)
    ensures var c := CombineSpec(stat, ml); var lists := IndexLists(stat, ml);
      c.totalOutliers == |c.allOutlierIndices| &&
      (forall a, b :: 0 <= a < b < |c.allOutlierIndices| ==> c.allOutlierIndices[a] != c.allOutlierIndices[b]) &&
      (forall l :: l in c.allOutlierIndices <==> exists k :: 0 <= k < |lists| && l in lists[k])
  {
    DedupDistinct(Concat(IndexLists(stat, ml)));
  }

  datatype OutlierReport =
    | NoNumericColumns
    | Found(statistical: seq<ColumnOutliers>, mlBased: MlResult, combined: Combined)

  /** `_analyze_outliers`. */
  function AnalyzeOutliersSpec(lib: Library, t: Table): (r: OutlierReport)
    requires WellFormed(t)
    ensures r.NoNumericColumns? <==> NumericColumns(t.columns) == []
  {
    var num := NumericColumns(t.columns);
    if num == [] then NoNumericColumns
    else
      var stat := StatisticalOutliers(lib, t.labels, num);
      var ml := MlOutliers(lib, t);
      Found(stat, ml, CombineSpec(stat, ml))
  }

  /** When every reported list holds row labels of the table, so does every list the combination visits. */
  lemma IndexListsWithin(stat: seq<ColumnOutliers>, ml: MlResult, labels: seq<int>)
    requires forall k :: 0 <= k < |stat| ==> forall l :: l in stat[k].iqr || l in stat[k].zscore || l in stat[k].modifiedZscore ==> l in labels
    requires ml.Detectors? ==> forall l ::
      (ml.isolationForest.Some? && l in ml.isolationForest.value) || (ml.localOutlierFactor.Some? && l in ml.localOutlierFactor.value)
      ==> l in labels
    ensures forall l :: l in Concat(IndexLists(stat, ml)) ==> l in labels
  {
    var lists := IndexLists(stat, ml);
    var s := seq(|stat|, k requires 0 <= k < |stat| => [stat[k].iqr, stat[k].zscore, stat[k].modifiedZscore]);
    var head := Concat(s);
    assert lists[..|head|] == head;
    forall l | l in Concat(lists)
      ensures l in labels
    {
      var k :| 0 <= k < |lists| && l in lists[k];
      if k < |head| {
        assert lists[k] in head;
        var m :| 0 <= m < |s| && lists[k] in s[m];
      }
    }
  }

  /** Every label of the combined result is a row label of the analysed table. */
  lemma CombinedLabelsExist(lib: Library, t: Table)
    requires WellFormed(t)
    ensures var r := AnalyzeOutliersSpec(lib, t);
      r.Found? ==> forall l :: l in r.combined.allOutlierIndices ==> l in t.labels
  {
    var r := AnalyzeOutliersSpec(lib, t);
    if r.Found? {
      IndexListsWithin(r.statistical, r.mlBased, t.labels);
    }
  }
}
