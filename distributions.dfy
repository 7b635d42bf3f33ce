/**
 * Distribution and correlation analysis of the numeric columns: summary
 * statistics, the distribution-shape label, and the strongly correlated
 * column pairs.
 */
module Distributions {
  import opened Floats
  import opened Tables
  import opened Foreign
  import opened Outliers

  function Sum(xs: seq<real>): real {
    if xs == [] then 0.0 else Sum(xs[..|xs| - 1]) + xs[|xs| - 1]
  }

  function Min(xs: seq<real>): (m: real)
    requires |xs| > 0
    ensures m in xs && forall x :: x in xs ==> m <= x
  {
    if |xs| == 1 then xs[0]
    else
      var p := xs[..|xs| - 1];
      var last := xs[|xs| - 1];
      assert forall x :: x in xs ==> x in p || x == last;
      var m := Min(p);
      if last < m then last else m
  }

  function Max(xs: seq<real>): (m: real)
    requires |xs| > 0
    ensures m in xs && forall x :: x in xs ==> x <= m
  {
    if |xs| == 1 then xs[0]
    else
      var p := xs[..|xs| - 1];
      var last := xs[|xs| - 1];
      assert forall x :: x in xs ==> x in p || x == last;
      var m := Max(p);
      if last > m then last else m
  }

  lemma {:induction false} SumBounds(xs: seq<real>, lo: real, hi: real)
    requires forall x :: x in xs ==> lo <= x <= hi
    ensures (|xs| as real) * lo <= Sum(xs) <= (|xs| as real) * hi
  {
    if xs != [] {
      var p := xs[..|xs| - 1];
      assert forall x :: x in p ==> x in xs;
      assert xs[|xs| - 1] in xs;
      SumBounds(p, lo, hi);
      assert (|xs| as real) * lo == (|p| as real) * lo + lo;
      assert (|xs| as real) * hi == (|p| as real) * hi + hi;
    }
  }

  /** `Series.mean()`: lies between the minimum and the maximum. */
  function Mean(xs: seq<real>): (m: real)
    requires |xs| > 0
    ensures Min(xs) <= m <= Max(xs)
  {
    SumBounds(xs, Min(xs), Max(xs));
    QuotientBounds(Sum(xs), |xs| as real, Min(xs), Max(xs));
    Sum(xs) / (|xs| as real)
  }

  datatype Statistics = Statistics(
    mean: real, median: real, std: Float, skewness: Float, kurtosis: Float,
    min: real, max: real, q25: real, q75: real)

  /** The summary statistics of a non-empty column. */
  function ColumnStatisticsOf(lib: Library, xs: seq<real>): (s: Statistics)
    requires |xs| > 0
    ensures s.min <= s.mean <= s.max
    ensures s.min in xs && s.max in xs
  {
    Statistics(Mean(xs), lib.median(xs), lib.std(xs), lib.skew(xs), lib.kurtosis(xs),
      Min(xs), Max(xs), lib.quantile(xs, 0.25), lib.quantile(xs, 0.75))
  }

  datatype DistributionShape = Normal | RightSkewed | LeftSkewed | ApproximatelyNormal {
    function Name(): string {
      match this
      case Normal => "normal"
      case RightSkewed => "right_skewed"
      case LeftSkewed => "left_skewed"
      case ApproximatelyNormal => "approximately_normal"
    }
  }

  /** `_assess_distribution_type`; NaN statistics fail every comparison. */
  function AssessDistributionType(skew: Float, kurt: Float): (d: DistributionShape)
    ensures d == Normal <==> Below(Abs(skew), 0.5) && Below(Abs(kurt), 0.5)
    ensures d == RightSkewed <==> d != Normal && Above(skew, 1.0)
    ensures d == LeftSkewed <==> d != Normal && Below(skew, -1.0)
  {
    if Below(Abs(skew), 0.5) && Below(Abs(kurt), 0.5) then Normal
    else if Above(skew, 1.0) then RightSkewed
    else if Below(skew, -1.0) then LeftSkewed
    else ApproximatelyNormal
  }

  function Mirror(d: DistributionShape): DistributionShape {
    match d
    case RightSkewed => LeftSkewed
    case LeftSkewed => RightSkewed
    case _ => d
  }

  /** Reflecting the data (negating the skewness) swaps right- and left-skewed and keeps the rest. */
  lemma ShapeMirrors(s: real, kurt: Float)
    ensures AssessDistributionType(Finite(-s), kurt) == Mirror(AssessDistributionType(Finite(s), kurt))
  {
  }

  /** A column too short for a skewness is never called skewed. */
  lemma NaNSkewIsApproximatelyNormal(kurt: Float)
    ensures AssessDistributionType(NaN, kurt) == ApproximatelyNormal
  {
  }

  datatype DistributionInfo = DistributionInfo(column: string, statistics: Statistics, distributionType: DistributionShape)

  /** `_analyze_distributions`: numeric columns with a present number, in order (normality tests not modelled). */
  function AnalyzeDistributions(lib: Library, cols: seq<Column>): (r: seq<DistributionInfo>)
    ensures |r| <= |cols|
    ensures forall k :: 0 <= k < |r| ==> r[k].statistics.min <= r[k].statistics.mean <= r[k].statistics.max
  {
    if cols == [] then []
    else
      var last := cols[|cols| - 1];
      var xs := PresentNumbers(last.cells);
      AnalyzeDistributions(lib, cols[..|cols| - 1])
        + (if IsNumeric(last.dtype) && |xs| > 0
           then [DistributionInfo(last.name, ColumnStatisticsOf(lib, xs), AssessDistributionType(lib.skew(xs), lib.kurtosis(xs)))]
           else [])
  }

  /** A square matrix of correlations over `n` columns. */
  predicate Square(m: seq<seq<Float>>, n: nat) {
    |m| == n && forall i :: 0 <= i < n ==> |m[i]| == n
  }

  /** `df[numeric_cols].corr(...)` with the given pairwise correlation. */
  function CorrelationMatrix(cols: seq<Column>, corr: (seq<Cell>, seq<Cell>) -> Float): (m: seq<seq<Float>>)
    ensures Square(m, |cols|)
  {
    seq(|cols|, i requires 0 <= i < |cols| =>
      seq(|cols|, j requires 0 <= j < |cols| => corr(cols[i].cells, cols[j].cells)))
  }

  const Threshold: real := 0.8

  /** `abs(c) >= 0.8`; a NaN correlation is never high. */
  predicate IsHigh(c: Float) {
    AtLeast(Abs(c), Threshold)
  }

  datatype HighCorrelation = HighCorrelation(variable1: string, variable2: string, correlation: real, positive: bool)

  function Entry(names: seq<string>, m: seq<seq<Float>>, i: nat, j: nat): HighCorrelation
    requires Square(m, |names|) && i < |names| && j < |names|
    requires m[i][j].Finite?
  {
    HighCorrelation(names[i], names[j], m[i][j].v, m[i][j].v > 0.0)
  }

  /** The high pairs (i, j') with i < j' < j. */
  function RowPairs(names: seq<string>, m: seq<seq<Float>>, i: nat, j: nat): seq<HighCorrelation>
    requires Square(m, |names|) && i < j <= |names|
    decreases j
  {
    if j == i + 1 then []
    else RowPairs(names, m, i, j - 1) + (if IsHigh(m[i][j - 1]) then [Entry(names, m, i, j - 1)] else [])
  }

  /** The high pairs whose first column comes before column `i`, row by row. */
  function PairsUpTo(names: seq<string>, m: seq<seq<Float>>, i: nat): seq<HighCorrelation>
    requires Square(m, |names|) && i <= |names|
  {
    if i == 0 then [] else PairsUpTo(names, m, i - 1) + RowPairs(names, m, i - 1, |names|)
  }

  /** `_find_high_correlations`: scans the upper triangle row by row. */
  method FindHighCorrelations(names: seq<string>, m: seq<seq<Float>>) returns (high: seq<HighCorrelation>)
    requires Square(m, |names|)
    ensures high == PairsUpTo(names, m, |names|)
  {
    var n := |names|;
    high := [];
    var i := 0;
    while i < n
      invariant 0 <= i <= n
      invariant high == PairsUpTo(names, m, i)
    {
      var j := i + 1;
      ghost var before := high;
      while j < n
        invariant i + 1 <= j <= n
        invariant high == before + RowPairs(names, m, i, j)
      {
        var c := m[i][j];
        if AtLeast(Abs(c), Threshold) {
          high := high + [HighCorrelation(names[i], names[j], c.v, c.v > 0.0)];
        }
        j := j + 1;
      }
      i := i + 1;
    }
  }

  lemma {:induction false} RowPairsMembers(names: seq<string>, m: seq<seq<Float>>, i: nat, j: nat)
    requires Square(m, |names|) && i < j <= |names|
    ensures forall j' :: i < j' < j && IsHigh(m[i][j']) ==> Entry(names, m, i, j') in RowPairs(names, m, i, j)
    ensures forall h :: h in RowPairs(names, m, i, j) ==>
      exists j' :: i < j' < j && IsHigh(m[i][j']) && h == Entry(names, m, i, j')
    decreases j
  {
    if j > i + 1 {
      RowPairsMembers(names, m, i, j - 1);
    }
  }

  /**
   * The reported pairs are exactly the pairs of distinct columns i < j whose
   * correlation reaches 0.8 in absolute value, each tagged positive exactly
   * when the correlation is above zero.
   */
  lemma {:induction false} PairsUpToMembers(names: seq<string>, m: seq<seq<Float>>, i: nat)
    requires Square(m, |names|) && i <= |names|
    ensures forall a, b :: 0 <= a < i && a < b < |names| && IsHigh(m[a][b]) ==> Entry(names, m, a, b) in PairsUpTo(names, m, i)
    ensures forall h :: h in PairsUpTo(names, m, i) ==>
      exists a, b :: 0 <= a < i && a < b < |names| && IsHigh(m[a][b]) && h == Entry(names, m, a, b)
  {
    if i > 0 {
      PairsUpToMembers(names, m, i - 1);
      RowPairsMembers(names, m, i - 1, |names|);
    }
  }

  predicate DistinctStrings(names: seq<string>) {
    forall a, b :: 0 <= a < b < |names| ==> names[a] != names[b]
  }

  predicate SecondsDiffer(r: seq<HighCorrelation>) {
    forall k, l :: 0 <= k < l < |r| ==> r[k].variable2 != r[l].variable2
  }

  predicate NoPairTwice(h: seq<HighCorrelation>) {
    forall k, l :: 0 <= k < l < |h| ==> h[k].variable1 != h[l].variable1 || h[k].variable2 != h[l].variable2
  }

  /** Within one row, every pair has the row's column first and no second column twice. */
  lemma {:induction false} RowPairsDistinct(names: seq<string>, m: seq<seq<Float>>, i: nat, j: nat)
    requires Square(m, |names|) && i < j <= |names| && DistinctStrings(names)
    ensures forall k :: 0 <= k < |RowPairs(names, m, i, j)| ==> RowPairs(names, m, i, j)[k].variable1 == names[i]
    ensures SecondsDiffer(RowPairs(names, m, i, j))
    decreases j
  {
    var r := RowPairs(names, m, i, j);
    RowPairsMembers(names, m, i, j);
    forall k | 0 <= k < |r|
      ensures r[k].variable1 == names[i]
    {
      assert r[k] in r;
    }
    if j > i + 1 {
      var r' := RowPairs(names, m, i, j - 1);
      RowPairsDistinct(names, m, i, j - 1);
      RowPairsMembers(names, m, i, j - 1);
      assert r == r' + (if IsHigh(m[i][j - 1]) then [Entry(names, m, i, j - 1)] else []);
      forall k, l | 0 <= k < l < |r|
        ensures r[k].variable2 != r[l].variable2
      {
        if l >= |r'| {
          assert r[k] == r'[k] && r'[k] in r';
          var j' :| i < j' < j - 1 && IsHigh(m[i][j']) && r'[k] == Entry(names, m, i, j');
          assert r[l] == Entry(names, m, i, j - 1);
          assert names[j'] != names[j - 1];
        } else {
          assert r[k] == r'[k] && r[l] == r'[l];
        }
      }
    }
  }

  /**
   * With distinct column names, no reported pair pairs a column with itself
   * and no pair of columns is reported twice.
   */
  lemma {:induction false} HighPairsDistinct(names: seq<string>, m: seq<seq<Float>>, i: nat)
    requires Square(m, |names|) && i <= |names| && DistinctStrings(names)
    ensures forall h :: h in PairsUpTo(names, m, i) ==> h.variable1 != h.variable2
    ensures NoPairTwice(PairsUpTo(names, m, i))
  {
    var h := PairsUpTo(names, m, i);
    PairsUpToMembers(names, m, i);
    if i > 0 {
      var h' := PairsUpTo(names, m, i - 1);
      var row := RowPairs(names, m, i - 1, |names|);
      assert h == h' + row;
      HighPairsDistinct(names, m, i - 1);
      PairsUpToMembers(names, m, i - 1);
      RowPairsDistinct(names, m, i - 1, |names|);
      forall k, l | 0 <= k < l < |h|
        ensures h[k].variable1 != h[l].variable1 || h[k].variable2 != h[l].variable2
      {
        if k < |h'| <= l {
          assert h[k] == h'[k] && h'[k] in h';
          var a, b :| 0 <= a < i - 1 && a < b < |names| && IsHigh(m[a][b]) && h'[k] == Entry(names, m, a, b);
          assert h[l] == row[l - |h'|];
          assert names[a] != names[i - 1];
        } else if |h'| <= k {
          assert h[k] == row[k - |h'|] && h[l] == row[l - |h'|];
        } else {
          assert h[k] == h'[k] && h[l] == h'[l];
        }
      }
    }
  }

  datatype CorrelationReport =
    | InsufficientColumns
    | Correlations(pearson: seq<seq<Float>>, spearman: seq<seq<Float>>, high: seq<HighCorrelation>)

  /** `_analyze_correlations`: needs two numeric columns; high pairs come from the Pearson matrix. */
  function AnalyzeCorrelations(lib: Library, t: Table): (r: CorrelationReport)
    ensures r.InsufficientColumns? <==> |NumericColumns(t.columns)| < 2
  {
    var num := NumericColumns(t.columns);
    if |num| < 2 then InsufficientColumns
    else
      var names := Names(num);
      var pearson := CorrelationMatrix(num, lib.pearson);
      Correlations(pearson, CorrelationMatrix(num, lib.spearman), PairsUpTo(names, pearson, |names|))
  }
}
