/**
 * Stage 2 of the cleaner, `_handle_outliers`: with an analysis, the rows
 * whose labels the analysis combined as outliers are removed, then every
 * numeric column's values outside its IQR fences are clipped to them.
 */
module OutlierHandling {
  import opened Wrappers
  import opened Tables
  import opened Foreign
  import opened Outliers
  import opened Imputation
  import opened CleaningLog
  import opened Analyzer

  // ----- removing rows by label -----

  /** The positions whose label is not in `drop`, in order. */
  function KeptByLabel(labels: seq<int>, drop: set<int>): (ps: seq<nat>)
    ensures forall k :: 0 <= k < |ps| ==> ps[k] < |labels| && labels[ps[k]] !in drop
    ensures forall i :: 0 <= i < |labels| && labels[i] !in drop ==> i in ps
    ensures forall k, l :: 0 <= k < l < |ps| ==> ps[k] < ps[l]
  {
    if labels == [] then []
    else
      var n := |labels| - 1;
      KeptByLabel(labels[..n], drop) + (if labels[n] !in drop then [n] else [])
  }

  /** `df.drop(index=ls)`: a label the table does not have raises. */
  function DropLabels(t: Table, ls: seq<int>): (r: Result<Table, CleanError>)
    requires WellFormed(t)
    ensures r.Ok? <==> forall l :: l in ls ==> l in t.labels
    ensures r.Ok? ==> WellFormed(r.value) && |r.value.columns| == |t.columns|
    ensures r.Ok? ==> forall l :: l in r.value.labels <==> l in t.labels && l !in ls
    ensures r.Ok? ==> |r.value.labels| <= |t.labels|
  {
    if exists l :: l in ls && l !in t.labels then Err(UnknownLabels)
    else
      var ps := KeptByLabel(t.labels, set l | l in ls);
      KeptCount(t.labels, set l | l in ls);
      var s := SelectRows(t, ps);
      forall l | l in t.labels && l !in ls
        ensures l in s.labels
      {
        var i :| 0 <= i < |t.labels| && t.labels[i] == l;
        var k :| 0 <= k < |ps| && ps[k] == i;
        assert s.labels[k] == l;
      }
      Ok(s)
  }

  predicate DistinctLabels(labels: seq<int>) {
    forall i, j :: 0 <= i < j < |labels| ==> labels[i] != labels[j]
  }

  /** How many labels are in `s`. */
  function CountIn(labels: seq<int>, s: set<int>): (n: nat)
    ensures n <= |labels|
  {
    if labels == [] then 0
    else CountIn(labels[..|labels| - 1], s) + (if labels[|labels| - 1] in s then 1 else 0)
  }

  lemma {:induction false} KeptCount(labels: seq<int>, s: set<int>)
    ensures |KeptByLabel(labels, s)| + CountIn(labels, s) == |labels|
  {
    if labels != [] {
      KeptCount(labels[..|labels| - 1], s);
    }
  }

  /** With distinct labels, as many labels are in `s` as `s` has members, when all are labels. */
  lemma {:induction false} CountInDistinct(labels: seq<int>, s: set<int>)
    requires DistinctLabels(labels)
    requires forall l :: l in s ==> l in labels
    ensures CountIn(labels, s) == |s|
  {
    if labels == [] {
      assert s == {} by {
        forall l | l in s ensures false { }
      }
    } else {
      var n := |labels| - 1;
      var pre := labels[..n];
      var last := labels[n];
      assert DistinctLabels(pre);
      assert last !in pre;
      var s' := s - {last};
      forall l | l in s'
        ensures l in pre
      {
        var i :| 0 <= i < |labels| && labels[i] == l;
        assert i != n;
      }
      CountInDistinct(pre, s');
      CountInWithout(pre, s, last);
    }
  }

  lemma {:induction false} CountInWithout(labels: seq<int>, s: set<int>, x: int)
    requires x !in labels
    ensures CountIn(labels, s - {x}) == CountIn(labels, s)
  {
    if labels != [] {
      CountInWithout(labels[..|labels| - 1], s, x);
    }
  }

  lemma {:induction false} DistinctSeqCard(xs: seq<int>)
    requires DistinctLabels(xs)
    ensures |set l | l in xs| == |xs|
  {
    if xs != [] {
      var pre := xs[..|xs| - 1];
      assert DistinctLabels(pre);
      DistinctSeqCard(pre);
      assert (set l | l in xs) == (set l | l in pre) + {xs[|xs| - 1]};
      assert xs[|xs| - 1] !in pre;
    }
  }

  /**
   * With distinct row labels and distinct outlier labels (the combined list
   * has no repeats), dropping removes exactly as many rows as the list has
   * entries, which is what `outliers_removed` records.
   */
  lemma DropLabelsRemovesListed(t: Table, ls: seq<int>)
    requires WellFormed(t) && DistinctLabels(t.labels) && DistinctLabels(ls)
    requires forall l :: l in ls ==> l in t.labels
    ensures DropLabels(t, ls).Ok? && |DropLabels(t, ls).value.labels| == |t.labels| - |ls|
  {
    var s := set l | l in ls;
    KeptCount(t.labels, s);
    CountInDistinct(t.labels, s);
    DistinctSeqCard(ls);
  }

  // ----- clipping to the fences -----

  function MinReal(a: real, b: real): real { if a <= b then a else b }
  function MaxReal(a: real, b: real): real { if a <= b then b else a }

  /** `clip(lower, upper)`, which orders its bounds first. */
  function Clip(x: real, f: Fences): (r: real)
    ensures MinReal(f.lower, f.upper) <= r <= MaxReal(f.lower, f.upper)
    ensures MinReal(f.lower, f.upper) <= x <= MaxReal(f.lower, f.upper) ==> r == x
  {
    var lo := MinReal(f.lower, f.upper);
    var hi := MaxReal(f.lower, f.upper);
    if x < lo then lo else if x > hi then hi else x
  }

  predicate Masked(c: Cell, f: Fences) {
    c.Some? && c.value.Num? && Outside(c.value.x, f)
  }

  /** `df.loc[mask, col] = df.loc[mask, col].clip(...)`. */
  function CapCells(cells: seq<Cell>, f: Fences): (r: seq<Cell>)
    ensures |r| == |cells|
    ensures forall i :: 0 <= i < |cells| && !Masked(cells[i], f) ==> r[i] == cells[i]
    ensures forall i :: 0 <= i < |cells| && Masked(cells[i], f) ==> r[i] == Some(Num(Clip(cells[i].value.x, f)))
  {
    seq(|cells|, i requires 0 <= i < |cells| =>
      if Masked(cells[i], f) then Some(Num(Clip(cells[i].value.x, f))) else cells[i])
  }

  /** `outliers_mask.sum()`. */
  function MaskedCount(cells: seq<Cell>, f: Fences): (n: nat)
    ensures n <= |cells|
  {
    if cells == [] then 0
    else MaskedCount(cells[..|cells| - 1], f) + (if Masked(cells[|cells| - 1], f) then 1 else 0)
  }

  lemma {:induction false} MaskedCountZero(cells: seq<Cell>, f: Fences)
    ensures MaskedCount(cells, f) == 0 <==> forall i :: 0 <= i < |cells| ==> !Masked(cells[i], f)
  {
    if cells != [] {
      var p := cells[..|cells| - 1];
      MaskedCountZero(p, f);
      assert forall i :: 0 <= i < |p| ==> p[i] == cells[i];
    }
  }

  /** A number lies within the fences, ordered. */
  predicate Within(x: real, f: Fences) {
    MinReal(f.lower, f.upper) <= x <= MaxReal(f.lower, f.upper)
  }

  /** `after` is `before` with every present value inside the fences and the nulls where they were. */
  predicate CappedBy(before: seq<Cell>, after: seq<Cell>, f: Fences) {
    |after| == |before| && NumbersOnly(after) &&
    forall i :: 0 <= i < |after| ==>
      (after[i].None? <==> before[i].None?) && (after[i].Some? ==> Within(after[i].value.x, f)) &&
      (!Masked(before[i], f) ==> after[i] == before[i])
  }

  /**
   * After capping, every present number lies within the fences, the values
   * already inside them are unchanged, and the nulls stay where they were.
   */
  lemma CappedWithin(cells: seq<Cell>, f: Fences)
    requires NumbersOnly(cells)
    ensures CappedBy(cells, CapCells(cells, f), f)
  {
    var r := CapCells(cells, f);
    forall i | 0 <= i < |r|
      ensures r[i].None? <==> cells[i].None?
      ensures r[i].Some? ==> r[i].value.Num? && Within(r[i].value.x, f)
    {
      if !Masked(cells[i], f) {
        assert r[i] == cells[i];
        if cells[i].Some? {
          assert !Outside(cells[i].value.x, f);
        }
      }
    }
  }

  /** The fences of the present numbers of the column at position `j`, or none when it has none. */
  function FencesAt(lib: Library, t: Table, j: nat): Option<Fences>
    requires j < |t.columns|
  {
    var xs := PresentNumbers(t.columns[j].cells);
    if IsNumeric(t.columns[j].dtype) && xs != [] then Some(ColumnFences(lib, xs)) else None
  }

  /** One turn of the capping loop, for the column at position `j`. */
  function CapAt(lib: Library, p: Pipeline, j: nat): (q: Pipeline)
    requires Valid(p) && j < |p.table.columns| && p.results.outlierTreatment.Some?
    ensures Valid(q) && q.table.labels == p.table.labels && |q.table.columns| == |p.table.columns|
    ensures q.results.outlierTreatment.Some? && Continues(p, q)
    ensures forall k :: 0 <= k < |p.table.columns| && k != j ==> q.table.columns[k] == p.table.columns[k]
    ensures q.results.outlierTreatment.value.outliersRemoved == p.results.outlierTreatment.value.outliersRemoved
    ensures var c := p.table.columns[j];
      q.table.columns[j] == (if FencesAt(lib, p.table, j).Some? then c.(cells := CapCells(c.cells, FencesAt(lib, p.table, j).value)) else c)
    ensures q.results.outlierTreatment.value.outliersCapped == p.results.outlierTreatment.value.outliersCapped +
      (if FencesAt(lib, p.table, j).Some? then MaskedCount(p.table.columns[j].cells, FencesAt(lib, p.table, j).value) else 0)
  {
    var c := p.table.columns[j];
    match FencesAt(lib, p.table, j)
    case None => p
    case Some(f) =>
      var n := MaskedCount(c.cells, f);
      if n == 0 then
        MaskedCountZero(c.cells, f);
        assert CapCells(c.cells, f) == c.cells;
        assert p.table.columns[j] == c.(cells := CapCells(c.cells, f));
        p
      else
        var cols := p.table.columns[j := c.(cells := CapCells(c.cells, f))];
        assert DistinctNames(cols) by {
          forall a, b | 0 <= a < b < |cols|
            ensures cols[a].name != cols[b].name
          {
            assert cols[a].name == p.table.columns[a].name && cols[b].name == p.table.columns[b].name;
          }
        }
        assert forall d :: d in cols ==> |d.cells| == |p.table.labels| by {
          forall d | d in cols
            ensures |d.cells| == |p.table.labels|
          {
            var k :| 0 <= k < |cols| && cols[k] == d;
            assert p.table.columns[k] in p.table.columns;
          }
        }
        var o := p.results.outlierTreatment.value;
        var o' := o.(columnsProcessed := o.columnsProcessed + [c.name], outliersCapped := o.outliersCapped + n,
          methodsUsed := o.methodsUsed[c.name := "iqr_capping"]);
        var q := p.(table := p.table.(columns := cols), results := p.results.(outlierTreatment := Some(o')));
        Log(q, Capped(n, c.name))
  }

  /** The capping loop from position `j` on. */
  function CapFrom(lib: Library, p: Pipeline, j: nat): (q: Pipeline)
    requires Valid(p) && j <= |p.table.columns| && p.results.outlierTreatment.Some?
    ensures Valid(q) && q.table.labels == p.table.labels && |q.table.columns| == |p.table.columns|
    ensures q.results.outlierTreatment.Some? && Continues(p, q)
    ensures q.results.outlierTreatment.value.outliersRemoved == p.results.outlierTreatment.value.outliersRemoved
    ensures q.results.outlierTreatment.value.outliersCapped >= p.results.outlierTreatment.value.outliersCapped
    decreases |p.table.columns| - j
  {
    if j == |p.table.columns| then p else CapFrom(lib, CapAt(lib, p, j), j + 1)
  }

  /**
   * After the capping loop, every column from position `j` on whose dtype is
   * numeric and which holds only numbers has every present value within the
   * fences computed from it before capping, and keeps its nulls.
   */
  lemma {:induction false} CapFromWithin(lib: Library, p: Pipeline, j: nat)
    requires Valid(p) && j <= |p.table.columns| && p.results.outlierTreatment.Some?
    ensures forall k :: j <= k < |p.table.columns| && FencesAt(lib, p.table, k).Some? && NumbersOnly(p.table.columns[k].cells) ==>
      CappedBy(p.table.columns[k].cells, CapFrom(lib, p, j).table.columns[k].cells, FencesAt(lib, p.table, k).value)
    decreases |p.table.columns| - j
  {
    if j < |p.table.columns| {
      var p' := CapAt(lib, p, j);
      CapFromWithin(lib, p', j + 1);
      CapFromUnchangedBefore(lib, p', j + 1, j);
      forall k | j < k < |p.table.columns|
        ensures FencesAt(lib, p'.table, k) == FencesAt(lib, p.table, k)
      {
        assert p'.table.columns[k] == p.table.columns[k];
      }
      var c := p.table.columns[j];
      if FencesAt(lib, p.table, j).Some? && NumbersOnly(c.cells) {
        CappedWithin(c.cells, FencesAt(lib, p.table, j).value);
      }
    }
  }

  /** The loop from `j` on leaves the columns before `j` alone. */
  lemma {:induction false} CapFromUnchangedBefore(lib: Library, p: Pipeline, j: nat, k: nat)
    requires Valid(p) && j <= |p.table.columns| && p.results.outlierTreatment.Some? && k < j
    ensures CapFrom(lib, p, j).table.columns[k] == p.table.columns[k]
    decreases |p.table.columns| - j
  {
    if j < |p.table.columns| {
      CapFromUnchangedBefore(lib, CapAt(lib, p, j), j + 1, k);
    }
  }

  // ----- the stage -----

  /** The combined outlier labels of an analysis, when it combined any. */
  function CombinedLabels(a: AnalysisReport): seq<int> {
    match a.outliers
    case NoNumericColumns => []
    case Found(_, _, c) => c.allOutlierIndices
  }

  /** Removes the rows listed by the analysis and records how many labels were listed. */
  function RemoveOutlierRows(p: Pipeline, ls: seq<int>): (r: Result<Pipeline, CleanError>)
    requires Valid(p) && p.results.outlierTreatment.Some?
    ensures r.Ok? ==> Valid(r.value) && r.value.results.outlierTreatment.Some? && Continues(p, r.value)
    ensures r.Ok? ==>
      r.value.results.outlierTreatment.value.outliersRemoved == (if ls == [] then p.results.outlierTreatment.value.outliersRemoved else |ls|)
    ensures r.Ok? ==> forall l :: l in r.value.table.labels <==> l in p.table.labels && l !in ls
    ensures r.Ok? ==> |r.value.table.labels| <= |p.table.labels|
    ensures r.Err? <==> exists l :: l in ls && l !in p.table.labels
  {
    if ls == [] then Ok(p)
    else match DropLabels(p.table, ls)
      case Err(e) => Err(e)
      case Ok(t) =>
        assert DistinctNames(t.columns) by {
          assert forall k :: 0 <= k < |t.columns| ==> t.columns[k].name == p.table.columns[k].name;
        }
        var o := p.results.outlierTreatment.value;
        var q := p.(table := t, results := p.results.(outlierTreatment := Some(o.(outliersRemoved := |ls|))));
        Ok(Log(q, RemovedOutliers(|ls|)))
  }

  /** `_handle_outliers`. Without an analysis nothing happens, not even the capping. */
  function OutlierStage(lib: Library, p: Pipeline, analysis: Option<AnalysisReport>): (r: Result<Pipeline, CleanError>)
    requires Valid(p)
    ensures analysis.None? ==> r == Ok(p)
    ensures r.Ok? ==> Valid(r.value) && Continues(p, r.value)
    ensures r.Ok? && analysis.Some? ==> r.value.results.outlierTreatment.Some?
    ensures r.Ok? ==> |r.value.table.labels| <= |p.table.labels|
    ensures analysis.Some? ==> (r.Err? <==> exists l :: l in CombinedLabels(analysis.value) && l !in p.table.labels)
    ensures r.Ok? && analysis.Some? ==>
      forall l :: l in r.value.table.labels <==> l in p.table.labels && l !in CombinedLabels(analysis.value)
  {
    if analysis.None? then Ok(p)
    else
      var p1 := p.(results := p.results.(outlierTreatment := Some(OutlierTreatment([], 0, 0, map[]))));
      match RemoveOutlierRows(p1, CombinedLabels(analysis.value))
      case Err(e) => Err(e)
      case Ok(p2) => Ok(CapFrom(lib, p2, 0))
  }

  /**
   * Given the successful analysis of a table with the same row labels (the
   * stage's own input, or the table before imputation, which keeps labels),
   * the listed labels all exist, so the stage does not fail, and with
   * distinct row labels it removes exactly `outliers_removed` rows.
   */
  lemma AnalysedOutlierStage(lib: Library, p: Pipeline, t: Table)
    requires Valid(p) && DistinctLabels(p.table.labels)
    requires WellFormed(t) && t.labels == p.table.labels && Analyze(lib, t).Ok?
    ensures var r := OutlierStage(lib, p, Some(Analyze(lib, t).value));
      r.Ok? && |r.value.table.labels| == |p.table.labels| - r.value.results.outlierTreatment.value.outliersRemoved
  {
    var a := Analyze(lib, t).value;
    var ls := CombinedLabels(a);
    CombinedLabelsExist(lib, t);
    var p1 := p.(results := p.results.(outlierTreatment := Some(OutlierTreatment([], 0, 0, map[]))));
    if ls != [] {
      assert a.outliers.Found?;
      assert a.outliers == AnalyzeOutliersSpec(lib, t);
      assert ls == Dedup(Concat(IndexLists(a.outliers.statistical, a.outliers.mlBased)));
      DedupDistinct(Concat(IndexLists(a.outliers.statistical, a.outliers.mlBased)));
      DropLabelsRemovesListed(p.table, ls);
    }
  }
}
