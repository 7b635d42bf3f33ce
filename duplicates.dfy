/**
 * Exact duplicate rows: the analyzer's counts and severity, and the
 * first-occurrence selection that `drop_duplicates` performs in the cleaner.
 * Two rows are duplicates when every cell is equal, two nulls included.
 */
module Duplicates {
  import opened Wrappers
  import opened Floats
  import opened Tables
  import opened MissingData

  /** Row `i` equals some earlier row (`df.duplicated()`, keep='first'). */
  predicate IsRepeat(rows: seq<Row>, i: nat)
    requires i < |rows|
  {
    rows[i] in rows[..i]
  }

  /** Row `i` equals some other row (`df.duplicated(keep=False)`). */
  predicate IsShared(rows: seq<Row>, i: nat)
    requires i < |rows|
  {
    exists j :: 0 <= j < |rows| && j != i && rows[j] == rows[i]
  }

  function RepeatsUpTo(rows: seq<Row>, n: nat): (c: nat)
    requires n <= |rows|
    ensures c <= n
  {
    if n == 0 then 0 else RepeatsUpTo(rows, n - 1) + (if IsRepeat(rows, n - 1) then 1 else 0)
  }

  function SharedUpTo(rows: seq<Row>, n: nat): (c: nat)
    requires n <= |rows|
    ensures c <= n
  {
    if n == 0 then 0 else SharedUpTo(rows, n - 1) + (if IsShared(rows, n - 1) then 1 else 0)
  }

  /** The rows equal to an earlier row: what `df.duplicated()` marks on a frame with columns. */
  function DuplicatedCount(rows: seq<Row>): nat {
    RepeatsUpTo(rows, |rows|)
  }

  /**
   * `df.duplicated().sum()`. pandas answers a frame without columns with an
   * empty mask, so nothing counts there, however many rows it has.
   */
  function DuplicatedRows(t: Table): (n: nat)
    requires WellFormed(t)
    ensures t.columns == [] ==> n == 0
    ensures n <= |t.labels|
  {
    if t.columns == [] then 0 else DuplicatedCount(Rows(t))
  }

  /** The rows equal to some other row: what `df.duplicated(keep=False)` marks on a frame with columns. */
  function DuplicateRowsCount(rows: seq<Row>): nat {
    SharedUpTo(rows, |rows|)
  }

  /** Every repeat is shared, so keep=False never reports fewer rows than keep='first'. */
  lemma {:induction false} RepeatsAtMostShared(rows: seq<Row>, n: nat)
    requires n <= |rows|
    ensures RepeatsUpTo(rows, n) <= SharedUpTo(rows, n)
  {
    if n > 0 {
      RepeatsAtMostShared(rows, n - 1);
      if IsRepeat(rows, n - 1) {
        var j :| 0 <= j < n - 1 && rows[..n - 1][j] == rows[n - 1];
        assert rows[j] == rows[n - 1];
      }
    }
  }

  lemma {:induction false} RepeatsZero(rows: seq<Row>, n: nat)
    requires n <= |rows|
    ensures RepeatsUpTo(rows, n) == 0 <==> forall i :: 0 <= i < n ==> !IsRepeat(rows, i)
  {
    if n > 0 {
      RepeatsZero(rows, n - 1);
    }
  }

  lemma {:induction false} SharedZero(rows: seq<Row>, n: nat)
    requires n <= |rows|
    ensures SharedUpTo(rows, n) == 0 <==> forall i :: 0 <= i < n ==> !IsShared(rows, i)
  {
    if n > 0 {
      SharedZero(rows, n - 1);
    }
  }

  /** Both counts agree on whether the table has any duplicate at all. */
  lemma DuplicatesDetectedAlike(rows: seq<Row>)
    ensures DuplicatedCount(rows) == 0 <==> DuplicateRowsCount(rows) == 0
  {
    RepeatsAtMostShared(rows, |rows|);
    RepeatsZero(rows, |rows|);
    SharedZero(rows, |rows|);
    if DuplicatedCount(rows) == 0 && DuplicateRowsCount(rows) != 0 {
      var i :| 0 <= i < |rows| && IsShared(rows, i);
      var j :| 0 <= j < |rows| && j != i && rows[j] == rows[i];
      if j < i {
        assert rows[..i][j] == rows[i];
        assert IsRepeat(rows, i);
      } else {
        assert rows[..j][i] == rows[j];
        assert IsRepeat(rows, j);
      }
    }
  }

  /** The distinct rows among the first `n`. */
  function DistinctRows(rows: seq<Row>, n: nat): set<Row>
    requires n <= |rows|
  {
    set r | r in rows[..n]
  }

  /** Repeats plus distinct rows account for every row. */
  lemma {:induction false} RepeatsPlusDistinct(rows: seq<Row>, n: nat)
    requires n <= |rows|
    ensures RepeatsUpTo(rows, n) + |DistinctRows(rows, n)| == n
  {
    if n > 0 {
      RepeatsPlusDistinct(rows, n - 1);
      var before := DistinctRows(rows, n - 1);
      assert rows[..n] == rows[..n - 1] + [rows[n - 1]];
      assert DistinctRows(rows, n) == before + {rows[n - 1]};
      if IsRepeat(rows, n - 1) {
        assert rows[n - 1] in before;
        assert before + {rows[n - 1]} == before;
      } else {
        assert rows[n - 1] !in before;
      }
    }
  }

  /** The positions `drop_duplicates` keeps among the first `n`: first occurrences, in order. */
  function KeptPositions(rows: seq<Row>, n: nat): (ps: seq<nat>)
    requires n <= |rows|
    ensures |ps| + RepeatsUpTo(rows, n) == n
    ensures forall k :: 0 <= k < |ps| ==> ps[k] < n && !IsRepeat(rows, ps[k])
    ensures forall k, l :: 0 <= k < l < |ps| ==> ps[k] < ps[l]
  {
    if n == 0 then []
    else KeptPositions(rows, n - 1) + (if IsRepeat(rows, n - 1) then [] else [n - 1])
  }

  /** Every row among the first `n` is equal to some kept row: the one at position `k`. */
  lemma {:induction false} KeptCoversRow(rows: seq<Row>, n: nat, i: nat) returns (k: nat)
    requires i < n <= |rows|
    ensures k < |KeptPositions(rows, n)| && rows[KeptPositions(rows, n)[k]] == rows[i]
  {
    var prev := KeptPositions(rows, n - 1);
    var ps := KeptPositions(rows, n);
    assert forall l :: 0 <= l < |prev| ==> ps[l] == prev[l];
    if i < n - 1 {
      k := KeptCoversRow(rows, n - 1, i);
    } else if IsRepeat(rows, i) {
      var j :| 0 <= j < i && rows[..i][j] == rows[i];
      k := KeptCoversRow(rows, n - 1, j);
    } else {
      k := |prev|;
    }
  }

  /** The kept rows are pairwise different. */
  lemma KeptRowsDistinct(rows: seq<Row>, n: nat)
    requires n <= |rows|
    ensures var ps := KeptPositions(rows, n);
      forall k, l :: 0 <= k < l < |ps| ==> rows[ps[k]] != rows[ps[l]]
  {
    var ps := KeptPositions(rows, n);
    forall k, l | 0 <= k < l < |ps|
      ensures rows[ps[k]] != rows[ps[l]]
    {
      assert rows[..ps[l]][ps[k]] == rows[ps[k]];
    }
  }

  /**
   * `df.drop_duplicates()`: the first occurrence of each row, in order; a
   * frame without columns is returned as it is.
   */
  function DropDuplicates(t: Table): (r: Table)
    requires WellFormed(t)
    ensures WellFormed(r) && |r.columns| == |t.columns|
    ensures |r.labels| + DuplicatedRows(t) == |t.labels|
    ensures t.columns == [] ==> r == t
  {
    if t.columns == [] then t else SelectRows(t, KeptPositions(Rows(t), |t.labels|))
  }

  /** After `drop_duplicates` no row is duplicated any more. */
  lemma DropDuplicatesLeavesNone(t: Table)
    requires WellFormed(t)
    ensures DuplicatedRows(DropDuplicates(t)) == 0
  {
    if t.columns == [] {
      return;
    }
    var ps := KeptPositions(Rows(t), |t.labels|);
    var d := DropDuplicates(t);
    var rs := Rows(d);
    KeptRowsDistinct(Rows(t), |t.labels|);
    forall k | 0 <= k < |rs|
      ensures rs[k] == Rows(t)[ps[k]]
    {
      SelectRowsRow(t, ps, k);
    }
    assert forall i :: 0 <= i < |rs| ==> !IsRepeat(rs, i);
    RepeatsZero(rs, |rs|);
  }

  lemma {:induction false} NoRepeatsKeepsAll(rows: seq<Row>, n: nat)
    requires n <= |rows|
    requires forall i :: 0 <= i < n ==> !IsRepeat(rows, i)
    ensures KeptPositions(rows, n) == seq(n, i => i)
  {
    if n > 0 {
      NoRepeatsKeepsAll(rows, n - 1);
    }
  }

  /** `drop_duplicates` is idempotent: a second call returns the table unchanged. */
  lemma DropDuplicatesIdempotent(t: Table)
    requires WellFormed(t)
    ensures DropDuplicates(DropDuplicates(t)) == DropDuplicates(t)
  {
    var d := DropDuplicates(t);
    if t.columns == [] {
      return;
    }
    DropDuplicatesLeavesNone(t);
    RepeatsZero(Rows(d), |d.labels|);
    NoRepeatsKeepsAll(Rows(d), |d.labels|);
    var ps: seq<nat> := seq(|d.labels|, i => i);
    var e := SelectRows(d, ps);
    assert e.labels == d.labels;
    assert |e.columns| == |d.columns|;
    forall c | 0 <= c < |d.columns|
      ensures e.columns[c] == d.columns[c]
    {
      assert d.columns[c] in d.columns;
      assert e.columns[c].cells == d.columns[c].cells;
    }
  }

  /** `_assess_duplicate_severity`: under 1% low, under 10% medium, otherwise (NaN included) high. */
  function AssessDuplicateSeverity(pct: Float): (s: Severity)
    ensures s == Low <==> Below(pct, 1.0)
    ensures s == High <==> pct.NaN? || pct.v >= 10.0
  {
    if Below(pct, 1.0) then Low
    else if Below(pct, 10.0) then Medium
    else High
  }

  datatype DuplicateReport = DuplicateReport(
    exactDuplicates: nat,
    exactDuplicatePct: Float,
    duplicateRows: nat,
    severity: Severity)

  /**
   * `_analyze_duplicates` without the near-duplicate search. On a table with
   * rows but no column the empty duplicate mask cannot select rows, and the
   * source raises.
   */
  function AnalyzeDuplicates(t: Table): (r: Result<DuplicateReport, AnalysisError>)
    requires WellFormed(t)
    ensures r.Err? <==> t.columns == [] && |t.labels| > 0
    ensures r.Err? ==> r.error == UnalignableMask
    ensures r.Ok? ==> r.value.exactDuplicates == DuplicatedRows(t)
    ensures r.Ok? ==> r.value.exactDuplicates <= r.value.duplicateRows <= |t.labels|
    ensures r.Ok? ==> (r.value.exactDuplicates == 0 <==> r.value.duplicateRows == 0)
    ensures r.Ok? ==> (r.value.exactDuplicatePct.NaN? <==> |t.labels| == 0)
    ensures r.Ok? && r.value.exactDuplicates == 0 && |t.labels| > 0 ==> r.value.severity == Low
  {
    if t.columns == [] && |t.labels| > 0 then Err(UnalignableMask)
    else
      var rows := Rows(t);
      RepeatsAtMostShared(rows, |rows|);
      DuplicatesDetectedAlike(rows);
      var n := DuplicatedRows(t);
      var pct := Percent(n, |rows|);
      Ok(DuplicateReport(n, pct, DuplicateRowsCount(rows), AssessDuplicateSeverity(pct)))
  }
}
