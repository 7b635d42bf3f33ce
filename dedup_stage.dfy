/**
 * Stage 3 of the cleaner, `_remove_duplicates`: keep-first deduplication,
 * logged only when it removed a row. A table without columns keeps its rows.
 */
module Deduplication {
  import opened Tables
  import opened Duplicates
  import opened CleaningLog

  function DedupStage(p: Pipeline): (q: Pipeline)
    requires Valid(p)
    ensures Valid(q) && Continues(p, q)
    ensures |q.table.labels| + DuplicatedRows(p.table) == |p.table.labels|
    ensures q.results.cleaningSteps == p.results.cleaningSteps +
      (if DuplicatedRows(p.table) > 0 then [RemovedDuplicates(DuplicatedRows(p.table))] else [])
    ensures DuplicatedRows(q.table) == 0
  {
    var t := DropDuplicates(p.table);
    DropDuplicatesLeavesNone(p.table);
    assert forall k :: 0 <= k < |t.columns| ==> t.columns[k].name == p.table.columns[k].name;
    var removed := |p.table.labels| - |t.labels|;
    var q := p.(table := t);
    if removed > 0 then Log(q, RemovedDuplicates(removed)) else q
  }

  /** A second pass removes nothing and logs nothing. */
  lemma DedupStageIdempotent(p: Pipeline)
    requires Valid(p)
    ensures var q := DedupStage(p);
      DedupStage(q).table == q.table && DedupStage(q).results == q.results
  {
    DropDuplicatesIdempotent(p.table);
  }
}
