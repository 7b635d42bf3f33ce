/**
 * Stage 5 of the cleaner, `_handle_inconsistencies`: every column of dtype
 * object goes through `_standardize_strings` and `_standardize_case` via the
 * pandas `.str` accessor. Other columns are left alone and nothing is logged.
 */
module TextCleanup {
  import opened Wrappers
  import opened Tables
  import opened TextNormalization
  import opened Imputation
  import opened CleaningLog

  /** One cell after the `.str` calls: a string is cleaned up, any other value becomes null. */
  function NormalizeCell(columnName: string, c: Cell): (r: Cell)
    ensures r.Some? <==> c.Some? && c.value.Str?
    ensures r.Some? ==> r.value.Str? && Tidy(r.value.s) && StandardizeCase(columnName, r.value.s) == r.value.s
  {
    match c
    case Some(Str(s)) => Some(Str(NormalizeText(columnName, s)))
    case _ => None
  }

  /** Every present cell is a tidy string that the case step leaves as it is. */
  predicate Normalized(c: Column) {
    forall i :: 0 <= i < |c.cells| && c.cells[i].Some? ==>
      c.cells[i].value.Str? && Tidy(c.cells[i].value.s) && StandardizeCase(c.name, c.cells[i].value.s) == c.cells[i].value.s
  }

  /** A column as the stage leaves it: an object column is cleaned up cell by cell. */
  function Handled(c: Column): (d: Column)
    ensures d.name == c.name && d.dtype == c.dtype && |d.cells| == |c.cells|
    ensures c.dtype == Object ==> Normalized(d)
    ensures c.dtype == Object ==> forall i :: 0 <= i < |c.cells| ==> d.cells[i] == NormalizeCell(c.name, c.cells[i])
    ensures c.dtype != Object ==> d == c
  {
    if c.dtype != Object then c
    else c.(cells := seq(|c.cells|, i requires 0 <= i < |c.cells| => NormalizeCell(c.name, c.cells[i])))
  }

  /** One iteration of the loop, at column position `j`. */
  function TextAt(p: Pipeline, j: nat): (r: Result<Pipeline, CleanError>)
    requires Valid(p) && j < |p.table.columns|
    ensures r.Err? <==> p.table.columns[j].dtype == Object && RefusesStr(p.table.columns[j].cells)
    ensures r.Err? ==> r.error == NotStrings(p.table.columns[j].name)
    ensures r.Ok? ==> Valid(r.value) && r.value.table.labels == p.table.labels && |r.value.table.columns| == |p.table.columns|
    ensures r.Ok? ==> r.value.table.columns[j] == Handled(p.table.columns[j])
    ensures r.Ok? ==> forall k :: 0 <= k < |p.table.columns| && k != j ==> r.value.table.columns[k] == p.table.columns[k]
    ensures r.Ok? ==> r.value.(table := p.table) == p
  {
    var c := p.table.columns[j];
    if c.dtype != Object then Ok(p)
    else if RefusesStr(c.cells) then Err(NotStrings(c.name))
    else
      assert c in p.table.columns;
      Ok(p.(table := ReplaceColumn(p.table, j, Handled(c))))
  }

  /** The loop from column position `j` on. */
  function TextFrom(p: Pipeline, j: nat): (r: Result<Pipeline, CleanError>)
    requires Valid(p) && j <= |p.table.columns|
    ensures r.Ok? ==> Valid(r.value) && r.value.table.labels == p.table.labels && |r.value.table.columns| == |p.table.columns|
    ensures r.Ok? ==> r.value.(table := p.table) == p
    decreases |p.table.columns| - j
  {
    if j == |p.table.columns| then Ok(p)
    else
      match TextAt(p, j)
      case Err(e) => Err(e)
      case Ok(q) => TextFrom(q, j + 1)
  }

  /** `_handle_inconsistencies`. */
  function TextStage(p: Pipeline): (r: Result<Pipeline, CleanError>)
    requires Valid(p)
    ensures r.Ok? ==> Valid(r.value) && r.value.table.labels == p.table.labels && |r.value.table.columns| == |p.table.columns|
    ensures r.Ok? ==> r.value.(table := p.table) == p
  {
    TextFrom(p, 0)
  }

  /** From position `j` on, the loop fails exactly when some later object column is refused by `.str`. */
  lemma {:induction false} TextFromFails(p: Pipeline, j: nat)
    requires Valid(p) && j <= |p.table.columns|
    ensures var cols := p.table.columns;
      TextFrom(p, j).Err? <==> exists k :: j <= k < |cols| && cols[k].dtype == Object && RefusesStr(cols[k].cells)
    decreases |p.table.columns| - j
  {
    var cols := p.table.columns;
    if j < |cols| {
      var r := TextAt(p, j);
      if r.Ok? {
        TextFromFails(r.value, j + 1);
        assert forall k :: j < k < |cols| ==> r.value.table.columns[k] == cols[k];
      }
    }
  }

  /** When the loop succeeds from `j` on, every later column is `Handled` and the earlier ones are untouched. */
  lemma {:induction false} TextFromColumns(p: Pipeline, j: nat)
    requires Valid(p) && j <= |p.table.columns|
    requires TextFrom(p, j).Ok?
    ensures var q := TextFrom(p, j).value; var cols := p.table.columns;
      (forall k :: 0 <= k < j ==> q.table.columns[k] == cols[k]) &&
      (forall k :: j <= k < |cols| ==> q.table.columns[k] == Handled(cols[k]))
    decreases |p.table.columns| - j
  {
    if j < |p.table.columns| {
      TextFromColumns(TextAt(p, j).value, j + 1);
    }
  }

  /**
   * The whole stage: it fails exactly when `.str` refuses some object column;
   * otherwise every object column holds only tidy, case-standardized strings
   * (with nulls where the column had nulls or non-strings), and every other
   * column, the row labels and the log are unchanged.
   */
  lemma TextStageEffect(p: Pipeline)
    requires Valid(p)
    ensures var cols := p.table.columns;
      TextStage(p).Err? <==> exists k :: 0 <= k < |cols| && cols[k].dtype == Object && RefusesStr(cols[k].cells)
    ensures TextStage(p).Ok? ==> forall k :: 0 <= k < |p.table.columns| ==>
      TextStage(p).value.table.columns[k] == Handled(p.table.columns[k])
  {
    TextFromFails(p, 0);
    if TextStage(p).Ok? {
      TextFromColumns(p, 0);
    }
  }

  /** A column of strings and nulls is always accepted and keeps its nulls exactly where they were. */
  lemma StringColumnKeepsNulls(c: Column)
    requires c.dtype == Object
    requires forall i :: 0 <= i < |c.cells| && c.cells[i].Some? ==> c.cells[i].value.Str?
    ensures !RefusesStr(c.cells)
    ensures forall i :: 0 <= i < |c.cells| ==> (Handled(c).cells[i].Some? <==> c.cells[i].Some?)
  {
    if exists i :: 0 <= i < |c.cells| && c.cells[i].Some? {
      var i :| 0 <= i < |c.cells| && c.cells[i].Some?;
      assert c.cells[i].value.Str?;
    }
  }
}
