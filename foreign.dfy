/**
 * The numerical and parsing routines the source borrows from pandas, numpy,
 * scipy and scikit-learn. The model does not re-derive them: each is a total
 * function supplied by the caller. Every decision the modelled functions
 * take on their results is modelled; the README's "Left out" section names
 * the decisions of the functions that are not.
 */
module Foreign {
  import opened Wrappers
  import opened Floats
  import opened Tables

  datatype Library = Library(
    /** `pd.to_numeric` of one string; `None` when it does not parse. */
    parseNumber: string -> Option<real>,
    /** `pd.to_datetime` of one string on its own; `None` when it does not parse. */
    parseDate: string -> Option<int>,
    /**
     * `pd.to_datetime` of the non-timestamp value at a position of a column:
     * pandas infers one format from the column's first string and parses
     * every value with it, so the answer depends on the whole column.
     */
    parseDateIn: (seq<Cell>, nat) -> Option<int>,
    /** `Series.quantile(q)` of the present numbers. */
    quantile: (seq<real>, real) -> real,
    /** `Series.median()` (and `SimpleImputer(strategy='median')`) of the present numbers. */
    median: seq<real> -> real,
    /** `Series.std()`, `Series.skew()` and `Series.kurtosis()`; NaN for too few values. */
    std: seq<real> -> Float,
    skew: seq<real> -> Float,
    kurtosis: seq<real> -> Float,
    /** `scipy.stats.zscore` of one value within its column; NaN when the deviation is 0. */
    zscore: (seq<real>, real) -> Float,
    /** Pearson and Spearman correlation of two columns. */
    pearson: (seq<Cell>, seq<Cell>) -> Float,
    spearman: (seq<Cell>, seq<Cell>) -> Float,
    /** `fit_predict(...) == -1` per row of the median-filled numeric table; `None` when the fit raises. */
    isolationForest: Table -> Option<seq<bool>>,
    localOutlierFactor: Table -> Option<seq<bool>>,
    /** `KNNImputer`'s value for the null at (column position, row position) of the table. */
    knn: (Table, nat, nat) -> real,
    /** `StandardScaler` fitted on the present numbers, applied to one of them. */
    scale: (seq<real>, real) -> real,
    /** `str()` of a non-string value, as `astype(str)` renders it. */
    render: Value -> string)

  /** pandas' NaT, which a datetime64 column holds as the smallest 64-bit integer. */
  const NaTValue: int := -0x8000_0000_0000_0000

  /**
   * `pd.to_numeric(errors='coerce')` of one cell of a column of dtype `d`. A
   * datetime64 column is viewed as its 64-bit integers, so every cell
   * converts, NaT included. Any other column is converted value by value:
   * numbers pass, strings are parsed, and nulls and timestamp objects become NaN.
   */
  function AsNumber(lib: Library, d: Dtype, c: Cell): Option<real> {
    if d == Datetime then
      match c
      case Some(Stamp(t)) => Some(t as real)
      case _ => Some(NaTValue as real)
    else
      match c
      case None => None
      case Some(Num(x)) => Some(x)
      case Some(Str(s)) => lib.parseNumber(s)
      case Some(Stamp(_)) => None
  }

  /**
   * `pd.to_datetime` of the present cell at `i` of a column: a timestamp
   * passes; any other value is parsed with the format inferred from the column.
   */
  function ColumnDate(lib: Library, cells: seq<Cell>, i: nat): Option<int>
    requires i < |cells| && cells[i].Some?
  {
    match cells[i].value
    case Stamp(t) => Some(t)
    case _ => lib.parseDateIn(cells, i)
  }

  /** `astype(str)` of one cell: a null becomes the string "nan". */
  function AsText(lib: Library, c: Cell): string {
    match c
    case None => "nan"
    case Some(Str(s)) => s
    case Some(v) => lib.render(v)
  }
}
