/**
 * The double-precision numbers of the analysis, seen as exact reals plus the
 * NaN that pandas and numpy produce for a zero-by-zero division (an empty
 * table, a skewness of too few values, the correlation of a constant column).
 * Comparisons follow IEEE semantics: every comparison with NaN is false.
 */
module Floats {

  datatype Float = Finite(v: real) | NaN

  /** `x < c` on a double. */
  predicate Below(x: Float, c: real) {
    x.Finite? && x.v < c
  }

  /** `x > c` on a double. */
  predicate Above(x: Float, c: real) {
    x.Finite? && x.v > c
  }

  /** `x >= c` on a double. */
  predicate AtLeast(x: Float, c: real) {
    x.Finite? && x.v >= c
  }

  function AbsReal(x: real): real {
    if x < 0.0 then -x else x
  }

  /** `abs(x)` on a double: NaN stays NaN. */
  function Abs(x: Float): (r: Float)
    ensures r.NaN? <==> x.NaN?
    ensures r.Finite? ==> r.v >= 0.0 && (r.v == x.v || r.v == -x.v)
  {
    match x
    case NaN => NaN
    case Finite(v) => Finite(AbsReal(v))
  }

  /**
   * `(part / whole) * 100` where `part <= whole` are counts: NaN exactly when
   * the whole is zero, otherwise a percentage in [0, 100].
   */
  function Percent(part: nat, whole: nat): (r: Float)
    requires part <= whole
    ensures r.NaN? <==> whole == 0
    ensures r.Finite? ==> 0.0 <= r.v <= 100.0
    ensures r.Finite? ==> r.v * (whole as real) == 100.0 * (part as real)
  {
    if whole == 0 then NaN
    else
      var q := (part as real) / (whole as real);
      assert q * (whole as real) == part as real;
      QuotientCompare(part as real, whole as real, 1.0);
      Finite(q * 100.0)
  }

  lemma PositiveProduct(a: real, b: real)
    requires a > 0.0 && b > 0.0
    ensures a * b > 0.0
  {
  }

  /** Dividing by a positive `n` and comparing is comparing against a multiple of `n`. */
  lemma QuotientBounds(s: real, n: real, lo: real, hi: real)
    requires n > 0.0 && n * lo <= s <= n * hi
    ensures lo <= s / n <= hi
  {
    QuotientCompare(s, n, lo);
    QuotientCompare(s, n, hi);
  }

  lemma QuotientBelow(s: real, n: real, c: real)
    requires n > 0.0 && s / n < c
    ensures s < c * n
  {
    var m := s / n;
    assert m * n == s;
    PositiveProduct(c - m, n);
  }

  /** Comparing a quotient by a positive `n` with `c` is comparing with `c * n`. */
  lemma QuotientCompare(s: real, n: real, c: real)
    requires n > 0.0
    ensures s / n > c <==> s > c * n
    ensures s / n < c <==> s < c * n
  {
    var m := s / n;
    assert m * n == s;
    if m > c {
      PositiveProduct(m - c, n);
    }
    if m < c {
      PositiveProduct(c - m, n);
    }
    if s > c * n {
      assert (m - c) * n > 0.0;
    }
    if s < c * n {
      assert (c - m) * n > 0.0;
    }
  }

  /** Python's `min(a, x)`: the first argument unless `x < a`, so NaN loses. */
  function PyMin(a: real, x: Float): (r: real)
    ensures r <= a
    ensures x.Finite? ==> r <= x.v && (r == a || r == x.v)
    ensures x.NaN? ==> r == a
  {
    if Below(x, a) then x.v else a
  }

  /** Python's `max(a, x)`: the first argument unless `x > a`. */
  function PyMax(a: real, x: real): (r: real)
    ensures r >= a && r >= x && (r == a || r == x)
  {
    if x > a then x else a
  }
}
