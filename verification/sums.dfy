/** Sums of an integer-valued pixel statistic over an axis-aligned rectangle.

    The source scans a disk's bounding square with `x` in the outer loop and
    `y` in the inner loop; `ColumnSum` and `RectSum` peel the last column and
    the last row so that a partially finished scan is a prefix of the sum. */
module Sums {

  /** The sum of `f(x, y)` for `y` in `[y0, y1)`. */
  function ColumnSum(f: (int, int) -> int, x: int, y0: int, y1: int): int
    decreases y1 - y0
  {
    if y1 <= y0 then 0 else ColumnSum(f, x, y0, y1 - 1) + f(x, y1 - 1)
  }

  /** The sum of `f(x, y)` for `x` in `[x0, x1)` and `y` in `[y0, y1)`. */
  function RectSum(f: (int, int) -> int, x0: int, x1: int, y0: int, y1: int): int
    decreases x1 - x0
  {
    if x1 <= x0 then 0 else RectSum(f, x0, x1 - 1, y0, y1) + ColumnSum(f, x1 - 1, y0, y1)
  }

  lemma MulMono(a: int, b: int, n: int)
    requires a <= b && 0 <= n
    ensures a * n <= b * n
  {
    assert b * n - a * n == (b - a) * n;
  }

  /** Floor division is characterised by its bracketing multiples. */
  lemma DivBounds(s: int, n: int, lo: int, hi: int)
    requires 0 < n && lo * n <= s <= hi * n
    ensures lo <= s / n <= hi
  {
    var q := s / n;
    assert q * n <= s < q * n + n;
    if q < lo {
      assert (q + 1) * n == q * n + n;
      MulMono(q + 1, lo, n);
    }
  }

  /** `c * (n * h)` grows by `c * h` when `n` grows by one. */
  lemma MulStep(c: int, n: int, h: int)
    ensures c * ((n - 1) * h) + c * h == c * (n * h)
  {
    assert (n - 1) * h + h == n * h;
    assert c * ((n - 1) * h) + c * h == c * ((n - 1) * h + h);
  }

  lemma {:induction false} ColumnSumBounds(f: (int, int) -> int, x: int, y0: int, y1: int, lo: int, hi: int)
    requires y0 <= y1
    requires forall y :: y0 <= y < y1 ==> lo <= f(x, y) <= hi
    ensures lo * (y1 - y0) <= ColumnSum(f, x, y0, y1) <= hi * (y1 - y0)
    decreases y1 - y0
  {
    if y1 > y0 {
      ColumnSumBounds(f, x, y0, y1 - 1, lo, hi);
      MulStep(lo, y1 - y0, 1);
      MulStep(hi, y1 - y0, 1);
    }
  }

  /** A statistic bounded at every pixel has a sum bounded by the area times the bound. */
  lemma {:induction false} RectSumBounds(f: (int, int) -> int, x0: int, x1: int, y0: int, y1: int, lo: int, hi: int)
    requires x0 <= x1 && y0 <= y1
    requires forall x, y :: x0 <= x < x1 && y0 <= y < y1 ==> lo <= f(x, y) <= hi
    ensures lo * ((x1 - x0) * (y1 - y0)) <= RectSum(f, x0, x1, y0, y1) <= hi * ((x1 - x0) * (y1 - y0))
    decreases x1 - x0
  {
    if x1 > x0 {
      RectSumBounds(f, x0, x1 - 1, y0, y1, lo, hi);
      ColumnSumBounds(f, x1 - 1, y0, y1, lo, hi);
      MulStep(lo, x1 - x0, y1 - y0);
      MulStep(hi, x1 - x0, y1 - y0);
    }
  }

  lemma {:induction false} ColumnSumScaled(f: (int, int) -> int, g: (int, int) -> int, c: int, x: int, y0: int, y1: int)
    requires forall y :: y0 <= y < y1 ==> f(x, y) <= c * g(x, y)
    ensures ColumnSum(f, x, y0, y1) <= c * ColumnSum(g, x, y0, y1)
    decreases y1 - y0
  {
    if y1 > y0 {
      ColumnSumScaled(f, g, c, x, y0, y1 - 1);
      assert c * ColumnSum(g, x, y0, y1) == c * ColumnSum(g, x, y0, y1 - 1) + c * g(x, y1 - 1);
    }
  }

  /** Pointwise domination by a multiple of another statistic carries over to the sums. */
  lemma {:induction false} RectSumScaled(f: (int, int) -> int, g: (int, int) -> int, c: int, x0: int, x1: int, y0: int, y1: int)
    requires forall x, y :: x0 <= x < x1 && y0 <= y < y1 ==> f(x, y) <= c * g(x, y)
    ensures RectSum(f, x0, x1, y0, y1) <= c * RectSum(g, x0, x1, y0, y1)
    decreases x1 - x0
  {
    if x1 > x0 {
      RectSumScaled(f, g, c, x0, x1 - 1, y0, y1);
      ColumnSumScaled(f, g, c, x1 - 1, y0, y1);
      assert c * RectSum(g, x0, x1, y0, y1) == c * RectSum(g, x0, x1 - 1, y0, y1) + c * ColumnSum(g, x1 - 1, y0, y1);
    }
  }

  lemma {:induction false} ColumnSumZero(f: (int, int) -> int, x: int, y0: int, y1: int)
    requires forall y :: y0 <= y < y1 ==> 0 <= f(x, y)
    ensures 0 <= ColumnSum(f, x, y0, y1)
    ensures ColumnSum(f, x, y0, y1) == 0 <==> forall y :: y0 <= y < y1 ==> f(x, y) == 0
    decreases y1 - y0
  {
    if y1 > y0 {
      ColumnSumZero(f, x, y0, y1 - 1);
    }
  }

  /** A sum of non-negative terms is non-negative, and zero exactly when every term is. */
  lemma {:induction false} RectSumZero(f: (int, int) -> int, x0: int, x1: int, y0: int, y1: int)
    requires forall x, y :: x0 <= x < x1 && y0 <= y < y1 ==> 0 <= f(x, y)
    ensures 0 <= RectSum(f, x0, x1, y0, y1)
    ensures RectSum(f, x0, x1, y0, y1) == 0 <==> forall x, y :: x0 <= x < x1 && y0 <= y < y1 ==> f(x, y) == 0
    decreases x1 - x0
  {
    if x1 > x0 {
      RectSumZero(f, x0, x1 - 1, y0, y1);
      ColumnSumZero(f, x1 - 1, y0, y1);
    }
  }
}
