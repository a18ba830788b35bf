/** Finite sums of a scalar field f(x, y) over axis-aligned index ranges.
    Rows are summed left to right and a rectangle row by row, so that the
    definitions follow the order in which an integral image is filled. */
module Sums {

  /** Sum of f(x, y) for x0 <= x < x1 on row y. */
  ghost function RowSum(f: (int, int) -> real, y: int, x0: int, x1: int): real
    decreases x1 - x0
  {
    if x1 <= x0 then 0.0 else RowSum(f, y, x0, x1 - 1) + f(x1 - 1, y)
  }

  /** Sum of f(x, y) for x0 <= x < x1 and y0 <= y < y1. */
  ghost function RectSum(f: (int, int) -> real, x0: int, y0: int, x1: int, y1: int): real
    decreases y1 - y0
  {
    if y1 <= y0 then 0.0 else RectSum(f, x0, y0, x1, y1 - 1) + RowSum(f, y1 - 1, x0, x1)
  }

  /** f restricted to the rectangle [x0, x1) x [y0, y1): zero elsewhere. */
  ghost function Inside(f: (int, int) -> real, x0: int, y0: int, x1: int, y1: int): (int, int) -> real
  {
    (x: int, y: int) => if x0 <= x < x1 && y0 <= y < y1 then f(x, y) else 0.0
  }

  /** f restricted to the complement of the rectangle [x0, x1) x [y0, y1). */
  ghost function Outside(f: (int, int) -> real, x0: int, y0: int, x1: int, y1: int): (int, int) -> real
  {
    (x: int, y: int) => if x0 <= x < x1 && y0 <= y < y1 then 0.0 else f(x, y)
  }

  /** Splitting a row at any column b between its ends. */
  lemma {:induction false} RowSplit(f: (int, int) -> real, y: int, a: int, b: int, c: int)
    requires a <= b <= c
    ensures RowSum(f, y, a, c) == RowSum(f, y, a, b) + RowSum(f, y, b, c)
    decreases c - b
  {
    if b < c {
      RowSplit(f, y, a, b, c - 1);
    }
  }

  /** Splitting a rectangle at any row b between its top and bottom. */
  lemma {:induction false} RectSplitRows(f: (int, int) -> real, x0: int, x1: int, a: int, b: int, c: int)
    requires a <= b <= c
    ensures RectSum(f, x0, a, x1, c) == RectSum(f, x0, a, x1, b) + RectSum(f, x0, b, x1, c)
    decreases c - b
  {
    if b < c {
      RectSplitRows(f, x0, x1, a, b, c - 1);
    }
  }

  /** Splitting a rectangle at any column b between its left and right edges. */
  lemma {:induction false} RectSplitColumns(f: (int, int) -> real, a: int, b: int, c: int, y0: int, y1: int)
    requires a <= b <= c
    ensures RectSum(f, a, y0, c, y1) == RectSum(f, a, y0, b, y1) + RectSum(f, b, y0, c, y1)
    decreases y1 - y0
  {
    if y0 < y1 {
      RectSplitColumns(f, a, b, c, y0, y1 - 1);
      RowSplit(f, y1 - 1, a, b, c);
    }
  }

  /** Four corner prefix sums determine the sum over any rectangle
      (inclusion-exclusion on prefixes anchored at (0, 0)). */
  lemma {:induction false} InclusionExclusion(f: (int, int) -> real, x0: int, y0: int, x1: int, y1: int)
    requires 0 <= x0 <= x1 && 0 <= y0 <= y1
    ensures RectSum(f, x0, y0, x1, y1)
         == RectSum(f, 0, 0, x1, y1) - RectSum(f, 0, 0, x1, y0) - RectSum(f, 0, 0, x0, y1) + RectSum(f, 0, 0, x0, y0)
  {
    RectSplitRows(f, 0, x1, 0, y0, y1);
    RectSplitRows(f, 0, x0, 0, y0, y1);
    RectSplitColumns(f, 0, x0, x1, y0, y1);
  }

  /** Sums over a row depend only on the values of the field on that row. */
  lemma {:induction false} RowAgree(f: (int, int) -> real, g: (int, int) -> real, y: int, x0: int, x1: int)
    requires forall x :: x0 <= x < x1 ==> f(x, y) == g(x, y)
    ensures RowSum(f, y, x0, x1) == RowSum(g, y, x0, x1)
    decreases x1 - x0
  {
    if x0 < x1 {
      RowAgree(f, g, y, x0, x1 - 1);
    }
  }

  /** A row of zeros sums to zero. */
  lemma {:induction false} RowZero(f: (int, int) -> real, y: int, x0: int, x1: int)
    requires forall x :: x0 <= x < x1 ==> f(x, y) == 0.0
    ensures RowSum(f, y, x0, x1) == 0.0
    decreases x1 - x0
  {
    if x0 < x1 {
      RowZero(f, y, x0, x1 - 1);
    }
  }

  /** At cell (x, y), f is the combination g + a*h + b*k. */
  ghost predicate AffineAt(f: (int, int) -> real, g: (int, int) -> real, h: (int, int) -> real,
                           k: (int, int) -> real, a: real, b: real, x: int, y: int)
  {
    f(x, y) == g(x, y) + a * h(x, y) + b * k(x, y)
  }

  /** On every cell of the rectangle, f is the combination g + a*h + b*k. */
  ghost predicate AffineOn(f: (int, int) -> real, g: (int, int) -> real, h: (int, int) -> real,
                           k: (int, int) -> real, a: real, b: real, x0: int, y0: int, x1: int, y1: int)
  {
    forall x, y :: x0 <= x < x1 && y0 <= y < y1 ==> AffineAt(f, g, h, k, a, b, x, y)
  }

  /** A row sum is linear in the summed field: pointwise f = g + a*h + b*k
      on the row gives the same relation between the row sums. */
  lemma {:induction false} RowLinear(f: (int, int) -> real, g: (int, int) -> real, h: (int, int) -> real,
                                     k: (int, int) -> real, a: real, b: real, y: int, x0: int, x1: int)
    requires forall x :: x0 <= x < x1 ==> AffineAt(f, g, h, k, a, b, x, y)
    ensures RowSum(f, y, x0, x1) == RowSum(g, y, x0, x1) + a * RowSum(h, y, x0, x1) + b * RowSum(k, y, x0, x1)
    decreases x1 - x0
  {
    if x0 < x1 {
      RowLinear(f, g, h, k, a, b, y, x0, x1 - 1);
      RowStep(f, g, h, k, a, b, y, x0, x1);
    }
  }

  /** Row sums related linearly on every row give rectangle sums related
      the same way. */
  lemma {:induction false} RowsLinear(f: (int, int) -> real, g: (int, int) -> real, h: (int, int) -> real,
                                      k: (int, int) -> real, a: real, b: real, x0: int, y0: int, x1: int, y1: int)
    requires forall y :: y0 <= y < y1 ==>
      RowSum(f, y, x0, x1) == RowSum(g, y, x0, x1) + a * RowSum(h, y, x0, x1) + b * RowSum(k, y, x0, x1)
    ensures RectSum(f, x0, y0, x1, y1)
         == RectSum(g, x0, y0, x1, y1) + a * RectSum(h, x0, y0, x1, y1) + b * RectSum(k, x0, y0, x1, y1)
    decreases y1 - y0
  {
    if y0 < y1 {
      RowsLinear(f, g, h, k, a, b, x0, y0, x1, y1 - 1);
      RectStep(f, g, h, k, a, b, x0, y0, x1, y1);
    }
  }

  /** A rectangle sum is linear in the summed field. */
  lemma RectLinear(f: (int, int) -> real, g: (int, int) -> real, h: (int, int) -> real,
                   k: (int, int) -> real, a: real, b: real, x0: int, y0: int, x1: int, y1: int)
    requires AffineOn(f, g, h, k, a, b, x0, y0, x1, y1)
    ensures RectSum(f, x0, y0, x1, y1)
         == RectSum(g, x0, y0, x1, y1) + a * RectSum(h, x0, y0, x1, y1) + b * RectSum(k, x0, y0, x1, y1)
  {
    forall y | y0 <= y < y1
      ensures RowSum(f, y, x0, x1) == RowSum(g, y, x0, x1) + a * RowSum(h, y, x0, x1) + b * RowSum(k, y, x0, x1)
    {
      RowLinear(f, g, h, k, a, b, y, x0, x1);
    }
    RowsLinear(f, g, h, k, a, b, x0, y0, x1, y1);
  }

  /** The linear relation between row sums survives adding one more cell. */
  lemma RowStep(f: (int, int) -> real, g: (int, int) -> real, h: (int, int) -> real, k: (int, int) -> real,
                a: real, b: real, y: int, x0: int, x1: int)
    requires x0 < x1
    requires RowSum(f, y, x0, x1 - 1)
          == RowSum(g, y, x0, x1 - 1) + a * RowSum(h, y, x0, x1 - 1) + b * RowSum(k, y, x0, x1 - 1)
    requires AffineAt(f, g, h, k, a, b, x1 - 1, y)
    ensures RowSum(f, y, x0, x1) == RowSum(g, y, x0, x1) + a * RowSum(h, y, x0, x1) + b * RowSum(k, y, x0, x1)
  {
  }

  /** The linear relation between rectangle sums survives adding one more row. */
  lemma RectStep(f: (int, int) -> real, g: (int, int) -> real, h: (int, int) -> real, k: (int, int) -> real,
                 a: real, b: real, x0: int, y0: int, x1: int, y1: int)
    requires y0 < y1
    requires RectSum(f, x0, y0, x1, y1 - 1)
          == RectSum(g, x0, y0, x1, y1 - 1) + a * RectSum(h, x0, y0, x1, y1 - 1) + b * RectSum(k, x0, y0, x1, y1 - 1)
    requires RowSum(f, y1 - 1, x0, x1)
          == RowSum(g, y1 - 1, x0, x1) + a * RowSum(h, y1 - 1, x0, x1) + b * RowSum(k, y1 - 1, x0, x1)
    ensures RectSum(f, x0, y0, x1, y1)
         == RectSum(g, x0, y0, x1, y1) + a * RectSum(h, x0, y0, x1, y1) + b * RectSum(k, x0, y0, x1, y1)
  {
  }

  /** The field that is 1 everywhere: summing it counts cells. */
  ghost function One(): (int, int) -> real
  {
    (x: int, y: int) => 1.0
  }

  lemma {:induction false} RowCount(y: int, x0: int, x1: int)
    requires x0 <= x1
    ensures RowSum(One(), y, x0, x1) == (x1 - x0) as real
    decreases x1 - x0
  {
    if x0 < x1 {
      RowCount(y, x0, x1 - 1);
    }
  }

  /** A w x h rectangle has w * h cells. */
  lemma {:induction false} CellCount(x0: int, y0: int, x1: int, y1: int)
    requires x0 <= x1 && y0 <= y1
    ensures RectSum(One(), x0, y0, x1, y1) == ((x1 - x0) * (y1 - y0)) as real
    decreases y1 - y0
  {
    if y0 < y1 {
      CellCount(x0, y0, x1, y1 - 1);
      RowCount(y1 - 1, x0, x1);
      assert (x1 - x0) * (y1 - y0) == (x1 - x0) * (y1 - 1 - y0) + (x1 - x0);
    }
  }

  /** Rows that all sum to zero make a rectangle that sums to zero. */
  lemma {:induction false} ZeroRows(f: (int, int) -> real, x0: int, x1: int, y0: int, y1: int)
    requires forall y :: y0 <= y < y1 ==> RowSum(f, y, x0, x1) == 0.0
    ensures RectSum(f, x0, y0, x1, y1) == 0.0
    decreases y1 - y0
  {
    if y0 < y1 {
      ZeroRows(f, x0, x1, y0, y1 - 1);
    }
  }

  /** Two rectangles with the same rows (row by row) have the same sum. */
  lemma {:induction false} SameRows(f: (int, int) -> real, fx0: int, fx1: int,
                                    g: (int, int) -> real, gx0: int, gx1: int, y0: int, y1: int)
    requires forall y :: y0 <= y < y1 ==> RowSum(f, y, fx0, fx1) == RowSum(g, y, gx0, gx1)
    ensures RectSum(f, fx0, y0, fx1, y1) == RectSum(g, gx0, y0, gx1, y1)
    decreases y1 - y0
  {
    if y0 < y1 {
      SameRows(f, fx0, fx1, g, gx0, gx1, y0, y1 - 1);
    }
  }

  /** The rectangle [x0, x1) x [y0, y1) lies in the window [wx0, wx1) x [wy0, wy1). */
  ghost predicate Nested(x0: int, y0: int, x1: int, y1: int, wx0: int, wy0: int, wx1: int, wy1: int)
  {
    wx0 <= x0 <= x1 <= wx1 && wy0 <= y0 <= y1 <= wy1
  }

  /** One row of Inside(f, ...) across the window: the part of the row that
      lies in the rectangle, or nothing for a row outside it. */
  lemma InsideRow(f: (int, int) -> real, x0: int, y0: int, x1: int, y1: int, wx0: int, wx1: int, y: int)
    requires wx0 <= x0 <= x1 <= wx1
    ensures RowSum(Inside(f, x0, y0, x1, y1), y, wx0, wx1)
         == if y0 <= y < y1 then RowSum(f, y, x0, x1) else 0.0
  {
    var m := Inside(f, x0, y0, x1, y1);
    RowSplit(m, y, wx0, x0, wx1);
    RowSplit(m, y, x0, x1, wx1);
    RowZero(m, y, wx0, x0);
    RowZero(m, y, x1, wx1);
    if y0 <= y < y1 {
      RowAgree(m, f, y, x0, x1);
    } else {
      RowZero(m, y, x0, x1);
    }
  }

  /** Summing Inside(f, ...) over a window that contains the rectangle gives
      the sum of f over the rectangle alone. */
  lemma InsideSum(f: (int, int) -> real, x0: int, y0: int, x1: int, y1: int,
                  wx0: int, wy0: int, wx1: int, wy1: int)
    requires Nested(x0, y0, x1, y1, wx0, wy0, wx1, wy1)
    ensures RectSum(Inside(f, x0, y0, x1, y1), wx0, wy0, wx1, wy1) == RectSum(f, x0, y0, x1, y1)
  {
    var m := Inside(f, x0, y0, x1, y1);
    forall y | wy0 <= y < wy1
      ensures RowSum(m, y, wx0, wx1) == if y0 <= y < y1 then RowSum(f, y, x0, x1) else 0.0
    {
      InsideRow(f, x0, y0, x1, y1, wx0, wx1, y);
    }
    RectSplitRows(m, wx0, wx1, wy0, y0, wy1);
    RectSplitRows(m, wx0, wx1, y0, y1, wy1);
    ZeroRows(m, wx0, wx1, wy0, y0);
    ZeroRows(m, wx0, wx1, y1, wy1);
    SameRows(m, wx0, wx1, f, x0, x1, y0, y1);
  }

  /** The sums of f inside and outside a rectangle add up to the sum of f
      over a window containing it. */
  lemma InsideOutside(f: (int, int) -> real, x0: int, y0: int, x1: int, y1: int,
                      wx0: int, wy0: int, wx1: int, wy1: int)
    requires Nested(x0, y0, x1, y1, wx0, wy0, wx1, wy1)
    ensures RectSum(f, x0, y0, x1, y1) + RectSum(Outside(f, x0, y0, x1, y1), wx0, wy0, wx1, wy1)
         == RectSum(f, wx0, wy0, wx1, wy1)
  {
    InsideSum(f, x0, y0, x1, y1, wx0, wy0, wx1, wy1);
    SplitInsideOutside(f, x0, y0, x1, y1, wx0, wy0, wx1, wy1);
    SumOfParts(f, Inside(f, x0, y0, x1, y1), Outside(f, x0, y0, x1, y1), RectSum(f, x0, y0, x1, y1),
               wx0, wy0, wx1, wy1);
  }

  /** If f is i + o cell by cell and i sums to s, then s and the sum of o
      add up to the sum of f. */
  lemma SumOfParts(f: (int, int) -> real, i: (int, int) -> real, o: (int, int) -> real, s: real,
                   wx0: int, wy0: int, wx1: int, wy1: int)
    requires AffineOn(f, i, o, o, 1.0, 0.0, wx0, wy0, wx1, wy1)
    requires RectSum(i, wx0, wy0, wx1, wy1) == s
    ensures s + RectSum(o, wx0, wy0, wx1, wy1) == RectSum(f, wx0, wy0, wx1, wy1)
  {
    RectLinear(f, i, o, o, 1.0, 0.0, wx0, wy0, wx1, wy1);
  }

  /** Every cell of f is its inside part plus its outside part. */
  lemma SplitInsideOutside(f: (int, int) -> real, x0: int, y0: int, x1: int, y1: int,
                           wx0: int, wy0: int, wx1: int, wy1: int)
    ensures AffineOn(f, Inside(f, x0, y0, x1, y1), Outside(f, x0, y0, x1, y1), Outside(f, x0, y0, x1, y1),
                     1.0, 0.0, wx0, wy0, wx1, wy1)
  {
    var i, o := Inside(f, x0, y0, x1, y1), Outside(f, x0, y0, x1, y1);
    forall x, y | wx0 <= x < wx1 && wy0 <= y < wy1
      ensures AffineAt(f, i, o, o, 1.0, 0.0, x, y)
    {
    }
  }

  /** Pointwise square of f. */
  ghost function Square(f: (int, int) -> real): (int, int) -> real
  {
    (x: int, y: int) => f(x, y) * f(x, y)
  }

  /** Pointwise squared distance of f from the constant m. */
  ghost function SquaredDeviation(f: (int, int) -> real, m: real): (int, int) -> real
  {
    (x: int, y: int) => (f(x, y) - m) * (f(x, y) - m)
  }

  /** Expanding the square at every cell: (f - m)^2 == f^2 + a f + b with
      a == -2m and b == m^2. */
  lemma ExpandSquares(f: (int, int) -> real, m: real, a: real, b: real, x0: int, y0: int, x1: int, y1: int)
    requires a == -2.0 * m && b == m * m
    ensures AffineOn(SquaredDeviation(f, m), Square(f), f, One(), a, b, x0, y0, x1, y1)
  {
    forall x, y | x0 <= x < x1 && y0 <= y < y1
      ensures AffineAt(SquaredDeviation(f, m), Square(f), f, One(), a, b, x, y)
    {
      ExpandSquare(f(x, y), m, a, b);
    }
  }

  lemma ExpandSquare(p: real, m: real, a: real, b: real)
    requires a == -2.0 * m && b == m * m
    ensures (p - m) * (p - m) == p * p + a * p + b * 1.0
  {
  }

  /** The part of a region's sum of squares that its mean accounts for. */
  ghost function Explained(s: real, n: real): (e: real)
    ensures n > 0.0 ==> e >= 0.0
  {
    if n == 0.0 then 0.0 else s * s / n
  }

  /** Completing the square: if d == q - 2 m s + m^2 n with m the mean s / n,
      then d == q - s^2 / n. */
  lemma MeanCompletesSquare(d: real, q: real, s: real, n: real, m: real, a: real, b: real)
    requires a == -2.0 * m && b == m * m
    requires d == q + a * s + b * n
    requires n > 0.0 && m == s / n
    ensures d == q - Explained(s, n)
  {
    assert m * n == s;
    assert b * n == m * s;
    assert m * s == s * s / n;
  }

  /** The squared error of painting a region its mean colour m: with
      d = (f - m)^2 = q - 2 m f + m^2 o cell by cell (q the squares of f, o
      counting cells), the sum of d is the sum of q minus (sum of f)^2 / n,
      n the sum of o. */
  lemma RegionError(f: (int, int) -> real, d: (int, int) -> real, q: (int, int) -> real, o: (int, int) -> real,
                    m: real, a: real, b: real, x0: int, y0: int, x1: int, y1: int)
    requires a == -2.0 * m && b == m * m
    requires AffineOn(d, q, f, o, a, b, x0, y0, x1, y1)
    requires RectSum(o, x0, y0, x1, y1) > 0.0
    requires m == RectSum(f, x0, y0, x1, y1) / RectSum(o, x0, y0, x1, y1)
    ensures RectSum(d, x0, y0, x1, y1)
         == RectSum(q, x0, y0, x1, y1)
            - Explained(RectSum(f, x0, y0, x1, y1), RectSum(o, x0, y0, x1, y1))
  {
    RectLinear(d, q, f, o, a, b, x0, y0, x1, y1);
    MeanCompletesSquare(RectSum(d, x0, y0, x1, y1), RectSum(q, x0, y0, x1, y1), RectSum(f, x0, y0, x1, y1),
                        RectSum(o, x0, y0, x1, y1), m, a, b);
  }

  /** The field that is fIn on the rectangle and fOut everywhere else. */
  ghost function Piecewise(fIn: (int, int) -> real, fOut: (int, int) -> real,
                           x0: int, y0: int, x1: int, y1: int): (int, int) -> real
  {
    (x: int, y: int) => if x0 <= x < x1 && y0 <= y < y1 then fIn(x, y) else fOut(x, y)
  }

  /** Summing a piecewise field over a window: the inner piece over the
      rectangle plus the outer piece over the rest of the window. */
  lemma PiecewiseSum(fIn: (int, int) -> real, fOut: (int, int) -> real, x0: int, y0: int, x1: int, y1: int,
                     wx0: int, wy0: int, wx1: int, wy1: int)
    requires Nested(x0, y0, x1, y1, wx0, wy0, wx1, wy1)
    ensures RectSum(Piecewise(fIn, fOut, x0, y0, x1, y1), wx0, wy0, wx1, wy1)
         == RectSum(fIn, x0, y0, x1, y1) + RectSum(Outside(fOut, x0, y0, x1, y1), wx0, wy0, wx1, wy1)
  {
    SplitPiecewise(fIn, fOut, x0, y0, x1, y1, wx0, wy0, wx1, wy1);
    InsideSum(fIn, x0, y0, x1, y1, wx0, wy0, wx1, wy1);
    SumOfParts(Piecewise(fIn, fOut, x0, y0, x1, y1), Inside(fIn, x0, y0, x1, y1), Outside(fOut, x0, y0, x1, y1),
               RectSum(fIn, x0, y0, x1, y1), wx0, wy0, wx1, wy1);
  }

  /** Every cell of a piecewise field is its inner piece masked to the
      rectangle plus its outer piece masked to the complement. */
  lemma SplitPiecewise(fIn: (int, int) -> real, fOut: (int, int) -> real, x0: int, y0: int, x1: int, y1: int,
                       wx0: int, wy0: int, wx1: int, wy1: int)
    ensures AffineOn(Piecewise(fIn, fOut, x0, y0, x1, y1), Inside(fIn, x0, y0, x1, y1),
                     Outside(fOut, x0, y0, x1, y1), Outside(fOut, x0, y0, x1, y1), 1.0, 0.0, wx0, wy0, wx1, wy1)
  {
    var f, i, o := Piecewise(fIn, fOut, x0, y0, x1, y1), Inside(fIn, x0, y0, x1, y1), Outside(fOut, x0, y0, x1, y1);
    forall x, y | wx0 <= x < wx1 && wy0 <= y < wy1
      ensures AffineAt(f, i, o, o, 1.0, 0.0, x, y)
    {
    }
  }

  /** Masking keeps a cell-by-cell relation d == q + a f + b o: outside the
      rectangle it is the relation itself, inside it reads 0 == 0. */
  lemma MaskOutside(f: (int, int) -> real, d: (int, int) -> real, q: (int, int) -> real, o: (int, int) -> real,
                    a: real, b: real, x0: int, y0: int, x1: int, y1: int, wx0: int, wy0: int, wx1: int, wy1: int)
    requires AffineOn(d, q, f, o, a, b, wx0, wy0, wx1, wy1)
    ensures AffineOn(Outside(d, x0, y0, x1, y1), Outside(q, x0, y0, x1, y1), Outside(f, x0, y0, x1, y1),
                     Outside(o, x0, y0, x1, y1), a, b, wx0, wy0, wx1, wy1)
  {
    var d', q', f', o' := Outside(d, x0, y0, x1, y1), Outside(q, x0, y0, x1, y1),
                          Outside(f, x0, y0, x1, y1), Outside(o, x0, y0, x1, y1);
    forall x, y | wx0 <= x < wx1 && wy0 <= y < wy1
      ensures AffineAt(d', q', f', o', a, b, x, y)
    {
      assert AffineAt(d, q, f, o, a, b, x, y);
    }
  }
}
