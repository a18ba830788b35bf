/** The per-shape search: for one shape (width, height), every position is
    scored from the integral image and the first position with the highest
    score is kept in the shape's slot; the launch runs that search for every
    shape of a grid of threads that covers all of them. */
module Search {
  import opened Images
  import opened Integral

  /** Integer division as the source language does it: the quotient is
      truncated toward zero. */
  function TruncDiv(n: int, d: int): int
    requires d > 0
  {
    if n >= 0 then n / d else -((-n) / d)
  }

  /** a / b rounded up, for the grid size: (a + b - 1) / b. */
  function DivUp(a: int, b: int): int
    requires b > 0
  {
    TruncDiv(a + b - 1, b)
  }

  /** DivUp(a, b) blocks of b threads are always enough for a threads. */
  lemma DivUpCovers(a: int, b: int)
    requires b > 0
    ensures DivUp(a, b) * b >= a
  {
    var n := a + b - 1;
    if n >= 0 {
      assert n == (n / b) * b + n % b;
    } else {
      assert -n == ((-n) / b) * b + (-n) % b;
    }
  }

  /** For a non-negative a they are also the fewest: one block fewer would
      not be enough. */
  lemma DivUpLeast(a: int, b: int)
    requires a >= 0 && b > 0
    ensures (DivUp(a, b) - 1) * b < a
  {
    var n := a + b - 1;
    assert n == (n / b) * b + n % b;
  }

  /** The slot of shape (width, height) in the per-shape result arrays. */
  function Slot(nx: int, width: int, height: int): int
  {
    nx * (height - 1) + (width - 1)
  }

  /** Every shape that fits in the image has a slot in [0, nx * ny). */
  lemma SlotInRange(nx: int, ny: int, width: int, height: int)
    requires 1 <= width <= nx && 1 <= height <= ny
    ensures 0 <= Slot(nx, width, height) < nx * ny
  {
    assert nx * (height - 1) <= nx * (ny - 1) by {
      assert nx * (ny - 1) - nx * (height - 1) == nx * (ny - height);
    }
    assert nx * (height - 1) >= 0;
  }

  /** Slots follow the order (height, width): one shape has a smaller slot
      than another exactly when it is shorter, or as tall and narrower. In
      particular distinct shapes have distinct slots. */
  lemma SlotOrder(nx: int, w: int, h: int, w2: int, h2: int)
    requires 1 <= w <= nx && 1 <= w2 <= nx
    ensures Slot(nx, w, h) < Slot(nx, w2, h2) <==> h < h2 || (h == h2 && w < w2)
    ensures Slot(nx, w, h) == Slot(nx, w2, h2) <==> w == w2 && h == h2
  {
    if h < h2 {
      RowsOfSlots(nx, h, h2);
    } else if h2 < h {
      RowsOfSlots(nx, h2, h);
    }
  }

  lemma RowsOfSlots(nx: int, h: int, h2: int)
    requires 0 <= nx && h < h2
    ensures nx * (h2 - 1) - nx * (h - 1) >= nx
  {
    var d := h2 - h;
    assert nx * (h2 - 1) == nx * (h - 1) + nx * d;
    assert nx * d == nx * (d - 1) + nx;
    assert nx * (d - 1) >= 0;
  }

  /** Every slot in [0, nx * ny) belongs to some shape. */
  lemma SlotCoverage(nx: int, ny: int, k: int)
    requires nx >= 1 && 0 <= k < nx * ny
    ensures 1 <= k % nx + 1 <= nx && 1 <= k / nx + 1 <= ny
    ensures Slot(nx, k % nx + 1, k / nx + 1) == k
  {
    assert k == nx * (k / nx) + k % nx;
  }

  /** A score as the float code computes it: a number, or NaN. */
  datatype Value = Num(r: real) | NaN

  /** value > m in float arithmetic: false whenever value is NaN. */
  predicate Exceeds(value: Value, m: real)
  {
    value.Num? && value.r > m
  }

  /** value >= m in float arithmetic. */
  predicate Reaches(value: Value, m: real)
  {
    value.Num? && value.r >= m
  }

  /** The score of r as the kernel computes it from the table: inner sum by
      four lookups, outer sum as total minus inner, each squared and scaled
      by the reciprocal of its area. When r is the whole image the outer
      area is 0: the float code then multiplies 1/0 = infinity by the
      outer sum, twice; that sum is exactly 0 when TotalMatches holds, and
      the product is then NaN. */
  function Objective(nx: int, ny: int, t: seq<real>, total: real, r: Rect): Value
    requires |t| == (nx + 1) * (ny + 1) && Within(nx, ny, r)
  {
    AreaPositive(r.width, r.height);
    var szIn := (r.width * r.height) as real;
    var szOut := (nx * ny - r.width * r.height) as real;
    var inner := RectFromTable(nx, ny, t, r);
    var outer := total - inner;
    if szOut == 0.0 then NaN
    else Num(ScaledSquare(1.0 / szIn, inner) + ScaledSquare(1.0 / szOut, outer))
  }

  /** One region's term of the score: its sum, squared, times a scale. */
  function ScaledSquare(scale: real, s: real): real
  {
    scale * s * s
  }

  /** Scaling the square by the reciprocal of the area is the Explained term. */
  lemma ScaledIsExplained(s: real, n: real)
    requires n > 0.0
    ensures ScaledSquare(1.0 / n, s) == Sums.Explained(s, n)
  {
    assert 1.0 / n * s * s == s * s / n;
  }

  /** On the integral image, every candidate's kernel score is its Score. */
  lemma ObjectiveIsScore(img: Image, t: seq<real>, total: real, r: Rect)
    requires ValidImage(img) && IsPrefixTable(img, t) && total == TotalSum(img)
    requires Candidate(img.nx, img.ny, r)
    ensures Objective(img.nx, img.ny, t, total, r) == Num(Score(img, r))
  {
    RectFromTableIsInnerSum(img, t, r);
    TotalFromTableIsTotalSum(img, t);
    OuterFromTable(img, t, r);
    AreasPositive(img.nx, img.ny, r);
    var total' := TotalFromTable(img.nx, img.ny, t);
    ScaledIsExplained(RectFromTable(img.nx, img.ny, t, r), InnerArea(r));
    ScaledIsExplained(total' - RectFromTable(img.nx, img.ny, t, r), OuterArea(img.nx, img.ny, r));
  }

  /** The whole-image shape is the one that is not a candidate: its outer
      area is 0, and on the integral image its outer sum is exactly 0 too,
      so the kernel's score is NaN there. */
  lemma WholeImageIsNaN(img: Image, t: seq<real>, total: real, r: Rect)
    requires ValidImage(img) && IsPrefixTable(img, t) && total == TotalSum(img)
    requires Within(img.nx, img.ny, r) && !Candidate(img.nx, img.ny, r)
    ensures r == Rect(0, 0, img.nx, img.ny)
    ensures total - RectFromTable(img.nx, img.ny, t, r) == 0.0
    ensures Objective(img.nx, img.ny, t, total, r) == NaN
  {
    OnlyWholeImageFills(img.nx, img.ny, r);
    RectFromTableIsInnerSum(img, t, r);
    TotalFromTableIsTotalSum(img, t);
  }

  /** The total handed to the kernel is the table's own sum over the whole
      image, as segment passes it. Then the whole-image shape's outer sum is
      exactly 0, so its infinite outer scale meets a zero and gives NaN; a
      total that disagreed with the table would instead give +infinity
      there, which Objective does not represent. */
  predicate TotalMatches(nx: int, ny: int, t: seq<real>, total: real)
    requires |t| == (nx + 1) * (ny + 1)
  {
    1 <= nx && 1 <= ny ==> total == RectFromTable(nx, ny, t, Rect(0, 0, nx, ny))
  }

  /** The sentinel the per-shape maximum starts from. */
  const Sentinel: real := -1729.0

  /** Position (x0, y0) comes before (xc, yc) in the scan: rows top to
      bottom, and left to right within a row. */
  predicate Before(x0: int, y0: int, xc: int, yc: int)
  {
    y0 < yc || (y0 == yc && x0 < xc)
  }

  /** The kernel score of shape (width, height) at (x0, y0). */
  function ValueAt(nx: int, ny: int, t: seq<real>, total: real, width: int, height: int, x0: int, y0: int): Value
    requires |t| == (nx + 1) * (ny + 1) && 1 <= width && 1 <= height
    requires 0 <= x0 <= nx - width && 0 <= y0 <= ny - height
  {
    Objective(nx, ny, t, total, Rect(x0, y0, width, height))
  }

  /** What the scan of one shape knows once it has reached position (xc, yc):
      best is the largest score seen so far, or the sentinel if none
      exceeded it, and (x0t, y0t) is the first position that had it, or
      (0, 0) if none did. */
  ghost predicate BestSoFar(nx: int, ny: int, t: seq<real>, total: real, width: int, height: int,
                            best: real, x0t: int, y0t: int, xc: int, yc: int)
    requires |t| == (nx + 1) * (ny + 1) && 1 <= width && 1 <= height
  {
    0 <= x0t <= nx - width && 0 <= y0t <= ny - height && best >= Sentinel &&
    (forall x0, y0 :: 0 <= x0 <= nx - width && 0 <= y0 <= ny - height && Before(x0, y0, xc, yc) ==>
       !Exceeds(ValueAt(nx, ny, t, total, width, height, x0, y0), best)) &&
    (best == Sentinel ==> x0t == 0 && y0t == 0) &&
    (best != Sentinel ==>
       Before(x0t, y0t, xc, yc) && ValueAt(nx, ny, t, total, width, height, x0t, y0t) == Num(best) &&
       forall x0, y0 :: 0 <= x0 <= nx - width && 0 <= y0 <= ny - height && Before(x0, y0, x0t, y0t) ==>
         !Reaches(ValueAt(nx, ny, t, total, width, height, x0, y0), best))
  }

  /** The outcome of scanning every position of the shape: best bounds
      every score of the shape, and unless it is the sentinel it is the
      score at (x0t, y0t), which no earlier position reaches. */
  ghost predicate ScanResult(nx: int, ny: int, t: seq<real>, total: real, width: int, height: int,
                             best: real, x0t: int, y0t: int)
    requires |t| == (nx + 1) * (ny + 1) && 1 <= width && 1 <= height
  {
    BestSoFar(nx, ny, t, total, width, height, best, x0t, y0t, 0, ny - height + 1)
  }

  /** One thread's loop: scans the positions of shape (width, height), top
      row first and left to right, and keeps the first strict maximiser. */
  method ScanShape(nx: int, ny: int, t: seq<real>, total: real, width: int, height: int)
    returns (best: real, x0t: int, y0t: int)
    requires |t| == (nx + 1) * (ny + 1) && 1 <= width <= nx && 1 <= height <= ny
    requires TotalMatches(nx, ny, t, total)
    ensures ScanResult(nx, ny, t, total, width, height, best, x0t, y0t)
  {
    x0t, y0t := 0, 0;
    best := Sentinel;
    for y0 := 0 to ny - height + 1
      invariant BestSoFar(nx, ny, t, total, width, height, best, x0t, y0t, 0, y0)
    {
      for x0 := 0 to nx - width + 1
        invariant BestSoFar(nx, ny, t, total, width, height, best, x0t, y0t, x0, y0)
      {
        var value := ValueAt(nx, ny, t, total, width, height, x0, y0);
        if Exceeds(value, best) {
          best := value.r;
          x0t := x0;
          y0t := y0;
        }
      }
    }
  }

  /** Slot k of the results describes shape (width, height): its value is
      the outcome of the shape's scan, and its four location entries are the
      position found and the shape itself. */
  ghost predicate SlotHolds(nx: int, ny: int, t: seq<real>, total: real, optimal: seq<real>, location: seq<int>,
                            width: int, height: int)
    requires |t| == (nx + 1) * (ny + 1) && 1 <= width <= nx && 1 <= height <= ny
    requires |optimal| == nx * ny && |location| == 4 * (nx * ny)
  {
    var k := Slot(nx, width, height);
    0 <= k < nx * ny &&
    location[4 * k + 2] == width && location[4 * k + 3] == height &&
    ScanResult(nx, ny, t, total, width, height, optimal[k], location[4 * k], location[4 * k + 1])
  }

  /** Every shape that fits the image has its slot filled by its scan. */
  ghost predicate AllSlotsFilled(nx: int, ny: int, t: seq<real>, total: real, optimal: seq<real>, location: seq<int>)
  {
    |t| == (nx + 1) * (ny + 1) &&
    |optimal| == nx * ny && |location| == 4 * (nx * ny) &&
    forall width, height :: 1 <= width <= nx && 1 <= height <= ny ==>
      SlotHolds(nx, ny, t, total, optimal, location, width, height)
  }

  /** The location entries of a filled slot: a position at which the shape
      fits, and the shape itself. */
  lemma SlotEntries(nx: int, ny: int, t: seq<real>, total: real, optimal: seq<real>, location: seq<int>,
                    width: int, height: int)
    requires |t| == (nx + 1) * (ny + 1) && 1 <= width <= nx && 1 <= height <= ny
    requires |optimal| == nx * ny && |location| == 4 * (nx * ny)
    requires SlotHolds(nx, ny, t, total, optimal, location, width, height)
    ensures var k := Slot(nx, width, height);
      0 <= k < nx * ny &&
      0 <= location[4 * k] <= nx - width && 0 <= location[4 * k + 1] <= ny - height &&
      location[4 * k + 2] == width && location[4 * k + 3] == height
  {
    var k := Slot(nx, width, height);
    assert ScanResult(nx, ny, t, total, width, height, optimal[k], location[4 * k], location[4 * k + 1]);
  }

  /** A slot keeps describing its shape as long as its five entries are left alone. */
  lemma SlotHoldsFrame(nx: int, ny: int, t: seq<real>, total: real, o0: seq<real>, l0: seq<int>,
                       o1: seq<real>, l1: seq<int>, width: int, height: int)
    requires |t| == (nx + 1) * (ny + 1) && 1 <= width <= nx && 1 <= height <= ny
    requires |o0| == |o1| == nx * ny && |l0| == |l1| == 4 * (nx * ny)
    requires SlotHolds(nx, ny, t, total, o0, l0, width, height)
    requires o1[Slot(nx, width, height)] == o0[Slot(nx, width, height)]
    requires forall i :: 4 * Slot(nx, width, height) <= i < 4 * Slot(nx, width, height) + 4 ==> l1[i] == l0[i]
    ensures SlotHolds(nx, ny, t, total, o1, l1, width, height)
  {
    var k := Slot(nx, width, height);
    assert l1[4 * k] == l0[4 * k] && l1[4 * k + 1] == l0[4 * k + 1];
    assert l1[4 * k + 2] == l0[4 * k + 2] && l1[4 * k + 3] == l0[4 * k + 3];
  }

  /** What one thread with global index (gx, gy) does to the results o0, l0,
      giving o1, l1: a thread whose shape (gx + 1, gy + 1) does not fit
      writes nothing; any other fills its shape's slot and leaves every other
      entry as it was. */
  ghost predicate KernelEffect(nx: int, ny: int, t: seq<real>, total: real, gx: int, gy: int,
                               o0: seq<real>, l0: seq<int>, o1: seq<real>, l1: seq<int>)
    requires |t| == (nx + 1) * (ny + 1) && 0 <= gx && 0 <= gy
    requires |o0| == |o1| == nx * ny && |l0| == |l1| == 4 * (nx * ny)
  {
    if gy + 1 > ny || gx + 1 > nx then o1 == o0 && l1 == l0
    else
      var k := Slot(nx, gx + 1, gy + 1);
      SlotHolds(nx, ny, t, total, o1, l1, gx + 1, gy + 1) &&
      (forall i :: 0 <= i < nx * ny && i != k ==> o1[i] == o0[i]) &&
      (forall i :: 0 <= i < 4 * (nx * ny) && !(4 * k <= i < 4 * k + 4) ==> l1[i] == l0[i])
  }

  /** One thread of the kernel. Its global thread index (gx, gy), that is
      threadIdx + blockIdx * blockDim in each dimension, picks the shape
      (gx + 1, gy + 1); a thread whose shape does not fit returns at once,
      and any other thread scans its shape and fills that shape's slot. */
  method Kernel(nx: int, ny: int, t: seq<real>, total: real, gx: int, gy: int,
                optimal: array<real>, location: array<int>)
    requires |t| == (nx + 1) * (ny + 1) && 0 <= gx && 0 <= gy
    requires TotalMatches(nx, ny, t, total)
    requires optimal.Length == nx * ny && location.Length == 4 * (nx * ny)
    modifies optimal, location
    ensures KernelEffect(nx, ny, t, total, gx, gy, old(optimal[..]), old(location[..]), optimal[..], location[..])
  {
    var height := gy + 1;
    var width := gx + 1;
    if height > ny || width > nx {
      return;
    }
    var best, x0t, y0t := ScanShape(nx, ny, t, total, width, height);
    SlotInRange(nx, ny, width, height);
    var k := Slot(nx, width, height);
    optimal[k] := best;
    location[4 * k] := x0t;
    location[4 * k + 1] := y0t;
    location[4 * k + 2] := width;
    location[4 * k + 3] := height;
  }

  /** After thread (gx, gy), every shape up to and including its own in
      launch order has its slot filled, given that every shape before it
      had. */
  lemma KernelExtends(nx: int, ny: int, t: seq<real>, total: real, gx: int, gy: int,
                      o0: seq<real>, l0: seq<int>, o1: seq<real>, l1: seq<int>)
    requires |t| == (nx + 1) * (ny + 1) && 0 <= gx && 0 <= gy
    requires |o0| == |o1| == nx * ny && |l0| == |l1| == 4 * (nx * ny)
    requires KernelEffect(nx, ny, t, total, gx, gy, o0, l0, o1, l1)
    requires forall w, h :: 1 <= w <= nx && 1 <= h <= ny && (h - 1 < gy || (h - 1 == gy && w - 1 < gx)) ==>
      SlotHolds(nx, ny, t, total, o0, l0, w, h)
    ensures forall w, h :: 1 <= w <= nx && 1 <= h <= ny && (h - 1 < gy || (h - 1 == gy && w - 1 <= gx)) ==>
      SlotHolds(nx, ny, t, total, o1, l1, w, h)
  {
    forall w, h | 1 <= w <= nx && 1 <= h <= ny && (h - 1 < gy || (h - 1 == gy && w - 1 <= gx))
      ensures SlotHolds(nx, ny, t, total, o1, l1, w, h)
    {
      if w != gx + 1 || h != gy + 1 {
        SlotInRange(nx, ny, w, h);
        if gy + 1 <= ny && gx + 1 <= nx {
          SlotOrder(nx, w, h, gx + 1, gy + 1);
        }
        SlotHoldsFrame(nx, ny, t, total, o0, l0, o1, l1, w, h);
      }
    }
  }

  /** Threads per block in each dimension. */
  const BlockSize: int := 16

  /** The host side of the search: zeroed result buffers, then a grid of
      DivUp(nx + 1, 16) x DivUp(ny + 1, 16) blocks of 16 x 16 threads, run
      one thread after another. Every shape that fits gets its slot filled. */
  method Launch(nx: int, ny: int, t: seq<real>, total: real) returns (optimal: seq<real>, location: seq<int>)
    requires nx >= 1 && ny >= 1 && |t| == (nx + 1) * (ny + 1)
    requires TotalMatches(nx, ny, t, total)
    ensures AllSlotsFilled(nx, ny, t, total, optimal, location)
  {
    var opt := new real[nx * ny](_ => 0.0);
    var loc := new int[4 * (nx * ny)](_ => 0);
    var gridX, gridY := DivUp(nx + 1, BlockSize), DivUp(ny + 1, BlockSize);
    DivUpCovers(nx + 1, BlockSize);
    DivUpCovers(ny + 1, BlockSize);
    for gy := 0 to gridY * BlockSize
      invariant forall w, h :: 1 <= w <= nx && 1 <= h <= ny && h - 1 < gy ==>
        SlotHolds(nx, ny, t, total, opt[..], loc[..], w, h)
    {
      for gx := 0 to gridX * BlockSize
        invariant forall w, h :: 1 <= w <= nx && 1 <= h <= ny && (h - 1 < gy || (h - 1 == gy && w - 1 < gx)) ==>
          SlotHolds(nx, ny, t, total, opt[..], loc[..], w, h)
      {
        ghost var o0, l0 := opt[..], loc[..];
        Kernel(nx, ny, t, total, gx, gy, opt, loc);
        KernelExtends(nx, ny, t, total, gx, gy, o0, l0, opt[..], loc[..]);
      }
    }
    optimal, location := opt[..], loc[..];
  }
}
