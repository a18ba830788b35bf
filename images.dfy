/** The image being segmented, the candidate rectangles, and the quantities a
    rectangle is judged by: the channel-0 sums inside and outside it, the
    score the search maximises and the squared error it stands for. */
module Images {
  import opened Sums

  /** nx columns by ny rows of pixels, three interleaved channels each:
      channel c of pixel (x, y) is data[PixelIndex(nx, c, x, y)]. */
  datatype Image = Image(nx: int, ny: int, data: seq<real>)

  predicate ValidImage(img: Image)
  {
    img.nx > 0 && img.ny > 0 && |img.data| == 3 * img.nx * img.ny
  }

  function PixelIndex(nx: int, c: int, x: int, y: int): int
  {
    c + 3 * x + 3 * nx * y
  }

  /** Every channel of every pixel lies inside the buffer. */
  lemma PixelIndexInRange(nx: int, ny: int, c: int, x: int, y: int)
    requires 0 <= c < 3 && 0 <= x < nx && 0 <= y < ny
    ensures 0 <= PixelIndex(nx, c, x, y) < 3 * nx * ny
  {
    assert nx * y <= nx * (ny - 1) by {
      assert nx * (ny - 1) - nx * y == nx * (ny - 1 - y);
    }
    assert 0 <= nx * y;
  }

  /** The scalar field the search works on: channel 0 of each pixel, and 0
      off the image (the sums below never look there). */
  ghost function Channel0(img: Image): (int, int) -> real
  {
    (x: int, y: int) =>
      if 0 <= x < img.nx && 0 <= y < img.ny && 0 <= PixelIndex(img.nx, 0, x, y) < |img.data|
      then img.data[PixelIndex(img.nx, 0, x, y)]
      else 0.0
  }

  /** On a well-formed image the field reads channel 0 of the pixel. */
  lemma Channel0At(img: Image, x: int, y: int)
    requires ValidImage(img) && 0 <= x < img.nx && 0 <= y < img.ny
    ensures 0 <= PixelIndex(img.nx, 0, x, y) < |img.data|
    ensures Channel0(img)(x, y) == img.data[PixelIndex(img.nx, 0, x, y)]
  {
    PixelIndexInRange(img.nx, img.ny, 0, x, y);
  }

  /** A rectangle by its top-left corner and its shape; it covers the columns
      x0 <= x < x1() and the rows y0 <= y < y1(). */
  datatype Rect = Rect(x0: int, y0: int, width: int, height: int)
  {
    function x1(): int { x0 + width }
    function y1(): int { y0 + height }
  }

  /** A non-empty rectangle that lies inside an nx x ny image. */
  predicate Within(nx: int, ny: int, r: Rect)
  {
    0 <= r.x0 && 0 <= r.y0 && 1 <= r.width && 1 <= r.height &&
    r.x1() <= nx && r.y1() <= ny
  }

  /** A rectangle that leaves a non-empty outer region: the search space. */
  predicate Candidate(nx: int, ny: int, r: Rect)
  {
    Within(nx, ny, r) && r.width * r.height < nx * ny
  }

  /** The canonical order of candidates: by height, then width (the order of
      the per-shape slots), then top row, then left column (the scan order). */
  predicate Precedes(a: Rect, b: Rect)
  {
    a.height < b.height ||
    (a.height == b.height && a.width < b.width) ||
    (a.height == b.height && a.width == b.width &&
      (a.y0 < b.y0 || (a.y0 == b.y0 && a.x0 < b.x0)))
  }

  ghost function InnerSum(img: Image, r: Rect): real
  {
    RectSum(Channel0(img), r.x0, r.y0, r.x1(), r.y1())
  }

  /** The sum over every pixel of the image that is not in r. */
  ghost function OuterSum(img: Image, r: Rect): real
  {
    RectSum(Outside(Channel0(img), r.x0, r.y0, r.x1(), r.y1()), 0, 0, img.nx, img.ny)
  }

  ghost function TotalSum(img: Image): real
  {
    RectSum(Channel0(img), 0, 0, img.nx, img.ny)
  }

  /** Conservation: the inner and outer sums of any rectangle add up to the
      sum of the whole image. */
  lemma Conservation(img: Image, r: Rect)
    requires Within(img.nx, img.ny, r)
    ensures InnerSum(img, r) + OuterSum(img, r) == TotalSum(img)
  {
    InsideOutside(Channel0(img), r.x0, r.y0, r.x1(), r.y1(), 0, 0, img.nx, img.ny);
  }

  lemma AreaPositive(width: int, height: int)
    requires 1 <= width && 1 <= height
    ensures width * height >= 1
  {
    assert width * height == width * (height - 1) + width;
    assert width * (height - 1) >= 0;
  }

  /** The only rectangle inside the image that leaves no outer region is
      the whole image. */
  lemma OnlyWholeImageFills(nx: int, ny: int, r: Rect)
    requires Within(nx, ny, r)
    ensures !Candidate(nx, ny, r) <==> r == Rect(0, 0, nx, ny)
  {
    var w, h := r.width, r.height;
    MulMonotone(w, h, ny);
    MulMonotone(ny, w, nx);
    if w < nx {
      MulStrict(ny, w, nx);
      assert w * ny == ny * w && nx * ny == ny * nx;
    } else if h < ny {
      MulStrict(w, h, ny);
    }
  }

  lemma MulMonotone(a: int, b: int, c: int)
    requires 0 <= a && b <= c
    ensures a * b <= a * c
  {
    assert a * c - a * b == a * (c - b);
  }

  lemma MulStrict(a: int, b: int, c: int)
    requires 1 <= a && b < c
    ensures a * b < a * c
  {
    assert a * c - a * b == a * (c - b);
    MulMonotone(a, 1, c - b);
  }

  ghost function InnerArea(r: Rect): real
  {
    (r.width * r.height) as real
  }

  ghost function OuterArea(nx: int, ny: int, r: Rect): real
  {
    (nx * ny - r.width * r.height) as real
  }

  /** Both regions of a candidate are non-empty. */
  lemma AreasPositive(nx: int, ny: int, r: Rect)
    requires Candidate(nx, ny, r)
    ensures InnerArea(r) >= 1.0 && OuterArea(nx, ny, r) >= 1.0
  {
    AreaPositive(r.width, r.height);
  }

  /** The number of cells the sums count in r and outside r is their area. */
  lemma CellsOf(nx: int, ny: int, r: Rect)
    requires Within(nx, ny, r)
    ensures RectSum(One(), r.x0, r.y0, r.x1(), r.y1()) == InnerArea(r)
    ensures RectSum(Outside(One(), r.x0, r.y0, r.x1(), r.y1()), 0, 0, nx, ny) == OuterArea(nx, ny, r)
  {
    CellCount(r.x0, r.y0, r.x1(), r.y1());
    CellCount(0, 0, nx, ny);
    InsideOutside(One(), r.x0, r.y0, r.x1(), r.y1(), 0, 0, nx, ny);
  }

  /** The mean of channel 0 inside r: the colour the inner region is painted. */
  ghost function InnerMean(img: Image, r: Rect): real
  {
    if InnerArea(r) == 0.0 then 0.0 else InnerSum(img, r) / InnerArea(r)
  }

  /** The mean of channel 0 outside r: the colour the outer region is painted. */
  ghost function OuterMean(img: Image, r: Rect): real
  {
    if OuterArea(img.nx, img.ny, r) == 0.0 then 0.0 else OuterSum(img, r) / OuterArea(img.nx, img.ny, r)
  }

  /** The objective the search maximises: inner^2 / inner area + outer^2 / outer area. */
  ghost function Score(img: Image, r: Rect): real
  {
    Explained(InnerSum(img, r), InnerArea(r)) + Explained(OuterSum(img, r), OuterArea(img.nx, img.ny, r))
  }

  /** Every candidate scores at least 0. */
  lemma ScoreNonNegative(img: Image, r: Rect)
    requires Candidate(img.nx, img.ny, r)
    ensures Score(img, r) >= 0.0
  {
    AreasPositive(img.nx, img.ny, r);
  }

  /** The error of painting each region its mean colour: the sum over all
      pixels of the squared distance of channel 0 from its region's mean. */
  ghost function SquaredError(img: Image, r: Rect): real
  {
    var p := Channel0(img);
    RectSum(Piecewise(SquaredDeviation(p, InnerMean(img, r)), SquaredDeviation(p, OuterMean(img, r)),
                      r.x0, r.y0, r.x1(), r.y1()),
            0, 0, img.nx, img.ny)
  }

  ghost function SumOfSquares(img: Image): real
  {
    RectSum(Square(Channel0(img)), 0, 0, img.nx, img.ny)
  }

  /** The error of the inner region: its squares minus inner^2 / inner area. */
  lemma InnerError(img: Image, r: Rect)
    requires Candidate(img.nx, img.ny, r)
    ensures RectSum(SquaredDeviation(Channel0(img), InnerMean(img, r)), r.x0, r.y0, r.x1(), r.y1())
         == RectSum(Square(Channel0(img)), r.x0, r.y0, r.x1(), r.y1()) - Explained(InnerSum(img, r), InnerArea(r))
  {
    var p, m := Channel0(img), InnerMean(img, r);
    var a, b := -2.0 * m, m * m;
    AreasPositive(img.nx, img.ny, r);
    CellsOf(img.nx, img.ny, r);
    ExpandSquares(p, m, a, b, r.x0, r.y0, r.x1(), r.y1());
    RegionError(p, SquaredDeviation(p, m), Square(p), One(), m, a, b, r.x0, r.y0, r.x1(), r.y1());
  }

  /** The error of the outer region: its squares minus outer^2 / outer area. */
  lemma OuterError(img: Image, r: Rect)
    requires Candidate(img.nx, img.ny, r)
    ensures RectSum(Outside(SquaredDeviation(Channel0(img), OuterMean(img, r)), r.x0, r.y0, r.x1(), r.y1()),
                    0, 0, img.nx, img.ny)
         == RectSum(Outside(Square(Channel0(img)), r.x0, r.y0, r.x1(), r.y1()), 0, 0, img.nx, img.ny)
            - Explained(OuterSum(img, r), OuterArea(img.nx, img.ny, r))
  {
    var p, m := Channel0(img), OuterMean(img, r);
    var a, b := -2.0 * m, m * m;
    var x0, y0, x1, y1 := r.x0, r.y0, r.x1(), r.y1();
    AreasPositive(img.nx, img.ny, r);
    CellsOf(img.nx, img.ny, r);
    ExpandSquares(p, m, a, b, 0, 0, img.nx, img.ny);
    MaskOutside(p, SquaredDeviation(p, m), Square(p), One(), a, b, x0, y0, x1, y1, 0, 0, img.nx, img.ny);
    RegionError(Outside(p, x0, y0, x1, y1), Outside(SquaredDeviation(p, m), x0, y0, x1, y1),
                Outside(Square(p), x0, y0, x1, y1), Outside(One(), x0, y0, x1, y1), m, a, b, 0, 0, img.nx, img.ny);
  }

  /** The squared error of a bipartition is the (rectangle-independent) sum of
      squared pixel values minus the score: maximising the score is the same
      as minimising the error, and the error never has to be computed. */
  lemma SquaredErrorIdentity(img: Image, r: Rect)
    requires Candidate(img.nx, img.ny, r)
    ensures SquaredError(img, r) == SumOfSquares(img) - Score(img, r)
  {
    var p := Channel0(img);
    PiecewiseSum(SquaredDeviation(p, InnerMean(img, r)), SquaredDeviation(p, OuterMean(img, r)),
                 r.x0, r.y0, r.x1(), r.y1(), 0, 0, img.nx, img.ny);
    InsideOutside(Square(p), r.x0, r.y0, r.x1(), r.y1(), 0, 0, img.nx, img.ny);
    InnerError(img, r);
    OuterError(img, r);
  }

  /** Of two candidates, the one with the higher score has the lower squared
      error, and the other way round. */
  lemma HigherScoreLowerError(img: Image, r: Rect, s: Rect)
    requires Candidate(img.nx, img.ny, r) && Candidate(img.nx, img.ny, s)
    ensures Score(img, r) <= Score(img, s) <==> SquaredError(img, s) <= SquaredError(img, r)
  {
    SquaredErrorIdentity(img, r);
    SquaredErrorIdentity(img, s);
  }
}
