/** The whole segmentation: build the integral image, search every shape,
    reduce the per-shape results to the best rectangle, and report it with
    the mean colour inside and outside it. */
module Segmentation {
  import opened Sums
  import opened Images
  import opened Integral
  import opened Search

  /** The answer: the rectangle [x0, x1) x [y0, y1), and the colour of the
      outer and of the inner region, one entry per channel. The outer colour
      is a Value because on a one-pixel image the outer region is empty and
      its mean is 0 / 0, NaN in float arithmetic; the inner region always
      has a pixel. */
  datatype Result = Result(y0: int, x0: int, y1: int, x1: int, outer: seq<Value>, inner: seq<real>)

  /** The rectangle a result describes. */
  function Winner(res: Result): Rect
  {
    Rect(res.x0, res.y0, res.x1 - res.x0, res.y1 - res.y0)
  }

  /** r is the best bipartition: a candidate whose score no candidate
      beats, and the first such candidate in the canonical order. */
  ghost predicate Optimal(img: Image, r: Rect)
  {
    Candidate(img.nx, img.ny, r) &&
    (forall s :: Candidate(img.nx, img.ny, s) ==> Score(img, s) <= Score(img, r)) &&
    (forall s :: Candidate(img.nx, img.ny, s) && Precedes(s, r) ==> Score(img, s) < Score(img, r))
  }

  /** There is at most one best bipartition. */
  lemma OptimalUnique(img: Image, r: Rect, r2: Rect)
    requires Optimal(img, r) && Optimal(img, r2)
    ensures r == r2
  {
    assert r == r2 || Precedes(r, r2) || Precedes(r2, r);
  }

  /** The best bipartition has the least squared error of all candidates. */
  lemma OptimalMinimisesError(img: Image, r: Rect)
    requires Optimal(img, r)
    ensures forall s :: Candidate(img.nx, img.ny, s) ==> SquaredError(img, r) <= SquaredError(img, s)
  {
    forall s | Candidate(img.nx, img.ny, s)
      ensures SquaredError(img, r) <= SquaredError(img, s)
    {
      HigherScoreLowerError(img, s, r);
    }
  }

  /** k is what the reduction picks from values, starting from the floor
      -1.0 with a strict comparison: if some value is above the floor, the
      lowest index holding the largest value; otherwise 0. */
  predicate FirstMaximum(values: seq<real>, k: int)
  {
    (|values| > 0 ==> 0 <= k < |values|) &&
    (|values| == 0 ==> k == 0) &&
    ((exists i :: 0 <= i < |values| && values[i] > -1.0) ==>
       0 <= k < |values| && values[k] > -1.0 &&
       (forall i :: 0 <= i < |values| ==> values[i] <= values[k]) &&
       (forall i :: 0 <= i < k ==> values[i] < values[k])) &&
    ((forall i :: 0 <= i < |values| ==> values[i] <= -1.0) ==> k == 0)
  }

  /** The final reduction over the per-shape values: a linear scan that
      moves to index i only when values[i] is strictly larger than the best
      so far. */
  method Reduce(values: seq<real>) returns (k: int)
    ensures FirstMaximum(values, k)
  {
    var best := -1.0;
    k := 0;
    for i := 0 to |values|
      invariant best >= -1.0
      invariant best == -1.0 ==> k == 0 && forall j :: 0 <= j < i ==> values[j] <= -1.0
      invariant best > -1.0 ==>
        0 <= k < i && values[k] == best &&
        (forall j :: 0 <= j < i ==> values[j] <= best) &&
        (forall j :: 0 <= j < k ==> values[j] < best)
    {
      if values[i] > best {
        best := values[i];
        k := i;
      }
    }
  }

  /** The slot of a shape smaller than the image, once filled on the
      integral image, holds the score of a candidate of that shape, and that
      score bounds every candidate of the shape and beats every one scanned
      before it. */
  lemma CandidateShapeSlot(img: Image, t: seq<real>, total: real, optimal: seq<real>, location: seq<int>,
                           width: int, height: int)
    requires ValidImage(img) && IsPrefixTable(img, t) && total == TotalSum(img)
    requires |optimal| == img.nx * img.ny && |location| == 4 * (img.nx * img.ny)
    requires 1 <= width <= img.nx && 1 <= height <= img.ny && width * height < img.nx * img.ny
    requires SlotHolds(img.nx, img.ny, t, total, optimal, location, width, height)
    ensures var k := Slot(img.nx, width, height);
      var r := Rect(location[4 * k], location[4 * k + 1], width, height);
      0 <= k < img.nx * img.ny && Candidate(img.nx, img.ny, r) && optimal[k] == Score(img, r) &&
      (forall s :: Candidate(img.nx, img.ny, s) && s.width == width && s.height == height ==>
         Score(img, s) <= optimal[k] && (Before(s.x0, s.y0, r.x0, r.y0) ==> Score(img, s) < optimal[k]))
  {
    var nx, ny := img.nx, img.ny;
    var k := Slot(nx, width, height);
    var best, x0t, y0t := optimal[k], location[4 * k], location[4 * k + 1];
    var r := Rect(x0t, y0t, width, height);
    assert ScanResult(nx, ny, t, total, width, height, best, x0t, y0t);
    var first := Rect(0, 0, width, height);
    ObjectiveIsScore(img, t, total, first);
    ScoreNonNegative(img, first);
    assert !Exceeds(ValueAt(nx, ny, t, total, width, height, 0, 0), best);
    assert best != Sentinel;
    ObjectiveIsScore(img, t, total, r);
    forall s | Candidate(nx, ny, s) && s.width == width && s.height == height
      ensures Score(img, s) <= best && (Before(s.x0, s.y0, r.x0, r.y0) ==> Score(img, s) < best)
    {
      ObjectiveIsScore(img, t, total, s);
      assert ValueAt(nx, ny, t, total, width, height, s.x0, s.y0) == Objective(nx, ny, t, total, s);
    }
  }

  /** The slot of the whole-image shape keeps the sentinel: its only
      position scores NaN, which never compares greater. */
  lemma WholeShapeSlot(img: Image, t: seq<real>, total: real, optimal: seq<real>, location: seq<int>)
    requires ValidImage(img) && IsPrefixTable(img, t) && total == TotalSum(img)
    requires |optimal| == img.nx * img.ny && |location| == 4 * (img.nx * img.ny)
    requires SlotHolds(img.nx, img.ny, t, total, optimal, location, img.nx, img.ny)
    ensures optimal[Slot(img.nx, img.nx, img.ny)] == Sentinel
  {
    var nx, ny := img.nx, img.ny;
    var k := Slot(nx, nx, ny);
    var best, x0t, y0t := optimal[k], location[4 * k], location[4 * k + 1];
    assert ScanResult(nx, ny, t, total, nx, ny, best, x0t, y0t);
    var whole := Rect(0, 0, nx, ny);
    OnlyWholeImageFills(nx, ny, whole);
    WholeImageIsNaN(img, t, total, whole);
    assert ValueAt(nx, ny, t, total, nx, ny, 0, 0) == NaN;
  }

  /** Once every slot is filled, the 1 x 1 shape's slot holds a score, so
      some slot is above the reduction's floor of -1.0. */
  lemma SomeSlotAboveFloor(img: Image, t: seq<real>, total: real, optimal: seq<real>, location: seq<int>)
    requires ValidImage(img) && img.nx * img.ny >= 2
    requires IsPrefixTable(img, t) && total == TotalSum(img)
    requires |optimal| == img.nx * img.ny && |location| == 4 * (img.nx * img.ny)
    requires AllSlotsFilled(img.nx, img.ny, t, total, optimal, location)
    ensures exists i :: 0 <= i < |optimal| && optimal[i] > -1.0
  {
    assert SlotHolds(img.nx, img.ny, t, total, optimal, location, 1, 1);
    CandidateShapeSlot(img, t, total, optimal, location, 1, 1);
    var k := Slot(img.nx, 1, 1);
    ScoreNonNegative(img, Rect(location[4 * k], location[4 * k + 1], 1, 1));
    assert optimal[k] > -1.0;
  }

  /** A slot above the floor belongs to a shape smaller than the image: the
      shape recorded in it is the slot's own, and the whole-image slot keeps
      the sentinel. */
  lemma PickedShape(img: Image, t: seq<real>, total: real, optimal: seq<real>, location: seq<int>, k: int)
    requires ValidImage(img)
    requires IsPrefixTable(img, t) && total == TotalSum(img)
    requires |optimal| == img.nx * img.ny && |location| == 4 * (img.nx * img.ny)
    requires AllSlotsFilled(img.nx, img.ny, t, total, optimal, location)
    requires 0 <= k < |optimal| && optimal[k] > -1.0
    ensures var w, h := location[4 * k + 2], location[4 * k + 3];
      1 <= w <= img.nx && 1 <= h <= img.ny && w * h < img.nx * img.ny && k == Slot(img.nx, w, h)
  {
    var nx, ny := img.nx, img.ny;
    var w, h := k % nx + 1, k / nx + 1;
    SlotCoverage(nx, ny, k);
    assert SlotHolds(nx, ny, t, total, optimal, location, w, h);
    if w * h >= nx * ny {
      OnlyWholeImageFills(nx, ny, Rect(0, 0, w, h));
      assert SlotHolds(nx, ny, t, total, optimal, location, nx, ny);
      WholeShapeSlot(img, t, total, optimal, location);
      assert false;
    }
  }

  /** The reduction over fully filled slots picks the best bipartition:
      the rectangle recorded in the slot it picks is Optimal. */
  lemma WinnerIsOptimal(img: Image, t: seq<real>, total: real, optimal: seq<real>, location: seq<int>, k: int)
    requires ValidImage(img) && img.nx * img.ny >= 2
    requires IsPrefixTable(img, t) && total == TotalSum(img)
    requires |optimal| == img.nx * img.ny && |location| == 4 * (img.nx * img.ny)
    requires AllSlotsFilled(img.nx, img.ny, t, total, optimal, location)
    requires FirstMaximum(optimal, k)
    ensures 0 <= k < img.nx * img.ny
    ensures Optimal(img, Rect(location[4 * k], location[4 * k + 1], location[4 * k + 2], location[4 * k + 3]))
  {
    var nx, ny := img.nx, img.ny;
    SomeSlotAboveFloor(img, t, total, optimal, location);
    assert 0 <= k < |optimal| && optimal[k] > -1.0;
    PickedShape(img, t, total, optimal, location, k);
    var w, h := location[4 * k + 2], location[4 * k + 3];
    assert SlotHolds(nx, ny, t, total, optimal, location, w, h);
    CandidateShapeSlot(img, t, total, optimal, location, w, h);
    var r := Rect(location[4 * k], location[4 * k + 1], w, h);
    forall s | Candidate(nx, ny, s)
      ensures Score(img, s) <= Score(img, r) && (Precedes(s, r) ==> Score(img, s) < Score(img, r))
    {
      assert SlotHolds(nx, ny, t, total, optimal, location, s.width, s.height);
      CandidateShapeSlot(img, t, total, optimal, location, s.width, s.height);
      SlotOrder(nx, s.width, s.height, w, h);
    }
  }

  /** An image of area 1 is a single pixel (a helper for the one-pixel case). */
  lemma OnePixel(nx: int, ny: int)
    requires 1 <= nx && 1 <= ny && nx * ny == 1
    ensures nx == 1 && ny == 1
  {
    if nx >= 2 {
      MulMonotone(ny, 2, nx);
    } else if ny >= 2 {
      MulMonotone(nx, 2, ny);
    }
  }

  /** The single pixel of a one-pixel image lies inside it and leaves no
      outer region (a helper for the one-pixel case). */
  lemma OnePixelArea(nx: int, ny: int, r: Rect)
    requires nx == 1 && ny == 1 && r == Rect(0, 0, 1, 1)
    ensures Within(nx, ny, r) && OuterArea(nx, ny, r) == 0.0
  {
  }

  /** On a one-pixel image the only slot is the whole image's, which keeps
      the sentinel, so the reduction picks slot 0 and the rectangle recorded
      there is the single pixel. */
  lemma SinglePixelWinner(img: Image, t: seq<real>, total: real, optimal: seq<real>, location: seq<int>, k: int)
    requires ValidImage(img) && img.nx * img.ny == 1
    requires |t| == (img.nx + 1) * (img.ny + 1)
    requires |optimal| == img.nx * img.ny && |location| == 4 * (img.nx * img.ny)
    requires SlotHolds(img.nx, img.ny, t, total, optimal, location, img.nx, img.ny)
    requires FirstMaximum(optimal, k)
    ensures k == 0 && location[0] == 0 && location[1] == 0 && location[2] == 1 && location[3] == 1
  {
    SlotEntries(img.nx, img.ny, t, total, optimal, location, img.nx, img.ny);
    OnePixel(img.nx, img.ny);
  }

  /** What the reduction's pick means on any image: on an image of two or
      more pixels the rectangle in the picked slot is Optimal, and on a
      one-pixel image it is that pixel, with an empty outer region. */
  lemma PickedRectangle(img: Image, t: seq<real>, total: real, optimal: seq<real>, location: seq<int>, k: int)
    requires ValidImage(img)
    requires IsPrefixTable(img, t) && total == TotalSum(img)
    requires AllSlotsFilled(img.nx, img.ny, t, total, optimal, location)
    requires FirstMaximum(optimal, k)
    ensures 0 <= k < img.nx * img.ny
    ensures var r := Rect(location[4 * k], location[4 * k + 1], location[4 * k + 2], location[4 * k + 3]);
      Within(img.nx, img.ny, r) &&
      (img.nx * img.ny >= 2 ==> Optimal(img, r) && OuterArea(img.nx, img.ny, r) >= 1.0) &&
      (img.nx * img.ny < 2 ==> r == Rect(0, 0, 1, 1) && OuterArea(img.nx, img.ny, r) == 0.0)
  {
    AreaPositive(img.nx, img.ny);
    if img.nx * img.ny >= 2 {
      WinnerIsOptimal(img, t, total, optimal, location, k);
      AreasPositive(img.nx, img.ny, Rect(location[4 * k], location[4 * k + 1], location[4 * k + 2], location[4 * k + 3]));
    } else {
      assert SlotHolds(img.nx, img.ny, t, total, optimal, location, img.nx, img.ny);
      SinglePixelWinner(img, t, total, optimal, location, k);
      OnePixel(img.nx, img.ny);
      OnePixelArea(img.nx, img.ny, Rect(location[4 * k], location[4 * k + 1], location[4 * k + 2], location[4 * k + 3]));
    }
  }

  /** The table's four lookups for the picked rectangle give its inner sum,
      and the total minus them its outer sum (a helper for Segment). */
  lemma PickedSums(img: Image, t: seq<real>, total: real, optimal: seq<real>, location: seq<int>, k: int)
    requires ValidImage(img)
    requires IsPrefixTable(img, t) && total == TotalSum(img)
    requires AllSlotsFilled(img.nx, img.ny, t, total, optimal, location)
    requires FirstMaximum(optimal, k)
    ensures 0 <= k < img.nx * img.ny
    ensures var r := Rect(location[4 * k], location[4 * k + 1], location[4 * k + 2], location[4 * k + 3]);
      Within(img.nx, img.ny, r) &&
      RectFromTable(img.nx, img.ny, t, r) == InnerSum(img, r) &&
      total - RectFromTable(img.nx, img.ny, t, r) == OuterSum(img, r)
  {
    PickedRectangle(img, t, total, optimal, location, k);
    var r := Rect(location[4 * k], location[4 * k + 1], location[4 * k + 2], location[4 * k + 3]);
    RectFromTableIsInnerSum(img, t, r);
    OuterFromTable(img, t, r);
    TotalFromTableIsTotalSum(img, t);
  }

  /** The two colours Segment paints: each region's sum over its pixel
      count is that region's mean, and the outer count is zero exactly on
      a one-pixel image (a helper for Segment). */
  lemma RegionMeans(img: Image, r: Rect, innerSum: real, outerSum: real, bsz: int, osz: int)
    requires Within(img.nx, img.ny, r)
    requires innerSum == InnerSum(img, r) && outerSum == OuterSum(img, r)
    requires bsz == r.width * r.height && osz == img.nx * img.ny - bsz
    requires img.nx * img.ny >= 2 ==> OuterArea(img.nx, img.ny, r) >= 1.0
    requires img.nx * img.ny < 2 ==> OuterArea(img.nx, img.ny, r) == 0.0
    ensures bsz != 0 && innerSum / bsz as real == InnerMean(img, r)
    ensures osz == 0 <==> img.nx * img.ny < 2
    ensures osz != 0 ==> outerSum / osz as real == OuterMean(img, r)
  {
    AreaPositive(r.width, r.height);
  }

  /** The segmentation: the integral image, the per-shape search over all
      shapes, the reduction, and the means of the winning rectangle's two
      regions, copied into all three channels. */
  method Segment(img: Image) returns (result: Result)
    requires ValidImage(img)
    ensures 0 <= result.x0 < result.x1 <= img.nx && 0 <= result.y0 < result.y1 <= img.ny
    ensures img.nx * img.ny >= 2 ==> Optimal(img, Winner(result))
    ensures img.nx * img.ny < 2 ==> Winner(result) == Rect(0, 0, 1, 1)
    ensures var m := InnerMean(img, Winner(result)); result.inner == [m, m, m]
    ensures img.nx * img.ny >= 2 ==>
      var m := OuterMean(img, Winner(result)); result.outer == [Num(m), Num(m), Num(m)]
    ensures img.nx * img.ny < 2 ==> result.outer == [NaN, NaN, NaN]
  {
    var nx, ny := img.nx, img.ny;
    var table := BuildTable(img);
    var total := TotalFromTable(nx, ny, table);
    TotalFromTableIsTotalSum(img, table);
    OnlyWholeImageFills(nx, ny, Rect(0, 0, nx, ny));
    WholeImageIsNaN(img, table, total, Rect(0, 0, nx, ny));
    var optimal, location := Launch(nx, ny, table, total);
    var k := Reduce(optimal);
    PickedRectangle(img, table, total, optimal, location, k);
    PickedSums(img, table, total, optimal, location, k);

    var bestWidth := location[4 * k + 2];
    var bestHeight := location[4 * k + 3];
    var x0b := location[4 * k];
    var x1b := x0b + bestWidth;
    var y0b := location[4 * k + 1];
    var y1b := y0b + bestHeight;
    var bsz := bestWidth * bestHeight;
    var osz := nx * ny - bsz;

    var r := Rect(x0b, y0b, bestWidth, bestHeight);
    AreaPositive(bestWidth, bestHeight);
    assert osz as real == OuterArea(nx, ny, r);
    var innerSum := RectFromTable(nx, ny, table, r);
    var outerSum := total - innerSum;
    var innerBest := innerSum / bsz as real;
    var outerBest := if osz == 0 then NaN else Num(outerSum / osz as real);
    RegionMeans(img, r, innerSum, outerSum, bsz, osz);
    result := Result(y0b, x0b, y1b, x1b, [outerBest, outerBest, outerBest], [innerBest, innerBest, innerBest]);
    assert Winner(result) == r;
  }
}
