/** The integral image: an (nx + 1) x (ny + 1) table of prefix sums of
    channel 0, stored row by row in one flat buffer, and the four-lookup
    rectangle sum it makes possible. */
module Integral {
  import opened Sums
  import opened Images

  /** Flat position of table entry (i, j): column i of row j, with rows of
      nx + 1 entries. */
  function At(nx: int, i: int, j: int): int
  {
    i + (nx + 1) * j
  }

  /** Every entry of the table has a position inside the buffer. */
  lemma AtInRange(nx: int, ny: int, i: int, j: int)
    requires 0 <= i <= nx && 0 <= j <= ny
    ensures 0 <= At(nx, i, j) < (nx + 1) * (ny + 1)
  {
    assert (nx + 1) * j <= (nx + 1) * ny by {
      assert (nx + 1) * ny - (nx + 1) * j == (nx + 1) * (ny - j);
    }
    assert 0 <= (nx + 1) * j;
  }

  /** Distinct entries have distinct positions. */
  lemma AtInjective(nx: int, i: int, j: int, i2: int, j2: int)
    requires 0 <= i <= nx && 0 <= i2 <= nx
    ensures At(nx, i, j) == At(nx, i2, j2) <==> i == i2 && j == j2
  {
    if j < j2 {
      RowsApart(nx, j, j2);
    } else if j2 < j {
      RowsApart(nx, j2, j);
    }
  }

  /** Entries of different rows are at least a whole row apart. */
  lemma RowsApart(nx: int, j: int, j2: int)
    requires 0 <= nx && j < j2
    ensures (nx + 1) * j2 - (nx + 1) * j >= nx + 1
  {
    var d := j2 - j;
    assert (nx + 1) * j2 == (nx + 1) * j + (nx + 1) * d;
    assert (nx + 1) * d == (nx + 1) * (d - 1) + (nx + 1);
    assert (nx + 1) * (d - 1) >= 0;
  }

  /** The last entry, (nx, ny), sits at the end of the buffer. */
  lemma AtLast(nx: int, ny: int)
    ensures At(nx, nx, ny) == (nx + 1) * (ny + 1) - 1
  {
  }

  /** Entry (i, j) of the table: the sum of channel 0 over the columns
      x < i of the rows y < j. */
  ghost function Prefix(img: Image, i: int, j: int): real
  {
    RectSum(Channel0(img), 0, 0, i, j)
  }

  /** Entry (i, j) is present in s and holds its prefix sum. */
  ghost predicate Holds(img: Image, s: seq<real>, i: int, j: int)
  {
    0 <= At(img.nx, i, j) < |s| && s[At(img.nx, i, j)] == Prefix(img, i, j)
  }

  /** s is the integral image of img. */
  ghost predicate IsPrefixTable(img: Image, s: seq<real>)
  {
    |s| == (img.nx + 1) * (img.ny + 1) &&
    forall i, j :: 0 <= i <= img.nx && 0 <= j <= img.ny ==> Holds(img, s, i, j)
  }

  /** Row 0 and column 0 of the table sum nothing. */
  lemma PrefixEdges(img: Image, i: int, j: int)
    requires 0 <= i && 0 <= j
    ensures Prefix(img, 0, j) == 0.0 && Prefix(img, i, 0) == 0.0
  {
    forall y | 0 <= y < j
      ensures RowSum(Channel0(img), y, 0, 0) == 0.0
    {
    }
    ZeroRows(Channel0(img), 0, 0, 0, j);
  }

  /** The recurrence that fills the table: an entry is its pixel plus the
      entries above and to the left, minus the one diagonally above-left. */
  lemma PrefixStep(img: Image, i: int, j: int)
    requires 1 <= i && 1 <= j
    ensures Prefix(img, i, j)
         == Channel0(img)(i - 1, j - 1) + Prefix(img, i, j - 1) + Prefix(img, i - 1, j) - Prefix(img, i - 1, j - 1)
  {
    var p := Channel0(img);
    assert Prefix(img, i, j) == Prefix(img, i, j - 1) + RowSum(p, j - 1, 0, i);
    assert Prefix(img, i - 1, j) == Prefix(img, i - 1, j - 1) + RowSum(p, j - 1, 0, i - 1);
    assert RowSum(p, j - 1, 0, i) == RowSum(p, j - 1, 0, i - 1) + p(i - 1, j - 1);
  }

  /** Writing one entry leaves every other entry as it was. */
  lemma HoldsAfterWrite(img: Image, s: seq<real>, i: int, j: int, v: real, i2: int, j2: int)
    requires 0 <= i <= img.nx && 0 <= i2 <= img.nx && 0 <= At(img.nx, i, j) < |s|
    requires Holds(img, s, i2, j2) && (i2 != i || j2 != j)
    ensures Holds(img, s[At(img.nx, i, j) := v], i2, j2)
  {
    AtInjective(img.nx, i, j, i2, j2);
  }

  /** Builds the integral image: a zeroed buffer, a zero first column, a
      zero first row, then every other entry by the recurrence, row by row. */
  method BuildTable(img: Image) returns (table: seq<real>)
    requires ValidImage(img)
    ensures IsPrefixTable(img, table)
  {
    var nx, ny := img.nx, img.ny;
    var t := new real[(ny + 1) * (nx + 1)](_ => 0.0);
    assert (ny + 1) * (nx + 1) == (nx + 1) * (ny + 1);

    for j := 0 to ny + 1
      invariant forall j2 :: 0 <= j2 < j ==> Holds(img, t[..], 0, j2)
    {
      AtInRange(nx, ny, 0, j);
      ghost var s := t[..];
      t[At(nx, 0, j)] := 0.0;
      assert t[..] == s[At(nx, 0, j) := 0.0];
      PrefixEdges(img, 0, j);
      forall j2 | 0 <= j2 < j
        ensures Holds(img, t[..], 0, j2)
      {
        HoldsAfterWrite(img, s, 0, j, 0.0, 0, j2);
      }
    }

    for i := 0 to nx + 1
      invariant forall j2 :: 0 <= j2 <= ny ==> Holds(img, t[..], 0, j2)
      invariant forall i2 :: 0 <= i2 < i ==> Holds(img, t[..], i2, 0)
    {
      AtInRange(nx, ny, i, 0);
      ghost var s := t[..];
      t[At(nx, i, 0)] := 0.0;
      assert t[..] == s[At(nx, i, 0) := 0.0];
      PrefixEdges(img, i, 0);
      forall j2 | 0 <= j2 <= ny
        ensures Holds(img, t[..], 0, j2)
      {
        if i != 0 || j2 != 0 {
          HoldsAfterWrite(img, s, i, 0, 0.0, 0, j2);
        }
      }
      forall i2 | 0 <= i2 < i
        ensures Holds(img, t[..], i2, 0)
      {
        HoldsAfterWrite(img, s, i, 0, 0.0, i2, 0);
      }
    }

    FillInterior(img, t);
    table := t[..];
  }

  /** The recurrence pass of BuildTable, over the rows j >= 1 and, within
      each row, the columns i >= 1: once row 0 and column 0 hold, every entry
      ends up holding its prefix sum. */
  method FillInterior(img: Image, t: array<real>)
    requires ValidImage(img) && t.Length == (img.nx + 1) * (img.ny + 1)
    requires forall i2, j2 :: 0 <= i2 <= img.nx && 0 <= j2 <= img.ny && (i2 == 0 || j2 == 0) ==> Holds(img, t[..], i2, j2)
    modifies t
    ensures IsPrefixTable(img, t[..])
  {
    var nx, ny := img.nx, img.ny;
    for j := 1 to ny + 1
      invariant forall i2, j2 :: 0 <= i2 <= nx && 0 <= j2 <= ny && (i2 == 0 || j2 < j) ==> Holds(img, t[..], i2, j2)
    {
      for i := 1 to nx + 1
        invariant forall i2, j2 :: 0 <= i2 <= nx && 0 <= j2 <= ny && (i2 == 0 || j2 < j || (j2 == j && i2 < i))
                                   ==> Holds(img, t[..], i2, j2)
      {
        AtInRange(nx, ny, i, j);
        assert Holds(img, t[..], i, j - 1);
        assert Holds(img, t[..], i - 1, j);
        assert Holds(img, t[..], i - 1, j - 1);
        Channel0At(img, i - 1, j - 1);
        PrefixStep(img, i, j);
        ghost var s := t[..];
        var v := img.data[PixelIndex(nx, 0, i - 1, j - 1)] + t[At(nx, i, j - 1)] + t[At(nx, i - 1, j)]
                 - t[At(nx, i - 1, j - 1)];
        t[At(nx, i, j)] := v;
        assert t[..] == s[At(nx, i, j) := v];
        forall i2, j2 | 0 <= i2 <= nx && 0 <= j2 <= ny && (i2 == 0 || j2 < j || (j2 == j && i2 <= i))
          ensures Holds(img, t[..], i2, j2)
        {
          if i2 != i || j2 != j {
            HoldsAfterWrite(img, s, i, j, v, i2, j2);
          }
        }
      }
    }
  }

  /** The sum over r by inclusion-exclusion on four table entries: the
      prefix at the bottom-right corner, minus the prefixes above and to the
      left of r, plus the one diagonally above-left, which both removed. */
  function RectFromTable(nx: int, ny: int, t: seq<real>, r: Rect): real
    requires |t| == (nx + 1) * (ny + 1) && Within(nx, ny, r)
  {
    AtInRange(nx, ny, r.x1(), r.y1());
    AtInRange(nx, ny, r.x1(), r.y0);
    AtInRange(nx, ny, r.x0, r.y1());
    AtInRange(nx, ny, r.x0, r.y0);
    t[At(nx, r.x1(), r.y1())] - t[At(nx, r.x1(), r.y0)] - t[At(nx, r.x0, r.y1())] + t[At(nx, r.x0, r.y0)]
  }

  /** On the integral image, the four lookups give the sum of channel 0
      inside r. */
  lemma RectFromTableIsInnerSum(img: Image, t: seq<real>, r: Rect)
    requires IsPrefixTable(img, t) && Within(img.nx, img.ny, r)
    ensures RectFromTable(img.nx, img.ny, t, r) == InnerSum(img, r)
  {
    assert Holds(img, t, r.x1(), r.y1()) && Holds(img, t, r.x1(), r.y0);
    assert Holds(img, t, r.x0, r.y1()) && Holds(img, t, r.x0, r.y0);
    InclusionExclusion(Channel0(img), r.x0, r.y0, r.x1(), r.y1());
  }

  /** The last entry of the table: the sum over the whole image. */
  function TotalFromTable(nx: int, ny: int, t: seq<real>): real
    requires |t| == (nx + 1) * (ny + 1) && 0 <= nx && 0 <= ny
  {
    AtInRange(nx, ny, 0, 0);
    t[(nx + 1) * (ny + 1) - 1]
  }

  /** The last entry of the integral image is the sum of every pixel. */
  lemma TotalFromTableIsTotalSum(img: Image, t: seq<real>)
    requires ValidImage(img) && IsPrefixTable(img, t)
    ensures TotalFromTable(img.nx, img.ny, t) == TotalSum(img)
  {
    AtLast(img.nx, img.ny);
    assert Holds(img, t, img.nx, img.ny);
  }

  /** The table's outer sum, total minus inner, is the sum of channel 0
      over every pixel outside r. */
  lemma OuterFromTable(img: Image, t: seq<real>, r: Rect)
    requires ValidImage(img) && IsPrefixTable(img, t) && Within(img.nx, img.ny, r)
    ensures TotalFromTable(img.nx, img.ny, t) - RectFromTable(img.nx, img.ny, t, r) == OuterSum(img, r)
  {
    TotalFromTableIsTotalSum(img, t);
    RectFromTableIsInnerSum(img, t, r);
    Conservation(img, r);
  }
}
