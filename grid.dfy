// A uniform-grid spatial index over a rectangular domain. The domain is cut
// into numXBins x numYBins cells of equal size; every cell (a bin) holds a
// chain of points, newest first. Coordinates are exact reals here (float64
// in the source), and distances are squared instead of square-rooted.
module GridIndex {

  /** Per-axis tolerance of the approximate point equality: 1e-9. */
  const Threshold: real := 0.000000001

  /** A stored point. The chain link of the source is the order of a bin's sequence. */
  datatype Point = Point(x: real, y: real)

  function Abs(r: real): (a: real)
    ensures a >= 0.0 && (a == r || a == -r)
  {
    if r < 0.0 then -r else r
  }

  /** Two points match when each coordinate differs by at most Threshold. */
  predicate ApproxEqual(x1: real, y1: real, x2: real, y2: real)
  {
    if Abs(x1 - x2) > Threshold then false
    else if Abs(y1 - y2) > Threshold then false
    else true
  }

  /** Each axis is checked on its own: the differences are bounded separately. */
  lemma ApproxEqualPerAxis(x1: real, y1: real, x2: real, y2: real)
    ensures ApproxEqual(x1, y1, x2, y2) <==>
              (-Threshold <= x1 - x2 <= Threshold) && (-Threshold <= y1 - y2 <= Threshold)
  {
  }

  lemma ApproxEqualReflexive(x: real, y: real)
    ensures ApproxEqual(x, y, x, y)
  {
  }

  lemma ApproxEqualSymmetric(x1: real, y1: real, x2: real, y2: real)
    ensures ApproxEqual(x1, y1, x2, y2) == ApproxEqual(x2, y2, x1, y1)
  {
  }

  /** The tolerance is not a Euclidean radius: a diagonal offset of Threshold on both axes still matches. */
  lemma ApproxEqualIsNotEuclidean()
    ensures ApproxEqual(0.0, 0.0, Threshold, Threshold)
    ensures SqDist(0.0, 0.0, Threshold, Threshold) > Threshold * Threshold
  {
  }

  // ---------------------------------------------------------------------
  // Coordinate to bin arithmetic

  /** The width of each of `n` equal bins covering [start, end]. */
  function BinWidth(start: real, end: real, n: int): (w: real)
    requires n != 0
    ensures n > 0 && start < end ==> w > 0.0
    ensures start + (n as real) * w == end
  {
    (end - start) / (n as real)
  }

  /** The bin of coordinate `v`: floor((v - start) / width), with no clamping. */
  function Bin(v: real, start: real, width: real): (k: int)
    requires width != 0.0
    ensures width > 0.0 ==> start + (k as real) * width <= v < start + ((k + 1) as real) * width
  {
    var q := (v - start) / width;
    FloorScaled(v - start, width);
    q.Floor
  }

  /** With q = d / width and width > 0: floor(q) * width <= d < (floor(q) + 1) * width. */
  lemma FloorScaled(d: real, width: real)
    requires width != 0.0
    ensures width > 0.0 ==>
              ((d / width).Floor as real) * width <= d < (((d / width).Floor + 1) as real) * width
  {
    if width > 0.0 {
      var q := d / width;
      var lo, hi := q.Floor as real, (q.Floor + 1) as real;
      assert q * width == d;
      MulMonotone(lo, q, width);
      MulStrict(q, hi, width);
      assert q * width < hi * width;
      assert d < hi * width;
    }
  }

  lemma MulMonotone(a: real, b: real, c: real)
    requires a <= b && c > 0.0
    ensures a * c <= b * c
  {
    assert b * c - a * c == (b - a) * c;
  }

  lemma MulStrict(a: real, b: real, c: real)
    requires a < b && c > 0.0
    ensures a * c < b * c
  {
    assert b * c - a * c == (b - a) * c;
  }

  lemma SquareMonotone(a: real, b: real)
    requires 0.0 <= a <= b
    ensures a * a <= b * b
  {
    if a > 0.0 {
      MulMonotone(a, b, a);
      MulMonotone(a, b, b);
    }
  }

  /** The bin interval characterises the bin: a coordinate inside [start + k*w, start + (k+1)*w) is in bin k. */
  lemma BinUnique(v: real, start: real, width: real, k: int)
    requires width > 0.0
    requires start + (k as real) * width <= v < start + ((k + 1) as real) * width
    ensures Bin(v, start, width) == k
  {
    var b := Bin(v, start, width);
    var bl, bh, kl, kh := b as real, (b + 1) as real, k as real, (k + 1) as real;
    assert start + bl * width <= v < start + bh * width;
    assert start + kl * width <= v < start + kh * width;
    ScaledBelow(start, bl, v, kh, width);
    ScaledBelow(start, kl, v, bh, width);
  }

  /** A point between s + a * c and s + b * c, with c > 0, shows a < b. */
  lemma ScaledBelow(s: real, a: real, v: real, b: real, c: real)
    requires c > 0.0 && s + a * c <= v < s + b * c
    ensures a < b
  {
    assert a * c < b * c;
    assert (b - a) * c == b * c - a * c;
  }

  /** Every coordinate in [start, end) falls into one of the `n` bins of width (end - start) / n. */
  lemma BinInDomain(v: real, start: real, end: real, n: int)
    requires n > 0 && start < end && start <= v < end
    ensures 0 <= Bin(v, start, BinWidth(start, end, n)) < n
  {
    var w := BinWidth(start, end, n);
    var k := Bin(v, start, w);
    var kl, kh, nr := k as real, (k + 1) as real, n as real;
    assert w > 0.0 && start + nr * w == end;
    assert start + kl * w <= v < start + kh * w;
    assert start + 0.0 * w <= v;
    ScaledBelow(start, 0.0, v, kh, w);
    ScaledBelow(start, kl, v, nr, w);
  }

  // ---------------------------------------------------------------------
  // Chains

  /** The position of the first point of `chain` matching (x, y), or |chain| if none matches. */
  function FirstMatch(chain: seq<Point>, x: real, y: real): (k: nat)
    ensures k <= |chain|
    ensures k < |chain| ==> ApproxEqual(chain[k].x, chain[k].y, x, y)
    ensures forall j :: 0 <= j < k ==> !ApproxEqual(chain[j].x, chain[j].y, x, y)
  {
    if chain == [] then 0
    else if ApproxEqual(chain[0].x, chain[0].y, x, y) then 0
    else 1 + FirstMatch(chain[1..], x, y)
  }

  /** The chain after unlinking its first point matching (x, y), or None when no point matches. */
  function RemoveFirstMatch(chain: seq<Point>, x: real, y: real): Option<seq<Point>>
  {
    var k := FirstMatch(chain, x, y);
    if k < |chain| then Some(chain[..k] + chain[k + 1..]) else None
  }

  datatype Option<T> = None | Some(value: T)

  /** Removal succeeds exactly when some point in the chain matches. */
  lemma RemoveSucceedsIffMatch(chain: seq<Point>, x: real, y: real)
    ensures RemoveFirstMatch(chain, x, y).Some? <==>
              exists j :: 0 <= j < |chain| && ApproxEqual(chain[j].x, chain[j].y, x, y)
  {
    var k := FirstMatch(chain, x, y);
    if k < |chain| {
      assert ApproxEqual(chain[k].x, chain[k].y, x, y);
    }
  }

  /**
   * A successful removal drops exactly one point, the first match, and keeps
   * the order of all the others.
   */
  lemma RemoveFirstMatchShape(chain: seq<Point>, x: real, y: real)
    requires RemoveFirstMatch(chain, x, y).Some?
    ensures var rest := RemoveFirstMatch(chain, x, y).value;
            exists k :: 0 <= k < |chain|
              && ApproxEqual(chain[k].x, chain[k].y, x, y)
              && (forall j :: 0 <= j < k ==> !ApproxEqual(chain[j].x, chain[j].y, x, y))
              && rest == chain[..k] + chain[k + 1..]
              && |rest| == |chain| - 1
              && multiset(rest) + multiset{chain[k]} == multiset(chain)
  {
    var k := FirstMatch(chain, x, y);
    var rest := chain[..k] + chain[k + 1..];
    assert chain == chain[..k] + [chain[k]] + chain[k + 1..];
    assert multiset(chain) == multiset(chain[..k]) + multiset{chain[k]} + multiset(chain[k + 1..]);
  }

  /** Pushing (x, y) on a chain and then removing (x, y) gives back the chain: the new head matches first. */
  lemma PushThenRemove(chain: seq<Point>, x: real, y: real)
    ensures RemoveFirstMatch([Point(x, y)] + chain, x, y) == Some(chain)
  {
    var pushed := [Point(x, y)] + chain;
    assert FirstMatch(pushed, x, y) == 0;
    assert pushed[..0] + pushed[1..] == chain;
  }

  // ---------------------------------------------------------------------
  // The grid

  class Grid {
    var numXBins: int
    var numYBins: int
    var xStart: real
    var xEnd: real
    var yStart: real
    var yEnd: real
    var xBinWidth: real
    var yBinWidth: real
    // bins[i, j] is the chain of cell (i, j), head first.
    var bins: array2<seq<Point>>

    ghost predicate Valid()
      reads this
    {
      bins.Length0 == numXBins && bins.Length1 == numYBins
    }

    /** The bin widths are usable for the coordinate-to-bin mapping. */
    ghost predicate HasWidths()
      reads this
    {
      xBinWidth != 0.0 && yBinWidth != 0.0
    }

    /** Every stored point sits in the cell its coordinates map to. */
    ghost predicate Placed()
      reads this, bins
      requires HasWidths()
    {
      forall i, j, k ::
        0 <= i < bins.Length0 && 0 <= j < bins.Length1 && 0 <= k < |bins[i, j]| ==>
          GetBins(bins[i, j][k].x, bins[i, j][k].y) == (i, j)
    }

    /** A grid with the given configuration and empty bins. */
    constructor (numXBins: nat, numYBins: nat, xStart: real, xEnd: real, yStart: real, yEnd: real,
                 xBinWidth: real, yBinWidth: real)
      ensures Valid() && fresh(bins)
      ensures this.numXBins == numXBins && this.numYBins == numYBins
      ensures this.xStart == xStart && this.xEnd == xEnd && this.yStart == yStart && this.yEnd == yEnd
      ensures this.xBinWidth == xBinWidth && this.yBinWidth == yBinWidth
      ensures forall i, j :: 0 <= i < numXBins && 0 <= j < numYBins ==> bins[i, j] == []
    {
      this.numXBins, this.numYBins := numXBins, numYBins;
      this.xStart, this.xEnd, this.yStart, this.yEnd := xStart, xEnd, yStart, yEnd;
      this.xBinWidth, this.yBinWidth := xBinWidth, yBinWidth;
      bins := new seq<Point>[numXBins, numYBins]((i, j) => []);
    }

    /** Sets both bin widths from the domain bounds and the bin counts. */
    method CalculateWidth()
      requires numXBins != 0 && numYBins != 0
      modifies this`xBinWidth, this`yBinWidth
      ensures xBinWidth == BinWidth(xStart, xEnd, numXBins)
      ensures yBinWidth == BinWidth(yStart, yEnd, numYBins)
    {
      xBinWidth := (xEnd - xStart) / (numXBins as real);
      yBinWidth := (yEnd - yStart) / (numYBins as real);
    }

    /** The cell of (x, y); the result may lie outside the grid. */
    function GetBins(x: real, y: real): (r: (int, int))
      reads this
      requires HasWidths()
      ensures xBinWidth > 0.0 ==> xStart + (r.0 as real) * xBinWidth <= x < xStart + ((r.0 + 1) as real) * xBinWidth
      ensures yBinWidth > 0.0 ==> yStart + (r.1 as real) * yBinWidth <= y < yStart + ((r.1 + 1) as real) * yBinWidth
    {
      (Bin(x, xStart, xBinWidth), Bin(y, yStart, yBinWidth))
    }

    predicate InRange(xbin: int, ybin: int)
      reads this
    {
      0 <= xbin < numXBins && 0 <= ybin < numYBins
    }

    /**
     * Prepends (x, y) to the chain of its cell. Fails, changing nothing,
     * when the cell lies outside the grid.
     */
    method Insert(x: real, y: real) returns (ok: bool)
      requires Valid() && HasWidths()
      modifies bins
      ensures ok == InRange(GetBins(x, y).0, GetBins(x, y).1)
      ensures forall i, j :: 0 <= i < numXBins && 0 <= j < numYBins ==>
                bins[i, j] == if ok && (i, j) == GetBins(x, y) then [Point(x, y)] + old(bins[i, j]) else old(bins[i, j])
      ensures old(Placed()) ==> Placed()
    {
      var (xbin, ybin) := GetBins(x, y);
      if xbin < 0 || xbin >= numXBins {
        return false;
      }
      if ybin < 0 || ybin >= numYBins {
        return false;
      }
      var nextPoint := bins[xbin, ybin];
      bins[xbin, ybin] := [Point(x, y)] + nextPoint;
      ok := true;
    }

    /**
     * Unlinks the first point of the cell of (x, y) that approximately equals
     * (x, y). Fails, changing nothing, when the cell is outside the grid, its
     * chain is empty or no point matches.
     */
    method Delete(x: real, y: real) returns (ok: bool)
      requires Valid() && HasWidths()
      modifies bins
      ensures var (xbin, ybin) := GetBins(x, y);
              ok == (InRange(xbin, ybin) && RemoveFirstMatch(old(bins[xbin, ybin]), x, y).Some?)
      ensures forall i, j :: 0 <= i < numXBins && 0 <= j < numYBins ==>
                bins[i, j] == if ok && (i, j) == GetBins(x, y) then RemoveFirstMatch(old(bins[i, j]), x, y).value
                              else old(bins[i, j])
      ensures old(Placed()) ==> Placed()
    {
      var (xbin, ybin) := GetBins(x, y);
      if xbin < 0 || xbin >= numXBins {
        return false;
      }
      if ybin < 0 || ybin >= numYBins {
        return false;
      }
      var chain := bins[xbin, ybin];
      if chain == [] {
        return false;
      }
      // `current` is chain[i]; `previous` is chain[i - 1] when i > 0.
      var i := 0;
      while i < |chain|
        invariant 0 <= i <= FirstMatch(chain, x, y)
        invariant bins[xbin, ybin] == chain
      {
        if ApproxEqual(chain[i].x, chain[i].y, x, y) {
          if i == 0 {
            bins[xbin, ybin] := chain[1..];
          } else {
            bins[xbin, ybin] := chain[..i] + chain[i + 1..];
          }
          assert bins[xbin, ybin] == RemoveFirstMatch(chain, x, y).value;
          return true;
        }
        i := i + 1;
      }
      ok := false;
    }

    /**
     * The squared distance from (x, y) to the closed rectangle of cell
     * (xbin, ybin), or None (the source's negative-infinity sentinel) for a
     * cell outside the grid.
     */
    function MinDistToBind(xbin: int, ybin: int, x: real, y: real): (r: Option<real>)
      reads this
      ensures r.None? <==> !InRange(xbin, ybin)
      ensures r.Some? ==> r.value >= 0.0
      ensures r.Some? && CellMinX(xbin) <= x <= CellMaxX(xbin) && CellMinY(ybin) <= y <= CellMaxY(ybin) ==> r.value == 0.0
    {
      if xbin < 0 || xbin >= numXBins then None
      else if ybin < 0 || ybin >= numYBins then None
      else
        var xDist := AxisExcess(x, CellMinX(xbin), CellMaxX(xbin));
        var yDist := AxisExcess(y, CellMinY(ybin), CellMaxY(ybin));
        Some(xDist * xDist + yDist * yDist)
    }

    function CellMinX(xbin: int): real reads this { xStart + (xbin as real) * xBinWidth }
    function CellMaxX(xbin: int): real reads this { xStart + ((xbin + 1) as real) * xBinWidth }
    function CellMinY(ybin: int): real reads this { yStart + (ybin as real) * yBinWidth }
    function CellMaxY(ybin: int): real reads this { yStart + ((ybin + 1) as real) * yBinWidth }
  }

  /**
   * How far `v` lies outside [lo, hi] along one axis: lo - v below the
   * interval, v - hi above it, and 0 inside it.
   */
  function AxisExcess(v: real, lo: real, hi: real): (d: real)
    ensures d >= 0.0
    ensures lo <= v <= hi ==> d == 0.0
  {
    var below := if v < lo then lo - v else 0.0;
    if v > hi then v - hi else below
  }

  /** Along one axis the excess never exceeds the distance to any point of the interval. */
  lemma AxisExcessIsLowerBound(v: real, lo: real, hi: real, p: real)
    requires lo <= p <= hi
    ensures AxisExcess(v, lo, hi) <= Abs(v - p)
  {
  }

  /** The point of [lo, hi] nearest to `v`. */
  function Clamp(v: real, lo: real, hi: real): (c: real)
    requires lo <= hi
    ensures lo <= c <= hi
  {
    if v < lo then lo else if v > hi then hi else v
  }

  /** Along one axis the excess is the distance to the nearest point of the interval. */
  lemma AxisExcessIsAttained(v: real, lo: real, hi: real)
    requires lo <= hi
    ensures AxisExcess(v, lo, hi) == Abs(v - Clamp(v, lo, hi))
  {
  }

  function SqDist(x1: real, y1: real, x2: real, y2: real): real
  {
    (x1 - x2) * (x1 - x2) + (y1 - y2) * (y1 - y2)
  }

  /**
   * Admissibility: with positive widths, no point of the closed cell
   * rectangle is closer to (x, y) than MinDistToBind says.
   */
  lemma MinDistIsLowerBound(g: Grid, xbin: int, ybin: int, x: real, y: real, px: real, py: real)
    requires g.InRange(xbin, ybin) && g.xBinWidth > 0.0 && g.yBinWidth > 0.0
    requires g.CellMinX(xbin) <= px <= g.CellMaxX(xbin) && g.CellMinY(ybin) <= py <= g.CellMaxY(ybin)
    ensures g.MinDistToBind(xbin, ybin, x, y).value <= SqDist(x, y, px, py)
  {
    var dx := AxisExcess(x, g.CellMinX(xbin), g.CellMaxX(xbin));
    var dy := AxisExcess(y, g.CellMinY(ybin), g.CellMaxY(ybin));
    AxisExcessIsLowerBound(x, g.CellMinX(xbin), g.CellMaxX(xbin), px);
    AxisExcessIsLowerBound(y, g.CellMinY(ybin), g.CellMaxY(ybin), py);
    SquareMonotone(dx, Abs(x - px));
    SquareMonotone(dy, Abs(y - py));
  }

  /**
   * Exactness: the bound is reached by the point of the cell rectangle
   * nearest to (x, y), so it is the squared distance to the rectangle.
   */
  lemma MinDistIsAttained(g: Grid, xbin: int, ybin: int, x: real, y: real)
    requires g.InRange(xbin, ybin) && g.xBinWidth > 0.0 && g.yBinWidth > 0.0
    ensures g.CellMinX(xbin) <= g.CellMaxX(xbin) && g.CellMinY(ybin) <= g.CellMaxY(ybin)
    ensures g.MinDistToBind(xbin, ybin, x, y).value ==
              SqDist(x, y, Clamp(x, g.CellMinX(xbin), g.CellMaxX(xbin)), Clamp(y, g.CellMinY(ybin), g.CellMaxY(ybin)))
  {
    MulStrict(xbin as real, (xbin + 1) as real, g.xBinWidth);
    MulStrict(ybin as real, (ybin + 1) as real, g.yBinWidth);
    AxisExcessIsAttained(x, g.CellMinX(xbin), g.CellMaxX(xbin));
    AxisExcessIsAttained(y, g.CellMinY(ybin), g.CellMaxY(ybin));
  }

  /**
   * Delete looks only in the cell of the query coordinates: a stored point
   * just below a cell boundary is approximately equal to a query on the
   * boundary, yet the two map to neighbouring cells.
   */
  lemma ApproxEqualAcrossCellBoundary()
    ensures ApproxEqual(10.0 - Threshold / 10.0, 5.0, 10.0, 5.0)
    ensures Bin(10.0 - Threshold / 10.0, 0.0, 10.0) == 0
    ensures Bin(10.0, 0.0, 10.0) == 1
  {
    BinUnique(10.0 - Threshold / 10.0, 0.0, 10.0, 0);
    BinUnique(10.0, 0.0, 10.0, 1);
  }

  /** Cell (1, 1) of a grid starting at the origin with 10-wide cells, seen from (23, 24): 3-4-5. */
  lemma MinDistExample(g: Grid)
    requires g.numXBins >= 2 && g.numYBins >= 2
    requires g.xStart == 0.0 && g.yStart == 0.0 && g.xBinWidth == 10.0 && g.yBinWidth == 10.0
    ensures g.MinDistToBind(1, 1, 23.0, 24.0) == Some(25.0)
    ensures g.MinDistToBind(1, 1, 15.0, 20.0) == Some(0.0)
    ensures g.MinDistToBind(-1, 1, 15.0, 15.0) == None
  {
  }
}
