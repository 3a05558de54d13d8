/**
 * Integer geometry of the k-d tree: stored points, the squared distance from a
 * point to a datum, per-axis extents, bounding boxes and the squared distance
 * from a point to a box (kd.py, `datum_to_point_distance`, `get_bounding_box`,
 * `bb_to_point_distance` and the min/max scan of `get_max_spread_index`).
 */
module Geometry {

  /** A stored point: integer coordinates and the code that names it. */
  datatype Datum = Datum(coords: seq<int>, code: string)

  /**
   * The `[min, max]` pair the source keeps for one axis. `Unset` is the
   * initial `[None, None]`; the source always sets both halves together.
   */
  datatype Extent = Unset | Extent(lo: int, hi: int)

  function Min(a: int, b: int): int { if a <= b then a else b }

  function Square(x: int): int { x * x }

  lemma SquareFacts(x: int)
    ensures Square(x) >= 0
    ensures Square(x) == 0 <==> x == 0
  {
    if x < 0 {
      assert Square(x) == (-x) * (-x);
    }
  }

  lemma SquareMonotone(a: int, b: int)
    requires 0 <= a <= b
    ensures Square(a) <= Square(b)
  {
    assert a * a <= a * b;
    assert a * b <= b * b;
  }

  // ---------------------------------------------------------------------
  // Distance from a point to a datum
  // ---------------------------------------------------------------------

  /** Sum of the squared coordinate differences over the first `n` axes. */
  function DistUpTo(c: seq<int>, p: seq<int>, n: nat): int
    requires n <= |p| && n <= |c|
  {
    if n == 0 then 0 else DistUpTo(c, p, n - 1) + Square(c[n - 1] - p[n - 1])
  }

  /** Squared Euclidean distance over the axes of the query point `p`. */
  function Dist(c: seq<int>, p: seq<int>): int
    requires |p| <= |c|
  {
    DistUpTo(c, p, |p|)
  }

  lemma {:induction false} DistUpToFacts(c: seq<int>, p: seq<int>, n: nat)
    requires n <= |p| && n <= |c|
    ensures DistUpTo(c, p, n) >= 0
    ensures DistUpTo(c, p, n) == 0 <==> c[..n] == p[..n]
  {
    if n > 0 {
      DistUpToFacts(c, p, n - 1);
      SquareFacts(c[n - 1] - p[n - 1]);
      if c[..n] == p[..n] {
        assert c[..n - 1] == c[..n][..n - 1] == p[..n][..n - 1] == p[..n - 1];
        assert c[n - 1] == c[..n][n - 1];
      }
      if c[..n - 1] == p[..n - 1] && c[n - 1] == p[n - 1] {
        assert c[..n] == c[..n - 1] + [c[n - 1]];
        assert p[..n] == p[..n - 1] + [p[n - 1]];
      }
    }
  }

  /** The distance is never negative, and it is zero exactly at the datum itself. */
  lemma DistZeroIff(c: seq<int>, p: seq<int>)
    requires |c| == |p|
    ensures Dist(c, p) >= 0
    ensures Dist(c, p) == 0 <==> c == p
  {
    DistUpToFacts(c, p, |p|);
    assert c[..|c|] == c && p[..|p|] == p;
  }

  /** kd.py:228-232 */
  method DatumToPointDistance(datum: Datum, point: seq<int>) returns (distance: int)
    requires |point| <= |datum.coords|
    ensures distance == Dist(datum.coords, point)
    ensures distance >= 0
    ensures |datum.coords| == |point| ==> (distance == 0 <==> datum.coords == point)
  {
    distance := 0;
    for i := 0 to |point|
      invariant distance == DistUpTo(datum.coords, point, i)
    {
      distance := distance + Square(datum.coords[i] - point[i]);
    }
    DistUpToFacts(datum.coords, point, |point|);
    if |datum.coords| == |point| {
      DistZeroIff(datum.coords, point);
    }
  }

  // ---------------------------------------------------------------------
  // Extents and bounding boxes
  // ---------------------------------------------------------------------

  predicate Within(e: Extent, c: int) { e.Extent? && e.lo <= c <= e.hi }

  /**
   * One step of the min/max scan: `lo` is replaced when it is unset or the
   * coordinate is smaller, `hi` when it is unset or the coordinate is larger.
   */
  function Extend(e: Extent, c: int): (r: Extent)
    ensures Within(r, c)
    ensures e.Extent? ==> r.lo <= e.lo && e.hi <= r.hi
    ensures e.Extent? ==> (r.lo == e.lo || r.lo == c) && (r.hi == e.hi || r.hi == c)
    ensures e.Unset? ==> r.lo == c == r.hi
  {
    match e
    case Unset => Extent(c, c)
    case Extent(lo, hi) => Extent(if c < lo then c else lo, if c > hi then c else hi)
  }

  ghost predicate HasAxis(xs: seq<Datum>, j: int) {
    forall x <- xs :: 0 <= j < |x.coords|
  }

  /** The extent of axis `j` after scanning `xs` left to right from `e`. */
  function FoldAxis(e: Extent, xs: seq<Datum>, j: int): Extent
    requires HasAxis(xs, j)
    decreases |xs|
  {
    if xs == [] then e else Extend(FoldAxis(e, xs[..|xs| - 1], j), xs[|xs| - 1].coords[j])
  }

  /**
   * Scanning a non-empty list from an unset extent yields exactly the minimum
   * and the maximum of the list's coordinates on that axis.
   */
  lemma {:induction false} FoldAxisIsRange(xs: seq<Datum>, j: int)
    requires |xs| > 0 && HasAxis(xs, j)
    ensures FoldAxis(Unset, xs, j).Extent?
    ensures forall x <- xs :: Within(FoldAxis(Unset, xs, j), x.coords[j])
    ensures exists x <- xs :: x.coords[j] == FoldAxis(Unset, xs, j).lo
    ensures exists x <- xs :: x.coords[j] == FoldAxis(Unset, xs, j).hi
  {
    var ys, z := xs[..|xs| - 1], xs[|xs| - 1];
    assert xs == ys + [z];
    if ys != [] {
      assert forall x <- ys :: x in xs;
      FoldAxisIsRange(ys, j);
      var e := FoldAxis(Unset, ys, j);
      var lx :| lx in ys && lx.coords[j] == e.lo;
      var hx :| hx in ys && hx.coords[j] == e.hi;
      assert lx in xs && hx in xs;
    }
  }

  /** A fresh box for `n` axes: every axis `[None, None]`. */
  function Unsets(n: nat): (r: seq<Extent>)
    ensures |r| == n && forall e <- r :: e == Unset
  {
    seq(n, _ => Unset)
  }

  ghost predicate FitsBox(xs: seq<Datum>, n: int) {
    forall x <- xs :: |x.coords| <= n
  }

  /** kd.py:239-243 for one datum: each of its axes widens the box. */
  function Widen(bb: seq<Extent>, x: Datum): (r: seq<Extent>)
    requires |x.coords| <= |bb|
    ensures |r| == |bb|
  {
    seq(|bb|, j requires 0 <= j < |bb| => if j < |x.coords| then Extend(bb[j], x.coords[j]) else bb[j])
  }

  /** kd.py:238-243: the box after scanning the data `xs` in order. */
  function WidenAll(bb: seq<Extent>, xs: seq<Datum>): (r: seq<Extent>)
    requires FitsBox(xs, |bb|)
    ensures |r| == |bb|
    decreases |xs|
  {
    if xs == [] then bb else Widen(WidenAll(bb, xs[..|xs| - 1]), xs[|xs| - 1])
  }

  lemma {:induction false} WidenAllAppend(bb: seq<Extent>, a: seq<Datum>, b: seq<Datum>)
    requires FitsBox(a, |bb|) && FitsBox(b, |bb|)
    ensures FitsBox(a + b, |bb|)
    ensures WidenAll(bb, a + b) == WidenAll(WidenAll(bb, a), b)
  {
    if b != [] {
      var b' := b[..|b| - 1];
      assert (a + b)[..|a + b| - 1] == a + b';
      assert (a + b)[|a + b| - 1] == b[|b| - 1];
      WidenAllAppend(bb, a, b');
    } else {
      assert a + b == a;
    }
  }

  /** On data of exactly the box's dimension, each axis of the box is that axis's scan. */
  lemma {:induction false} WidenAllAxis(bb: seq<Extent>, xs: seq<Datum>, j: int)
    requires forall x <- xs :: |x.coords| == |bb|
    requires 0 <= j < |bb|
    ensures FitsBox(xs, |bb|) && HasAxis(xs, j)
    ensures WidenAll(bb, xs)[j] == FoldAxis(bb[j], xs, j)
  {
    if xs != [] {
      WidenAllAxis(bb, xs[..|xs| - 1], j);
    }
  }

  /**
   * The bounding box of a non-empty list of `n`-dimensional data, started
   * from a fresh box, holds on every axis exactly `[min, max]` of the data.
   */
  lemma BoundingBoxIsTight(xs: seq<Datum>, n: nat)
    requires |xs| > 0 && forall x <- xs :: |x.coords| == n
    ensures FitsBox(xs, n)
    ensures forall j :: 0 <= j < n ==> WidenAll(Unsets(n), xs)[j].Extent?
    ensures forall x <- xs, j | 0 <= j < n :: Within(WidenAll(Unsets(n), xs)[j], x.coords[j])
    ensures forall j :: 0 <= j < n ==> exists x <- xs :: x.coords[j] == WidenAll(Unsets(n), xs)[j].lo
    ensures forall j :: 0 <= j < n ==> exists x <- xs :: x.coords[j] == WidenAll(Unsets(n), xs)[j].hi
  {
    var bb := WidenAll(Unsets(n), xs);
    forall j | 0 <= j < n
      ensures bb[j].Extent?
      ensures forall x <- xs :: Within(bb[j], x.coords[j])
      ensures exists x <- xs :: x.coords[j] == bb[j].lo
      ensures exists x <- xs :: x.coords[j] == bb[j].hi
    {
      WidenAllAxis(Unsets(n), xs, j);
      FoldAxisIsRange(xs, j);
    }
  }

  // ---------------------------------------------------------------------
  // Distance from a point to a box
  // ---------------------------------------------------------------------

  /**
   * kd.py:252-253 for one axis: nothing when the coordinate lies in the
   * half-open `range(lo, hi)`, otherwise the smaller squared gap to a bound.
   */
  function AxisGap(e: Extent, c: int): int
    requires e.Extent?
  {
    if e.lo <= c < e.hi then 0 else Min(Square(e.lo - c), Square(e.hi - c))
  }

  ghost predicate BoxSet(bb: seq<Extent>, n: int) {
    n <= |bb| && forall i :: 0 <= i < n ==> bb[i].Extent?
  }

  function BoxDistUpTo(bb: seq<Extent>, p: seq<int>, n: nat): int
    requires n <= |p| && BoxSet(bb, n)
  {
    if n == 0 then 0 else BoxDistUpTo(bb, p, n - 1) + AxisGap(bb[n - 1], p[n - 1])
  }

  /** Squared distance from the point `p` to the box `bb`, over the axes of `p`. */
  function BoxDist(bb: seq<Extent>, p: seq<int>): int
    requires BoxSet(bb, |p|)
  {
    BoxDistUpTo(bb, p, |p|)
  }

  /**
   * The half-open test is harmless: a coordinate equal to `hi` contributes
   * `min((lo-hi)^2, 0) = 0`, exactly as a closed interval would have it.
   */
  lemma AxisGapClosed(e: Extent, c: int)
    requires e.Extent?
    ensures AxisGap(e, c) >= 0
    ensures e.lo <= e.hi ==> (AxisGap(e, c) == 0 <==> e.lo <= c <= e.hi)
  {
    SquareFacts(e.lo - c);
    SquareFacts(e.hi - c);
  }

  /** For a coordinate inside the extent, the axis gap never exceeds the true squared gap. */
  lemma AxisGapBelow(e: Extent, x: int, c: int)
    requires Within(e, x)
    ensures AxisGap(e, c) <= Square(x - c)
  {
    SquareFacts(x - c);
    if !(e.lo <= c < e.hi) {
      if c < e.lo {
        SquareMonotone(e.lo - c, x - c);
      } else {
        SquareMonotone(c - e.hi, c - x);
        assert Square(e.hi - c) == Square(c - e.hi);
        assert Square(x - c) == Square(c - x);
      }
    }
  }

  lemma {:induction false} BoxDistUpToFacts(bb: seq<Extent>, c: seq<int>, p: seq<int>, n: nat)
    requires n <= |p| && n <= |c| && BoxSet(bb, n)
    ensures BoxDistUpTo(bb, p, n) >= 0
    ensures (forall i :: 0 <= i < n ==> Within(bb[i], c[i])) ==> BoxDistUpTo(bb, p, n) <= DistUpTo(c, p, n)
  {
    if n > 0 {
      BoxDistUpToFacts(bb, c, p, n - 1);
      AxisGapClosed(bb[n - 1], p[n - 1]);
      if Within(bb[n - 1], c[n - 1]) {
        AxisGapBelow(bb[n - 1], c[n - 1], p[n - 1]);
      }
    }
  }

  /**
   * The box distance is an admissible bound: for a datum inside the box it
   * never exceeds the datum's own distance to the point.
   */
  lemma BoxDistIsLowerBound(bb: seq<Extent>, c: seq<int>, p: seq<int>)
    requires |p| <= |c| && BoxSet(bb, |p|)
    requires forall i :: 0 <= i < |p| ==> Within(bb[i], c[i])
    ensures 0 <= BoxDist(bb, p) <= Dist(c, p)
  {
    BoxDistUpToFacts(bb, c, p, |p|);
  }

  /** kd.py:249-254 */
  method BbToPointDistance(bb: array<Extent>, point: seq<int>) returns (distance: int)
    requires BoxSet(bb[..], |point|)
    ensures distance == BoxDist(bb[..], point)
    ensures distance >= 0
  {
    distance := 0;
    for i := 0 to |point|
      invariant distance == BoxDistUpTo(bb[..], point, i)
    {
      if !(bb[i].lo <= point[i] < bb[i].hi) {
        distance := distance + Min(Square(bb[i].lo - point[i]), Square(bb[i].hi - point[i]));
      }
    }
    BoxDistUpToFacts(bb[..], point, point, |point|);
  }
}
