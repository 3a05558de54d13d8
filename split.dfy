/**
 * Choice of the split of an overflowing leaf: the axis of maximum spread
 * (kd.py `get_max_spread_index`) and the median on that axis (kd.py
 * `get_median`), and the facts that make the split a partition.
 */
module Split {
  import opened Geometry
  import opened Sorting

  /** Every datum has exactly `d` coordinates. */
  ghost predicate AllDim(xs: seq<Datum>, d: int) {
    forall x <- xs :: |x.coords| == d
  }

  /** The key `coords[axis]` used to sort data; 0 off the datum's axes, where it is never used. */
  function AxisKey(axis: int): Datum -> int {
    (x: Datum) => if 0 <= axis < |x.coords| then x.coords[axis] else 0
  }

  /** The values of one axis, in list order (`coor_lst` of kd.py:176-178). */
  function Column(xs: seq<Datum>, axis: int): seq<int> {
    Keys(xs, AxisKey(axis))
  }

  /** `max - min` of the axis over the data; 0 for no data. */
  function Spread(xs: seq<Datum>, axis: int): int
    requires HasAxis(xs, axis)
  {
    match FoldAxis(Unset, xs, axis)
    case Unset => 0
    case Extent(lo, hi) => hi - lo
  }

  lemma SpreadFacts(xs: seq<Datum>, axis: int, a: Datum, b: Datum)
    requires HasAxis(xs, axis) && a in xs && b in xs
    ensures Spread(xs, axis) >= 0
    ensures a.coords[axis] != b.coords[axis] ==> Spread(xs, axis) > 0
  {
    FoldAxisIsRange(xs, axis);
  }

  lemma SpreadNonNegative(xs: seq<Datum>, axis: int)
    requires HasAxis(xs, axis)
    ensures Spread(xs, axis) >= 0
  {
    if xs != [] {
      SpreadFacts(xs, axis, xs[0], xs[0]);
    }
  }

  /**
   * The scan of kd.py:160-172 after the first `n` axes: the axis found so
   * far (-1 for none) and its spread. An axis replaces the current one only
   * with a strictly larger spread.
   */
  function BestAxis(xs: seq<Datum>, n: nat): (int, int)
    requires forall x <- xs :: n <= |x.coords|
  {
    if n == 0 then (-1, 0)
    else
      var (index, best) := BestAxis(xs, n - 1);
      var spread := Spread(xs, n - 1);
      if spread > best then (n - 1, spread) else (index, best)
  }

  /** The split axis kd.py:159-173 returns. */
  function MaxSpreadAxis(xs: seq<Datum>): int
    requires |xs| > 0 && AllDim(xs, |xs[0].coords|)
  {
    BestAxis(xs, |xs[0].coords|).0
  }

  /**
   * The scan finds the lowest axis whose spread is maximal, provided that
   * spread is positive; it reports -1 exactly when every spread is 0.
   */
  lemma {:induction false} BestAxisIsLowestMaximum(xs: seq<Datum>, n: nat)
    requires forall x <- xs :: n <= |x.coords|
    ensures var (index, best) := BestAxis(xs, n);
      -1 <= index < n &&
      (index == -1 <==> forall i :: 0 <= i < n ==> Spread(xs, i) == 0) &&
      (index == -1 ==> best == 0) &&
      (index >= 0 ==>
         best == Spread(xs, index) > 0 &&
         (forall i :: 0 <= i < n ==> Spread(xs, i) <= best) &&
         (forall i :: 0 <= i < index ==> Spread(xs, i) < best))
  {
    if n > 0 {
      BestAxisIsLowestMaximum(xs, n - 1);
      SpreadNonNegative(xs, n - 1);
    }
  }

  /** The split axis is -1 or an axis of the data. */
  lemma MaxSpreadAxisBound(xs: seq<Datum>)
    requires |xs| > 0 && AllDim(xs, |xs[0].coords|)
    ensures -1 <= MaxSpreadAxis(xs) < |xs[0].coords|
  {
    BestAxisIsLowestMaximum(xs, |xs[0].coords|);
  }

  /** Two data with different coordinates guarantee a real split axis. */
  lemma AxisExists(xs: seq<Datum>, a: Datum, b: Datum)
    requires |xs| > 0 && AllDim(xs, |xs[0].coords|)
    requires a in xs && b in xs && a.coords != b.coords
    ensures 0 <= MaxSpreadAxis(xs) < |xs[0].coords|
  {
    var d := |xs[0].coords|;
    BestAxisIsLowestMaximum(xs, d);
    var i :| 0 <= i < d && a.coords[i] != b.coords[i];
    SpreadFacts(xs, i, a, b);
  }

  /** kd.py:159-173 */
  method GetMaxSpreadIndex(lst: seq<Datum>) returns (index: int)
    requires |lst| > 0 && AllDim(lst, |lst[0].coords|)
    ensures index == MaxSpreadAxis(lst)
    ensures -1 <= index < |lst[0].coords|
    ensures index == -1 <==> forall i :: 0 <= i < |lst[0].coords| ==> Spread(lst, i) == 0
    ensures index >= 0 ==> Spread(lst, index) > 0
    ensures index >= 0 ==> forall i :: 0 <= i < |lst[0].coords| ==> Spread(lst, i) <= Spread(lst, index)
    ensures index >= 0 ==> forall i :: 0 <= i < index ==> Spread(lst, i) < Spread(lst, index)
  {
    index := -1;
    var maxSpread := 0;
    for i := 0 to |lst[0].coords|
      invariant (index, maxSpread) == BestAxis(lst, i)
    {
      var e := Unset;
      for j := 0 to |lst|
        invariant e == FoldAxis(Unset, lst[..j], i)
      {
        assert lst[..j + 1][..j] == lst[..j];
        e := Extend(e, lst[j].coords[i]);
      }
      assert lst[..|lst|] == lst;
      FoldAxisIsRange(lst, i);
      if e.hi - e.lo > maxSpread {
        maxSpread := e.hi - e.lo;
        index := i;
      }
    }
    BestAxisIsLowestMaximum(lst, |lst[0].coords|);
  }

  /** The mean of the two central values of a column, once sorted. */
  function MedianOfSorted(col: seq<int>): real
    requires |col| > 0
  {
    var mid := |col| / 2;
    (col[mid] + col[|col| - 1 - mid]) as real / 2.0
  }

  /** kd.py:179-181: the median of the axis's values. */
  function MedianOf(xs: seq<Datum>, axis: int): real
    requires |xs| > 0
  {
    MedianOfSorted(SortByKey(Column(xs, axis), Id))
  }

  /** Every value of a sorted column lies within the axis's `[min, max]`. */
  lemma SortedColumnWithin(xs: seq<Datum>, axis: int, i: int)
    requires HasAxis(xs, axis) && 0 <= i < |xs|
    ensures Within(FoldAxis(Unset, xs, axis), SortByKey(Column(xs, axis), Id)[i])
  {
    var s := SortByKey(Column(xs, axis), Id);
    SortByKeyFacts(Column(xs, axis), Id);
    FoldAxisIsRange(xs, axis);
    assert s[i] in multiset(Column(xs, axis));
    var j :| 0 <= j < |xs| && Column(xs, axis)[j] == s[i];
    assert xs[j] in xs;
  }

  /** The median lies within the axis's `[min, max]`. */
  lemma MedianWithin(xs: seq<Datum>, axis: int)
    requires |xs| > 0 && HasAxis(xs, axis)
    ensures var e := FoldAxis(Unset, xs, axis); e.Extent? && e.lo as real <= MedianOf(xs, axis) <= e.hi as real
  {
    var n := |xs|;
    var col := SortByKey(Column(xs, axis), Id);
    assert |col| == n;
    assert MedianOf(xs, axis) == MedianOfSorted(col);
    SortedColumnWithin(xs, axis, n / 2);
    SortedColumnWithin(xs, axis, n - 1 - n / 2);
    var e := FoldAxis(Unset, xs, axis);
    assert e.Extent? && e.lo as real <= (col[n / 2] + col[n - 1 - n / 2]) as real / 2.0 <= e.hi as real;
  }

  /** kd.py:175-181 */
  method GetMedian(lst: seq<Datum>, splitIndex: int) returns (median: real)
    requires |lst| > 0 && HasAxis(lst, splitIndex)
    ensures median == MedianOf(lst, splitIndex)
    ensures var e := FoldAxis(Unset, lst, splitIndex); e.Extent? && e.lo as real <= median <= e.hi as real
  {
    var coorLst := [];
    for i := 0 to |lst|
      invariant coorLst == Column(lst[..i], splitIndex)
    {
      coorLst := coorLst + [lst[i].coords[splitIndex]];
    }
    assert lst[..|lst|] == lst;
    coorLst := SortByKey(coorLst, Id);
    var mid := |coorLst| / 2;
    median := (coorLst[mid] + coorLst[|coorLst| - 1 - mid]) as real / 2.0;
    MedianWithin(lst, splitIndex);
  }

  /** The two central sorted values on the axis differ, so a strict split is possible. */
  ghost predicate MiddleValuesDiffer(xs: seq<Datum>, axis: int)
    requires |xs| >= 2
  {
    var s := SortByKey(Column(xs, axis), Id);
    s[|s| / 2 - 1] < s[|s| / 2]
  }

  /** Sorting the data by an axis lists the data in the order of the sorted column. */
  lemma SortedByAxisKeys(xs: seq<Datum>, axis: int)
    requires HasAxis(xs, axis)
    ensures var s := SortByKey(xs, AxisKey(axis));
      multiset(s) == multiset(xs) && HasAxis(s, axis) &&
      forall i :: 0 <= i < |s| ==> s[i].coords[axis] == SortByKey(Column(xs, axis), Id)[i]
  {
    var key := AxisKey(axis);
    var s := SortByKey(xs, key);
    KeysOfSort(xs, key);
    forall x | x in s
      ensures 0 <= axis < |x.coords|
    {
      assert x in multiset(xs);
    }
    forall i | 0 <= i < |s|
      ensures s[i].coords[axis] == SortByKey(Column(xs, axis), Id)[i]
    {
      assert s[i] in s;
      assert key(s[i]) == Keys(s, key)[i];
    }
  }

  /** The median lies between the sorted values on either side of the cut. */
  lemma MedianAtCut(col: seq<int>)
    requires |col| >= 2 && SortedBy(col, Id)
    ensures var h := |col| / 2;
      col[h - 1] as real <= MedianOfSorted(col) <= col[h] as real &&
      (col[h - 1] < col[h] ==> col[h - 1] as real < MedianOfSorted(col))
  {
    var n, h := |col|, |col| / 2;
    assert h - 1 <= n - 1 - h <= h;
    assert col[h - 1] <= col[n - 1 - h] <= col[h];
  }

  /** A slice of data whose axis values are the matching slice of a bounded column is bounded. */
  lemma SliceBounds(s: seq<Datum>, col: seq<int>, axis: int, from: int, to: int, lo: int, hi: int)
    requires |s| == |col| && HasAxis(s, axis) && 0 <= from <= to <= |s|
    requires forall i :: 0 <= i < |s| ==> s[i].coords[axis] == col[i]
    requires forall i :: from <= i < to ==> lo <= col[i] <= hi
    ensures forall x <- s[from..to] :: 0 <= axis < |x.coords| && lo <= x.coords[axis] <= hi
  {
    forall x | x in s[from..to]
      ensures 0 <= axis < |x.coords| && lo <= x.coords[axis] <= hi
    {
      var i :| 0 <= i < to - from && s[from..to][i] == x;
      assert s[from + i] == x;
    }
  }

  /** `s` lists data in the order of the sorted column `col`. */
  ghost predicate CutReady(s: seq<Datum>, col: seq<int>, axis: int) {
    |s| == |col| >= 2 && HasAxis(s, axis) &&
    (forall i :: 0 <= i < |s| ==> s[i].coords[axis] == col[i]) &&
    SortedBy(col, Id)
  }

  lemma SortedCutReady(xs: seq<Datum>, axis: int)
    requires |xs| >= 2 && HasAxis(xs, axis)
    ensures CutReady(SortByKey(xs, AxisKey(axis)), SortByKey(Column(xs, axis), Id), axis)
  {
    SortedByAxisKeys(xs, axis);
    SortByKeyFacts(Column(xs, axis), Id);
  }

  /** Cutting data listed in column order at half its length separates the halves at the median. */
  lemma CutSeparates(s: seq<Datum>, col: seq<int>, axis: int)
    requires CutReady(s, col, axis)
    ensures var v := MedianOfSorted(col);
      forall x <- s[..|s| / 2] :: 0 <= axis < |x.coords| && x.coords[axis] as real <= v
    ensures var v := MedianOfSorted(col);
      forall x <- s[|s| / 2..] :: 0 <= axis < |x.coords| && x.coords[axis] as real >= v
    ensures var v := MedianOfSorted(col);
      col[|s| / 2 - 1] < col[|s| / 2] ==> forall x <- s[..|s| / 2] :: 0 <= axis < |x.coords| && x.coords[axis] as real < v
  {
    var n, h := |s|, |s| / 2;
    MedianAtCut(col);
    SortedRange(col, 0, h);
    SortedRange(col, h, n);
    assert s[..h] == s[0..h];
    assert s[h..] == s[h..n];
    SliceBounds(s, col, axis, 0, h, col[0], col[h - 1]);
    SliceBounds(s, col, axis, h, n, col[h], col[n - 1]);
  }

  /** In a sorted column every value of a slice lies between the slice's ends. */
  lemma SortedRange(col: seq<int>, from: int, to: int)
    requires SortedBy(col, Id) && 0 <= from < to <= |col|
    ensures forall i :: from <= i < to ==> col[from] <= col[i] <= col[to - 1]
  {
    forall i | from <= i < to ensures col[from] <= col[i] <= col[to - 1] {
      assert Id(col[from]) <= Id(col[i]) || from == i;
      assert Id(col[i]) <= Id(col[to - 1]) || i == to - 1;
    }
  }

  /**
   * Sorting the data by the axis and cutting at `len/2` separates the halves
   * at the median: every left value is at most the median and every right
   * value at least the median; the left values are strictly below it when
   * the two central values differ.
   */
  lemma SplitSeparates(xs: seq<Datum>, axis: int)
    requires |xs| >= 2 && HasAxis(xs, axis)
    ensures var s := SortByKey(xs, AxisKey(axis)); var h := |xs| / 2; var v := MedianOf(xs, axis);
      multiset(s) == multiset(xs) &&
      (forall x <- s[..h] :: 0 <= axis < |x.coords| && x.coords[axis] as real <= v) &&
      (forall x <- s[h..] :: 0 <= axis < |x.coords| && x.coords[axis] as real >= v) &&
      (MiddleValuesDiffer(xs, axis) ==> forall x <- s[..h] :: 0 <= axis < |x.coords| && x.coords[axis] as real < v)
  {
    SortedCutReady(xs, axis);
    CutSeparates(SortByKey(xs, AxisKey(axis)), SortByKey(Column(xs, axis), Id), axis);
  }
}
