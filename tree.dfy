/**
 * The k-d tree of kd.py as a value: leaves hold up to `m` data, internal
 * nodes split on one axis at a real-valued split value. Insertion and
 * deletion (kd.py `KDtree.insert`, `KDtree.delete`) are written as
 * functions on this value; the heap classes of module KdHeap are proved to
 * compute exactly these functions.
 *
 * A search for a point descends left exactly when the point's coordinate on
 * the split axis is strictly below the split value (kd.py:82, kd.py:119), so
 * equal coordinates go right.
 */
module KdSpec {
  import opened Geometry
  import opened Sorting
  import opened Split

  /** A tree that may be empty: `root` is `None` before the first insert. */
  datatype Option<T> = None | Some(value: T)

  datatype Tree =
    | Leaf(data: seq<Datum>)
    | Internal(splitIndex: int, splitValue: real, left: Tree, right: Tree)

  /** The data of the tree, leaves from left to right. */
  function Points(t: Tree): seq<Datum> {
    match t
    case Leaf(data) => data
    case Internal(_, _, l, r) => Points(l) + Points(r)
  }

  /** The data of a possibly empty tree. */
  function PointsOf(t: Option<Tree>): multiset<Datum> {
    match t
    case None => multiset{}
    case Some(t) => multiset(Points(t))
  }

  function LeafCount(t: Tree): (n: nat)
    ensures n >= 1
  {
    match t
    case Leaf(_) => 1
    case Internal(_, _, l, r) => LeafCount(l) + LeafCount(r)
  }

  /** Every split axis is an index into a point with `n` coordinates. */
  ghost predicate Indexes(t: Tree, n: int) {
    match t
    case Leaf(_) => true
    case Internal(i, _, l, r) => 0 <= i < n && Indexes(l, n) && Indexes(r, n)
  }

  /**
   * The shape every tree built by insert and delete has: each leaf holds
   * between 1 and `m` data of `k` coordinates, each split axis is one of
   * the `k` axes.
   */
  ghost predicate Shaped(t: Tree, k: int, m: int) {
    match t
    case Leaf(data) => 1 <= |data| <= m && AllDim(data, k)
    case Internal(i, _, l, r) => 0 <= i < k && Shaped(l, k, m) && Shaped(r, k, m)
  }

  /** `x` may sit left of a split on axis `i` at `v`: at most `v`, or below `v` when `strict`. */
  ghost predicate Below(x: Datum, i: int, v: real, strict: bool) {
    0 <= i < |x.coords| && (if strict then x.coords[i] as real < v else x.coords[i] as real <= v)
  }

  /** `x` may sit right of a split on axis `i` at `v`. */
  ghost predicate Above(x: Datum, i: int, v: real) {
    0 <= i < |x.coords| && x.coords[i] as real >= v
  }

  /**
   * Every internal node separates its subtrees at its split value: left
   * data at most (or, when `strict`, below) the value, right data at least
   * the value.
   */
  ghost predicate Separated(t: Tree, strict: bool) {
    match t
    case Leaf(_) => true
    case Internal(i, v, l, r) =>
      (forall x <- Points(l) :: Below(x, i, v, strict)) &&
      (forall x <- Points(r) :: Above(x, i, v)) &&
      Separated(l, strict) && Separated(r, strict)
  }

  /** The invariant insert and delete keep. */
  ghost predicate TreeInv(t: Tree, k: int, m: int) {
    Shaped(t, k, m) && Separated(t, false)
  }

  /** No datum of the tree has coordinates `p`, as kd.py:70 guarantees for an insert. */
  ghost predicate Fresh(t: Tree, p: seq<int>) {
    forall x <- Points(t) :: x.coords != p
  }

  // ---------------------------------------------------------------------
  // Paths: `true` steps to the left child, `false` to the right child.

  function Init<T>(s: seq<T>): seq<T>
    requires |s| > 0
  {
    s[..|s| - 1]
  }

  function Last<T>(s: seq<T>): T
    requires |s| > 0
  {
    s[|s| - 1]
  }

  lemma InitLast<T>(s: seq<T>)
    requires |s| > 0
    ensures s == Init(s) + [Last(s)]
    ensures multiset(s) == multiset(Init(s)) + multiset{Last(s)}
  {
  }

  function Child(t: Tree, goLeft: bool): Tree
    requires t.Internal?
  {
    if goLeft then t.left else t.right
  }

  ghost predicate IsPath(t: Tree, path: seq<bool>)
    decreases path
  {
    path == [] || (t.Internal? && IsPath(Child(t, path[0]), path[1..]))
  }

  /** The subtree at the end of `path`. */
  function At(t: Tree, path: seq<bool>): Tree
    requires IsPath(t, path)
    decreases path
  {
    if path == [] then t else At(Child(t, path[0]), path[1..])
  }

  /** The tree with the subtree at the end of `path` replaced by `u`. */
  function Replace(t: Tree, path: seq<bool>, u: Tree): Tree
    requires IsPath(t, path)
    decreases path
  {
    if path == [] then u
    else if path[0] then Internal(t.splitIndex, t.splitValue, Replace(t.left, path[1..], u), t.right)
    else Internal(t.splitIndex, t.splitValue, t.left, Replace(t.right, path[1..], u))
  }

  /** A search for `p` goes left at a split on axis `i` at `v` (kd.py:82, kd.py:119). */
  function GoesLeft(p: seq<int>, i: int, v: real): bool
    requires 0 <= i < |p|
  {
    (p[i] as real) < v
  }

  /** The path the descent of kd.py:80-87 and kd.py:115-124 follows for `p`. */
  function LeafPath(t: Tree, p: seq<int>): (path: seq<bool>)
    requires Indexes(t, |p|)
    ensures IsPath(t, path) && At(t, path).Leaf?
  {
    match t
    case Leaf(_) => []
    case Internal(i, v, l, r) =>
      if GoesLeft(p, i, v) then [true] + LeafPath(l, p) else [false] + LeafPath(r, p)
  }

  /**
   * `x` satisfies the side condition of every split `path` passes through,
   * so it may be placed below the end of `path`.
   */
  ghost predicate RespectsOne(t: Tree, path: seq<bool>, x: Datum, strict: bool)
    requires IsPath(t, path)
    decreases path
  {
    path == [] ||
    ((if path[0] then Below(x, t.splitIndex, t.splitValue, strict) else Above(x, t.splitIndex, t.splitValue)) &&
     RespectsOne(Child(t, path[0]), path[1..], x, strict))
  }

  ghost predicate Respects(t: Tree, path: seq<bool>, xs: seq<Datum>, strict: bool)
    requires IsPath(t, path)
  {
    forall x <- xs :: RespectsOne(t, path, x, strict)
  }

  // ---------------------------------------------------------------------
  // Lemmas about paths.

  /** r + a = c + u gives r + s + a = c + s + u, in either order of the summands. */
  lemma SwapSum<T>(r: multiset<T>, s: multiset<T>, a: multiset<T>, c: multiset<T>, u: multiset<T>)
    requires r + a == c + u
    ensures (r + s) + a == (c + s) + u && (s + r) + a == (s + c) + u
  {
    forall o ensures ((r + s) + a)[o] == ((c + s) + u)[o] {
      assert (r + a)[o] == (c + u)[o];
    }
    forall o ensures ((s + r) + a)[o] == ((s + c) + u)[o] {
      assert (r + a)[o] == (c + u)[o];
    }
  }

  lemma Cancel<T>(a: multiset<T>, b: multiset<T>, c: multiset<T>)
    requires a + b == c + b
    ensures a == c
  {
    forall o ensures a[o] == c[o] {
      assert (a + b)[o] == (c + b)[o];
    }
  }

  lemma {:induction false} AtAppend(t: Tree, a: seq<bool>, b: seq<bool>)
    requires IsPath(t, a)
    ensures IsPath(t, a + b) <==> IsPath(At(t, a), b)
    ensures IsPath(t, a + b) ==> At(t, a + b) == At(At(t, a), b)
    decreases a
  {
    if a == [] {
      assert a + b == b;
    } else {
      assert (a + b)[0] == a[0] && (a + b)[1..] == a[1..] + b;
      AtAppend(Child(t, a[0]), a[1..], b);
    }
  }

  /** The parent of the end of a non-empty path is an internal node whose children are both reachable. */
  lemma ParentPath(t: Tree, path: seq<bool>)
    requires IsPath(t, path) && |path| > 0
    ensures IsPath(t, Init(path)) && At(t, Init(path)).Internal?
    ensures forall b :: IsPath(t, Init(path) + [b]) && At(t, Init(path) + [b]) == Child(At(t, Init(path)), b)
    ensures At(t, path) == Child(At(t, Init(path)), Last(path))
  {
    assert path == Init(path) + [Last(path)];
    PrefixPath(t, Init(path), [Last(path)]);
    AtAppend(t, Init(path), [Last(path)]);
    forall b ensures IsPath(t, Init(path) + [b]) && At(t, Init(path) + [b]) == Child(At(t, Init(path)), b) {
      AtAppend(t, Init(path), [b]);
    }
  }

  lemma {:induction false} PrefixPath(t: Tree, a: seq<bool>, b: seq<bool>)
    requires IsPath(t, a + b)
    ensures IsPath(t, a)
    decreases a
  {
    if a != [] {
      assert (a + b)[0] == a[0] && (a + b)[1..] == a[1..] + b;
      PrefixPath(Child(t, a[0]), a[1..], b);
    }
  }

  lemma {:induction false} ShapedIndexes(t: Tree, k: int, m: int)
    requires Shaped(t, k, m)
    ensures Indexes(t, k)
  {
    if t.Internal? {
      ShapedIndexes(t.left, k, m);
      ShapedIndexes(t.right, k, m);
    }
  }

  lemma {:induction false} ShapedAt(t: Tree, path: seq<bool>, k: int, m: int)
    requires IsPath(t, path) && Shaped(t, k, m)
    ensures Shaped(At(t, path), k, m)
    decreases path
  {
    if path != [] {
      ShapedAt(Child(t, path[0]), path[1..], k, m);
    }
  }

  lemma {:induction false} IndexesAt(t: Tree, path: seq<bool>, n: int)
    requires IsPath(t, path) && Indexes(t, n)
    ensures Indexes(At(t, path), n)
    decreases path
  {
    if path != [] {
      IndexesAt(Child(t, path[0]), path[1..], n);
    }
  }

  lemma {:induction false} SeparatedAt(t: Tree, path: seq<bool>, strict: bool)
    requires IsPath(t, path) && Separated(t, strict)
    ensures Separated(At(t, path), strict)
    decreases path
  {
    if path != [] {
      SeparatedAt(Child(t, path[0]), path[1..], strict);
    }
  }

  lemma {:induction false} ShapedReplace(t: Tree, path: seq<bool>, u: Tree, k: int, m: int)
    requires IsPath(t, path) && Shaped(t, k, m) && Shaped(u, k, m)
    ensures Shaped(Replace(t, path, u), k, m)
    decreases path
  {
    if path != [] {
      ShapedReplace(Child(t, path[0]), path[1..], u, k, m);
    }
  }

  /** Replacing a subtree trades its data for the new subtree's data. */
  lemma {:induction false} PointsReplace(t: Tree, path: seq<bool>, u: Tree)
    requires IsPath(t, path)
    ensures multiset(Points(Replace(t, path, u))) + multiset(Points(At(t, path))) ==
            multiset(Points(t)) + multiset(Points(u))
    ensures forall x <- Points(Replace(t, path, u)) :: x in Points(t) || x in Points(u)
    decreases path
  {
    if path == [] {
      assert Replace(t, path, u) == u && At(t, path) == t;
    } else {
      var c := Child(t, path[0]);
      PointsReplace(c, path[1..], u);
      assert At(t, path) == At(c, path[1..]);
      var r := Replace(c, path[1..], u);
      assert Points(t) == Points(t.left) + Points(t.right);
      if path[0] {
        assert Points(Replace(t, path, u)) == Points(r) + Points(t.right);
        assert multiset(Points(Replace(t, path, u))) == multiset(Points(r)) + multiset(Points(t.right));
        assert multiset(Points(t)) == multiset(Points(c)) + multiset(Points(t.right));
        SwapSum(multiset(Points(r)), multiset(Points(t.right)), multiset(Points(At(c, path[1..]))),
          multiset(Points(c)), multiset(Points(u)));
      } else {
        assert Points(Replace(t, path, u)) == Points(t.left) + Points(r);
        assert multiset(Points(Replace(t, path, u))) == multiset(Points(t.left)) + multiset(Points(r));
        assert multiset(Points(t)) == multiset(Points(t.left)) + multiset(Points(c));
        SwapSum(multiset(Points(r)), multiset(Points(t.left)), multiset(Points(At(c, path[1..]))),
          multiset(Points(c)), multiset(Points(u)));
      }
    }
    forall x | x in Points(Replace(t, path, u)) ensures x in Points(t) || x in Points(u) {
      assert x in multiset(Points(Replace(t, path, u)));
    }
  }

  /** The data of a subtree are data of the tree. */
  lemma {:induction false} PointsAt(t: Tree, path: seq<bool>)
    requires IsPath(t, path)
    ensures multiset(Points(At(t, path))) <= multiset(Points(t))
    ensures forall x <- Points(At(t, path)) :: x in Points(t)
    decreases path
  {
    if path != [] {
      PointsAt(Child(t, path[0]), path[1..]);
    }
    forall x | x in Points(At(t, path)) ensures x in Points(t) {
      assert x in multiset(Points(At(t, path)));
    }
  }

  /** The data below the end of a path already satisfy the splits above it. */
  lemma {:induction false} RespectsAt(t: Tree, path: seq<bool>, strict: bool)
    requires IsPath(t, path) && Separated(t, strict)
    ensures Respects(t, path, Points(At(t, path)), strict)
    decreases path
  {
    if path != [] {
      var c := Child(t, path[0]);
      RespectsAt(c, path[1..], strict);
      PointsAt(c, path[1..]);
    }
  }

  lemma {:induction false} RespectsPrefix(t: Tree, a: seq<bool>, b: seq<bool>, x: Datum, strict: bool)
    requires IsPath(t, a + b) && RespectsOne(t, a + b, x, strict)
    ensures IsPath(t, a) && RespectsOne(t, a, x, strict)
    decreases a
  {
    PrefixPath(t, a, b);
    if a != [] {
      assert (a + b)[0] == a[0] && (a + b)[1..] == a[1..] + b;
      RespectsPrefix(Child(t, a[0]), a[1..], b, x, strict);
    }
  }

  /** The descent for a point leads where the point may be placed, even strictly. */
  lemma {:induction false} RespectsLeafPath(t: Tree, x: Datum, strict: bool)
    requires Indexes(t, |x.coords|)
    ensures RespectsOne(t, LeafPath(t, x.coords), x, strict)
  {
    if t.Internal? {
      var path := LeafPath(t, x.coords);
      assert path[1..] == LeafPath(Child(t, path[0]), x.coords);
      RespectsLeafPath(Child(t, path[0]), x, strict);
    }
  }

  /** A subtree whose data respect the path may replace the subtree there. */
  lemma {:induction false} SeparatedReplace(t: Tree, path: seq<bool>, u: Tree, strict: bool)
    requires IsPath(t, path) && Separated(t, strict) && Separated(u, strict)
    requires Respects(t, path, Points(u), strict)
    ensures Separated(Replace(t, path, u), strict)
    decreases path
  {
    if path != [] {
      var c := Child(t, path[0]);
      SeparatedReplace(c, path[1..], u, strict);
      PointsReplace(c, path[1..], u);
    }
  }

  /** Strict separation sends the search for a datum's coordinates to the leaf that holds it. */
  lemma {:induction false} StrictFinds(t: Tree, x: Datum)
    requires Separated(t, true) && Indexes(t, |x.coords|) && x in Points(t)
    ensures x in At(t, LeafPath(t, x.coords)).data
  {
    if t.Internal? {
      if x in Points(t.left) {
        assert Below(x, t.splitIndex, t.splitValue, true);
        StrictFinds(t.left, x);
      } else {
        assert Above(x, t.splitIndex, t.splitValue);
        StrictFinds(t.right, x);
      }
    }
  }

  // ---------------------------------------------------------------------
  // Insertion (kd.py:71-105).

  /**
   * The split of an overflowing leaf (kd.py:94-99): the data sorted on the
   * axis of maximum spread, the first `(m+1)/2` to the left, the rest to
   * the right, split at the median.
   */
  function SplitLeaf(data: seq<Datum>, m: int): Tree
    requires m >= 1 && |data| == m + 1 && AllDim(data, |data[0].coords|)
    requires 0 <= MaxSpreadAxis(data)
  {
    var axis := MaxSpreadAxis(data);
    var sorted := SortByKey(data, AxisKey(axis));
    var h := (m + 1) / 2;
    Internal(axis, MedianOf(data, axis), Leaf(sorted[..h]), Leaf(sorted[h..]))
  }

  /** What replaces a leaf after `datum` was appended (kd.py:90-99). */
  function Grown(data: seq<Datum>, m: int): Tree
    requires m >= 1 && 0 < |data| <= m + 1 && AllDim(data, |data[0].coords|)
    requires |data| > m ==> 0 <= MaxSpreadAxis(data)
  {
    if |data| > m then SplitLeaf(data, m) else Leaf(data)
  }

  /** The split of an overflowing leaf (if any) has distinct central values, so it separates strictly. */
  ghost predicate SplitsStrictly(data: seq<Datum>, m: int)
    requires 0 < |data| && AllDim(data, |data[0].coords|)
  {
    |data| > m && |data| >= 2 ==> MiddleValuesDiffer(data, MaxSpreadAxis(data))
  }

  lemma GrownFacts(data: seq<Datum>, m: int, k: int)
    requires m >= 1 && 0 < |data| <= m + 1 && AllDim(data, k) && |data[0].coords| == k
    requires |data| > m ==> 0 <= MaxSpreadAxis(data)
    ensures multiset(Points(Grown(data, m))) == multiset(data)
    ensures forall y <- Points(Grown(data, m)) :: y in data
    ensures Shaped(Grown(data, m), k, m) && Separated(Grown(data, m), false)
    ensures SplitsStrictly(data, m) ==> Separated(Grown(data, m), true)
  {
    if |data| > m {
      var axis := MaxSpreadAxis(data);
      BestAxisIsLowestMaximum(data, k);
      var sorted := SortByKey(data, AxisKey(axis));
      var h := (m + 1) / 2;
      assert h == |data| / 2;
      assert HasAxis(data, axis);
      SplitSeparates(data, axis);
      assert sorted == sorted[..h] + sorted[h..];
      CutFacts(sorted[..h], sorted[h..], data, axis, MedianOf(data, axis), k, m);
    }
  }

  /** Two leaves cut from `data` at `v` on `axis` form a shaped, separated tree of `data`. */
  lemma CutFacts(lo: seq<Datum>, hi: seq<Datum>, data: seq<Datum>, axis: int, v: real, k: int, m: int)
    requires multiset(lo + hi) == multiset(data) && AllDim(data, k) && 0 <= axis < k
    requires 1 <= |lo| <= m && 1 <= |hi| <= m
    requires forall x <- lo :: 0 <= axis < |x.coords| && x.coords[axis] as real <= v
    requires forall x <- hi :: 0 <= axis < |x.coords| && x.coords[axis] as real >= v
    ensures var t := Internal(axis, v, Leaf(lo), Leaf(hi));
      multiset(Points(t)) == multiset(data) && (forall y <- Points(t) :: y in data) &&
      Shaped(t, k, m) && Separated(t, false) &&
      ((forall x <- lo :: x.coords[axis] as real < v) ==> Separated(t, true))
  {
    forall y | y in lo + hi ensures y in data {
      assert y in multiset(lo + hi);
    }
    assert forall y <- lo :: y in lo + hi;
    assert forall y <- hi :: y in lo + hi;
  }

  /**
   * The insert of `x` into `t` makes no split, or a split whose central
   * values differ.
   */
  ghost predicate InsertsStrictly(t: Tree, x: Datum, m: int) {
    Indexes(t, |x.coords|) &&
    var data := Receiving(t, x);
    AllDim(data, |data[0].coords|) && SplitsStrictly(data, m)
  }

  /** The leaf receiving `x` and the data it holds once `x` is appended. */
  function Receiving(t: Tree, x: Datum): seq<Datum>
    requires Indexes(t, |x.coords|)
  {
    At(t, LeafPath(t, x.coords)).data + [x]
  }

  /**
   * The tree after inserting `x` (kd.py:71-105): a new leaf for an empty
   * tree; otherwise `x` is appended to the leaf its descent reaches, and
   * that leaf is split when it overflows.
   */
  function Insert(t: Option<Tree>, x: Datum, k: int, m: int): Tree
    requires m >= 1 && |x.coords| == k
    requires t.Some? ==> TreeInv(t.value, k, m) && Fresh(t.value, x.coords)
  {
    match t
    case None => Leaf([x])
    case Some(t) =>
      ShapedIndexes(t, k, m);
      var path := LeafPath(t, x.coords);
      var data := Receiving(t, x);
      ReceivingFacts(t, x, k, m);
      Replace(t, path, Grown(data, m))
  }

  lemma ReceivingFacts(t: Tree, x: Datum, k: int, m: int)
    requires m >= 1 && |x.coords| == k && Shaped(t, k, m) && Fresh(t, x.coords)
    ensures Indexes(t, k)
    ensures var data := Receiving(t, x);
      1 < |data| <= m + 1 && AllDim(data, k) && |data[0].coords| == k &&
      (|data| > m ==> 0 <= MaxSpreadAxis(data))
  {
    ShapedIndexes(t, k, m);
    var path := LeafPath(t, x.coords);
    ShapedAt(t, path, k, m);
    PointsAt(t, path);
    var data := Receiving(t, x);
    assert data[0] in Points(t);
    AxisExists(data, data[0], x);
  }

  /** Insertion adds exactly `x` to the data. */
  lemma InsertPoints(t: Option<Tree>, x: Datum, k: int, m: int)
    requires m >= 1 && |x.coords| == k
    requires t.Some? ==> TreeInv(t.value, k, m) && Fresh(t.value, x.coords)
    ensures multiset(Points(Insert(t, x, k, m))) == PointsOf(t) + multiset{x}
  {
    if t.Some? {
      var t := t.value;
      ReceivingFacts(t, x, k, m);
      var path := LeafPath(t, x.coords);
      var data := Receiving(t, x);
      GrownFacts(data, m, k);
      PointsReplace(t, path, Grown(data, m));
      assert Insert(Some(t), x, k, m) == Replace(t, path, Grown(data, m));
      assert multiset(data) == multiset(Points(At(t, path))) + multiset{x};
      Cancel(multiset(Points(Replace(t, path, Grown(data, m)))), multiset(Points(At(t, path))),
        multiset(Points(t)) + multiset{x});
    }
  }

  /**
   * Insertion keeps the invariant; it keeps strict separation as well when
   * the split it makes, if any, has distinct central values.
   */
  lemma InsertKeepsInv(t: Option<Tree>, x: Datum, k: int, m: int)
    requires m >= 1 && |x.coords| == k
    requires t.Some? ==> TreeInv(t.value, k, m) && Fresh(t.value, x.coords)
    ensures TreeInv(Insert(t, x, k, m), k, m)
    ensures t.Some? && Separated(t.value, true) && InsertsStrictly(t.value, x, m) ==>
      Separated(Insert(t, x, k, m), true)
  {
    if t.Some? {
      var t := t.value;
      ReceivingFacts(t, x, k, m);
      var path := LeafPath(t, x.coords);
      var data := Receiving(t, x);
      var u := Grown(data, m);
      GrownFacts(data, m, k);
      ShapedReplace(t, path, u, k, m);
      forall strict | strict ==> Separated(t, true) && SplitsStrictly(data, m)
        ensures Separated(Replace(t, path, u), strict)
      {
        RespectsAt(t, path, strict);
        RespectsLeafPath(t, x, strict);
        assert Respects(t, path, data, strict);
        SeparatedReplace(t, path, u, strict);
      }
    }
  }

  /**
   * In a sorted column where `kx` sits at index `j`, with no larger value
   * before it and only larger values after it, `kx` is below the median
   * exactly when `j` falls in the left half.
   */
  lemma MedianSide(col: seq<int>, kx: int, j: nat)
    requires j < |col| && col[j] == kx
    requires forall i :: 0 <= i < j ==> col[i] <= kx
    requires forall i :: j < i < |col| ==> kx < col[i]
    ensures j < |col| / 2 ==> kx as real < MedianOfSorted(col)
    ensures j >= |col| / 2 ==> MedianOfSorted(col) <= kx as real
  {
    var n, h := |col|, |col| / 2;
    if j < h {
      assert kx < col[h] && kx <= col[n - 1 - h];
    } else {
      assert col[h] <= kx && col[n - 1 - h] <= kx;
    }
  }

  /** A datum placed at index `j` of a sorted list sits in the half that its side of the median names. */
  lemma HalfSide(sorted: seq<Datum>, col: seq<int>, x: Datum, kx: int, j: nat)
    requires j < |sorted| == |col| && sorted[j] == x && col[j] == kx
    requires forall i :: 0 <= i < j ==> col[i] <= kx
    requires forall i :: j < i < |col| ==> kx < col[i]
    ensures var h, med := |sorted| / 2, MedianOfSorted(col);
      (x in sorted[..h] && kx as real < med) || (x in sorted[h..] && med <= kx as real)
  {
    MedianSide(col, kx, j);
    var h := |sorted| / 2;
    if j < h {
      assert x == sorted[..h][j];
    } else {
      assert x == sorted[h..][j - h];
    }
  }

  /**
   * The datum appended last to a list, once the list is sorted on an axis,
   * sits in the first half exactly when its coordinate is below the median.
   */
  lemma LastSide(data: seq<Datum>, x: Datum, axis: int)
    requires |data| > 0 && data[|data| - 1] == x && 0 <= axis < |x.coords|
    ensures var sorted := SortByKey(data, AxisKey(axis)); var med := MedianOf(data, axis); var h := |data| / 2;
      |sorted| == |data| &&
      ((x in sorted[..h] && x.coords[axis] as real < med) || (x in sorted[h..] && med <= x.coords[axis] as real))
  {
    var key := AxisKey(axis);
    var j := SortPlacesLastKeys(data, x, key);
    HalfSide(SortByKey(data, key), SortByKey(Column(data, axis), Id), x, key(x), j);
  }

  /**
   * The datum appended last to an overflowing leaf is found again by the
   * descent through the split: the stable sort keeps every datum with an
   * equal key ahead of it, so it lands in the left leaf exactly when its
   * coordinate is below the median.
   */
  lemma SplitFindsLast(data: seq<Datum>, x: Datum, m: int)
    requires m >= 1 && |data| == m + 1 && data[|data| - 1] == x
    requires AllDim(data, |data[0].coords|) && 0 <= MaxSpreadAxis(data)
    ensures var g := SplitLeaf(data, m);
      Indexes(g, |x.coords|) && x in At(g, LeafPath(g, x.coords)).data
  {
    var axis := MaxSpreadAxis(data);
    MaxSpreadAxisBound(data);
    LastSide(data, x, axis);
    var sorted := SortByKey(data, AxisKey(axis));
    var h := (m + 1) / 2;
    DescendCut(axis, MedianOf(data, axis), sorted[..h], sorted[h..], x);
  }

  /** A datum on its side of a cut is found by the descent through the cut. */
  lemma DescendCut(axis: int, v: real, lo: seq<Datum>, hi: seq<Datum>, x: Datum)
    requires 0 <= axis < |x.coords|
    requires (x in lo && x.coords[axis] as real < v) || (x in hi && v <= x.coords[axis] as real)
    ensures var g := Internal(axis, v, Leaf(lo), Leaf(hi));
      Indexes(g, |x.coords|) && x in At(g, LeafPath(g, x.coords)).data
  {
    var g := Internal(axis, v, Leaf(lo), Leaf(hi));
    if GoesLeft(x.coords, axis, v) {
      assert LeafPath(g, x.coords) == [true];
    } else {
      assert LeafPath(g, x.coords) == [false];
    }
  }

  /** The descent for `p` through a replaced subtree at its own path continues inside that subtree. */
  lemma {:induction false} ReachReplace(t: Tree, p: seq<int>, u: Tree)
    requires Indexes(t, |p|) && Indexes(u, |p|)
    ensures var r := Replace(t, LeafPath(t, p), u);
      Indexes(r, |p|) && At(r, LeafPath(r, p)) == At(u, LeafPath(u, p))
  {
    if t.Internal? {
      var path := LeafPath(t, p);
      var c := Child(t, path[0]);
      assert path[1..] == LeafPath(c, p);
      ReachReplace(c, p, u);
      var r := Replace(t, path, u);
      var rc := Replace(c, path[1..], u);
      assert Child(r, path[0]) == rc;
      assert LeafPath(r, p) == [path[0]] + LeafPath(rc, p);
    }
  }

  /** After the insert, the descent for the new datum's coordinates reaches the leaf holding it. */
  lemma InsertFindsNew(t: Option<Tree>, x: Datum, k: int, m: int)
    requires m >= 1 && |x.coords| == k
    requires t.Some? ==> TreeInv(t.value, k, m) && Fresh(t.value, x.coords)
    ensures var u := Insert(t, x, k, m);
      Indexes(u, k) && x in At(u, LeafPath(u, x.coords)).data
  {
    if t.Some? {
      var t := t.value;
      ReceivingFacts(t, x, k, m);
      var path := LeafPath(t, x.coords);
      var leaf := At(t, path).data;
      var data := Receiving(t, x);
      var g := Grown(data, m);
      GrownFacts(data, m, k);
      ShapedIndexes(g, k, m);
      if |data| > m {
        SplitFindsLast(data, x, m);
      } else {
        assert g == Leaf(data) && x in data;
      }
      ReachReplace(t, x.coords, g);
      assert Insert(Some(t), x, k, m) == Replace(t, path, g);
    }
  }

  // ---------------------------------------------------------------------
  // Deletion (kd.py:109-144).

  /** The index of the first datum of coordinates `p` in `s`, or `|s|` when there is none. */
  function FirstIndex(s: seq<Datum>, p: seq<int>): (i: nat)
    ensures i <= |s|
    ensures forall j :: 0 <= j < i ==> s[j].coords != p
    ensures i < |s| ==> s[i].coords == p
  {
    if s == [] || s[0].coords == p then 0 else 1 + FirstIndex(s[1..], p)
  }

  /** The list without its first datum of coordinates `p` (kd.py:127-130); unchanged if there is none. */
  function RemoveFirst(s: seq<Datum>, p: seq<int>): seq<Datum> {
    var i := FirstIndex(s, p);
    if i < |s| then s[..i] + s[i + 1..] else s
  }

  /** The sibling of the end of a non-empty path. */
  function Sibling(path: seq<bool>): seq<bool>
    requires |path| > 0
  {
    Init(path) + [!Last(path)]
  }

  /**
   * Replacing the end of a non-empty path leaves its sibling alone, and is
   * undone by a later replacement of its parent.
   */
  lemma {:induction false} ReplaceBelowParent(t: Tree, path: seq<bool>, x: Tree, y: Tree)
    requires IsPath(t, path) && |path| > 0
    ensures IsPath(t, Init(path)) && IsPath(t, Sibling(path))
    ensures var t' := Replace(t, path, x);
      IsPath(t', Init(path)) && IsPath(t', Sibling(path)) &&
      At(t', Sibling(path)) == At(t, Sibling(path)) &&
      Replace(t', Init(path), y) == Replace(t, Init(path), y)
    decreases path
  {
    ParentPath(t, path);
    if |path| > 1 {
      var c := Child(t, path[0]);
      ReplaceBelowParent(c, path[1..], x, y);
      assert Init(path) == [path[0]] + Init(path[1..]);
      assert Sibling(path) == [path[0]] + Sibling(path[1..]);
    }
  }

  /**
   * The tree after deleting a datum of coordinates `p` (kd.py:109-144):
   * the first such datum of the leaf the descent reaches is removed; a leaf
   * left empty disappears and its sibling takes the parent's place, or the
   * tree becomes empty when the leaf was the root.
   */
  function Delete(t: Tree, p: seq<int>): Option<Tree>
    requires Indexes(t, |p|)
  {
    var path := LeafPath(t, p);
    var rest := RemoveFirst(At(t, path).data, p);
    if |rest| > 0 then Some(Replace(t, path, Leaf(rest)))
    else if path == [] then None
    else
      ParentPath(t, path);
      Some(Replace(t, Init(path), At(t, Sibling(path))))
  }

  /**
   * Deletion removes the first datum of coordinates `p` in the leaf the
   * descent reaches, and nothing else; when that leaf holds no such datum
   * the tree is unchanged.
   */
  lemma DeletePoints(t: Tree, p: seq<int>, m: int)
    requires Shaped(t, |p|, m)
    ensures Indexes(t, |p|)
    ensures var leaf := At(t, LeafPath(t, p)).data; var i := FirstIndex(leaf, p);
      (i == |leaf| ==> Delete(t, p) == Some(t)) &&
      (i < |leaf| ==> PointsOf(Delete(t, p)) == multiset(Points(t)) - multiset{leaf[i]})
  {
    ShapedIndexes(t, |p|, m);
    var path := LeafPath(t, p);
    var leaf := At(t, path).data;
    var i := FirstIndex(leaf, p);
    ShapedAt(t, path, |p|, m);
    if i == |leaf| {
      ReplaceSame(t, path);
    } else {
      DeleteFound(t, p, m);
    }
  }

  lemma DeleteFound(t: Tree, p: seq<int>, m: int)
    requires Shaped(t, |p|, m) && Indexes(t, |p|)
    requires var leaf := At(t, LeafPath(t, p)).data; FirstIndex(leaf, p) < |leaf|
    ensures var leaf := At(t, LeafPath(t, p)).data;
      PointsOf(Delete(t, p)) == multiset(Points(t)) - multiset{leaf[FirstIndex(leaf, p)]}
  {
    var path := LeafPath(t, p);
    var leaf := At(t, path).data;
    RemoveFirstCount(leaf, p);
    if |RemoveFirst(leaf, p)| > 0 {
      DeleteShrinks(t, p);
    } else if path == [] {
      assert Points(t) == leaf;
    } else {
      DeleteCollapses(t, p);
    }
  }

  /** Removing the first matching datum takes exactly one copy of it away. */
  lemma RemoveFirstCount(s: seq<Datum>, p: seq<int>)
    requires FirstIndex(s, p) < |s|
    ensures multiset(s) == multiset(RemoveFirst(s, p)) + multiset{s[FirstIndex(s, p)]}
  {
    var i := FirstIndex(s, p);
    assert RemoveFirst(s, p) == s[..i] + s[i + 1..];
    CutOut(s, i);
  }

  lemma CutOut<T>(s: seq<T>, i: int)
    requires 0 <= i < |s|
    ensures multiset(s) == multiset(s[..i] + s[i + 1..]) + multiset{s[i]}
  {
    assert s == s[..i] + [s[i]] + s[i + 1..];
  }

  /** The delete that leaves data in the leaf. */
  lemma DeleteShrinks(t: Tree, p: seq<int>)
    requires Indexes(t, |p|)
    requires var leaf := At(t, LeafPath(t, p)).data;
      FirstIndex(leaf, p) < |leaf| && |RemoveFirst(leaf, p)| > 0
    ensures var leaf := At(t, LeafPath(t, p)).data;
      PointsOf(Delete(t, p)) == multiset(Points(t)) - multiset{leaf[FirstIndex(leaf, p)]}
  {
    var path := LeafPath(t, p);
    var leaf := At(t, path).data;
    var rest := RemoveFirst(leaf, p);
    RemoveFirstCount(leaf, p);
    PointsReplace(t, path, Leaf(rest));
    MinusOne(multiset(Points(Replace(t, path, Leaf(rest)))), multiset(Points(t)), multiset(rest), leaf[FirstIndex(leaf, p)]);
  }

  /** With `c` cancelled, `a` is `b` without one `d`. */
  lemma MinusOne<T>(a: multiset<T>, b: multiset<T>, c: multiset<T>, d: T)
    requires a + (c + multiset{d}) == b + c
    ensures a == b - multiset{d}
  {
    forall o ensures a[o] == (b - multiset{d})[o] {
      assert (a + (c + multiset{d}))[o] == (b + c)[o];
    }
  }

  /** The delete that empties a leaf below the root: the sibling takes the parent's place. */
  lemma DeleteCollapses(t: Tree, p: seq<int>)
    requires Indexes(t, |p|)
    requires var path := LeafPath(t, p); var leaf := At(t, path).data;
      path != [] && FirstIndex(leaf, p) < |leaf| && |RemoveFirst(leaf, p)| == 0
    ensures var leaf := At(t, LeafPath(t, p)).data;
      PointsOf(Delete(t, p)) == multiset(Points(t)) - multiset{leaf[FirstIndex(leaf, p)]}
  {
    var path := LeafPath(t, p);
    var leaf := At(t, path).data;
    var i := FirstIndex(leaf, p);
    assert leaf == leaf[..i] + [leaf[i]] + leaf[i + 1..];
    assert leaf == [leaf[i]];
    ParentPath(t, path);
    var sib := At(t, Sibling(path));
    var parent := At(t, Init(path));
    assert Delete(t, p) == Some(Replace(t, Init(path), sib));
    PointsReplace(t, Init(path), sib);
    assert multiset(Points(parent)) == multiset(Points(sib)) + multiset{leaf[i]};
    MinusOne(multiset(Points(Replace(t, Init(path), sib))), multiset(Points(t)), multiset(Points(sib)), leaf[i]);
  }

  lemma {:induction false} ReplaceSame(t: Tree, path: seq<bool>)
    requires IsPath(t, path)
    ensures Replace(t, path, At(t, path)) == t
    decreases path
  {
    if path != [] {
      ReplaceSame(Child(t, path[0]), path[1..]);
    }
  }

  /** Deletion keeps the invariant, and keeps strict separation. */
  lemma DeleteKeepsInv(t: Tree, p: seq<int>, m: int, strict: bool)
    requires Shaped(t, |p|, m) && Separated(t, strict)
    ensures Indexes(t, |p|)
    ensures Delete(t, p).Some? ==> Shaped(Delete(t, p).value, |p|, m) && Separated(Delete(t, p).value, strict)
  {
    ShapedIndexes(t, |p|, m);
    var path := LeafPath(t, p);
    var leaf := At(t, path).data;
    var rest := RemoveFirst(leaf, p);
    ShapedAt(t, path, |p|, m);
    RespectsAt(t, path, strict);
    if |rest| > 0 {
      assert forall y <- rest :: y in leaf;
      ShapedReplace(t, path, Leaf(rest), |p|, m);
      SeparatedReplace(t, path, Leaf(rest), strict);
    } else if path != [] {
      ParentPath(t, path);
      var s := Sibling(path);
      var sib := At(t, s);
      ShapedAt(t, s, |p|, m);
      SeparatedAt(t, s, strict);
      RespectsAt(t, s, strict);
      forall y | y in Points(sib) ensures RespectsOne(t, Init(path), y, strict) {
        RespectsPrefix(t, Init(path), [!Last(path)], y, strict);
      }
      ShapedReplace(t, Init(path), sib, |p|, m);
      SeparatedReplace(t, Init(path), sib, strict);
    }
  }

  /**
   * When every split of the tree is strict, deleting the coordinates of a
   * datum that is in the tree removes a datum of those coordinates.
   */
  lemma StrictDeleteRemoves(t: Tree, x: Datum, m: int)
    requires Shaped(t, |x.coords|, m) && Separated(t, true) && x in Points(t)
    ensures Indexes(t, |x.coords|)
    ensures exists d :: d in Points(t) && d.coords == x.coords &&
                        PointsOf(Delete(t, x.coords)) == multiset(Points(t)) - multiset{d}
  {
    ShapedIndexes(t, |x.coords|, m);
    StrictFinds(t, x);
    DeletePoints(t, x.coords, m);
    var path := LeafPath(t, x.coords);
    var leaf := At(t, path).data;
    PointsAt(t, path);
    var i := FirstIndex(leaf, x.coords);
    assert leaf[i] in Points(t);
  }

  /**
   * Deleting the coordinates of a fresh datum just inserted gives back the
   * data before the insert.
   */
  lemma DeleteUndoesInsert(t: Option<Tree>, x: Datum, k: int, m: int)
    requires m >= 1 && |x.coords| == k
    requires t.Some? ==> TreeInv(t.value, k, m) && Fresh(t.value, x.coords)
    ensures Indexes(Insert(t, x, k, m), k)
    ensures PointsOf(Delete(Insert(t, x, k, m), x.coords)) == PointsOf(t)
  {
    var u := Insert(t, x, k, m);
    InsertPoints(t, x, k, m);
    InsertKeepsInv(t, x, k, m);
    InsertFindsNew(t, x, k, m);
    var path := LeafPath(u, x.coords);
    var leaf := At(u, path).data;
    var i := FirstIndex(leaf, x.coords);
    assert i < |leaf|;
    DeletePoints(u, x.coords, m);
    PointsAt(u, path);
    assert leaf[i] in multiset(Points(u));
    FreshOnly(t, x, leaf[i]);
  }

  /** A fresh datum is the only one of its coordinates once inserted. */
  lemma FreshOnly(t: Option<Tree>, x: Datum, d: Datum)
    requires t.Some? ==> Fresh(t.value, x.coords)
    requires d in PointsOf(t) + multiset{x} && d.coords == x.coords
    ensures d == x
  {
  }
}
