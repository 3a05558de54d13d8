/**
 * The k-nearest-neighbour search of kd.py (`knn_helper`) as a function on
 * tree values, and the proof that it is exact: the list it returns holds
 * the `count` data nearest to the query point, in order of distance, and
 * every datum left out is at least as far as the last one listed.
 *
 * Subtrees are pruned by the squared distance from the query point to the
 * bounding box of their data (kd.py:200-224); that distance never exceeds
 * the distance to any datum inside, which is what makes the pruning safe.
 */
module KnnSpec {
  import opened Geometry
  import opened Split
  import opened KdSpec

  /**
   * The state kd.py threads through `knn_helper`: the number of leaves
   * checked, the neighbour list, and the distance of each listed datum
   * (the dictionary `datum_to_distance_map`, kept in list order).
   */
  datatype Search = Search(leaves: nat, list: seq<Datum>, dists: seq<int>)

  /** A list of at most `count` entries, each with its distance. */
  ghost predicate Fits(st: Search, count: int) {
    |st.list| == |st.dists| <= count
  }

  /** Python's `<` on strings: lexicographic by character, a proper prefix first. */
  predicate LexLess(a: string, b: string) {
    if a == [] then b != []
    else if b == [] then false
    else if a[0] != b[0] then a[0] < b[0]
    else LexLess(a[1..], b[1..])
  }

  /** Where kd.py:191-196 puts a datum at distance `d`: before the first strictly farther entry. */
  function InsertPos(ds: seq<int>, d: int): (i: nat)
    ensures i <= |ds|
    ensures forall j :: 0 <= j < i ==> ds[j] <= d
    ensures i < |ds| ==> d < ds[i]
  {
    if ds == [] || d < ds[0] then 0 else 1 + InsertPos(ds[1..], d)
  }

  /** The insertion index is the only one with no larger value before it and a larger value at it. */
  lemma {:induction false} InsertPosUnique(ds: seq<int>, d: int, i: int)
    requires 0 <= i <= |ds| && (forall j :: 0 <= j < i ==> ds[j] <= d) && (i < |ds| ==> d < ds[i])
    ensures i == InsertPos(ds, d)
  {
    if ds != [] && !(d < ds[0]) {
      InsertPosUnique(ds[1..], d, i - 1);
    }
  }

  /**
   * The list is full and a datum at distance `d` beats its last entry:
   * nearer, or as near with a smaller code (kd.py:188).
   */
  predicate Displaces(count: int, st: Search, x: Datum, d: int)
    requires count >= 1 && Fits(st, count)
  {
    |st.list| == count &&
    (d < Last(st.dists) || (d == Last(st.dists) && LexLess(x.code, Last(st.list).code)))
  }

  /** One datum of a leaf offered to the list (kd.py:187-197). */
  function Offer(count: int, p: seq<int>, st: Search, x: Datum): (r: Search)
    requires count >= 1 && Fits(st, count) && |p| <= |x.coords|
    ensures Fits(r, count) && r.leaves == st.leaves
    ensures var d := Dist(x.coords, p);
      if |st.list| < count then multiset(r.list) == multiset(st.list) + multiset{x}
      else if Displaces(count, st, x, d) then multiset(r.list) == multiset(Init(st.list)) + multiset{x}
      else r == st
  {
    var d := Dist(x.coords, p);
    var kept := if Displaces(count, st, x, d) then Search(st.leaves, Init(st.list), Init(st.dists)) else st;
    if |kept.list| < count then
      var i := InsertPos(kept.dists, d);
      assert kept.list == kept.list[..i] + kept.list[i..];
      Search(kept.leaves, kept.list[..i] + [x] + kept.list[i..], kept.dists[..i] + [d] + kept.dists[i..])
    else kept
  }

  /** The data of a leaf offered in order (kd.py:186-197). */
  function OfferAll(count: int, p: seq<int>, st: Search, xs: seq<Datum>): (r: Search)
    requires count >= 1 && Fits(st, count) && forall x <- xs :: |p| <= |x.coords|
    ensures Fits(r, count) && r.leaves == st.leaves
    decreases |xs|
  {
    if xs == [] then st else Offer(count, p, OfferAll(count, p, st, Init(xs)), Last(xs))
  }

  /** Every leaf holds data, all of dimension `n`: what the search needs of the tree. */
  ghost predicate Searchable(t: Tree, n: nat) {
    match t
    case Leaf(data) => |data| > 0 && AllDim(data, n)
    case Internal(_, _, l, r) => Searchable(l, n) && Searchable(r, n)
  }

  /** Every tree insert and delete build for points of `k` coordinates can be searched with such a point. */
  lemma {:induction false} ShapedIsSearchable(t: Tree, k: nat, m: int)
    requires Shaped(t, k, m)
    ensures Searchable(t, k)
  {
    if t.Internal? {
      ShapedIsSearchable(t.left, k, m);
      ShapedIsSearchable(t.right, k, m);
    }
  }

  /** kd.py:200-206: the bounding box of a subtree's data, from a fresh box of `n` axes. */
  function Box(t: Tree, n: nat): seq<Extent>
    requires FitsBox(Points(t), n)
  {
    WidenAll(Unsets(n), Points(t))
  }

  /** A searchable tree has data, and its box is set on every axis. */
  lemma {:induction false} SearchableBox(t: Tree, n: nat)
    requires Searchable(t, n)
    ensures |Points(t)| > 0 && AllDim(Points(t), n) && FitsBox(Points(t), n)
    ensures BoxSet(Box(t, n), n)
    ensures forall x <- Points(t), j | 0 <= j < n :: Within(Box(t, n)[j], x.coords[j])
  {
    if t.Internal? {
      SearchableBox(t.left, n);
      SearchableBox(t.right, n);
    }
    BoundingBoxIsTight(Points(t), n);
  }

  /** The box distance of a subtree is a lower bound on the distance of each of its data. */
  lemma BoxIsLowerBound(t: Tree, p: seq<int>)
    requires Searchable(t, |p|)
    ensures FitsBox(Points(t), |p|) && BoxSet(Box(t, |p|), |p|)
    ensures forall x <- Points(t) :: |p| <= |x.coords| && BoxDist(Box(t, |p|), p) <= Dist(x.coords, p)
  {
    SearchableBox(t, |p|);
    forall x | x in Points(t) ensures |p| <= |x.coords| && BoxDist(Box(t, |p|), p) <= Dist(x.coords, p) {
      BoxDistIsLowerBound(Box(t, |p|), x.coords, p);
    }
  }

  /**
   * kd.py:200-206: the squared distance from `p` to the bounding box of a
   * subtree's data, never more than the distance to any of those data.
   */
  function TreeBoxDist(t: Tree, p: seq<int>): (d: int)
    requires Searchable(t, |p|)
    ensures forall x <- Points(t) :: |p| <= |x.coords| && d <= Dist(x.coords, p)
  {
    BoxIsLowerBound(t, p);
    BoxDist(Box(t, |p|), p)
  }

  /** A subtree whose box is at distance `d` may still improve the list (kd.py:211, 216, 222). */
  predicate Admits(count: int, st: Search, d: int)
    requires count >= 1 && Fits(st, count)
  {
    |st.list| < count || d <= Last(st.dists)
  }

  /**
   * kd.py:183-226: a leaf is counted and its data offered; at an internal
   * node the child with the nearer box is visited first, provided its box
   * may still improve the list, and then the other one on the same
   * condition. When neither box qualifies, nothing is visited.
   */
  function KnnVisit(count: int, p: seq<int>, st: Search, t: Tree): (r: Search)
    requires count >= 1 && Fits(st, count) && Searchable(t, |p|)
    ensures Fits(r, count)
    decreases LeafCount(t), 1
  {
    match t
    case Leaf(data) => OfferAll(count, p, st.(leaves := st.leaves + 1), data)
    case Internal(_, _, l, r) =>
      var ld := TreeBoxDist(l, p);
      var rd := TreeBoxDist(r, p);
      if ld <= rd && Admits(count, st, ld) then VisitThen(count, p, st, l, r, rd)
      else if rd < ld && Admits(count, st, rd) then VisitThen(count, p, st, r, l, ld)
      else st
  }

  /**
   * kd.py:207-224 after the choice: visit `first`, then `other` if its box,
   * at distance `od`, may still improve the list.
   */
  function VisitThen(count: int, p: seq<int>, st: Search, first: Tree, other: Tree, od: int): (r: Search)
    requires count >= 1 && Fits(st, count) && Searchable(first, |p|) && Searchable(other, |p|)
    ensures Fits(r, count)
    decreases LeafCount(first) + LeafCount(other), 0
  {
    var s := KnnVisit(count, p, st, first);
    if Admits(count, s, od) then KnnVisit(count, p, s, other) else s
  }

  /** The search from an empty list (kd.py:153). */
  function Knn(count: int, p: seq<int>, t: Tree): Search
    requires count >= 1 && Searchable(t, |p|)
  {
    KnnVisit(count, p, Search(0, [], []), t)
  }

  // ---------------------------------------------------------------------
  // Exactness.

  /** Each listed distance is its datum's distance, and the distances ascend. */
  ghost predicate Ranked(st: Search, p: seq<int>) {
    |st.list| == |st.dists| &&
    (forall i :: 0 <= i < |st.list| ==> |p| <= |st.list[i].coords| && st.dists[i] == Dist(st.list[i].coords, p)) &&
    (forall i, j :: 0 <= i < j < |st.dists| ==> st.dists[i] <= st.dists[j])
  }

  /**
   * After offering the data `seen`, the list is a ranked sub-collection of
   * them; it is all of them while not full, and once full no datum left
   * out is nearer than the last one listed.
   */
  ghost predicate Exact(count: int, p: seq<int>, st: Search, seen: multiset<Datum>) {
    Ranked(st, p) && multiset(st.list) <= seen &&
    (|st.list| < count ==> multiset(st.list) == seen) &&
    (|st.list| > 0 ==> forall y | y in seen - multiset(st.list) :: |p| <= |y.coords| && Dist(y.coords, p) >= Last(st.dists))
  }

  lemma InsertRanked(st: Search, p: seq<int>, x: Datum)
    requires Ranked(st, p) && |p| <= |x.coords|
    ensures var d := Dist(x.coords, p); var i := InsertPos(st.dists, d);
      var r := Search(st.leaves, st.list[..i] + [x] + st.list[i..], st.dists[..i] + [d] + st.dists[i..]);
      Ranked(r, p) && Last(r.dists) == (if i == |st.dists| then d else Last(st.dists))
  {
    var d := Dist(x.coords, p);
    var i := InsertPos(st.dists, d);
    InsertMatched(st.list, st.dists, p, i, x, d);
    InsertAscending(st.dists, i, d);
  }

  /** Inserting a datum and its distance at the same index keeps each datum with its distance. */
  lemma InsertMatched(xs: seq<Datum>, ds: seq<int>, p: seq<int>, i: int, x: Datum, d: int)
    requires |xs| == |ds| && forall j :: 0 <= j < |xs| ==> |p| <= |xs[j].coords| && ds[j] == Dist(xs[j].coords, p)
    requires 0 <= i <= |xs| && |p| <= |x.coords| && d == Dist(x.coords, p)
    ensures var ys, es := xs[..i] + [x] + xs[i..], ds[..i] + [d] + ds[i..];
      |ys| == |es| && forall j :: 0 <= j < |ys| ==> |p| <= |ys[j].coords| && es[j] == Dist(ys[j].coords, p)
  {
    var ys, es := xs[..i] + [x] + xs[i..], ds[..i] + [d] + ds[i..];
    forall j | 0 <= j < |ys| ensures |p| <= |ys[j].coords| && es[j] == Dist(ys[j].coords, p) {
      if j < i {
        assert ys[j] == xs[j] && es[j] == ds[j];
      } else if j > i {
        assert ys[j] == xs[j - 1] && es[j] == ds[j - 1];
      }
    }
  }

  /** Inserting `d` before the first larger value keeps an ascending list ascending. */
  lemma InsertAscending(ds: seq<int>, i: int, d: int)
    requires forall a, b :: 0 <= a < b < |ds| ==> ds[a] <= ds[b]
    requires 0 <= i <= |ds| && (forall j :: 0 <= j < i ==> ds[j] <= d) && (i < |ds| ==> d < ds[i])
    ensures var es := ds[..i] + [d] + ds[i..];
      (forall a, b :: 0 <= a < b < |es| ==> es[a] <= es[b]) &&
      es[|es| - 1] == (if i == |ds| then d else ds[|ds| - 1])
  {
    var es := ds[..i] + [d] + ds[i..];
    forall a, b | 0 <= a < b < |es| ensures es[a] <= es[b] {
      if b < i {
      } else if a < i && b == i {
      } else if a < i {
        assert es[b] == ds[b - 1];
      } else if a == i {
        assert es[b] == ds[b - 1];
      } else {
        assert es[a] == ds[a - 1] && es[b] == ds[b - 1];
      }
    }
  }

  lemma OfferNotFull(count: int, p: seq<int>, st: Search, x: Datum, seen: multiset<Datum>)
    requires count >= 1 && Fits(st, count) && |p| <= |x.coords| && |st.list| < count
    requires Exact(count, p, st, seen)
    ensures Exact(count, p, Offer(count, p, st, x), seen + multiset{x})
  {
    InsertRanked(st, p, x);
  }

  /** The list after a displacing offer: still ranked, still full, its last entry no farther. */
  lemma DisplaceFacts(count: int, p: seq<int>, st: Search, x: Datum)
    requires count >= 1 && Fits(st, count) && |p| <= |x.coords| && Ranked(st, p)
    requires Displaces(count, st, x, Dist(x.coords, p))
    ensures var r := Offer(count, p, st, x);
      Ranked(r, p) && |r.list| == count && Last(r.dists) <= Last(st.dists) &&
      multiset(st.list) == multiset(Init(st.list)) + multiset{Last(st.list)} &&
      Dist(Last(st.list).coords, p) == Last(st.dists)
  {
    var kept := Search(st.leaves, Init(st.list), Init(st.dists));
    assert st.list == kept.list + [Last(st.list)];
    assert Ranked(kept, p);
    InsertRanked(kept, p, x);
    if |kept.dists| > 0 {
      assert Last(kept.dists) <= Last(st.dists);
    }
  }

  lemma AddOne<T>(seen: multiset<T>, a: multiset<T>, b: multiset<T>, x: T)
    requires b == a + multiset{x}
    ensures seen + b == (seen + a) + multiset{x}
  {
  }

  /** Trading `w` for `x` in a sub-collection of the data seen. */
  lemma SwapOne<T>(seen: multiset<T>, l: multiset<T>, k: multiset<T>, w: T, x: T)
    requires l == k + multiset{w} && l <= seen
    ensures k + multiset{x} <= seen + multiset{x}
    ensures (seen + multiset{x}) - (k + multiset{x}) == (seen - l) + multiset{w}
  {
  }

  lemma OfferDisplaces(count: int, p: seq<int>, st: Search, x: Datum, seen: multiset<Datum>)
    requires count >= 1 && Fits(st, count) && |p| <= |x.coords|
    requires Displaces(count, st, x, Dist(x.coords, p))
    requires Exact(count, p, st, seen)
    ensures Exact(count, p, Offer(count, p, st, x), seen + multiset{x})
  {
    var r := Offer(count, p, st, x);
    DisplaceFacts(count, p, st, x);
    SwapOne(seen, multiset(st.list), multiset(Init(st.list)), Last(st.list), x);
  }

  lemma OfferRejects(count: int, p: seq<int>, st: Search, x: Datum, seen: multiset<Datum>)
    requires count >= 1 && Fits(st, count) && |p| <= |x.coords| && |st.list| == count
    requires !Displaces(count, st, x, Dist(x.coords, p))
    requires Exact(count, p, st, seen)
    ensures Exact(count, p, Offer(count, p, st, x), seen + multiset{x})
  {
    assert seen + multiset{x} - multiset(st.list) == seen - multiset(st.list) + multiset{x};
  }

  /** Offering a datum keeps the list exact for the data seen so far and the new one. */
  lemma OfferKeepsExact(count: int, p: seq<int>, st: Search, x: Datum, seen: multiset<Datum>)
    requires count >= 1 && Fits(st, count) && |p| <= |x.coords|
    requires Exact(count, p, st, seen)
    ensures Exact(count, p, Offer(count, p, st, x), seen + multiset{x})
  {
    if |st.list| < count {
      OfferNotFull(count, p, st, x, seen);
    } else if Displaces(count, st, x, Dist(x.coords, p)) {
      OfferDisplaces(count, p, st, x, seen);
    } else {
      OfferRejects(count, p, st, x, seen);
    }
  }

  lemma {:induction false} OfferAllKeepsExact(count: int, p: seq<int>, st: Search, xs: seq<Datum>, seen: multiset<Datum>)
    requires count >= 1 && Fits(st, count) && forall x <- xs :: |p| <= |x.coords|
    requires Exact(count, p, st, seen)
    ensures Exact(count, p, OfferAll(count, p, st, xs), seen + multiset(xs))
    decreases |xs|
  {
    if xs != [] {
      var before := OfferAll(count, p, st, Init(xs));
      var s1 := seen + multiset(Init(xs));
      OfferAllKeepsExact(count, p, st, Init(xs), seen);
      OfferKeepsExact(count, p, before, Last(xs), s1);
      InitLast(xs);
      assert OfferAll(count, p, st, xs) == Offer(count, p, before, Last(xs));
      AddOne(seen, multiset(Init(xs)), multiset(xs), Last(xs));
    } else {
      assert seen + multiset(xs) == seen;
    }
  }

  /** Data no nearer than the last entry of a full list may be counted as seen without offering them. */
  lemma PruneKeepsExact(count: int, p: seq<int>, st: Search, t: Tree, d: int, seen: multiset<Datum>)
    requires count >= 1 && Fits(st, count) && Searchable(t, |p|)
    requires Exact(count, p, st, seen) && !Admits(count, st, d)
    requires d == TreeBoxDist(t, p)
    ensures Exact(count, p, st, seen + multiset(Points(t)))
  {
    forall y | y in seen + multiset(Points(t)) - multiset(st.list)
      ensures |p| <= |y.coords| && Dist(y.coords, p) >= Last(st.dists)
    {
      if y !in seen - multiset(st.list) {
        assert y in Points(t);
      }
    }
  }

  /**
   * The search keeps the list exact for everything seen before and the
   * whole subtree: what it skips is never nearer than the list's last entry.
   */
  lemma {:induction false} KnnVisitExact(count: int, p: seq<int>, st: Search, t: Tree, seen: multiset<Datum>)
    requires count >= 1 && Fits(st, count) && Searchable(t, |p|)
    requires Exact(count, p, st, seen)
    ensures Exact(count, p, KnnVisit(count, p, st, t), seen + multiset(Points(t)))
    decreases LeafCount(t), 2
  {
    if t.Leaf? {
      LeafVisitExact(count, p, st, t, seen);
    } else {
      var ld, rd := TreeBoxDist(t.left, p), TreeBoxDist(t.right, p);
      if ld <= rd && Admits(count, st, ld) {
        LeftFirstExact(count, p, st, t, seen);
      } else if rd < ld && Admits(count, st, rd) {
        RightFirstExact(count, p, st, t, seen);
      } else {
        PruneBothExact(count, p, st, t, seen);
      }
    }
  }

  /** At a leaf the search offers the leaf's data, one datum at a time. */
  lemma LeafVisitExact(count: int, p: seq<int>, st: Search, t: Tree, seen: multiset<Datum>)
    requires count >= 1 && Fits(st, count) && Searchable(t, |p|) && t.Leaf?
    requires Exact(count, p, st, seen)
    ensures Exact(count, p, KnnVisit(count, p, st, t), seen + multiset(Points(t)))
  {
    KnnVisitUnfold(count, p, st, t);
    var s := st.(leaves := st.leaves + 1);
    OfferAllKeepsExact(count, p, s, t.data, seen);
  }

  /** The left box is nearer (ties go left) and admitted: the search visits the left side first. */
  lemma {:induction false} LeftFirstExact(count: int, p: seq<int>, st: Search, t: Tree, seen: multiset<Datum>)
    requires count >= 1 && Fits(st, count) && Searchable(t, |p|) && t.Internal?
    requires Exact(count, p, st, seen)
    requires var ld, rd := TreeBoxDist(t.left, p), TreeBoxDist(t.right, p); ld <= rd && Admits(count, st, ld)
    ensures Exact(count, p, KnnVisit(count, p, st, t), seen + multiset(Points(t)))
    decreases LeafCount(t), 1
  {
    KnnVisitUnfold(count, p, st, t);
    var l, r := t.left, t.right;
    var rd := TreeBoxDist(r, p);
    VisitThenExact(count, p, st, l, r, rd, seen);
    SeenSplit(seen, t);
  }

  /** The right box is strictly nearer and admitted: the search visits the right side first. */
  lemma {:induction false} RightFirstExact(count: int, p: seq<int>, st: Search, t: Tree, seen: multiset<Datum>)
    requires count >= 1 && Fits(st, count) && Searchable(t, |p|) && t.Internal?
    requires Exact(count, p, st, seen)
    requires var ld, rd := TreeBoxDist(t.left, p), TreeBoxDist(t.right, p);
      !(ld <= rd && Admits(count, st, ld)) && rd < ld && Admits(count, st, rd)
    ensures Exact(count, p, KnnVisit(count, p, st, t), seen + multiset(Points(t)))
    decreases LeafCount(t), 1
  {
    KnnVisitUnfold(count, p, st, t);
    var l, r := t.left, t.right;
    var ld := TreeBoxDist(l, p);
    VisitThenExact(count, p, st, r, l, ld, seen);
    SeenSplit(seen, t);
  }

  /** Neither box is admitted: the search skips the whole subtree. */
  lemma PruneBothExact(count: int, p: seq<int>, st: Search, t: Tree, seen: multiset<Datum>)
    requires count >= 1 && Fits(st, count) && Searchable(t, |p|) && t.Internal?
    requires Exact(count, p, st, seen)
    requires var ld, rd := TreeBoxDist(t.left, p), TreeBoxDist(t.right, p);
      !(ld <= rd && Admits(count, st, ld)) && !(rd < ld && Admits(count, st, rd))
    ensures Exact(count, p, KnnVisit(count, p, st, t), seen + multiset(Points(t)))
  {
    KnnVisitUnfold(count, p, st, t);
    var l, r := t.left, t.right;
    var pl := multiset(Points(l));
    PruneKeepsExact(count, p, st, l, TreeBoxDist(l, p), seen);
    PruneKeepsExact(count, p, st, r, TreeBoxDist(r, p), seen + pl);
    SeenSplit(seen, t);
  }

  /** The data a split holds, added to what was seen, in either order of its sides. */
  lemma SeenSplit(seen: multiset<Datum>, t: Tree)
    requires t.Internal?
    ensures var pl, pr := multiset(Points(t.left)), multiset(Points(t.right));
      seen + multiset(Points(t)) == seen + pl + pr == seen + pr + pl
  {
    assert Points(t) == Points(t.left) + Points(t.right);
  }


  /** One step of the search, stated apart from the proofs that use it. */
  lemma KnnVisitUnfold(count: int, p: seq<int>, st: Search, t: Tree)
    requires count >= 1 && Fits(st, count) && Searchable(t, |p|)
    ensures t.Leaf? ==>
      Points(t) == t.data && KnnVisit(count, p, st, t) == OfferAll(count, p, st.(leaves := st.leaves + 1), t.data)
    ensures t.Internal? ==>
      multiset(Points(t)) == multiset(Points(t.left)) + multiset(Points(t.right)) &&
      var ld, rd := TreeBoxDist(t.left, p), TreeBoxDist(t.right, p);
      KnnVisit(count, p, st, t) ==
        if ld <= rd && Admits(count, st, ld) then VisitThen(count, p, st, t.left, t.right, rd)
        else if rd < ld && Admits(count, st, rd) then VisitThen(count, p, st, t.right, t.left, ld)
        else st
  {
  }

  lemma {:induction false} VisitThenExact(count: int, p: seq<int>, st: Search, first: Tree, other: Tree, od: int,
                                          seen: multiset<Datum>)
    requires count >= 1 && Fits(st, count) && Searchable(first, |p|) && Searchable(other, |p|)
    requires od == TreeBoxDist(other, p)
    requires Exact(count, p, st, seen)
    ensures Exact(count, p, VisitThen(count, p, st, first, other, od), seen + multiset(Points(first)) + multiset(Points(other)))
    decreases LeafCount(first) + LeafCount(other), 0
  {
    KnnVisitExact(count, p, st, first, seen);
    var s := KnnVisit(count, p, st, first);
    if Admits(count, s, od) {
      KnnVisitExact(count, p, s, other, seen + multiset(Points(first)));
    } else {
      PruneKeepsExact(count, p, s, other, od, seen + multiset(Points(first)));
    }
  }

  /** The search checks no leaf twice, and at least one leaf while the list is not full. */
  lemma {:induction false} KnnVisitLeaves(count: int, p: seq<int>, st: Search, t: Tree)
    requires count >= 1 && Fits(st, count) && Searchable(t, |p|)
    ensures var r := KnnVisit(count, p, st, t);
      st.leaves <= r.leaves <= st.leaves + LeafCount(t) &&
      (|st.list| < count ==> st.leaves + 1 <= r.leaves)
    decreases LeafCount(t), 1
  {
    match t
    case Leaf(data) =>
    case Internal(_, _, l, r) =>
      var ld := TreeBoxDist(l, p);
      var rd := TreeBoxDist(r, p);
      if ld <= rd && Admits(count, st, ld) {
        VisitThenLeaves(count, p, st, l, r, rd);
      } else if rd < ld && Admits(count, st, rd) {
        VisitThenLeaves(count, p, st, r, l, ld);
      }
  }

  lemma {:induction false} VisitThenLeaves(count: int, p: seq<int>, st: Search, first: Tree, other: Tree, od: int)
    requires count >= 1 && Fits(st, count) && Searchable(first, |p|) && Searchable(other, |p|)
    ensures var r := VisitThen(count, p, st, first, other, od);
      st.leaves <= r.leaves <= st.leaves + LeafCount(first) + LeafCount(other) &&
      (|st.list| < count ==> st.leaves + 1 <= r.leaves)
    decreases LeafCount(first) + LeafCount(other), 0
  {
    KnnVisitLeaves(count, p, st, first);
    var s := KnnVisit(count, p, st, first);
    if Admits(count, s, od) {
      KnnVisitLeaves(count, p, s, other);
    }
  }

  /**
   * While the data seen and the data of the subtree are fewer than `count`,
   * the list never fills, every box passes the `len(knnlist) < k` test, and
   * the search checks every leaf of the subtree.
   */
  lemma {:induction false} KnnVisitAll(count: int, p: seq<int>, st: Search, t: Tree, seen: multiset<Datum>)
    requires count >= 1 && Fits(st, count) && Searchable(t, |p|)
    requires Exact(count, p, st, seen) && |seen| + |Points(t)| < count
    ensures KnnVisit(count, p, st, t).leaves == st.leaves + LeafCount(t)
    decreases LeafCount(t), 1
  {
    match t
    case Leaf(data) =>
    case Internal(_, _, l, r) =>
      SubCard(multiset(st.list), seen);
      assert |Points(t)| == |Points(l)| + |Points(r)|;
      var ld := TreeBoxDist(l, p);
      var rd := TreeBoxDist(r, p);
      if ld <= rd {
        VisitThenAll(count, p, st, l, r, rd, seen);
      } else {
        VisitThenAll(count, p, st, r, l, ld, seen);
      }
  }

  lemma {:induction false} VisitThenAll(count: int, p: seq<int>, st: Search, first: Tree, other: Tree, od: int,
                                        seen: multiset<Datum>)
    requires count >= 1 && Fits(st, count) && Searchable(first, |p|) && Searchable(other, |p|)
    requires od == TreeBoxDist(other, p)
    requires Exact(count, p, st, seen) && |seen| + |Points(first)| + |Points(other)| < count
    ensures VisitThen(count, p, st, first, other, od).leaves == st.leaves + LeafCount(first) + LeafCount(other)
    decreases LeafCount(first) + LeafCount(other), 0
  {
    KnnVisitAll(count, p, st, first, seen);
    KnnVisitExact(count, p, st, first, seen);
    var s := KnnVisit(count, p, st, first);
    var seen' := seen + multiset(Points(first));
    SubCard(multiset(s.list), seen');
    assert Admits(count, s, od);
    KnnVisitAll(count, p, s, other, seen');
  }

  /**
   * The result of a search of the whole tree: between one and all leaves
   * checked; `min(count, N)` data of the tree, ordered by distance, each
   * with its distance, none left out nearer than the last one listed.
   */
  lemma KnnIsExact(count: int, p: seq<int>, t: Tree)
    requires count >= 1 && Searchable(t, |p|)
    ensures var r := Knn(count, p, t);
      1 <= r.leaves <= LeafCount(t) &&
      (count > |Points(t)| ==> r.leaves == LeafCount(t)) &&
      |r.list| == Min(count, |Points(t)|) &&
      multiset(r.list) <= multiset(Points(t)) &&
      Ranked(r, p) &&
      forall y | y in multiset(Points(t)) - multiset(r.list) ::
        |p| <= |y.coords| && forall i | 0 <= i < |r.list| :: Dist(r.list[i].coords, p) <= Dist(y.coords, p)
  {
    var st := Search(0, [], []);
    assert Exact(count, p, st, multiset{});
    KnnVisitExact(count, p, st, t, multiset{});
    KnnVisitLeaves(count, p, st, t);
    if count > |Points(t)| {
      KnnVisitAll(count, p, st, t, multiset{});
    }
    assert multiset{} + multiset(Points(t)) == multiset(Points(t));
    ExactResult(count, p, KnnVisit(count, p, st, t), multiset(Points(t)));
  }

  /** What an exact list says once the search is over. */
  lemma ExactResult(count: int, p: seq<int>, r: Search, all: multiset<Datum>)
    requires count >= 1 && Fits(r, count) && Exact(count, p, r, all)
    ensures |r.list| == Min(count, |all|)
    ensures forall y | y in all - multiset(r.list) ::
        |p| <= |y.coords| && forall i | 0 <= i < |r.list| :: Dist(r.list[i].coords, p) <= Dist(y.coords, p)
  {
    SubCard(multiset(r.list), all);
    forall y | y in all - multiset(r.list)
      ensures |p| <= |y.coords| && forall i | 0 <= i < |r.list| :: Dist(r.list[i].coords, p) <= Dist(y.coords, p)
    {
      forall i | 0 <= i < |r.list| ensures Dist(r.list[i].coords, p) <= Dist(y.coords, p) {
        assert r.dists[i] <= Last(r.dists);
      }
    }
  }

  lemma SubCard<T>(a: multiset<T>, b: multiset<T>)
    requires a <= b
    ensures |a| <= |b|
  {
    assert b == a + (b - a);
  }

}
