/**
 * The mutable k-d tree of kd.py: nodes linked by references and updated in
 * place by `insert` and `delete`, and the search `knn` over them.
 *
 * A `KDTree` keeps, beside its root reference, a ghost skeleton: the tree
 * of its node objects. `Abs` reads the nodes along the skeleton and yields
 * the tree value of `KdSpec`, and each method is proved to leave behind
 * the tree that the matching function of `KdSpec` computes.
 */
module KdHeap {
  import opened Geometry
  import opened Sorting
  import opened Split
  import opened KdSpec
  import opened KnnSpec

  /**
   * A node: a leaf holding data (kd.py:32-35) or an internal node with a
   * split axis, a split value and two children (kd.py:19-29). Python tells
   * the two classes apart with `isinstance`; here `isLeaf` does.
   */
  class Node {
    var isLeaf: bool
    var data: seq<Datum>
    var splitIndex: int
    var splitValue: real
    var left: Node?
    var right: Node?

    constructor InitLeaf(data: seq<Datum>)
      ensures isLeaf && this.data == data
    {
      isLeaf := true;
      this.data := data;
      splitIndex := 0;
      splitValue := 0.0;
      left := null;
      right := null;
    }

    constructor InitInternal(splitIndex: int, splitValue: real, left: Node, right: Node)
      ensures !isLeaf && this.splitIndex == splitIndex && this.splitValue == splitValue
      ensures this.left == left && this.right == right
    {
      isLeaf := false;
      data := [];
      this.splitIndex := splitIndex;
      this.splitValue := splitValue;
      this.left := left;
      this.right := right;
    }

    /** Removes the first datum of coordinates `point`, if there is one (kd.py:127-130). */
    method RemoveFirstWith(point: seq<int>)
      modifies this
      ensures data == RemoveFirst(old(data), point)
      ensures isLeaf == old(isLeaf) && splitIndex == old(splitIndex) && splitValue == old(splitValue)
      ensures left == old(left) && right == old(right)
    {
      var i := 0;
      while i < |data|
        invariant 0 <= i <= |data| && data == old(data)
        invariant forall j :: 0 <= j < i ==> data[j].coords != point
      {
        if data[i].coords == point {
          assert FirstIndex(data, point) == i;
          data := data[..i] + data[i + 1..];
          return;
        }
        i := i + 1;
      }
      assert FirstIndex(data, point) == |data|;
    }
  }

  /** The shape of a linked tree: which node objects sit where. */
  datatype Skel = SLeaf(node: Node) | SInternal(node: Node, left: Skel, right: Skel)

  ghost function Objs(s: Skel): set<Node> {
    match s
    case SLeaf(n) => {n}
    case SInternal(n, l, r) => {n} + Objs(l) + Objs(r)
  }

  /** No node object occurs twice in the skeleton. */
  ghost predicate Distinct(s: Skel) {
    match s
    case SLeaf(_) => true
    case SInternal(n, l, r) =>
      n !in Objs(l) && n !in Objs(r) && Objs(l) !! Objs(r) && Distinct(l) && Distinct(r)
  }

  /** The fields of a node at one moment. */
  datatype Fields = Fields(isLeaf: bool, data: seq<Datum>, splitIndex: int, splitValue: real, left: Node?, right: Node?)

  ghost function FieldsOf(o: Node): Fields
    reads o
  {
    Fields(o.isLeaf, o.data, o.splitIndex, o.splitValue, o.left, o.right)
  }

  /** The fields of the nodes `ns` as they are now. */
  ghost function Snap(ns: set<Node>): map<Node, Fields>
    reads ns
  {
    map o | o in ns :: FieldsOf(o)
  }

  /** Given the fields `h` of its nodes: the tags and child references follow the skeleton. */
  ghost predicate MirrorsIn(s: Skel, h: map<Node, Fields>)
    requires Objs(s) <= h.Keys
  {
    match s
    case SLeaf(n) => h[n].isLeaf
    case SInternal(n, l, r) =>
      !h[n].isLeaf && h[n].left == l.node && h[n].right == r.node && MirrorsIn(l, h) && MirrorsIn(r, h)
  }

  /** Given the fields `h` of its nodes: the tree value the skeleton holds. */
  ghost function AbsIn(s: Skel, h: map<Node, Fields>): Tree
    requires Objs(s) <= h.Keys
  {
    match s
    case SLeaf(n) => Leaf(h[n].data)
    case SInternal(n, l, r) => Internal(h[n].splitIndex, h[n].splitValue, AbsIn(l, h), AbsIn(r, h))
  }

  /** The nodes' tags and child references follow the skeleton. */
  ghost predicate Mirrors(s: Skel)
    reads Objs(s)
  {
    MirrorsIn(s, Snap(Objs(s)))
  }

  /** The tree value the nodes of the skeleton hold. */
  ghost function Abs(s: Skel): Tree
    reads Objs(s)
  {
    AbsIn(s, Snap(Objs(s)))
  }

  /** Only the fields of a skeleton's own nodes matter. */
  lemma {:induction false} AgreeIn(s: Skel, h: map<Node, Fields>, g: map<Node, Fields>)
    requires Objs(s) <= h.Keys && Objs(s) <= g.Keys
    requires forall o <- Objs(s) :: h[o] == g[o]
    ensures MirrorsIn(s, h) == MirrorsIn(s, g) && AbsIn(s, h) == AbsIn(s, g)
  {
    if s.SInternal? {
      AgreeIn(s.left, h, g);
      AgreeIn(s.right, h, g);
    }
  }

  /** A mirrored leaf skeleton is a leaf node holding the data of the leaf value. */
  lemma LeafNode(s: Skel)
    requires s.SLeaf? && Mirrors(s)
    ensures s.node.isLeaf && Abs(s) == Leaf(s.node.data)
  {
  }

  /** A mirrored internal skeleton is an internal node whose children are mirrored in turn. */
  lemma InternalNode(s: Skel)
    requires s.SInternal? && Mirrors(s)
    ensures !s.node.isLeaf && s.node.left == s.left.node && s.node.right == s.right.node
    ensures Mirrors(s.left) && Mirrors(s.right)
    ensures Abs(s) == Internal(s.node.splitIndex, s.node.splitValue, Abs(s.left), Abs(s.right))
  {
    var h := Snap(Objs(s));
    AgreeIn(s.left, h, Snap(Objs(s.left)));
    AgreeIn(s.right, h, Snap(Objs(s.right)));
  }

  /** The node of a mirrored skeleton is a leaf exactly when the skeleton is one. */
  lemma NodeTag(s: Skel)
    requires Mirrors(s)
    ensures s.node.isLeaf <==> s.SLeaf?
  {
    if s.SInternal? {
      InternalNode(s);
    }
  }

  // ---------------------------------------------------------------------
  // Paths through a skeleton, as `KdSpec` has them through a tree.

  ghost function SChild(s: Skel, goLeft: bool): Skel
    requires s.SInternal?
  {
    if goLeft then s.left else s.right
  }

  ghost predicate SIsPath(s: Skel, path: seq<bool>)
    decreases path
  {
    path == [] || (s.SInternal? && SIsPath(SChild(s, path[0]), path[1..]))
  }

  ghost function SAt(s: Skel, path: seq<bool>): Skel
    requires SIsPath(s, path)
    decreases path
  {
    if path == [] then s else SAt(SChild(s, path[0]), path[1..])
  }

  ghost function SReplace(s: Skel, path: seq<bool>, u: Skel): Skel
    requires SIsPath(s, path)
    decreases path
  {
    if path == [] then u
    else if path[0] then SInternal(s.node, SReplace(s.left, path[1..], u), s.right)
    else SInternal(s.node, s.left, SReplace(s.right, path[1..], u))
  }

  /** Putting back the sub-skeleton already at the end of a path changes nothing. */
  lemma {:induction false} SReplaceSame(s: Skel, path: seq<bool>)
    requires SIsPath(s, path)
    ensures SReplace(s, path, SAt(s, path)) == s
    decreases path
  {
    if path != [] {
      SReplaceSame(SChild(s, path[0]), path[1..]);
    }
  }

  /** A path of the skeleton is a path of its tree, to the tree of the sub-skeleton. */
  lemma {:induction false} AbsAt(s: Skel, path: seq<bool>, h: map<Node, Fields>)
    requires SIsPath(s, path) && Objs(s) <= h.Keys
    ensures Objs(SAt(s, path)) <= Objs(s)
    ensures IsPath(AbsIn(s, h), path) && At(AbsIn(s, h), path) == AbsIn(SAt(s, path), h)
    ensures MirrorsIn(s, h) ==> MirrorsIn(SAt(s, path), h)
    decreases path
  {
    SubAt(s, path);
    if path != [] {
      AbsAt(SChild(s, path[0]), path[1..], h);
    }
  }

  /** The sub-skeleton at the end of a path of a mirrored skeleton is mirrored and holds the subtree there. */
  lemma MirrorsAt(s: Skel, path: seq<bool>)
    requires SIsPath(s, path) && Mirrors(s)
    ensures Objs(SAt(s, path)) <= Objs(s) && Mirrors(SAt(s, path))
    ensures IsPath(Abs(s), path) && At(Abs(s), path) == Abs(SAt(s, path))
  {
    var h := Snap(Objs(s));
    AbsAt(s, path, h);
    AgreeIn(SAt(s, path), h, Snap(Objs(SAt(s, path))));
  }

  /** The sibling of the end of a path hangs on the other side of the parent node. */
  lemma SiblingNode(s: Skel, path: seq<bool>)
    requires SIsPath(s, path) && |path| > 0 && Mirrors(s)
    ensures SIsPath(s, Init(path)) && SIsPath(s, Sibling(path))
    ensures var p := SAt(s, Init(path)).node;
      SAt(s, Sibling(path)).node == if Last(path) then p.right else p.left
    ensures Objs(SAt(s, Sibling(path))) <= Objs(SAt(s, Init(path)))
    ensures Mirrors(SAt(s, Sibling(path)))
    ensures IsPath(Abs(s), Sibling(path)) && At(Abs(s), Sibling(path)) == Abs(SAt(s, Sibling(path)))
  {
    SParent(s, path);
    MirrorsAt(s, Init(path));
    InternalNode(SAt(s, Init(path)));
    MirrorsAt(s, Sibling(path));
  }

  /** A sub-skeleton holds some of the nodes, each once if the whole does. */
  lemma {:induction false} SubAt(s: Skel, path: seq<bool>)
    requires SIsPath(s, path)
    ensures Objs(SAt(s, path)) <= Objs(s)
    ensures Distinct(s) ==> Distinct(SAt(s, path))
    decreases path
  {
    if path != [] {
      SubAt(SChild(s, path[0]), path[1..]);
    }
  }

  /** One more step down a path. */
  lemma {:induction false} SAtStep(s: Skel, path: seq<bool>, b: bool)
    requires SIsPath(s, path) && SAt(s, path).SInternal?
    ensures SIsPath(s, path + [b]) && SAt(s, path + [b]) == SChild(SAt(s, path), b)
    decreases path
  {
    if path == [] {
      assert [] + [b] == [b];
    } else {
      assert (path + [b])[0] == path[0] && (path + [b])[1..] == path[1..] + [b];
      SAtStep(SChild(s, path[0]), path[1..], b);
    }
  }

  /** The parent of the end of a non-empty path, and the sibling next to it. */
  lemma SParent(s: Skel, path: seq<bool>)
    requires SIsPath(s, path) && |path| > 0
    ensures SIsPath(s, Init(path)) && SAt(s, Init(path)).SInternal?
    ensures SAt(s, path) == SChild(SAt(s, Init(path)), Last(path))
    ensures SIsPath(s, Sibling(path)) && SAt(s, Sibling(path)) == SChild(SAt(s, Init(path)), !Last(path))
  {
    assert path == Init(path) + [Last(path)];
    SPrefix(s, Init(path), [Last(path)]);
    SAtStepBack(s, Init(path), Last(path));
    SAtStep(s, Init(path), !Last(path));
  }

  lemma {:induction false} SPrefix(s: Skel, a: seq<bool>, b: seq<bool>)
    requires SIsPath(s, a + b)
    ensures SIsPath(s, a)
    decreases a
  {
    if a != [] {
      assert (a + b)[0] == a[0] && (a + b)[1..] == a[1..] + b;
      SPrefix(SChild(s, a[0]), a[1..], b);
    }
  }

  lemma {:induction false} SAtStepBack(s: Skel, path: seq<bool>, b: bool)
    requires SIsPath(s, path + [b])
    ensures SIsPath(s, path) && SAt(s, path).SInternal?
    ensures SAt(s, path + [b]) == SChild(SAt(s, path), b)
    decreases path
  {
    if path == [] {
      assert [] + [b] == [b];
    } else {
      assert (path + [b])[0] == path[0] && (path + [b])[1..] == path[1..] + [b];
      SAtStepBack(SChild(s, path[0]), path[1..], b);
    }
  }

  /** Replacing a sub-skeleton brings in no node but the new one's. */
  lemma {:induction false} ObjsReplace(s: Skel, path: seq<bool>, u: Skel)
    requires SIsPath(s, path)
    ensures Objs(SReplace(s, path, u)) <= Objs(s) + Objs(u)
    decreases path
  {
    if path != [] {
      ObjsReplace(SChild(s, path[0]), path[1..], u);
    }
  }

  /**
   * Putting `u` at the end of a path of a distinct skeleton keeps it
   * distinct when `u` shares no node with what stays.
   */
  lemma {:induction false} DistinctReplace(s: Skel, path: seq<bool>, u: Skel)
    requires SIsPath(s, path) && Distinct(s) && Distinct(u)
    requires Objs(u) !! (Objs(s) - Objs(SAt(s, path)))
    ensures Distinct(SReplace(s, path, u))
    ensures Objs(SReplace(s, path, u)) == (Objs(s) - Objs(SAt(s, path))) + Objs(u)
    decreases path
  {
    if path != [] {
      var c := SChild(s, path[0]);
      SubAt(c, path[1..]);
      DistinctReplace(c, path[1..], u);
    }
  }

  // ---------------------------------------------------------------------
  // The effect of the writes insert and delete make.

  /**
   * Writing the data of the leaf at the end of `path`, and nothing else,
   * changes the tree by replacing that leaf.
   */
  lemma {:induction false} SetDataIn(s: Skel, path: seq<bool>, n: Node, h: map<Node, Fields>, g: map<Node, Fields>)
    requires Objs(s) <= h.Keys && Objs(s) <= g.Keys
    requires MirrorsIn(s, h) && Distinct(s) && SIsPath(s, path) && SAt(s, path) == SLeaf(n)
    requires forall o <- Objs(s) :: o != n ==> g[o] == h[o]
    requires n in g && g[n].isLeaf
    ensures IsPath(AbsIn(s, h), path)
    ensures MirrorsIn(s, g) && AbsIn(s, g) == Replace(AbsIn(s, h), path, Leaf(g[n].data))
    decreases path
  {
    AbsAt(s, path, h);
    if path != [] {
      var c, d := SChild(s, path[0]), SChild(s, !path[0]);
      AbsAt(c, path[1..], h);
      SetDataIn(c, path[1..], n, h, g);
      AgreeIn(d, h, g);
    }
  }

  /**
   * Pointing the parent `p` of the end of `path` at `u`, and changing
   * nothing else outside the subtree replaced, changes the tree by
   * replacing that subtree with `u`'s.
   */
  lemma {:induction false} RelinkIn(s: Skel, path: seq<bool>, u: Skel, p: Node, h: map<Node, Fields>, g: map<Node, Fields>)
    requires Objs(s) <= h.Keys && MirrorsIn(s, h) && Distinct(s) && SIsPath(s, path) && |path| > 0
    requires SIsPath(s, Init(path)) && p == SAt(s, Init(path)).node
    requires Objs(SReplace(s, path, u)) <= g.Keys && Objs(u) <= g.Keys
    requires forall o <- Objs(s) - {p} - Objs(SAt(s, path)) :: o in g && g[o] == h[o]
    requires p in h && p in g && g[p] == if Last(path) then h[p].(left := u.node) else h[p].(right := u.node)
    requires MirrorsIn(u, g)
    ensures IsPath(AbsIn(s, h), path)
    ensures MirrorsIn(SReplace(s, path, u), g)
    ensures AbsIn(SReplace(s, path, u), g) == Replace(AbsIn(s, h), path, AbsIn(u, g))
    decreases path
  {
    AbsAt(s, path, h);
    var c, d := SChild(s, path[0]), SChild(s, !path[0]);
    AbsAt(c, path[1..], h);
    if |path| == 1 {
      assert Init(path) == [] && Last(path) == path[0] && path[1..] == [];
      AgreeIn(d, h, g);
    } else {
      assert Init(path)[0] == path[0] && Init(path)[1..] == Init(path[1..]) && Last(path[1..]) == Last(path);
      AbsAt(c, Init(path[1..]), h);
      assert p in Objs(c);
      AgreeIn(d, h, g);
      RelinkIn(c, path[1..], u, p, h, g);
    }
  }

  /**
   * The nodes of `s` are distinct and link up as `s` says, into a tree of
   * the shape insert and delete keep.
   */
  ghost predicate Holds(s: Skel, k: int, m: int)
    reads Objs(s)
  {
    Distinct(s) && Mirrors(s) && TreeInv(Abs(s), k, m) && Indexes(Abs(s), k)
  }

  // ---------------------------------------------------------------------
  // The tree object (kd.py:39-157).

  class KDTree {
    const k: int
    const m: int
    var root: Node?
    /** The shape of the linked nodes below `root`. */
    ghost var shape: Option<Skel>

    ghost function Repr(): set<object>
      reads this
    {
      {this} + if shape.Some? then Objs(shape.value) else {}
    }

    /**
     * `root` is the top of the skeleton, whose nodes are distinct and hold
     * a tree of the shape insert and delete keep.
     */
    ghost predicate Valid()
      reads this, Repr()
    {
      (root == null <==> shape.None?) &&
      (shape.Some? ==> root == shape.value.node && Holds(shape.value, k, m))
    }

    /** The tree value held, `None` for the empty tree. */
    ghost function Content(): Option<Tree>
      reads this, Repr()
    {
      if shape.Some? then Some(Abs(shape.value)) else None
    }

    /** An empty tree for points of `k` coordinates and leaves of up to `m` data (kd.py:40-46). */
    constructor (k: int, m: int)
      ensures Valid() && Content() == None && this.k == k && this.m == m
    {
      this.k := k;
      this.m := m;
      root := null;
      shape := None;
    }

    /**
     * Inserts the datum `(point, code)` (kd.py:71-105). The point must be
     * new to the tree, as kd.py:70 guarantees its callers.
     */
    method Insert(point: seq<int>, code: string)
      requires Valid() && m >= 1 && |point| == k
      requires Content().Some? ==> Fresh(Content().value, point)
      modifies Repr()
      ensures Valid() && fresh(Repr() - old(Repr()))
      ensures Content() == Some(KdSpec.Insert(old(Content()), Datum(point, code), k, m))
    {
      var datum := Datum(point, code);
      if root == null {
        var leaf := new Node.InitLeaf([datum]);
        root := leaf;
        shape := Some(SLeaf(leaf));
        return;
      }
      ghost var S := shape.value;
      ObjsAllocated(S);
      var top;
      ghost var S';
      top, S' := InsertBelow(S, root, datum, k, m);
      ObjsAllocated(S');
      label Linked:
      root := top;
      shape := Some(S');
      Untouched@Linked(S');
    }

    /**
     * Deletes the first datum of coordinates `point` in the leaf the search
     * for `point` reaches (kd.py:109-144). The tree must not be empty: on an
     * empty tree kd.py:127 reads the data of `None`.
     */
    method Delete(point: seq<int>)
      requires Valid() && root != null && |point| == k
      modifies Repr()
      ensures Valid() && Repr() <= old(Repr())
      ensures Content() == KdSpec.Delete(old(Content()).value, point)
    {
      ghost var S := shape.value;
      ObjsAllocated(S);
      var top;
      ghost var S';
      top, S' := DeleteBelow(S, root, point, k, m);
      if S'.Some? {
        ObjsAllocated(S'.value);
      }
      label Unlinked:
      root := top;
      shape := S';
      if S'.Some? {
        Untouched@Unlinked(S'.value);
      }
    }

    /**
     * The `count` data nearest to `point` and the number of leaves checked
     * (kd.py:147-157). On an empty tree kd.py:205 reads the children of
     * `None`, so the tree must hold data.
     */
    method Knn(count: int, point: seq<int>) returns (leavesChecked: nat, list: seq<Datum>)
      requires Valid() && root != null && count >= 1 && |point| == k
      ensures Searchable(Content().value, |point|)
      ensures var r := KnnSpec.Knn(count, point, Content().value);
        leavesChecked == r.leaves && list == r.list
      ensures 1 <= leavesChecked <= LeafCount(Content().value)
      ensures count > |Points(Content().value)| ==> leavesChecked == LeafCount(Content().value)
      ensures |list| == Min(count, |Points(Content().value)|) && multiset(list) <= multiset(Points(Content().value))
      ensures forall i :: 0 <= i < |list| ==> |point| <= |list[i].coords|
      ensures forall i, j :: 0 <= i < j < |list| ==> Dist(list[i].coords, point) <= Dist(list[j].coords, point)
      ensures forall y | y in multiset(Points(Content().value)) - multiset(list) ::
        |point| <= |y.coords| && forall i | 0 <= i < |list| :: Dist(list[i].coords, point) <= Dist(y.coords, point)
    {
      ghost var t := Abs(shape.value);
      ObjsAllocated(shape.value);
      ShapedIsSearchable(t, |point|, m);
      var r := KnnHelper(count, point, Search(0, [], []), root, shape.value, t);
      KnnIsExact(count, point, t);
      leavesChecked, list := r.leaves, r.list;
    }
  }

  /**
   * Insertion into the non-empty tree whose skeleton is `S` and whose root
   * is `root` (kd.py:76-105). Returns the new root (`root` itself unless the
   * root leaf was split) and the new skeleton.
   */
  method InsertBelow(ghost S: Skel, root: Node, datum: Datum, k: int, m: int) returns (top: Node, ghost S': Skel)
    requires Holds(S, k, m) && root == S.node && m >= 1 && |datum.coords| == k && Fresh(Abs(S), datum.coords)
    modifies Objs(S)
    ensures Holds(S', k, m) && top == S'.node && fresh(Objs(S') - Objs(S))
    ensures Abs(S') == KdSpec.Insert(Some(old(Abs(S))), datum, k, m)
  {
    ghost var T := Abs(S);
    ObjsAllocated(S);
    ShapedIndexes(T, k, m);
    var parent, curIsLeft, cur;
    ghost var path;
    parent, curIsLeft, cur, path := FindLeaf(S, T, root, datum.coords);
    ghost var T' := KdSpec.Insert(Some(T), datum, k, m);
    ReceivingFacts(T, datum, k, m);
    InsertKeepsInv(Some(T), datum, k, m);
    ShapedIndexes(T', k, m);
    assert T' == Replace(T, path, Grown(cur.data + [datum], m));
    var sub;
    ghost var added;
    sub, S', added := AddToLeaf(S, T, path, parent, curIsLeft, cur, datum, m);
    top := if parent == null then sub else root;
  }

  /**
   * The descent of kd.py:76-88: from the root, go left when the point's
   * coordinate on the node's axis is below the split value, until a leaf.
   * Returns that leaf, its parent and the side it hangs on.
   */
  method FindLeaf(ghost S: Skel, ghost T: Tree, root: Node, point: seq<int>)
      returns (parent: Node?, curIsLeft: bool, cur: Node, ghost path: seq<bool>)
    requires Distinct(S) && Mirrors(S) && root == S.node && T == Abs(S) && Indexes(T, |point|)
    ensures path == LeafPath(T, point) && SIsPath(S, path) && SAt(S, path) == SLeaf(cur) && cur.isLeaf
    ensures IsPath(T, path) && At(T, path) == Leaf(cur.data)
    ensures parent == null <==> path == []
    ensures parent != null ==> SIsPath(S, Init(path)) && parent == SAt(S, Init(path)).node && curIsLeft == Last(path)
    ensures cur in Objs(S) && (parent != null ==> parent in Objs(S) && parent != cur)
  {
    ghost var h0 := Snap(Objs(S));
    ghost var target := LeafPath(T, point);
    parent := null;
    curIsLeft := false;
    cur := root;
    path := [];
    while !cur.isLeaf
      invariant SIsPath(S, path) && cur == SAt(S, path).node && Objs(SAt(S, path)) <= Objs(S)
      invariant IsPath(T, path) && At(T, path) == AbsIn(SAt(S, path), h0) && MirrorsIn(SAt(S, path), h0)
      invariant Indexes(At(T, path), |point|) && target == path + LeafPath(At(T, path), point)
      invariant path == [] <==> parent == null
      invariant path != [] ==> SIsPath(S, Init(path)) && parent == SAt(S, Init(path)).node && curIsLeft == Last(path)
      decreases |target| - |path|
    {
      assert cur in Objs(S) && h0[cur] == FieldsOf(cur);
      Descend(S, T, h0, path, point);
      ghost var b := GoesLeft(point, cur.splitIndex, cur.splitValue);
      ghost var rest := LeafPath(At(T, path + [b]), point);
      assert target == path + ([b] + rest);
      AppendAssoc(path, [b], rest);
      parent := cur;
      if point[cur.splitIndex] as real < cur.splitValue {
        cur := cur.left;
        curIsLeft := true;
      } else {
        cur := cur.right;
        curIsLeft := false;
      }
      assert curIsLeft == b && Init(path + [b]) == path;
      path := path + [curIsLeft];
    }
    assert cur in Objs(S) && h0[cur] == FieldsOf(cur);
    assert SAt(S, path) == SLeaf(cur) && path == target;
    if parent != null {
      SParent(S, path);
      SubAt(S, Init(path));
      assert parent in Objs(S) && parent != cur;
    }
  }

  /**
   * Appends `datum` to the leaf `cur` at the end of `path`, and splits the
   * leaf when it overflows, linking the new internal node below `parent`
   * (kd.py:90-105). Returns the node now at the end of `path`, which the
   * caller makes the root when `path` is empty.
   */
  method AddToLeaf(ghost s: Skel, ghost T: Tree, ghost path: seq<bool>, parent: Node?, curIsLeft: bool, cur: Node, datum: Datum, m: int)
      returns (top: Node, ghost s': Skel, ghost added: set<Node>)
    requires Distinct(s) && Mirrors(s) && T == Abs(s) && IsPath(T, path)
    requires SIsPath(s, path) && SAt(s, path) == SLeaf(cur) && cur.isLeaf
    requires parent == null <==> path == []
    requires parent != null ==> SIsPath(s, Init(path)) && parent == SAt(s, Init(path)).node && curIsLeft == Last(path)
    requires m >= 1 && |cur.data| + 1 <= m + 1 && AllDim(cur.data + [datum], |datum.coords|)
    requires |cur.data| + 1 > m ==> 0 <= MaxSpreadAxis(cur.data + [datum])
    modifies cur, parent
    ensures s'.node == if path == [] then top else s.node
    ensures fresh(added) && Objs(s') <= Objs(s) + added && Distinct(s') && Mirrors(s')
    ensures Abs(s') == Replace(T, path, Grown(old(cur.data) + [datum], m))
  {
    ghost var u;
    ObjsAllocated(s);
    SubAt(s, path);
    if parent != null {
      SParent(s, path);
      SubAt(s, Init(path));
      assert parent in Objs(s) && parent != cur;
    }
    var data := cur.data + [datum];
    cur.data := data;
    if |data| > m {
      top, u := SplitLeafNode(data, m, parent, curIsLeft);
      if parent == null {
        assert SReplace(s, path, u) == u;
      } else {
        Relinked(s, path, u, parent, cur);
      }
    } else {
      u := SLeaf(cur);
      SetData(s, path, cur);
      SReplaceSame(s, path);
      top := cur;
    }
    ObjsReplace(s, path, u);
    s' := SReplace(s, path, u);
    added := Objs(s') - Objs(s);
  }

  /**
   * Deletion from the non-empty tree whose skeleton is `S` and whose root is
   * `root` (kd.py:109-144). Returns the new root (`null` when the tree
   * becomes empty) and the new skeleton.
   */
  method DeleteBelow(ghost S: Skel, root: Node, point: seq<int>, k: int, m: int) returns (top: Node?, ghost S': Option<Skel>)
    requires Holds(S, k, m) && root == S.node && |point| == k
    modifies Objs(S)
    ensures top == null <==> S'.None?
    ensures S'.Some? ==> Holds(S'.value, k, m) && top == S'.value.node && Objs(S'.value) <= Objs(S)
    ensures KdSpec.Delete(old(Abs(S)), point) == if S'.Some? then Some(Abs(S'.value)) else None
  {
    ghost var T := Abs(S);
    ObjsAllocated(S);
    DeleteKeepsInv(T, point, m, false);
    var grandparent, parentIsLeft, parent, curIsLeft, cur;
    ghost var path;
    grandparent, parentIsLeft, parent, curIsLeft, cur, path := FindLeafWithGrandparent(S, T, root, point);
    cur.RemoveFirstWith(point);
    SetData(S, path, cur);
    if |cur.data| == 0 {
      ghost var T0 := Abs(S);
      if parent != null {
        ParentPath(T, path);
        ReplaceBelowParent(T, path, Leaf(cur.data), At(T, Sibling(path)));
      }
      top, S' := DropEmptyLeaf(S, T0, path, root, grandparent, parentIsLeft, parent, curIsLeft);
    } else {
      top, S' := root, Some(S);
    }
    if S'.Some? {
      ShapedIndexes(KdSpec.Delete(T, point).value, k, m);
    }
  }

  /**
   * The removal of the emptied leaf `cur` at the end of `path` (kd.py:132-144):
   * the tree becomes empty when the leaf is the root; otherwise the leaf's
   * sibling takes the place of the parent, as the new root when the parent
   * was the root.
   */
  method DropEmptyLeaf(ghost S: Skel, ghost T: Tree, ghost path: seq<bool>, root: Node,
                       grandparent: Node?, parentIsLeft: bool, parent: Node?, curIsLeft: bool)
      returns (top: Node?, ghost S': Option<Skel>)
    requires Distinct(S) && Mirrors(S) && T == Abs(S) && SIsPath(S, path) && root == S.node
    requires parent == null <==> path == []
    requires parent != null ==> SIsPath(S, Init(path)) && parent == SAt(S, Init(path)).node && curIsLeft == Last(path)
    requires grandparent == null <==> |path| < 2
    requires grandparent != null ==>
      SIsPath(S, Init(Init(path))) && grandparent == SAt(S, Init(Init(path))).node && parentIsLeft == Last(Init(path))
    modifies grandparent
    ensures top == null <==> S'.None?
    ensures S'.None? <==> path == []
    ensures S'.Some? ==> Distinct(S'.value) && Mirrors(S'.value) && top == S'.value.node && Objs(S'.value) <= Objs(S)
    ensures S'.Some? ==>
      IsPath(T, Init(path)) && IsPath(T, Sibling(path)) && Abs(S'.value) == Replace(T, Init(path), At(T, Sibling(path)))
  {
    if parent == null {
      top, S' := null, None;
    } else if grandparent == null {
      SiblingNode(S, path);
      SubAt(S, Sibling(path));
      top := if curIsLeft then parent.right else parent.left;
      S' := Some(SAt(S, Sibling(path)));
    } else {
      ghost var s2 := Collapse(S, T, path, grandparent, parentIsLeft, parent, curIsLeft);
      top, S' := root, Some(s2);
    }
  }

  /**
   * The descent of kd.py:110-124, which also keeps the grandparent of the
   * leaf and the side the parent hangs on.
   */
  method FindLeafWithGrandparent(ghost S: Skel, ghost T: Tree, root: Node, point: seq<int>)
      returns (grandparent: Node?, parentIsLeft: bool, parent: Node?, curIsLeft: bool, cur: Node, ghost path: seq<bool>)
    requires Distinct(S) && Mirrors(S) && root == S.node && T == Abs(S) && Indexes(T, |point|)
    ensures path == LeafPath(T, point) && SIsPath(S, path) && SAt(S, path) == SLeaf(cur) && cur.isLeaf
    ensures IsPath(T, path) && At(T, path) == Leaf(cur.data) && cur in Objs(S)
    ensures parent == null <==> path == []
    ensures parent != null ==> SIsPath(S, Init(path)) && parent == SAt(S, Init(path)).node && curIsLeft == Last(path)
    ensures grandparent == null <==> |path| < 2
    ensures grandparent != null ==>
      SIsPath(S, Init(Init(path))) && grandparent == SAt(S, Init(Init(path))).node &&
      parentIsLeft == Last(Init(path)) && grandparent in Objs(S)
  {
    ghost var h0 := Snap(Objs(S));
    ghost var target := LeafPath(T, point);
    grandparent := null;
    parentIsLeft := false;
    parent := null;
    curIsLeft := false;
    cur := root;
    path := [];
    while !cur.isLeaf
      invariant SIsPath(S, path) && cur == SAt(S, path).node && Objs(SAt(S, path)) <= Objs(S)
      invariant IsPath(T, path) && At(T, path) == AbsIn(SAt(S, path), h0) && MirrorsIn(SAt(S, path), h0)
      invariant Indexes(At(T, path), |point|) && target == path + LeafPath(At(T, path), point)
      invariant path == [] <==> parent == null
      invariant path != [] ==> SIsPath(S, Init(path)) && parent == SAt(S, Init(path)).node && curIsLeft == Last(path)
      invariant grandparent == null <==> |path| < 2
      invariant grandparent != null ==>
        SIsPath(S, Init(Init(path))) && grandparent == SAt(S, Init(Init(path))).node && parentIsLeft == Last(Init(path))
      decreases |target| - |path|
    {
      assert cur in Objs(S) && h0[cur] == FieldsOf(cur);
      Descend(S, T, h0, path, point);
      ghost var b := GoesLeft(point, cur.splitIndex, cur.splitValue);
      ghost var rest := LeafPath(At(T, path + [b]), point);
      assert target == path + ([b] + rest);
      AppendAssoc(path, [b], rest);
      grandparent := parent;
      parent := cur;
      parentIsLeft := curIsLeft;
      if point[cur.splitIndex] as real < cur.splitValue {
        cur := cur.left;
        curIsLeft := true;
      } else {
        cur := cur.right;
        curIsLeft := false;
      }
      assert curIsLeft == b && Init(path + [b]) == path;
      path := path + [curIsLeft];
    }
    assert cur in Objs(S) && h0[cur] == FieldsOf(cur);
    assert SAt(S, path) == SLeaf(cur) && path == target;
    if grandparent != null {
      SubAt(S, Init(Init(path)));
    }
  }

  /** What `Collapse` needs to know of the grandparent, the parent and the sibling. */
  lemma CollapseSetup(s: Skel, path: seq<bool>)
    requires Distinct(s) && Mirrors(s) && SIsPath(s, path) && |path| >= 2
    ensures SIsPath(s, Init(path)) && SIsPath(s, Sibling(path)) && SIsPath(s, Init(Init(path)))
    ensures var sib := SAt(s, Sibling(path)); var p := SAt(s, Init(path)).node;
      Distinct(sib) && Mirrors(sib) && (sib.node == if Last(path) then p.right else p.left) &&
      Objs(sib) <= Objs(SAt(s, Init(path))) <= Objs(s) && p in Objs(SAt(s, Init(path))) &&
      SAt(s, Init(Init(path))).node in Objs(s) && SAt(s, Init(Init(path))).node !in Objs(SAt(s, Init(path))) &&
      IsPath(Abs(s), Sibling(path)) && At(Abs(s), Sibling(path)) == Abs(sib)
  {
    var q := Init(path);
    SiblingNode(s, path);
    SubAt(s, Sibling(path));
    SParent(s, q);
    SubAt(s, Init(q));
    SubAt(s, q);
  }

  /**
   * The collapse of kd.py:139-144: the leaf at the end of `path` is empty,
   * so the grandparent takes the leaf's sibling in place of the parent.
   */
  method Collapse(ghost s: Skel, ghost T: Tree, ghost path: seq<bool>, grandparent: Node, parentIsLeft: bool, parent: Node, curIsLeft: bool)
      returns (ghost s': Skel)
    requires Distinct(s) && Mirrors(s) && T == Abs(s) && SIsPath(s, path) && |path| >= 2
    requires SIsPath(s, Init(path)) && parent == SAt(s, Init(path)).node && curIsLeft == Last(path)
    requires SIsPath(s, Init(Init(path))) && grandparent == SAt(s, Init(Init(path))).node
    requires parentIsLeft == Last(Init(path))
    modifies grandparent
    ensures Objs(s') <= Objs(s) && Distinct(s') && Mirrors(s') && s'.node == s.node
    ensures IsPath(T, Init(path)) && IsPath(T, Sibling(path))
    ensures Abs(s') == Replace(T, Init(path), At(T, Sibling(path)))
  {
    ghost var q := Init(path);
    CollapseSetup(s, path);
    ghost var sib := SAt(s, Sibling(path));
    ObjsAllocated(s);
    ObjsAllocated(sib);
    var sibling := if curIsLeft then parent.right else parent.left;
    if parentIsLeft {
      grandparent.left := sibling;
    } else {
      grandparent.right := sibling;
    }
    Untouched(sib);
    Relinked(s, q, sib, grandparent, parent);
    s' := SReplace(s, q, sib);
    ObjsReplace(s, q, sib);
  }

  /**
   * The split of an overflowing leaf into two new leaves below a new
   * internal node (kd.py:94-99).
   */
  method SplitLeafNode(data: seq<Datum>, m: int, parent: Node?, isLeft: bool) returns (internal: Node, ghost u: Skel)
    requires m >= 1 && |data| == m + 1 && AllDim(data, |data[0].coords|)
    requires 0 <= MaxSpreadAxis(data)
    modifies parent
    ensures fresh(Objs(u)) && u.node == internal && Distinct(u) && Mirrors(u)
    ensures Abs(u) == SplitLeaf(data, m)
    ensures parent != null ==>
      FieldsOf(parent) == if isLeft then old(FieldsOf(parent)).(left := internal) else old(FieldsOf(parent)).(right := internal)
  {
    var splitIndex := GetMaxSpreadIndex(data);
    var splitValue := GetMedian(data, splitIndex);
    var sorted := SortByKey(data, AxisKey(splitIndex));
    var half := (m + 1) / 2;
    assert SplitLeaf(data, m) == Internal(splitIndex, splitValue, Leaf(sorted[..half]), Leaf(sorted[half..]));
    var leftChild := new Node.InitLeaf(sorted[..half]);
    var rightChild := new Node.InitLeaf(sorted[half..]);
    internal := new Node.InitInternal(splitIndex, splitValue, leftChild, rightChild);
    if parent != null {
      if isLeft {
        parent.left := internal;
      } else {
        parent.right := internal;
      }
    }
    u := SInternal(internal, SLeaf(leftChild), SLeaf(rightChild));
    assert Objs(u) == {internal, leftChild, rightChild};
    var h := Snap(Objs(u));
    assert h[internal] == FieldsOf(internal) && h[leftChild] == FieldsOf(leftChild) && h[rightChild] == FieldsOf(rightChild);
    assert AbsIn(u, h) == Internal(splitIndex, splitValue, Leaf(sorted[..half]), Leaf(sorted[half..]));
  }

  lemma {:induction false} ObjsAllocated(s: Skel)
    ensures forall o <- Objs(s) :: allocated(o)
  {
    if s.SInternal? {
      ObjsAllocated(s.left);
      ObjsAllocated(s.right);
    }
  }

  /** A skeleton none of whose nodes changed holds the same tree. */
  twostate lemma Untouched(new s: Skel)
    requires old(allocated(s)) && forall o <- Objs(s) :: old(allocated(o))
    requires unchanged(Objs(s))
    ensures Mirrors(s) == old(Mirrors(s)) && Abs(s) == old(Abs(s))
  {
    AgreeIn(s, Snap(Objs(s)), old(Snap(Objs(s))));
  }

  /** Writing the data of leaf `n` at the end of `path` replaces that leaf of the tree. */
  twostate lemma SetData(new s: Skel, path: seq<bool>, new n: Node)
    requires old(allocated(s)) && old(allocated(n)) && forall o <- Objs(s) :: old(allocated(o))
    requires old(Mirrors(s)) && Distinct(s) && SIsPath(s, path) && SAt(s, path) == SLeaf(n)
    requires unchanged(Objs(s) - {n}) && n.isLeaf
    ensures IsPath(old(Abs(s)), path)
    ensures Mirrors(s) && Abs(s) == Replace(old(Abs(s)), path, Leaf(n.data))
  {
    var h, g := old(Snap(Objs(s))), Snap(Objs(s));
    SubAt(s, path);
    SetDataIn(s, path, n, h, g);
  }

  /**
   * Pointing the parent `p` of the end of `path` at the nodes of `u`, and
   * changing no other node but `cur` below the end of `path`, replaces
   * the subtree at the end of `path` with `u`'s.
   */
  twostate lemma Relinked(new s: Skel, path: seq<bool>, new u: Skel, new p: Node, new cur: Node)
    requires old(allocated(s)) && old(allocated(p)) && old(allocated(cur)) && forall o <- Objs(s) :: old(allocated(o))
    requires old(Mirrors(s)) && Distinct(s) && SIsPath(s, path) && |path| > 0
    requires SIsPath(s, Init(path)) && p == SAt(s, Init(path)).node && cur in Objs(SAt(s, path))
    requires unchanged(Objs(s) - {p, cur})
    requires FieldsOf(p) == if Last(path) then old(FieldsOf(p)).(left := u.node) else old(FieldsOf(p)).(right := u.node)
    requires Distinct(u) && Mirrors(u) && forall o <- Objs(u) :: o !in Objs(s) - Objs(SAt(s, path))
    ensures IsPath(old(Abs(s)), path)
    ensures Distinct(SReplace(s, path, u)) && Mirrors(SReplace(s, path, u))
    ensures Abs(SReplace(s, path, u)) == Replace(old(Abs(s)), path, Abs(u))
  {
    var s' := SReplace(s, path, u);
    DistinctReplace(s, path, u);
    var h, g := old(Snap(Objs(s))), Snap(Objs(s'));
    SParent(s, path);
    SubAt(s, Init(path));
    SubAt(s, path);
    assert p in Objs(s) && p !in Objs(SAt(s, path));
    assert p in Objs(s') && g[p] == FieldsOf(p) && h[p] == old(FieldsOf(p));
    AgreeIn(u, Snap(Objs(u)), g);
    RelinkIn(s, path, u, p, h, g);
  }

  lemma AppendAssoc<T>(a: seq<T>, b: seq<T>, c: seq<T>)
    ensures a + (b + c) == (a + b) + c
  {
  }

  /** One step of the descent of kd.py:80-87 and kd.py:115-124 along the skeleton. */
  lemma Descend(S: Skel, T: Tree, h: map<Node, Fields>, path: seq<bool>, point: seq<int>)
    requires Objs(S) <= h.Keys && SIsPath(S, path) && IsPath(T, path) && Indexes(T, |point|)
    requires Objs(SAt(S, path)) <= Objs(S)
    requires At(T, path) == AbsIn(SAt(S, path), h) && MirrorsIn(SAt(S, path), h)
    requires !h[SAt(S, path).node].isLeaf
    ensures SAt(S, path).SInternal? && At(T, path).Internal? && Indexes(At(T, path), |point|)
    ensures var n := SAt(S, path).node; var b := GoesLeft(point, h[n].splitIndex, h[n].splitValue);
      0 <= h[n].splitIndex < |point| &&
      SIsPath(S, path + [b]) && IsPath(T, path + [b]) && Objs(SAt(S, path + [b])) <= Objs(S) && Indexes(At(T, path + [b]), |point|) &&
      SAt(S, path + [b]).node == (if b then h[n].left else h[n].right) &&
      At(T, path + [b]) == AbsIn(SAt(S, path + [b]), h) && MirrorsIn(SAt(S, path + [b]), h) &&
      LeafPath(At(T, path), point) == [b] + LeafPath(At(T, path + [b]), point)
  {
    SubAt(S, path);
    IndexesAt(T, path, |point|);
    var n := SAt(S, path).node;
    var b := GoesLeft(point, h[n].splitIndex, h[n].splitValue);
    SAtStep(S, path, b);
    SubAt(S, path + [b]);
    AtAppend(T, path, [b]);
    IndexesAt(T, path, |point|);
    IndexesAt(T, path + [b], |point|);
  }

  // ---------------------------------------------------------------------
  // The search (kd.py:183-254) over the linked nodes.

  /**
   * kd.py:234-247: widens `bb` in place over the data `pts` below `node`,
   * the left subtree before the right one; an absent node has none.
   */
  method GetBoundingBox(node: Node?, bb: array<Extent>, ghost s: Skel, ghost pts: seq<Datum>)
    requires node != null ==> node == s.node && Mirrors(s) && pts == Points(Abs(s))
    requires node == null ==> pts == []
    requires FitsBox(pts, bb.Length)
    modifies bb
    ensures bb[..] == WidenAll(old(bb[..]), pts)
    decreases s
  {
    if node == null {
      return;
    }
    NodeTag(s);
    if node.isLeaf {
      LeafNode(s);
      WidenByData(bb, node.data);
    } else {
      InternalNode(s);
      ObjsAllocated(s.right);
      ghost var b0 := bb[..];
      ghost var lp, rp := Points(Abs(s.left)), Points(Abs(s.right));
      GetBoundingBox(node.left, bb, s.left, lp);
      GetBoundingBox(node.right, bb, s.right, rp);
      WidenAllAppend(b0, lp, rp);
    }
  }

  /** kd.py:239-243: widens `bb` in place over `data`, datum by datum and axis by axis. */
  method WidenByData(bb: array<Extent>, data: seq<Datum>)
    requires FitsBox(data, bb.Length)
    modifies bb
    ensures bb[..] == WidenAll(old(bb[..]), data)
  {
    ghost var b0 := bb[..];
    for i := 0 to |data|
      invariant FitsBox(data[..i], bb.Length) && bb[..] == WidenAll(b0, data[..i])
    {
      var coords := data[i].coords;
      ghost var bi := bb[..];
      for j := 0 to |coords|
        invariant forall a :: 0 <= a < bb.Length ==> bb[a] == if a < j then Extend(bi[a], coords[a]) else bi[a]
      {
        var e, c := bb[j], coords[j];
        var lo := if e.Unset? || c < e.lo then c else e.lo;
        var hi := if e.Unset? || c > e.hi then c else e.hi;
        bb[j] := Extent(lo, hi);
      }
      assert bb[..] == Widen(bi, data[i]);
      assert data[..i + 1][..i] == data[..i];
    }
    assert data[..|data|] == data;
  }

  /**
   * kd.py:200-206 for one child: a fresh box of `|point|` unset axes,
   * widened over the data of the child's tree `t`, and its distance to `point`.
   */
  method ChildBoxDistance(child: Node, point: seq<int>, ghost s: Skel, ghost t: Tree) returns (d: int)
    requires child == s.node && Mirrors(s) && t == Abs(s) && Searchable(t, |point|)
    ensures d == TreeBoxDist(t, point)
  {
    SearchableBox(t, |point|);
    var bb := new Extent[|point|](_ => Unset);
    assert bb[..] == Unsets(|point|);
    GetBoundingBox(child, bb, s, Points(t));
    d := BbToPointDistance(bb, point);
  }

  /**
   * kd.py:187-197: offers one datum of a leaf to the list. A full list
   * drops its last entry when the datum is nearer, or as near with a
   * smaller code; a list with room takes the datum before its first
   * strictly farther entry, or at the end.
   */
  method OfferDatum(count: int, point: seq<int>, st: Search, datum: Datum) returns (r: Search)
    requires count >= 1 && Fits(st, count) && |point| <= |datum.coords|
    ensures r == Offer(count, point, st, datum)
  {
    var distance := DatumToPointDistance(datum, point);
    r := st;
    if |r.list| == count && (distance < Last(r.dists) || (distance == Last(r.dists) && LexLess(datum.code, Last(r.list).code))) {
      r := Search(r.leaves, Init(r.list), Init(r.dists));
    }
    if |r.list| < count {
      var list, dists := r.list, r.dists;
      var i := 0;
      while i < |dists| && !(distance < dists[i])
        invariant 0 <= i <= |dists| && forall j :: 0 <= j < i ==> dists[j] <= distance
      {
        i := i + 1;
      }
      InsertPosUnique(dists, distance, i);
      if i < |dists| {
        r := Search(r.leaves, list[..i] + [datum] + list[i..], dists[..i] + [distance] + dists[i..]);
      } else {
        assert list[i..] == [] && dists[i..] == [] && list[..i] == list && dists[..i] == dists;
        r := Search(r.leaves, list + [datum], dists + [distance]);
      }
    }
  }

  /** kd.py:186-197: the data of a leaf offered to the list in order. */
  method OfferLeaf(count: int, point: seq<int>, st: Search, data: seq<Datum>) returns (r: Search)
    requires count >= 1 && Fits(st, count) && forall x <- data :: |point| <= |x.coords|
    ensures r == OfferAll(count, point, st, data)
  {
    r := st;
    for i := 0 to |data|
      invariant Fits(r, count) && r == OfferAll(count, point, st, data[..i])
    {
      assert Init(data[..i + 1]) == data[..i] && Last(data[..i + 1]) == data[i];
      r := OfferDatum(count, point, r, data[i]);
    }
    assert data[..|data|] == data;
  }

  /**
   * kd.py:183-226 on the nodes below `cur`: the same search state as the
   * search of the tree value `t` they hold.
   */
  method KnnHelper(count: int, point: seq<int>, st: Search, cur: Node, ghost s: Skel, ghost t: Tree) returns (r: Search)
    requires count >= 1 && Fits(st, count) && cur == s.node && Mirrors(s) && t == Abs(s) && Searchable(t, |point|)
    ensures r == KnnVisit(count, point, st, t)
    decreases LeafCount(t), 1
  {
    NodeTag(s);
    KnnVisitUnfold(count, point, st, t);
    if cur.isLeaf {
      LeafNode(s);
      r := OfferLeaf(count, point, st.(leaves := st.leaves + 1), cur.data);
    } else {
      InternalNode(s);
      ObjsAllocated(s);
      ghost var lt, rt := Abs(s.left), Abs(s.right);
      var leftDistance := ChildBoxDistance(cur.left, point, s.left, lt);
      var rightDistance := ChildBoxDistance(cur.right, point, s.right, rt);
      if leftDistance <= rightDistance && (|st.list| < count || leftDistance <= Last(st.dists)) {
        r := VisitChildren(count, point, st, cur.left, s.left, lt, cur.right, s.right, rt, rightDistance);
      } else if rightDistance < leftDistance && (|st.list| < count || rightDistance <= Last(st.dists)) {
        r := VisitChildren(count, point, st, cur.right, s.right, rt, cur.left, s.left, lt, leftDistance);
      } else {
        r := st;
      }
    }
  }

  /**
   * kd.py:207-224 once a child is chosen: visit `first`, then `other`,
   * whose box is at distance `otherDistance`, if it may still improve the list.
   */
  method VisitChildren(count: int, point: seq<int>, st: Search,
                       first: Node, ghost fs: Skel, ghost ft: Tree,
                       other: Node, ghost os: Skel, ghost ot: Tree, otherDistance: int) returns (r: Search)
    requires count >= 1 && Fits(st, count)
    requires first == fs.node && Mirrors(fs) && ft == Abs(fs) && Searchable(ft, |point|)
    requires other == os.node && Mirrors(os) && ot == Abs(os) && Searchable(ot, |point|)
    ensures r == VisitThen(count, point, st, ft, ot, otherDistance)
    decreases LeafCount(ft) + LeafCount(ot), 0
  {
    ObjsAllocated(os);
    r := KnnHelper(count, point, st, first, fs, ft);
    if |r.list| < count || otherDistance <= Last(r.dists) {
      r := KnnHelper(count, point, r, other, os, ot);
    }
  }
}
