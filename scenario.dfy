/**
 * A worked scenario of kd.py with `k = 2` and `m = 2`: inserting the data
 * (0,0) "a", (0,1) "b" and (5,2) "c" overflows the root leaf, which splits
 * on axis 0 at the median 0.0 with only "a" on the left (kd.py:94-99). The
 * left leaf then holds a datum equal to the split value, while delete
 * descends to the right on equality (kd.py:119-124): deleting (0,0) reaches
 * the leaf of "b" and "c" and leaves the tree as it was.
 */
module KdScenario {
  import opened Geometry
  import opened Sorting
  import opened Split
  import opened KdSpec

  lemma AxisStep(a: Datum, b: Datum, c: Datum)
    requires a == Datum([0, 0], "a") && b == Datum([0, 1], "b") && c == Datum([5, 2], "c")
    ensures AllDim([a, b, c], 2) && MaxSpreadAxis([a, b, c]) == 0
  {
    var data := [a, b, c];
    assert data[..2] == [a, b] && [a, b][..1] == [a] && [a][..0] == [];
    assert FoldAxis(Unset, [a], 0) == Extent(0, 0);
    assert FoldAxis(Unset, [a, b], 0) == Extent(0, 0);
    assert FoldAxis(Unset, data, 0) == Extent(0, 5);
    assert FoldAxis(Unset, [a], 1) == Extent(0, 0);
    assert FoldAxis(Unset, [a, b], 1) == Extent(0, 1);
    assert FoldAxis(Unset, data, 1) == Extent(0, 2);
    assert Spread(data, 0) == 5 && Spread(data, 1) == 2;
    assert BestAxis(data, 0) == (-1, 0);
    assert BestAxis(data, 1) == (0, 5);
    assert BestAxis(data, 2) == (0, 5);
  }
  lemma SortStep(a: Datum, b: Datum, c: Datum)
    requires a == Datum([0, 0], "a") && b == Datum([0, 1], "b") && c == Datum([5, 2], "c")
    ensures SortByKey([a, b, c], AxisKey(0)) == [a, b, c]
  {
    var data := [a, b, c];
    var key := AxisKey(0);
    assert data[..2] == [a, b] && [a, b][..1] == [a] && [a][..0] == [];
    assert key(a) == 0 && key(b) == 0 && key(c) == 5;
    assert SortByKey([a], key) == [a];
    assert InsertByKey([a], b, key) == [a, b];
    assert SortByKey([a, b], key) == [a, b];
    assert [a, b][1..] == [b];
    assert [b][1..] == [];
    assert InsertByKey([b], c, key) == [b, c];
    assert InsertByKey([a, b], c, key) == [a, b, c];
  }
  lemma ColumnSortStep()
    ensures SortByKey([0, 0, 5], Id) == [0, 0, 5]
  {
    assert [0, 0, 5][..2] == [0, 0] && [0, 0][..1] == [0];
    assert SortByKey([0], Id) == [0];
    assert InsertByKey([0], 0, Id) == [0, 0];
    assert SortByKey([0, 0], Id) == [0, 0];
    assert [0, 0][1..] == [0] && [0][1..] == [];
    assert InsertByKey([0], 5, Id) == [0, 5];
    assert InsertByKey([0, 0], 5, Id) == [0, 0, 5];
  }
  lemma MedianStep(a: Datum, b: Datum, c: Datum)
    requires a == Datum([0, 0], "a") && b == Datum([0, 1], "b") && c == Datum([5, 2], "c")
    ensures MedianOf([a, b, c], 0) == 0.0
  {
    var col := Column([a, b, c], 0);
    assert AxisKey(0)(a) == 0 && AxisKey(0)(b) == 0 && AxisKey(0)(c) == 5;
    assert col[0] == 0 && col[1] == 0 && col[2] == 5;
    assert col == [0, 0, 5];
    ColumnSortStep();
    MedianOfColumn();
  }
  lemma MedianOfColumn()
    ensures MedianOfSorted([0, 0, 5]) == 0.0
  {
    var col := [0, 0, 5];
    assert |col| / 2 == 1 && |col| - 1 - 1 == 1 && col[1] == 0;
    assert (col[1] + col[1]) as real / 2.0 == 0.0;
  }
  lemma SplitStep(a: Datum, b: Datum, c: Datum)
    requires a == Datum([0, 0], "a") && b == Datum([0, 1], "b") && c == Datum([5, 2], "c")
    ensures AllDim([a, b, c], 2) && MaxSpreadAxis([a, b, c]) == 0
    ensures SplitLeaf([a, b, c], 2) == Internal(0, 0.0, Leaf([a]), Leaf([b, c]))
  {
    AxisStep(a, b, c);
    SortStep(a, b, c);
    MedianStep(a, b, c);
    assert [a, b, c][..1] == [a] && [a, b, c][1..] == [b, c];
  }
  lemma GrowStep(a: Datum, b: Datum, c: Datum)
    requires a == Datum([0, 0], "a") && b == Datum([0, 1], "b") && c == Datum([5, 2], "c")
    ensures Insert(None, a, 2, 2) == Leaf([a])
    ensures TreeInv(Leaf([a]), 2, 2) && Fresh(Leaf([a]), b.coords) && Insert(Some(Leaf([a])), b, 2, 2) == Leaf([a, b])
    ensures TreeInv(Leaf([a, b]), 2, 2) && Fresh(Leaf([a, b]), c.coords)
  {
    assert Receiving(Leaf([a]), b) == [a, b];
  }
  lemma SplitInsertStep(a: Datum, b: Datum, c: Datum)
    requires a == Datum([0, 0], "a") && b == Datum([0, 1], "b") && c == Datum([5, 2], "c")
    requires TreeInv(Leaf([a, b]), 2, 2) && Fresh(Leaf([a, b]), c.coords)
    ensures Insert(Some(Leaf([a, b])), c, 2, 2) == Internal(0, 0.0, Leaf([a]), Leaf([b, c]))
  {
    SplitStep(a, b, c);
    assert Receiving(Leaf([a, b]), c) == [a, b, c];
  }
  lemma DeleteStep(a: Datum, b: Datum, c: Datum)
    requires a == Datum([0, 0], "a") && b == Datum([0, 1], "b") && c == Datum([5, 2], "c")
    ensures var t := Internal(0, 0.0, Leaf([a]), Leaf([b, c]));
      TreeInv(t, 2, 2) && a in Points(t) && Delete(t, a.coords) == Some(t)
  {
    var t := Internal(0, 0.0, Leaf([a]), Leaf([b, c]));
    assert Indexes(Leaf([a]), 2) && Indexes(Leaf([b, c]), 2);
    assert |a.coords| == 2 && Indexes(t, |a.coords|);
    assert Points(t) == [a, b, c];
    assert Shaped(Leaf([a]), 2, 2) && Shaped(Leaf([b, c]), 2, 2);
    assert Shaped(t, 2, 2);
    assert Separated(Leaf([a]), false) && Separated(Leaf([b, c]), false);
    assert Separated(t, false);
    assert !GoesLeft(a.coords, 0, 0.0);
    assert LeafPath(t, a.coords) == [false];
    assert [false][1..] == [];
    assert At(t, [false]) == Leaf([b, c]);
    assert [b, c][1..] == [c] && [c][1..] == [];
    assert FirstIndex([c], a.coords) == 1;
    assert FirstIndex([b, c], a.coords) == 2;
    assert RemoveFirst([b, c], a.coords) == [b, c];
    assert Replace(t, [false], Leaf([b, c])) == t;
  }

  /**
   * From the empty tree, three inserts build the split tree, which holds
   * (0,0); deleting (0,0) returns that tree unchanged.
   */
  lemma DeleteMissesLeftEqualDatum(a: Datum, b: Datum, c: Datum)
    requires a == Datum([0, 0], "a") && b == Datum([0, 1], "b") && c == Datum([5, 2], "c")
    ensures var t1 := Insert(None, a, 2, 2);
      t1 == Leaf([a]) && TreeInv(t1, 2, 2) && Fresh(t1, b.coords) &&
      var t2 := Insert(Some(t1), b, 2, 2);
      t2 == Leaf([a, b]) && TreeInv(t2, 2, 2) && Fresh(t2, c.coords) &&
      var t3 := Insert(Some(t2), c, 2, 2);
      t3 == Internal(0, 0.0, Leaf([a]), Leaf([b, c])) &&
      TreeInv(t3, 2, 2) && a in Points(t3) && Delete(t3, a.coords) == Some(t3)
  {
    GrowStep(a, b, c);
    SplitInsertStep(a, b, c);
    DeleteStep(a, b, c);
  }
}
