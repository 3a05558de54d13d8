# A bucketed k-d tree, modelled and proved in Dafny

This project models `kd.py`, a mutable k-d tree over integer points. Each
leaf ("bucket") holds up to `m` data. A datum is a list of `k` integer
coordinates and a string code. The tree offers three operations:

- **insert** descends to a leaf and appends the datum there. A leaf that
  then holds more than `m` data is split. The split axis is the axis of
  largest spread. The split value is the median on that axis. The split
  puts the first `(m+1)//2` data sorted on that axis in the left leaf,
  and the others in the right leaf.
- **delete** descends the same way and removes the first datum with the
  given coordinates from the leaf it reaches. If that leaf is left empty,
  its sibling takes the parent's place.
- **knn** is a branch-and-bound search for the `count` data nearest to a
  query point. It prunes a subtree by the squared distance from the query
  point to the subtree's bounding box, and it counts the leaves it checks.

The model has two layers.

- **The value layer** (modules `Geometry`, `Sorting`, `Split`, `KdSpec`,
  `KnnSpec`) writes the tree as a datatype. Insert, delete and the search
  are functions on that datatype, and the properties are lemmas about
  those functions:
  - insert adds exactly one datum, and delete removes at most one;
  - both operations keep the capacity and partition invariant;
  - the box distance is a lower bound on the distance to every datum in
    the box;
  - the search is exact: it returns `min(count, N)` data in distance order,
    and no datum left out is nearer than any datum listed.
- **The heap layer** (module `KdHeap`) follows the Python code step by
  step:
  - `Node` objects have mutable fields;
  - `while` loops descend while tracking the parent, the grandparent and
    the side taken;
  - child links are overwritten in place;
  - the bounding box is an `array` widened in place;
  - the search updates its candidate list inside `for` loops.
  
  Beside its `root`, a `KDTree` keeps a ghost skeleton `shape`, which says
  which node objects sit where. `Abs` reads the nodes along the skeleton
  and yields the tree value. Each heap method is proved to leave the nodes
  holding exactly the tree value that the value-layer function computes.
  It is also proved to keep every node in one place only, since no node is
  shared.

`KdScenario` works through one concrete sequence of calls: the three
inserts of a small example, then the delete that misses (see "Behaviour
worth knowing" below).

## Model

| member | source | states |
|---|---|---|
| `Geometry.DistUpTo` | kd.py:229-231 | definition: the sum of the squared coordinate differences over the first `n` axes, the running total of the loop |
| `Geometry.Dist` | kd.py:228-232 | definition: the squared distance over every axis of the query point |
| `Geometry.DatumToPointDistance` | kd.py:228-232 | the loop returns the sum of squared coordinate differences over the query point's axes; it is never negative, and it is zero exactly when the datum's coordinates equal the point |
| `Geometry.DistUpToFacts` | kd.py:229-231 | a partial sum over the first `n` axes is never negative, and it is zero exactly when the first `n` coordinates agree |
| `Geometry.DistZeroIff` | kd.py:228-232 | for equal lengths, the distance is zero if and only if the coordinates equal the point |
| `Geometry.FoldAxis` | kd.py:163-169 | definition: the extent of one axis after the min/max scan of a list of data, datum by datum from left to right, as `get_bounding_box` also does at kd.py:240-243 |
| `Geometry.Extend` | kd.py:240-243 | one min/max step: the new extent contains the coordinate and the old extent; each bound is either the old bound or the coordinate; an unset extent becomes `[c, c]` |
| `Geometry.Widen` | kd.py:239-243 | widening by one datum keeps the box's number of axes |
| `Geometry.WidenAll` | kd.py:238-243 | widening by a list keeps the box's number of axes |
| `Geometry.FoldAxisIsRange` | kd.py:163-169 | scanning a non-empty list from an unset extent gives an extent holding every coordinate, whose bounds are attained by some datum, i.e. exactly `[min, max]` |
| `Geometry.WidenAllAppend` | kd.py:244-246 | widening over `a + b` equals widening over `a` and then over `b`; so visiting the left subtree and then the right one gives the box of all their data |
| `Geometry.WidenAllAxis` | kd.py:238-243 | for data of the box's dimension, each axis of the widened box is the min/max scan of that axis |
| `Geometry.BoundingBoxIsTight` | kd.py:234-247 | from a fresh box, every axis ends set, contains every datum's coordinate, and has `lo` and `hi` attained by data (the exact `[min, max]`) |
| `Geometry.AxisGap` | kd.py:252-253 | definition: one axis's term of the box distance, zero inside the half-open `range(lo, hi)` and otherwise the smaller squared gap to a bound |
| `Geometry.BoxDistUpTo` | kd.py:250-253 | definition: the sum of the axis terms over the first `n` axes, the running total of the loop |
| `Geometry.BoxDist` | kd.py:249-254 | definition: the box distance over every axis of the query point |
| `Geometry.AxisGapClosed` | kd.py:252-253 | an axis contributes nothing exactly when the coordinate is in the closed `[lo, hi]`; the half-open `range` test loses nothing, because at `hi` the contribution is `min(.., 0) = 0` |
| `Geometry.AxisGapBelow` | kd.py:252-253 | for a coordinate inside the extent, an axis contribution never exceeds the true squared gap |
| `Geometry.BoxDistUpToFacts` | kd.py:250-253 | a partial box distance is never negative, and it never exceeds the datum's partial distance for a datum inside the box |
| `Geometry.BoxDistIsLowerBound` | kd.py:249-254 | the box distance is admissible: `0 <= BoxDist(bb, p) <= Dist(c, p)` for every datum `c` inside the box |
| `Geometry.BbToPointDistance` | kd.py:249-254 | the loop over the array box returns the box distance, which is never negative |
| `Sorting.InsertByKey` | kd.py:96 | one insertion step returns a permutation of the list plus the new element |
| `Sorting.SortByKey` | kd.py:96 | the sort returns a permutation of its input |
| `Sorting.InsertByKeyFacts` | kd.py:96 | an insertion step keeps a sorted list sorted |
| `Sorting.SortByKeyFacts` | kd.py:96 | the sort returns a list sorted by the key |
| `Sorting.WithKeyOfInsert` | kd.py:96 | inserting into a sorted list puts the new element after every element with the same key |
| `Sorting.KeyPos` | kd.py:96 | the index where an insertion step puts an element: no larger key before it, and a larger key at it |
| `Sorting.KeyPosFacts` | kd.py:96 | proves the two facts that characterise that index |
| `Sorting.InsertByKeyAt` | kd.py:96 | an insertion step puts the element at that index and keeps the rest in order |
| `Sorting.SortPlacesLast` | kd.py:96 | sorting a list whose last element is `x` puts `x` after every element whose key is at most its own and before every element of larger key |
| `Sorting.SortByKeyIsStable` | kd.py:96 | the sort is stable: for every key, the elements with that key come out in their input order, so a tie at the cut is broken by the order of the leaf's data |
| `Sorting.KeysOfInsert` | kd.py:179 | the keys of a keyed insertion are the insertion of the key into the keys |
| `Sorting.KeysOfSort` | kd.py:179 | sorting data by a key and reading the keys gives the sorted keys, so `coor_lst.sort()` agrees with `sorted(cur.data, key=...)` |
| `Split.Column` | kd.py:176-178 | definition: the values of one axis, in list order (`coor_lst`) |
| `Split.Spread` | kd.py:163-170 | definition: `max - min` of one axis over the data |
| `Split.BestAxis` | kd.py:160-172 | definition: the axis index and spread after scanning the first `n` axes; an axis replaces the current one only with a strictly larger spread, starting from `-1` and `0` |
| `Split.MaxSpreadAxis` | kd.py:159-173 | definition: the index the scan returns after every axis of the first datum |
| `Split.SpreadFacts` | kd.py:163-172 | an axis's spread is never negative, and it is positive as soon as two data differ on that axis |
| `Split.SpreadNonNegative` | kd.py:170 | `max - min` is never negative |
| `Split.BestAxisIsLowestMaximum` | kd.py:160-173 | after scanning the first `n` axes, the index is -1 exactly when all spreads are zero; otherwise it is the lowest axis of largest spread, and that spread is positive |
| `Split.AxisExists` | kd.py:159-173 | when two data have different coordinates, the split axis is a real axis (not -1) |
| `Split.GetMaxSpreadIndex` | kd.py:159-173 | the nested loops return the lowest axis of strictly positive maximal spread, or -1 exactly when every spread is zero |
| `Split.MedianOfSorted` | kd.py:180-181 | definition: the mean of `col[n//2]` and `col[~(n//2)]` as an exact real |
| `Split.MedianOf` | kd.py:175-181 | definition: that mean of the sorted column of an axis |
| `Split.SortedColumnWithin` | kd.py:176-179 | every sorted axis value lies within the axis's `[min, max]` |
| `Split.MedianWithin` | kd.py:175-181 | the median lies between the axis's minimum and maximum |
| `Split.GetMedian` | kd.py:175-181 | the loop with the sort returns `(s[n//2] + s[~(n//2)]) / 2` of the sorted axis values, which lies between their minimum and maximum |
| `Split.SortedByAxisKeys` | kd.py:94-96 | the sorted data are a permutation whose axis values are the sorted column |
| `Split.MedianAtCut` | kd.py:179-181 | the median lies between the two values at the cut, and strictly above the left one when the two differ |
| `Split.SliceBounds` | kd.py:97-98 | bounds on a slice of the sorted column hold for the data of that slice |
| `Split.SortedCutReady` | kd.py:94-96 | the data sorted on the axis line up with the sorted column |
| `Split.CutSeparates` | kd.py:95-98 | left-leaf values are at most the median and right-leaf values at least it; the left ones are strictly below it when the middle values differ |
| `Split.SplitSeparates` | kd.py:94-98 | the split of a leaf's data keeps all its data, and the median separates the two new leaves (strictly when the middle values differ) |
| `KdSpec.GoesLeft` | kd.py:82-87 | definition: a descent goes left exactly when the coordinate is strictly below the split value, and right on equality; delete's descent at kd.py:119 is the same test |
| `KdSpec.SplitLeaf` | kd.py:94-99 | definition: the data sorted on the axis of largest spread, with the first `(m+1)//2` in the left leaf, the rest in the right leaf, split at the median |
| `KdSpec.Grown` | kd.py:90-99 | definition: the leaf after the append, or its split when it holds more than `m` data |
| `KdSpec.Insert` | kd.py:71-105 | definition: a new leaf for an empty tree; otherwise the datum is appended to the leaf its descent reaches, which is replaced by `Grown` of its data |
| `KdSpec.RemoveFirst` | kd.py:127-130 | definition: the leaf's data without their first datum of the given coordinates, unchanged if there is none |
| `KdSpec.Sibling` | kd.py:137-144 | definition: the path to the other child of the emptied leaf's parent |
| `KdSpec.Delete` | kd.py:109-144 | definition: `RemoveFirst` in the leaf the descent reaches; an emptied root leaf gives the empty tree, and an emptied leaf below the root is dropped, its sibling taking the parent's place |
| `KdSpec.LeafCount` | kd.py:184-185 | every tree has at least one leaf |
| `KdSpec.LeafPath` | kd.py:80-87 | the descent for a point is a path of the tree that ends at a leaf |
| `KdSpec.PointsReplace` | kd.py:100-105 | putting a new subtree in a slot trades the old subtree's data for the new one's |
| `KdSpec.PointsAt` | kd.py:80-87 | the data of a subtree are data of the tree |
| `KdSpec.RespectsLeafPath` | kd.py:80-87 | the descent for a point ends where that point satisfies the side condition of every split above it, even strictly |
| `KdSpec.SeparatedReplace` | kd.py:100-105 | a separated subtree whose data respect the splits above its slot keeps the tree separated |
| `KdSpec.StrictFinds` | kd.py:115-124 | when every split is strict, the descent for a datum's coordinates reaches the leaf holding that datum |
| `KdSpec.GrownFacts` | kd.py:90-99 | the leaf after the append (split or not) holds exactly its data, has between 1 and `m` data per leaf, and is separated; it is strictly separated when the split's middle values differ |
| `KdSpec.CutFacts` | kd.py:97-99 | two leaves cut at a value on an axis form a shaped, separated internal node over the same data |
| `KdSpec.ReceivingFacts` | kd.py:89-94 | the leaf reached by a fresh datum holds between 2 and `m + 1` data after the append, and when it overflows the split axis is a real axis |
| `KdSpec.InsertPoints` | kd.py:71-105 | insertion adds exactly the new datum to the multiset of stored data |
| `KdSpec.InsertKeepsInv` | kd.py:71-105 | insertion keeps every leaf at 1 to `m` data of `k` coordinates, with left data at most and right data at least each split value; it keeps strict separation when the split, if any, has distinct middle values |
| `KdSpec.FirstIndex` | kd.py:127-128 | the index of the first datum with the given coordinates, or the length when there is none |
| `KdSpec.ReplaceBelowParent` | kd.py:133-144 | replacing the emptied leaf leaves its sibling alone, and a later collapse of the parent overrides it |
| `KdSpec.DeletePoints` | kd.py:109-144 | delete removes exactly the first matching datum of the leaf the descent reaches; if that leaf has none, the tree is unchanged |
| `KdSpec.RemoveFirstCount` | kd.py:127-130 | removing the first match takes exactly one copy of it away |
| `KdSpec.DeleteShrinks` | kd.py:127-133 | a delete that leaves data in the leaf removes exactly the matching datum |
| `KdSpec.DeleteCollapses` | kd.py:133-144 | a delete that empties a leaf below the root removes exactly the matching datum once the sibling takes the parent's place |
| `KdSpec.DeleteKeepsInv` | kd.py:109-144 | deletion keeps the capacity, dimension and separation invariant (strict, if it held), so no empty leaf persists |
| `KdSpec.MedianSide` | kd.py:180-181 | in a sorted column where a value sits at index `j` with only larger values after it, the value is strictly below the median exactly when `j` is in the left half |
| `KdSpec.SplitFindsLast` | kd.py:94-99 | the datum appended last to an overflowing leaf lands in the left leaf exactly when the `<` test at the median sends it left, so the descent through the new split reaches the leaf holding it |
| `KdSpec.ReachReplace` | kd.py:80-87 | the descent for a point through a subtree put in place at that point's own path continues inside that subtree |
| `KdSpec.InsertFindsNew` | kd.py:71-105 | after the insert, the descent for the new datum's coordinates reaches a leaf that holds it |
| `KdSpec.StrictDeleteRemoves` | kd.py:109-144 | when every split is strict, deleting the coordinates of a stored datum removes one datum with those coordinates |
| `KdSpec.DeleteUndoesInsert` | kd.py:71-144 | for every tree that keeps the invariant (ties at a split included), deleting the coordinates of a freshly inserted point gives back exactly the data that were there before |
| `KdSpec.FreshOnly` | kd.py:69-72 | a fresh datum is the only datum with its coordinates once inserted |
| `KnnSpec.LexLess` | kd.py:188 | definition: Python's `<` on strings, character by character, a proper prefix first |
| `KnnSpec.Displaces` | kd.py:188 | definition: the list is full and the datum is nearer than its last entry, or as near with a smaller code |
| `KnnSpec.InsertPos` | kd.py:191-194 | the insertion index comes after a prefix of entries no farther than the datum, at the first strictly farther entry |
| `KnnSpec.InsertPosUnique` | kd.py:191-196 | that index is the only one with these two properties |
| `KnnSpec.Offer` | kd.py:187-197 | a list with room gains the datum; a full list that is beaten loses its last entry and gains the datum; otherwise nothing changes; the list never exceeds `count` entries |
| `KnnSpec.OfferAll` | kd.py:186-197 | offering a leaf's data keeps the list within `count` entries |
| `KnnSpec.Box` | kd.py:200-206 | definition: the bounding box of a subtree's data, widened from a fresh box of one unset axis per query coordinate |
| `KnnSpec.Admits` | kd.py:211-222 | definition: a subtree at box distance `d` is visited when the list has room or `d` is at most the last listed distance |
| `KnnSpec.ShapedIsSearchable` | kd.py:184-197 | every tree that insert and delete build can be searched with a point of its dimension |
| `KnnSpec.SearchableBox` | kd.py:200-206 | a subtree's box is set on every axis and contains all its data |
| `KnnSpec.BoxIsLowerBound` | kd.py:200-208 | a subtree's box distance never exceeds the distance of any datum of the subtree |
| `KnnSpec.TreeBoxDist` | kd.py:200-208 | the box distance of a subtree is a lower bound on the distance of each of its data |
| `KnnSpec.KnnVisit` | kd.py:183-226 | the search never lists more than `count` data |
| `KnnSpec.VisitThen` | kd.py:211-224 | visiting a chosen child and then the other never lists more than `count` data |
| `KnnSpec.Knn` | kd.py:147-156 | definition: the search of the whole tree from no leaves checked and an empty list |
| `KnnSpec.InsertRanked` | kd.py:190-197 | inserting at the insertion index keeps the distances ascending and matched to their data |
| `KnnSpec.InsertMatched` | kd.py:193-197 | inserting a datum and its distance at one index keeps each datum with its distance |
| `KnnSpec.InsertAscending` | kd.py:191-196 | inserting before the first larger value keeps the distances ascending |
| `KnnSpec.OfferNotFull` | kd.py:190-197 | an offer to a list with room keeps the list exact for the data seen |
| `KnnSpec.DisplaceFacts` | kd.py:188-197 | after a displacing offer the list is still ranked and full, and its last distance is no larger |
| `KnnSpec.OfferDisplaces` | kd.py:188-197 | a displacing offer keeps the list exact |
| `KnnSpec.OfferRejects` | kd.py:188-190 | a rejected offer keeps the list exact, since the datum is no nearer than the last entry |
| `KnnSpec.OfferKeepsExact` | kd.py:187-197 | every offer keeps the list exact for the data seen |
| `KnnSpec.OfferAllKeepsExact` | kd.py:186-197 | offering a leaf keeps the list exact for the data seen plus the leaf's data |
| `KnnSpec.PruneKeepsExact` | kd.py:211-224 | skipping a subtree whose box is farther than the full list's last entry keeps the list exact for all its data |
| `KnnSpec.KnnVisitExact` | kd.py:183-226 | the search of a subtree keeps the list exact for the data seen plus the subtree's data |
| `KnnSpec.VisitThenExact` | kd.py:211-224 | visiting both children in either order keeps the list exact |
| `KnnSpec.KnnVisitLeaves` | kd.py:184-224 | the search checks at most the subtree's leaves, and at least one while the list is not full |
| `KnnSpec.VisitThenLeaves` | kd.py:211-224 | the same bound for a visit of two children |
| `KnnSpec.KnnVisitAll` | kd.py:183-224 | while the data seen plus the subtree's data are fewer than `count`, the list never fills, so every box passes the `len(knnlist) < k` test and every leaf of the subtree is checked |
| `KnnSpec.VisitThenAll` | kd.py:211-224 | the same for a visit of two children: every leaf of both is checked |
| `KnnSpec.KnnIsExact` | kd.py:147-226 | from an empty list: between 1 and all leaves are checked, and exactly all of them when `count` exceeds the number of stored data; the list has `min(count, N)` data of the tree, ascending by distance, each with its distance, and no datum left out is nearer than any datum listed |
| `KnnSpec.ExactResult` | kd.py:153-156 | an exact final list has `min(count, N)` entries and beats every datum left out |
| `KdScenario.AxisStep` | kd.py:159-173 | for (0,0), (0,1), (5,2) the split axis is 0 |
| `KdScenario.SortStep` | kd.py:96 | those data sorted on axis 0 stay in order |
| `KdScenario.ColumnSortStep` | kd.py:179 | the column [0, 0, 5] is already sorted |
| `KdScenario.MedianStep` | kd.py:175-181 | their median on axis 0 is 0.0 |
| `KdScenario.SplitStep` | kd.py:92-99 | the overflowing leaf splits at 0.0 into [(0,0)] and [(0,1), (5,2)] |
| `KdScenario.GrowStep` | kd.py:71-90 | the first two inserts with `m = 2` build a single leaf |
| `KdScenario.SplitInsertStep` | kd.py:71-105 | the third insert splits it |
| `KdScenario.DeleteStep` | kd.py:109-130 | deleting (0,0) from that tree changes nothing |
| `KdScenario.DeleteMissesLeftEqualDatum` | kd.py:71-144 | the whole sequence: after the three inserts, (0,0) is stored, yet deleting it leaves the tree as it was |
| `KdHeap.Node.InitLeaf` | kd.py:33-36 | a new leaf holds the given data |
| `KdHeap.Node.InitInternal` | kd.py:20-29 | a new internal node holds the given axis, value and children |
| `KdHeap.Node.RemoveFirstWith` | kd.py:127-130 | the loop removes the first datum with the given coordinates and changes no other field |
| `KdHeap.InternalNode` | kd.py:20-29 | a mirrored internal skeleton is an internal node whose child links are its children's nodes |
| `KdHeap.KDTree.constructor` | kd.py:40-46 | a new tree is empty and keeps `k` and `m` |
| `KdHeap.KDTree.Insert` | kd.py:71-105 | the nodes afterwards hold exactly `KdSpec.Insert` of the tree before, the invariant holds again, and only new nodes are added |
| `KdHeap.KDTree.Delete` | kd.py:109-144 | the nodes afterwards hold exactly `KdSpec.Delete` of the tree before (possibly the empty tree), the invariant holds again, and no node is added |
| `KdHeap.KDTree.Knn` | kd.py:147-156 | the search over the nodes returns the result of `KnnSpec.Knn`: between 1 and all leaves checked (all of them when `count` exceeds the number of stored data), `min(count, N)` stored data ascending by distance, and none left out nearer than any listed |
| `KdHeap.InsertBelow` | kd.py:76-105 | insertion below a non-empty root leaves nodes holding `KdSpec.Insert`, and returns the new root |
| `KdHeap.FindLeaf` | kd.py:77-89 | the descent loop reaches the node of the leaf on `LeafPath`, with its parent and side |
| `KdHeap.AddToLeaf` | kd.py:90-105 | the append, and the split if the leaf overflows, replace the reached leaf by `Grown` of its data |
| `KdHeap.SplitLeafNode` | kd.py:92-105 | builds the two new leaves and the internal node holding `SplitLeaf` of the data, and points the parent's slot at it |
| `KdHeap.DeleteBelow` | kd.py:110-144 | the descent, the removal and the collapse leave nodes holding `KdSpec.Delete`, or no root |
| `KdHeap.FindLeafWithGrandparent` | kd.py:110-124 | the descent loop reaches the node of the leaf on `LeafPath`, with its parent, grandparent and both sides |
| `KdHeap.DropEmptyLeaf` | kd.py:133-144 | an emptied root leaf makes the tree empty; otherwise the sibling takes the parent's place, as the new root or in the grandparent's slot |
| `KdHeap.Collapse` | kd.py:140-144 | the grandparent's slot gets the sibling, which replaces the parent's subtree by the sibling's |
| `KdHeap.Relinked` | kd.py:100-105 | pointing the parent's slot at new nodes replaces that subtree of the tree value by theirs |
| `KdHeap.SetData` | kd.py:90 | writing a leaf's data replaces that leaf of the tree value |
| `KdHeap.GetBoundingBox` | kd.py:234-247 | the array box afterwards is the old box widened over all data below the node, left subtree first; it is unchanged for `None` |
| `KdHeap.WidenByData` | kd.py:238-243 | the nested loops widen the array box over a leaf's data, datum by datum and axis by axis |
| `KdHeap.ChildBoxDistance` | kd.py:200-208 | a fresh box widened over a child's data gives the child's box distance |
| `KdHeap.OfferDatum` | kd.py:187-197 | the pop, the insertion loop and the append compute `KnnSpec.Offer` |
| `KdHeap.OfferLeaf` | kd.py:186-197 | the loop over a leaf's data computes `KnnSpec.OfferAll` |
| `KdHeap.KnnHelper` | kd.py:183-226 | the recursion over the nodes returns the same state as `KnnSpec.KnnVisit` of the tree they hold |
| `KdHeap.VisitChildren` | kd.py:211-224 | visiting the chosen child and then, if admissible, the other returns `KnnSpec.VisitThen` |

## Left out

- `dump`, `Datum.to_json` and the `json.dumps` of `knn` (kd.py:14-16, 50-67, 156) are serialisation through a library. `KDTree.Knn` returns the pair `(leavesChecked, list)` instead of the JSON text.
- Python's `sorted` and `list.sort` (kd.py:96, 179) are library calls. They are modelled by an insertion sort written as a function (`Sorting.SortByKey`), proved to return a sorted permutation (`SortByKeyFacts`) and to be stable (`SortByKeyIsStable`).
- `datum_to_distance_map` (kd.py:188-197) is keyed by object identity. It is modelled as the sequence `dists`, kept parallel to the candidate list.
- `OfferDatum`: the test `datum not in knnlist` (kd.py:195) compares by identity. Each datum object is offered once per search, so the datum is in the list exactly when the insertion loop placed it. The model appends when the loop found no strictly farther entry.
- `KDTree.Insert` requires a point that is new to the tree, as kd.py:70 promises its callers. With duplicate coordinates, a full leaf can have zero spread on every axis. Then `get_max_spread_index` returns -1, which Python reads as the last axis. The model does not follow that index.
- `KDTree.Insert` requires `m >= 1` and a point of `k` coordinates. The constructor accepts any `k` and `m`, as kd.py:40-46 does.
- `KDTree.Delete` requires a non-empty tree, because on an empty tree kd.py:127 reads the data of `None`. It also requires a point of `k` coordinates, as the descent at kd.py:119 indexes it on split axes below `k`. A point that is not in the reached leaf is modelled: the tree is then unchanged.
- `KDTree.Knn` requires a non-empty tree, `count >= 1` and a point of `k` coordinates:
  - On an empty tree, kd.py:205 reads the children of `None`.
  - For `count = 0`, kd.py:188 and kd.py:211 index the last entry of an empty list.
  - A negative `count` on a tree that is a single leaf returns one leaf checked and an empty list. The model does not cover that case.
- The split value is a Python float. It is modelled as an exact `real`: `(a+b)/2` of two integers is exact as a real, and the rounding of very large integers to floats is not modelled.
- The bounding box of kd.py is a list of `[min, max]` pairs whose two halves are written one after the other. It is modelled as `Extent = Unset | Extent(lo, hi)`. Both halves go from `None` to a value on the same datum, so neither half is ever set without the other.
- `GetBoundingBox` starts from a box of `|point|` axes. It requires every datum below the node to have at most that many coordinates: kd.py:240 would index past the box otherwise.

## Behaviour worth knowing

- **Facts about `kd.py` that are easy to misread.**
  - *Separation is only weak.* The split puts the first `(m+1)//2` data
    sorted on the axis in the left leaf. When the two middle values on
    that axis are equal, the median equals them, and a datum equal to the
    median goes left. So left data are at most the split value, not
    strictly below it. The model keeps the weak invariant always
    (`KdSpec.InsertKeepsInv`). It keeps the strict one only when each
    split has distinct middle values.
  - *Left leaf size.* The left leaf gets `floor((m+1)/2)` data (kd.py:97).
  - *Candidate order.* A candidate is inserted before the first strictly
    farther entry (kd.py:192), so the list is ordered by distance only.
    The code breaks ties only to decide whether a full list drops its last
    entry (kd.py:188). `KnnIsExact` states the distance order and makes no
    claim about code order.
  - *Box test.* The box test uses the half-open `range(lo, hi)`
    (kd.py:252). A coordinate equal to `hi` still adds zero
    (`Geometry.AxisGapClosed`), so the bound is unaffected.
- **A stored point that delete cannot find.**
  - The scenario: with `k = 2` and `m = 2`, insert (0,0) "a", (0,1) "b" and (5,2) "c".
  - The third insert splits on axis 0 at the median 0.0, with only (0,0) on the left.
  - A search for (0,0) goes right on equality (kd.py:119-124), so `delete((0,0))` reaches the right leaf and removes nothing.
  - `KdScenario.DeleteMissesLeftEqualDatum` proves this whole sequence on the model.
  - `KdSpec.StrictDeleteRemoves` states when deletion finds any stored datum: whenever every split is strict.
  - Deleting the datum inserted last always finds it, ties or not (`KdSpec.DeleteUndoesInsert`). The stable sort keeps it after every datum with an equal coordinate, so it goes left at the new split only when it is strictly below the median. In the scenario the miss hits (0,0), a datum that was already in the leaf when the split put it left at a tie.
