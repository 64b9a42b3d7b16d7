# 2-d tree point index and percolation grid, in Dafny

This project models three small C++ cores and proves what they compute.

**The 2-d tree** (`Node` and `Tree`). An unbalanced binary partition tree over
points in the plane.
- Each node splits on one axis. The root splits on x, and the axis alternates
  with depth.
- A point goes left of a node exactly when its coordinate on the node's axis
  is strictly smaller than the node's.
- `twodtree.dfy` keeps the nodes on the heap and proves insertion against a
  value model in `kdspec.dfy`. That model is a `KdTree` datatype with
  `Insert`, `Find` and `Within` (the points a rectangle selects).

**The geometry and the two point sets.**
- `geometry.dfy` holds `Point`, with its lexicographic order, and `Rect`,
  with containment, distance to a point and splitting by a line.
- `kdpointset.dfy` is `kdtree::PointSet`. It is a set of points in a 2-d tree
  with a count, a running bounding box and the points in insertion order. It
  answers `contains`, `range`, `nearest(p)` and `nearest(p, k)` by pruned
  recursive descent.
  - The nearest-neighbour searches mark the current best node as not alive
    while they run, and revive it later.
  - That marking is modelled on the heap: which nodes are marked at each step
    is part of the contracts.
- `rbpointset.dfy` is `rbtree::PointSet`, the brute-force set that answers
  each query by scanning all points.
- `oracle.dfy` proves the two sets' contracts agree:
  - `range` gives the same multiset of points;
  - `nearest(p)` gives the same distance;
  - `nearest(p, k)` gives the same distances, position by position.

**The percolation grid** (`percolation.dfy`). An n-by-n table of locked, open
and full cells, with a count of opened cells.
- Opening a cell counts it.
- The cell becomes full when it is in the bottom row or has a full neighbour.
  An explicit stack then spreads the fill to every open cell it reaches.
- The system percolates when a cell of the top row is full.
- The class keeps the table as an `array2` and is proved against a map from
  sites to cells. The invariant it keeps gives two results:
  - a cell is full exactly when a chain of unlocked cells joins it to the
    bottom row;
  - `has_percolation` answers exactly whether such a chain reaches the top
    row.

Coordinates are unbounded integers. `Point::distance` takes a square root and
is only ever compared, so the model uses squared distances throughout; they
order exactly as the distances do.

## Model

| member | source | states |
|---|---|---|
| Geometry.Trichotomy | 2d-tree-SergeyZabiyakin/include/primitives.h:42-60 | exactly one of `<`, `==`, `>` holds of two points, and `>` is `<` with the arguments swapped |
| Geometry.LessTransitive | 2d-tree-SergeyZabiyakin/include/primitives.h:42-44 | the lexicographic `<` is transitive, so it is a strict total order |
| Geometry.LessEqIsNotGreater | 2d-tree-SergeyZabiyakin/include/primitives.h:50-56 | `<=` is the negation of `>` and `>=` the negation of `<` |
| Geometry.SqDist | 2d-tree-SergeyZabiyakin/include/primitives.h:38-40 | the squared distance is non-negative and zero exactly for equal points |
| Geometry.SqDistSymmetric | 2d-tree-SergeyZabiyakin/include/primitives.h:38-40 | the distance does not depend on the order of its two points |
| Geometry.FromCorners | 2d-tree-SergeyZabiyakin/include/primitives.h:79-84 | the rectangle contains exactly the points between the corners, edges included; it is well formed iff the corners are in order, and then it contains both corners |
| Geometry.RectSqDist | 2d-tree-SergeyZabiyakin/include/primitives.h:102-114 | the distance to a rectangle is non-negative and zero for a point it contains |
| Geometry.RectSqDistLowerBound | 2d-tree-SergeyZabiyakin/include/primitives.h:102-114 | the distance from p to a rectangle is at most the distance from p to any point in the rectangle (the pruning bound) |
| Geometry.CornerBound | 2d-tree-SergeyZabiyakin/include/primitives.h:110-113 | for p outside both ranges of the rectangle, the nearest corner bounds the distance to every point of the rectangle |
| Geometry.RectSqDistZero | 2d-tree-SergeyZabiyakin/include/primitives.h:102-118 | on a well-formed rectangle the distance is zero exactly for the points it contains |
| Geometry.SplitX | 2d-tree-SergeyZabiyakin/include/primitives.h:131-140 | a point left of the line is in the rectangle iff it is in the left side; a point on or right of it iff it is in the right side; both sides lie inside the rectangle |
| Geometry.SplitY | 2d-tree-SergeyZabiyakin/include/primitives.h:142-151 | the same three facts for the horizontal line |
| Geometry.SplitXCases | 2d-tree-SergeyZabiyakin/include/primitives.h:131-140 | a line inside the range yields [xmin, x] and [x, xmax]; past xmax it yields (self, none) and before xmin (none, self); every point of the rectangle is in a side |
| Geometry.SplitYCases | 2d-tree-SergeyZabiyakin/include/primitives.h:142-151 | the same four facts on the y axis |
| KdSpec.InsertPoints | 2d-tree-SergeyZabiyakin/src/2dtree.cpp:53-67 | insertion adds p to the stored multiset once and adds one node |
| KdSpec.InsertOrdered | 2d-tree-SergeyZabiyakin/src/2dtree.cpp:53-67 | insertion keeps the per-axis search invariant: left points strictly below the node, right points at or above it |
| KdSpec.InsertAlternating | 2d-tree-SergeyZabiyakin/src/2dtree.cpp:45-67 | insertion keeps every node's axis equal to its depth mod 2 |
| KdSpec.InsertAddsOneLeaf | 2d-tree-SergeyZabiyakin/src/2dtree.cpp:53-67 | insertion adds exactly one node, holding p, at a previously empty slot; every old node keeps its point, axis and other child |
| KdSpec.FindCorrect | 2d-tree-SergeyZabiyakin/include/primitives.h:461-476 | on an ordered tree the single-path descent finds a point iff it is stored |
| KdSpec.WithinFilter | 2d-tree-SergeyZabiyakin/include/primitives.h:502-523 | what a side selects is the stored points it contains, with their multiplicities |
| KdSpec.WithinNone | 2d-tree-SergeyZabiyakin/include/primitives.h:503-505 | an absent side selects nothing |
| KdSpec.RangeStep | 2d-tree-SergeyZabiyakin/include/primitives.h:506-522 | what a rectangle selects is the root if contained, plus what each subtree selects from its side of the split |
| KdSpec.SplitSeparates | 2d-tree-SergeyZabiyakin/include/primitives.h:510-515 | the split on a node's axis keeps each subtree's points exactly in its own side |
| KdSpec.NoDupParts | 2d-tree-SergeyZabiyakin/include/primitives.h:385-391 | a tree storing no point twice stores none twice in its subtrees, and none in both or at the root as well |
| KdSpec.CountPoints | 2d-tree-SergeyZabiyakin/include/primitives.h:525 | the number of nodes is the number of stored points |
| TwoDTree.Node.constructor | 2d-tree-SergeyZabiyakin/src/2dtree.cpp:4-6 | a new node holds the given point and axis, has no children and is alive |
| TwoDTree.Node.SetAlive | 2d-tree-SergeyZabiyakin/src/2dtree.cpp:40-42 | afterwards `isAlive()` answers the value set |
| TwoDTree.Node.SetLeftNode | 2d-tree-SergeyZabiyakin/src/2dtree.cpp:20-22 | the left child becomes the given node |
| TwoDTree.Node.SetRightNode | 2d-tree-SergeyZabiyakin/src/2dtree.cpp:24-26 | the right child becomes the given node |
| TwoDTree.DependenceStrict | 2d-tree-SergeyZabiyakin/src/2dtree.cpp:32-38 | a point level with the node on its axis, the node's own point included, never goes left |
| TwoDTree.ReprPoints | 2d-tree-SergeyZabiyakin/src/2dtree.cpp:53-67 | the subtree's nodes hold exactly the points of its value |
| TwoDTree.ReprCount | 2d-tree-SergeyZabiyakin/src/2dtree.cpp:53-67 | a subtree has one node per stored point |
| TwoDTree.ReprInjective | 2d-tree-SergeyZabiyakin/include/primitives.h:385-391 | when no point is stored twice, no two nodes hold the same point |
| TwoDTree.SamePointSameNode | 2d-tree-SergeyZabiyakin/include/primitives.h:385-391 | two nodes of such a tree holding the same point are one node |
| TwoDTree.StillValid | 2d-tree-SergeyZabiyakin/include/primitives.h:480-486 | flipping `alive` flags leaves the tree's structure valid |
| TwoDTree.Tree.constructor | 2d-tree-SergeyZabiyakin/include/primitives.h:354-365 | a new tree is empty |
| TwoDTree.Tree.Put | 2d-tree-SergeyZabiyakin/src/2dtree.cpp:45-51 | the tree becomes `Insert(old, p, 0)`: an empty tree gets p as a root on axis 0; only fresh, alive nodes join; when every node was alive, every node still is; an existing root stays the root |
| TwoDTree.Tree.ReallyPut | 2d-tree-SergeyZabiyakin/src/2dtree.cpp:53-67 | the subtree becomes the value insertion gives, with only fresh alive nodes added |
| TwoDTree.Tree.DescendLeft | 2d-tree-SergeyZabiyakin/src/2dtree.cpp:54-56 | the recursive left case of `reallyPut` gives the inserted value |
| TwoDTree.Tree.DescendRight | 2d-tree-SergeyZabiyakin/src/2dtree.cpp:60-62 | the recursive right case gives the inserted value |
| TwoDTree.Tree.AttachLeft | 2d-tree-SergeyZabiyakin/src/2dtree.cpp:57-59 | a new left child on the next axis gives the inserted value |
| TwoDTree.Tree.AttachRight | 2d-tree-SergeyZabiyakin/src/2dtree.cpp:63-65 | a new right child on the next axis gives the inserted value |
| KdPointSet.PointSet.constructor | 2d-tree-SergeyZabiyakin/include/primitives.h:373-375 | a new set is valid, with no points and size 0 |
| KdPointSet.PointSet.Empty | 2d-tree-SergeyZabiyakin/include/primitives.h:377-379 | true iff no point has been put |
| KdPointSet.PointSet.Cardinality | 2d-tree-SergeyZabiyakin/include/primitives.h:381-383 | the number of distinct points put |
| KdPointSet.PointSet.Put | 2d-tree-SergeyZabiyakin/include/primitives.h:385-396 | a new point joins the order, size grows by one and the box widens to hold it; a present point changes nothing; afterwards the box holds p; the only nodes added are new ones |
| KdPointSet.PointSet.PutNew | 2d-tree-SergeyZabiyakin/include/primitives.h:386-395 | the fresh-point branch keeps the set valid, appends p and widens the box |
| KdPointSet.PointSet.Record | 2d-tree-SergeyZabiyakin/include/primitives.h:387-394 | the box widens to take in p, p is appended and the count grows by one |
| KdPointSet.PointSet.WidenBox | 2d-tree-SergeyZabiyakin/include/primitives.h:387-390 | the box becomes `Widen` of the old box and p |
| KdPointSet.PointSet.Contains | 2d-tree-SergeyZabiyakin/include/primitives.h:398-401 | true iff p has been put; false on an empty set |
| KdPointSet.PointSet.UtilityForContains | 2d-tree-SergeyZabiyakin/include/primitives.h:461-476 | the descent computes the value-level descent `Find`, and answers iff p is stored in the subtree |
| KdPointSet.PointSet.Range | 2d-tree-SergeyZabiyakin/include/primitives.h:403-409 | exactly the stored points the rectangle contains, each once |
| KdPointSet.PointSet.Nearest | 2d-tree-SergeyZabiyakin/include/primitives.h:419-427 | none iff the set is empty; otherwise a stored point no farther from p than any stored point; all nodes alive again |
| KdPointSet.PointSet.RootOf | 2d-tree-SergeyZabiyakin/src/2dtree.cpp:69-71 | the root of a non-empty set holds every point once and can be searched over the box |
| KdPointSet.PointSet.NearestK | 2d-tree-SergeyZabiyakin/include/primitives.h:429-448 | Min(k, size) distinct stored points, in order of distance, none farther than a stored point left out; all nodes alive again |
| KdPointSet.PointSet.NearestSome | 2d-tree-SergeyZabiyakin/include/primitives.h:433-447 | for 0 < k <= size: k answers with the same properties |
| KdPointSet.UtilityForRange | 2d-tree-SergeyZabiyakin/include/primitives.h:502-523 | what it appends is exactly the subtree's points the working rectangle selects |
| KdPointSet.RangeChild | 2d-tree-SergeyZabiyakin/include/primitives.h:517-522 | descending into a child, or not when there is none, appends what the child's side selects |
| KdPointSet.Restored | 2d-tree-SergeyZabiyakin/include/primitives.h:443-446 | a query that only flips flags and leaves them all set keeps the set valid |
| KdPointSet.UtilityForNearest | 2d-tree-SergeyZabiyakin/include/primitives.h:478-500 | afterwards the bound only shrank and the best node is no farther than any eligible node of the subtree; the flags mark exactly the best |
| KdPointSet.Descend | 2d-tree-SergeyZabiyakin/include/primitives.h:488-499 | after both sides, no eligible node below the node is nearer than the bound |
| KdPointSet.RightSide | 2d-tree-SergeyZabiyakin/include/primitives.h:497-499 | after the right side, no eligible node below the right child is nearer than the bound |
| KdPointSet.Visit | 2d-tree-SergeyZabiyakin/include/primitives.h:480-487 | an alive, strictly nearer node becomes the best and is marked, and the old best is revived |
| KdPointSet.NearestSide | 2d-tree-SergeyZabiyakin/include/primitives.h:494-499 | a side searched or pruned leaves no eligible node below the child nearer than the bound |
| KdPointSet.Pruned | 2d-tree-SergeyZabiyakin/include/primitives.h:494-498 | a side no nearer than the bound holds no eligible node nearer than it |
| KdPointSet.ChildSides | 2d-tree-SergeyZabiyakin/include/primitives.h:488-493 | each child's nodes lie in that child's side of the split |
| KdPointSet.NearestNode | 2d-tree-SergeyZabiyakin/include/primitives.h:421-426 | the node found is no farther from p than any node, and all nodes are alive again |
| KdPointSet.NearestNodes | 2d-tree-SergeyZabiyakin/include/primitives.h:434-446 | k distinct nodes in order of distance, each no farther than any node not stacked; all nodes alive again |
| KdPointSet.SearchOnce | 2d-tree-SergeyZabiyakin/include/primitives.h:436-440 | the node found is new, nearest among those not yet found, and now marked |
| KdPointSet.Revive | 2d-tree-SergeyZabiyakin/include/primitives.h:443-446 | popping the stack and reviving each node leaves every node alive |
| KdPointSet.AnswerMore | 2d-tree-SergeyZabiyakin/include/primitives.h:435-442 | one more search keeps the answers distinct, ordered by distance and no farther than anything not found |
| KdPointSet.OnStack | 2d-tree-SergeyZabiyakin/include/primitives.h:434-442 | the nodes found are exactly the stacked nodes |
| KdPointSet.NearestPoints | 2d-tree-SergeyZabiyakin/include/primitives.h:440-441 | the stacked nodes' points are distinct stored points, none farther than an unanswered stored point |
| KdPointSet.NotAnswered | 2d-tree-SergeyZabiyakin/include/primitives.h:440-441 | a node whose point was not answered is not on the stack |
| KdPointSet.SearchableTree | 2d-tree-SergeyZabiyakin/include/primitives.h:478-499 | every node of a valid ordered tree has the shape the search relies on |
| KdPointSet.Subtrees | 2d-tree-SergeyZabiyakin/src/2dtree.cpp:53-67 | every node of a valid ordered subtree is itself a valid ordered subtree |
| KdPointSet.Widen | 2d-tree-SergeyZabiyakin/include/primitives.h:387-390 | the new box holds p and the old box; a first put gives the box of p alone |
| KdPointSet.WidenSmallest | 2d-tree-SergeyZabiyakin/include/primitives.h:387-390 | the widened box is the smallest: any rectangle holding p and the old box's corners holds all of it |
| KdPointSet.PutConsistent | 2d-tree-SergeyZabiyakin/include/primitives.h:385-395 | putting a new point keeps tree, order, count and box consistent |
| KdPointSet.PutTree | 2d-tree-SergeyZabiyakin/include/primitives.h:391 | the tree after insertion stays ordered and alternating and stores each point of the longer order once |
| KdPointSet.PutBox | 2d-tree-SergeyZabiyakin/include/primitives.h:387-390 | the widened box holds every point put |
| KdPointSet.NoDupAdd | 2d-tree-SergeyZabiyakin/include/primitives.h:386-391 | adding a point not yet stored keeps every count at one |
| KdPointSet.DistinctFromCounts | 2d-tree-SergeyZabiyakin/include/primitives.h:403-409 | an answer in which no point occurs twice repeats no index |
| RbPointSet.SetInsert | 2d-tree-SergeyZabiyakin/include/primitives.h:239 | inserting into the ordered set keeps it strictly increasing and adds exactly p |
| RbPointSet.PointSet.constructor | 2d-tree-SergeyZabiyakin/include/primitives.h:225-227 | a new set is valid and empty |
| RbPointSet.PointSet.Empty | 2d-tree-SergeyZabiyakin/include/primitives.h:229-231 | true iff no point has been put |
| RbPointSet.PointSet.Cardinality | 2d-tree-SergeyZabiyakin/include/primitives.h:233-235 | the number of distinct points, in the set and in the order |
| RbPointSet.PointSet.Contains | 2d-tree-SergeyZabiyakin/include/primitives.h:246-248 | the look-up in the ordered set agrees with the insertion order |
| RbPointSet.PointSet.Put | 2d-tree-SergeyZabiyakin/include/primitives.h:237-244 | a new point joins the set, the order and the count; a present point changes nothing; afterwards p is contained |
| RbPointSet.PointSet.Range | 2d-tree-SergeyZabiyakin/include/primitives.h:250-259 | exactly the stored points the rectangle contains, in increasing order (so each once) |
| RbPointSet.PointSet.Nearest | 2d-tree-SergeyZabiyakin/include/primitives.h:269-280 | none iff empty; otherwise a stored point no farther than any, and strictly nearer than every smaller point |
| RbPointSet.PointSet.NearestKAsWritten | 2d-tree-SergeyZabiyakin/include/primitives.h:283-305 | k answers; the first Min(k, size) are distinct, ordered by distance and no farther than any left out; every answer past size is the first point put |
| RbPointSet.PointSet.NearestK | 2d-tree-SergeyZabiyakin/include/primitives.h:283-305 | with k clamped: Min(k, size) distinct stored points, ordered by distance, none farther than one left out |
| RbPointSet.Rounds | 2d-tree-SergeyZabiyakin/include/primitives.h:284-303 | k rounds pick Min(k, size) distinct indices, each nearest among the unpicked; later rounds repeat the first point |
| RbPointSet.Scan | 2d-tree-SergeyZabiyakin/include/primitives.h:288-299 | while a point is unmarked it finds an unmarked one nearest among them; when all are marked it falls back to index 0 |
| RbPointSet.PickMore | 2d-tree-SergeyZabiyakin/include/primitives.h:300-302 | one more round keeps the picks distinct, ordered and nearest among those left |
| RbPointSet.Answers | 2d-tree-SergeyZabiyakin/include/primitives.h:283-305 | distinct picks name distinct points, and a point not answered is no nearer than an answer |
| RbPointSet.Pigeonhole | 2d-tree-SergeyZabiyakin/include/primitives.h:292-299 | fewer picks than points leave one unpicked; as many pick all |
| RbPointSet.RepeatsFirstPoint | 2d-tree-SergeyZabiyakin/include/primitives.h:283-305 | one point put and two asked for: the answer repeats that point |
| RbPointSet.ClampedAnswer | 2d-tree-SergeyZabiyakin/include/primitives.h:283-305 | the same input with k clamped answers the point once |
| Oracle.RangeAgree | 2d-tree-SergeyZabiyakin/include/primitives.h:403-409 | two answers meeting the contract of `range` (the 2-d tree's and the brute-force one's) are the same multiset |
| Oracle.SortedDistinct | 2d-tree-SergeyZabiyakin/include/primitives.h:250-259 | the brute-force range, being strictly increasing, answers each point once |
| Oracle.NearestAgree | 2d-tree-SergeyZabiyakin/include/primitives.h:269-280 | the two `nearest(p)` answers are equally far from p |
| Oracle.NearestKAgree | 2d-tree-SergeyZabiyakin/include/primitives.h:283-305 | two `nearest(p, k)` answers of the same length agree distance by distance |
| Oracle.NoNearer | 2d-tree-SergeyZabiyakin/include/primitives.h:429-448 | the i-th answer of one is no farther than the i-th answer of the other |
| Oracle.Compare | 2d-tree-SergeyZabiyakin/include/primitives.h:403-448 | after the same puts into both sets, the two `range`s give the same multiset (the points put that the rectangle contains), both `nearest(p)`s answer or neither and at the same distance, and the two `nearest(p, k)`s agree distance by distance |
| Oracle.CompareRange | 2d-tree-SergeyZabiyakin/include/primitives.h:403-409 | over the same insertion order the two `range`s give the same multiset of points |
| Oracle.CompareNearest | 2d-tree-SergeyZabiyakin/include/primitives.h:419-427 | over the same insertion order both `nearest(p)`s answer iff the set is non-empty, at the same distance |
| Oracle.CompareNearestK | 2d-tree-SergeyZabiyakin/include/primitives.h:429-448 | over the same insertion order the two `nearest(p, k)`s have the same length, at most k, and agree distance by distance |
| Oracle.Fill | 2d-tree-SergeyZabiyakin/include/primitives.h:385-396 | putting the same points into both sets leaves them valid with the same insertion order, made of exactly the points put |
| Oracle.PutBoth | 2d-tree-SergeyZabiyakin/include/primitives.h:385-396 | one put into both sets keeps their orders equal and adds p to them |
| Percolation.FedIgnoresSelf | percolation-SergeyZabiyakin/src/Percolation.cpp:17-21 | whether a cell is fed does not depend on its own state |
| Percolation.Neighbours | percolation-SergeyZabiyakin/src/Percolation.cpp:33-44 | the cells pushed are exactly the open orthogonal neighbours |
| Percolation.Reaches | percolation-SergeyZabiyakin/src/Percolation.cpp:17-44 | every full cell is joined to the bottom row by a chain of unlocked cells |
| Percolation.Drains | percolation-SergeyZabiyakin/src/Percolation.cpp:24-46 | every cell joined to the bottom row by unlocked cells is full |
| Percolation.FullIffConnected | percolation-SergeyZabiyakin/src/Percolation.cpp:13-48 | a cell is full iff a chain of unlocked cells joins it to the bottom row |
| Percolation.PercolatesIffTopFull | percolation-SergeyZabiyakin/src/Percolation.cpp:62-69 | the system percolates iff a cell of the top row is full |
| Percolation.AllLocked | percolation-SergeyZabiyakin/src/Percolation.cpp:4-11 | a table of locked cells is a consistent grid with no opened cells |
| Percolation.UnlockCount | percolation-SergeyZabiyakin/src/Percolation.cpp:14-16 | unlocking a locked cell adds one opened cell |
| Percolation.FillOnlyOpened | percolation-SergeyZabiyakin/src/Percolation.cpp:24-46 | the flood fill does not change the number of opened cells |
| Percolation.FillShrinks | percolation-SergeyZabiyakin/src/Percolation.cpp:32 | filling an open cell removes it from the open-only cells |
| Percolation.UnlockStarved | percolation-SergeyZabiyakin/src/Percolation.cpp:14-23 | opening a cell that is not fed keeps the grid consistent |
| Percolation.UnlockFed | percolation-SergeyZabiyakin/src/Percolation.cpp:14-26 | opening a fed cell fills it, records it as joined to the bottom, and leaves only its open neighbours unfilled next to a full cell |
| Percolation.FrontierStep | percolation-SergeyZabiyakin/src/Percolation.cpp:28-44 | after a round, every open cell next to a full cell is on the stack or the full cell is |
| Percolation.AboveStep | percolation-SergeyZabiyakin/src/Percolation.cpp:28-44 | after a round, each full stacked cell still has its open neighbours above it |
| Percolation.AboveKeeps | percolation-SergeyZabiyakin/src/Percolation.cpp:28-29 | popping the top keeps a lower cell's neighbours above it |
| Percolation.StackedStep | percolation-SergeyZabiyakin/src/Percolation.cpp:28-44 | after a round, each stacked cell is unlocked and full or next to a full cell |
| Percolation.SupportStep | percolation-SergeyZabiyakin/src/Percolation.cpp:32 | filling the popped open cell records it with the full neighbour it was pushed from |
| Percolation.NothingToPush | percolation-SergeyZabiyakin/src/Percolation.cpp:33-44 | a full cell on top of the stack after the first round pushes nothing |
| Percolation.Step | percolation-SergeyZabiyakin/src/Percolation.cpp:28-44 | a round keeps the fill's invariant, only fills open cells and decreases the rank |
| Percolation.FillStep | percolation-SergeyZabiyakin/src/Percolation.cpp:32 | filling a stacked cell only turns an open cell full |
| Percolation.Begin | percolation-SergeyZabiyakin/src/Percolation.cpp:25-26 | the fill starts from the full cell alone on the stack |
| Percolation.Settled | percolation-SergeyZabiyakin/src/Percolation.cpp:27-46 | once the stack is empty the grid is consistent: no open cell is next to a full one |
| Percolation.Percolation.constructor | percolation-SergeyZabiyakin/src/Percolation.cpp:4-11 | a freshly allocated table of the given size, every cell locked and nothing counted |
| Percolation.Percolation.Clean | percolation-SergeyZabiyakin/src/Percolation.cpp:71-78 | every cell locked again and nothing counted |
| Percolation.Percolation.IsOpen | percolation-SergeyZabiyakin/src/Percolation.cpp:50-52 | true iff the cell is not locked |
| Percolation.Percolation.IsFull | percolation-SergeyZabiyakin/src/Percolation.cpp:54-56 | true iff the cell is full; a full cell is open |
| Percolation.Percolation.FullMeansConnected | percolation-SergeyZabiyakin/src/Percolation.cpp:54-56 | `is_full` holds iff unlocked cells join the cell to the bottom row |
| Percolation.Percolation.NumberOfOpenCells | percolation-SergeyZabiyakin/src/Percolation.cpp:58-60 | the count equals the number of cells not locked |
| Percolation.Percolation.HasPercolation | percolation-SergeyZabiyakin/src/Percolation.cpp:62-69 | true iff a top-row cell is full, which is iff the system percolates |
| Percolation.Percolation.Open | percolation-SergeyZabiyakin/src/Percolation.cpp:13-48 | a locked cell is counted once and becomes full iff it is fed; an unlocked cell changes nothing; other cells only go from open to full; the invariant holds afterwards, so no open cell is next to a full one |
| Percolation.OpenColumn | percolation-SergeyZabiyakin/src/Percolation.cpp:13-69 | on a 2 by 2 grid, opening the bottom and then the top cell of a column makes the system percolate |
| Percolation.Percolation.OpenLocked | percolation-SergeyZabiyakin/src/Percolation.cpp:14-47 | the locked-cell branch of `open`, with the same promises |
| Percolation.Percolation.Write | percolation-SergeyZabiyakin/src/Percolation.cpp:16-32 | storing one cell changes that site of the grid and no other |
| Percolation.Percolation.Unlock | percolation-SergeyZabiyakin/src/Percolation.cpp:14-23 | the count grows by one and the cell becomes full if fed, open otherwise |
| Percolation.Percolation.Feeds | percolation-SergeyZabiyakin/src/Percolation.cpp:17-21 | the source's five-way test is exactly whether the cell is fed |
| Percolation.Percolation.Fill | percolation-SergeyZabiyakin/src/Percolation.cpp:32-44 | the cell becomes full and its open neighbours are returned, in push order |
| Percolation.Percolation.Pushes | percolation-SergeyZabiyakin/src/Percolation.cpp:33-44 | the open neighbours below, right, above and left, in that order |
| Percolation.Percolation.Flood | percolation-SergeyZabiyakin/src/Percolation.cpp:24-46 | the fill terminates, only turns open cells full, and leaves the grid consistent |
| Percolation.Percolation.Round | percolation-SergeyZabiyakin/src/Percolation.cpp:28-44 | one pop-fill-push round keeps the fill's invariant and decreases the rank |

## Left out

- Floating point: coordinates are unbounded integers. `Point::distance` is replaced by the squared distance, which orders the same way. `std::abs`, `min` and `sqrt` on doubles are not modelled.
- The `minDistance` sentinel `numeric_limits<double>::max()` becomes `Bound.Infinite`, larger than every distance.
- The bounding box of `kdtree::PointSet` starts at the sentinels `max()` and `min()`. `min()` is the smallest positive double, so the source's box can be wider than the points' bounding box. The model sets the box to the first point put and widens it from there. Both boxes contain every point put, which is all the searches need. The choice of box cannot change an answer either: a best node is replaced only by a strictly nearer one (primitives.h:480), and a side is skipped only when its bound is no smaller than the best distance so far (primitives.h:494, 497), so no skipped node could have replaced it. The answer is therefore the first node in node-left-right order that reaches the minimum, whichever sound box is used. The contracts state the minimum but do not fix this tie-break.
- KdPointSet.PointSet.Range: requires a non-empty set, because the source dereferences the root of an empty tree.
- KdPointSet.UtilityForNearest: the `std::stack` of candidates is passed by reference and only its top changes, so the model passes the top node and returns the new one.
- `Iterator`: results and the insertion-order view are `seq<Point>`. The iterator's `operator=`, `begin()` and `end()` are not modelled separately.
- `operator<<` for both point sets: stream output, and its loop never advances.
- `shared_ptr` reference counting: each node is owned by its one parent.
- `Point` and `Node` getters (`x()`, `getPoint()`, `getLeftNode()`) and `Rect` accessors are fields of the model.
- `Rect::intersects` is not used by the index and is not modelled.
- RbPointSet.PointSet.Nearest: the source's first candidate is `*iterator`, read one past the end of the insertion-order vector. The model starts from the first point of the ordered set instead. The first point scanned always replaces the candidate, so the answer is the same.
- RbPointSet.PointSet.NearestKAsWritten: requires k to be 0 on an empty set, because the source reads the first point of an empty vector.
- RbPointSet.SetInsert: the `std::set` is a strictly increasing sequence, and its insertion is a sorted insertion rather than a red-black tree.
- `PercolationStats` and the random generator are a Monte Carlo driver over the grid. They are not modelled.
- Percolation.Percolation.Open: requires in-range indices; the source indexes the table unchecked.
- The flood fill binds `stack.top()` by reference and then pops it. The model reads the popped cell as a value.
- Percolation.Percolation.Clean: allocates a fresh table instead of reassigning the rows in place; the cells and the count come out the same.
- `size_t` counts (`Size`, `open_cells`, `dimension`) are unbounded naturals; wrap-around is not modelled.
- Percolation.Percolation.Flood: the full cells are recorded in ghost fields, each with the neighbour it filled from. That record is the proof that a full cell is joined to the bottom row; the source keeps no such record.

## Findings

| source | as written | input that shows it | evidently intended | confidence | as-written member | corrected member |
|---|---|---|---|---|---|---|
| 2d-tree-SergeyZabiyakin/include/primitives.h:283-305 | the brute-force `nearest(p, k)` runs k rounds without clamping k to the size; once every point is marked a round finds nothing and appends the first point put again | one point (0, 0) put and `nearest((1, 1), 2)` asked: the answer is [(0, 0), (0, 0)] | clamp k to the size, as the 2-d tree's `nearest(p, k)` does (lines 430-432), and answer [(0, 0)] | not executed | RbPointSet.PointSet.NearestKAsWritten, RbPointSet.RepeatsFirstPoint | RbPointSet.PointSet.NearestK, RbPointSet.ClampedAnswer |
