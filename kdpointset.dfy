/**
 * The state of a nearest-neighbour search in the 2-d tree: the distance
 * bound, the `alive` flags while a search runs, and the shape facts about
 * the tree's nodes that the search relies on.
 */
module KdSearch {
  import opened Geometry
  import opened KdSpec
  import opened TwoDTree

  /** The bound `minDistance` starts from: `numeric_limits<double>::max()`
      is "no candidate yet", larger than every (squared) distance. */
  datatype Bound = Infinite | Finite(v: int)

  /** `d < minDistance`. */
  predicate Below(d: int, b: Bound) {
    b.Infinite? || d < b.v
  }

  /** `minDistance <= d`: there is a candidate and it is no farther than d. */
  predicate AtMost(b: Bound, d: int) {
    b.Finite? && b.v <= d
  }

  /** The bound never grows. */
  predicate NoLarger(b: Bound, c: Bound) {
    c.Infinite? || (b.Finite? && b.v <= c.v)
  }

  /** The state of the `alive` flags during one search, over the tree's
      nodes `all`: the eligible nodes `cand` are alive except the current
      best, `top`, which sits on the stack marked not alive; while there is
      no candidate the bound is infinite and `top` is the placeholder node
      pushed before the search, which is alive and not in the tree. */
  ghost predicate Searching(all: set<Node>, cand: set<Node>, top: Node, d: Bound, p: Point)
    reads all`alive, top`alive
  {
    && cand <= all
    && (forall n | n in all :: n.alive <==> n in cand && n != top)
    && (top in all ==> top in cand && d == Finite(SqDist(top.point, p)))
    && (top !in all ==> d == Infinite && top.alive)
  }

  /** What a search needs of one node of the nodes `all` it walks,
      stated so that it survives changes to the `alive` flags unaided: the
      node's footprint lies in `all` and is itself and its children's, the
      children are strictly below it, and the nodes below its left child
      hold points strictly below it on its axis, those below its right child
      points at or above it (what `Ordered` says of the tree value). */
  ghost predicate Shaped(n: Node, all: set<Node>)
    reads n`left, n`right, n`Repr, all`Repr
  {
    && n in n.Repr && n.Repr <= all
    && (n.left != null ==>
          && n.left in all && n.left.Repr <= n.Repr && n !in n.left.Repr
          && forall m | m in n.left.Repr :: Dependence(n.point, n.mod, m.point))
    && (n.right != null ==>
          && n.right in all && n.right.Repr <= n.Repr && n !in n.right.Repr
          && forall m | m in n.right.Repr :: !Dependence(n.point, n.mod, m.point))
    && n.Repr == {n} + (if n.left == null then {} else n.left.Repr)
                     + (if n.right == null then {} else n.right.Repr)
  }

  /** Every node the search walks is shaped. The trigger keeps the
      solver from unfolding the shape of every node it meets; a proof asks
      for one node's shape by naming it. */
  ghost predicate Searchable(all: set<Node>)
    reads all`left, all`right, all`Repr
  {
    forall n {:trigger Shaped(n, all)} | n in all :: Shaped(n, all)
  }
}

/**
 * `kdtree::PointSet`: a set of points kept in a 2-d tree, with the number
 * of points, a bounding box of everything put so far and the points in
 * insertion order (the vector behind the set's iterator). It answers
 * membership, range and nearest-neighbour queries by recursive descent,
 * pruning every subtree whose working rectangle cannot hold an answer.
 *
 * The nearest-neighbour search is the one part of the source that changes
 * the tree while it reads it: a node that is currently the best candidate
 * is marked not alive, so a later search skips it, and it is revived when
 * it is displaced or when the query is over.
 */
module KdPointSet {
  import opened Wrappers
  import opened KdSearch
  import opened Geometry
  import opened KdSpec
  import opened TwoDTree

  class PointSet {
    var Size: nat
    const tree: Tree
    /** The points in insertion order: what `begin()`..`end()` walk. */
    var order: seq<Point>
    var Xmin: int
    var Ymin: int
    var Xmax: int
    var Ymax: int

    /** The bounding box `Rect(Point(Xmin, Ymin), Point(Xmax, Ymax))`:
      the points between the two corners, edges included. */
    function Box(): (r: Rect)
      reads this
      ensures forall q :: Geometry.Contains(r, q) <==> Xmin <= q.x <= Xmax && Ymin <= q.y <= Ymax
    {
      FromCorners(Point(Xmin, Ymin), Point(Xmax, Ymax))
    }

    ghost predicate Valid()
      reads this, tree, tree.Repr`left, tree.Repr`right, tree.Repr`Repr, tree.Repr`View
      reads tree.Repr`alive
    {
      && tree.Valid()
      && Consistent(tree.View, order, Size, Box())
      && AllAlive(tree.Repr)
    }

    constructor ()
      ensures Valid() && fresh(tree) && fresh(tree.Repr) && Size == 0 && order == []
    {
      Size := 0;
      tree := new Tree();
      order := [];
      Xmin, Ymin, Xmax, Ymax := 0, 0, 0, 0;
    }

    /** `empty()`. */
    function Empty(): (b: bool)
      reads this, tree, tree.Repr`left, tree.Repr`right, tree.Repr`Repr, tree.Repr`View
      reads tree.Repr`alive
      requires Valid()
      ensures b <==> order == []
    {
      Size == 0
    }

    /** `size()`: the number of distinct points put. */
    function Cardinality(): (n: nat)
      reads this, tree, tree.Repr`left, tree.Repr`right, tree.Repr`Repr, tree.Repr`View
      reads tree.Repr`alive
      requires Valid()
      ensures n == |order|
    {
      Size
    }

    /** `put`: a point not yet present is added to the tree, to the
      insertion order and to the count, and the box widens to take it in;
      a point already present changes nothing. */
    method Put(p: Point)
      requires Valid()
      modifies this, tree, tree.Repr`left, tree.Repr`right, tree.Repr`Repr, tree.Repr`View
      ensures Valid() && fresh(tree.Repr - old(tree.Repr))
      ensures p in old(order) ==> order == old(order) && Size == old(Size) && Box() == old(Box())
      ensures p !in old(order) ==> order == old(order) + [p] && Size == old(Size) + 1
      ensures p !in old(order) ==> Box() == Widen(old(Box()), old(Size) == 0, p)
      ensures Geometry.Contains(Box(), p)
    {
      var present := Contains(p);
      if !present {
        PutNew(p);
      }
    }

    /** The branch of `put` for a point not yet present. */
    method PutNew(p: Point)
      requires Valid() && p !in order
      modifies this, tree, tree.Repr`left, tree.Repr`right, tree.Repr`Repr, tree.Repr`View
      ensures Valid() && fresh(tree.Repr - old(tree.Repr))
      ensures order == old(order) + [p] && Size == old(Size) + 1
      ensures Box() == Widen(old(Box()), old(Size) == 0, p)
    {
      PutConsistent(tree.View, order, Size, Box(), Widen(Box(), Size == 0, p), p);
      tree.Put(p);
      Record(p);
    }

    /** The bookkeeping of `put` around the insertion: the box widens, the
      point joins the insertion order and the count grows by one. */
    method Record(p: Point)
      modifies this`Xmin, this`Ymin, this`Xmax, this`Ymax, this`order, this`Size
      ensures Box() == Widen(old(Box()), old(Size) == 0, p)
      ensures order == old(order) + [p] && Size == old(Size) + 1
    {
      WidenBox(p);
      order := order + [p];
      Size := Size + 1;
    }

    /** The four comparisons of `put` that widen the box to take in p. */
    method WidenBox(p: Point)
      modifies this`Xmin, this`Ymin, this`Xmax, this`Ymax
      ensures Box() == Widen(old(Box()), Size == 0, p)
    {
      if Size == 0 {
        Xmin, Ymin, Xmax, Ymax := p.x, p.y, p.x, p.y;
      } else {
        if p.x < Xmin { Xmin := p.x; }
        if p.x > Xmax { Xmax := p.x; }
        if p.y < Ymin { Ymin := p.y; }
        if p.y > Ymax { Ymax := p.y; }
      }
    }

    /** `contains`: false on an empty set, otherwise the descent from the
      root. */
    method Contains(p: Point) returns (b: bool)
      requires Valid()
      ensures b <==> p in order
    {
      if Size == 0 {
        return false;
      }
      assert tree.root != null by {
        assert order[0] in multiset(order);
      }
      b := UtilityForContains(tree.root, p);
    }

    /** `utilityForContains`: stop at an equal point, else follow
      `dependence` to the one child an insertion of p would have reached;
      a missing child means p is absent. On an ordered tree this finds
      exactly the stored points. */
    method UtilityForContains(node: Node, p: Point) returns (b: bool)
      requires node.Valid() && Ordered(node.View)
      ensures b == Find(node.View, p)
      ensures b <==> p in Points(node.View)
      decreases node.Repr
    {
      if node.point == p {
        return true;
      }
      if Dependence(node.point, node.mod, p) {
        if node.left != null {
          b := UtilityForContains(node.left, p);
        } else {
          b := false;
        }
      } else {
        if node.right != null {
          b := UtilityForContains(node.right, p);
        } else {
          b := false;
        }
      }
    }

    /** `range`: the stored points the rectangle contains (edges included),
      each once. The source dereferences the root unconditionally, so the
      set must not be empty. */
    method Range(rect: Rect) returns (res: seq<Point>)
      requires Valid() && Size > 0
      ensures forall q :: q in res <==> q in order && Geometry.Contains(rect, q)
      ensures forall i, j | 0 <= i < j < |res| :: res[i] != res[j]
    {
      assert tree.root != null by {
        assert order[0] in multiset(order);
      }
      res := UtilityForRange(Some(rect), [], tree.root);
      forall q ensures multiset(res)[q] == if q in order && Geometry.Contains(rect, q) then 1 else 0 {
        WithinFilter(tree.View, Some(rect), q);
        assert q in order <==> q in multiset(order);
      }
      DistinctFromCounts(res);
    }

    /** `nearest(p)`: no answer on an empty set; otherwise a placeholder
      node for p is pushed, the search runs from the root over the box, and
      the best node found is revived and its point returned. The answer is
      a stored point no farther from p than any other stored point, and
      every `alive` flag is back as it was. */
    method Nearest(p: Point) returns (r: Option<Point>)
      requires Valid()
      modifies tree.Repr`alive
      ensures Valid()
      ensures r.None? <==> order == []
      ensures r.Some? ==> r.value in order
      ensures r.Some? ==> forall q | q in order :: SqDist(r.value, p) <= SqDist(q, p)
    {
      if Size == 0 {
        return None;
      }
      var root := RootOf();
      ghost var all := root.Repr;
      var best := NearestNode(root, Box(), p, all);
      Restored(this);
      r := Some(best.point);
      forall q | q in order ensures SqDist(best.point, p) <= SqDist(q, p) {
        var m :| m in all && m.point == q;
      }
    }

    /** The root of a non-empty set, with what the searches need of it. */
    method RootOf() returns (root: Node)
      requires Valid() && Size > 0
      ensures root == tree.root && root.Valid() && root.Repr == tree.Repr && root.View == tree.View
      ensures forall m | m in root.Repr :: Geometry.Contains(Box(), m.point)
      ensures root in root.Repr && Searchable(root.Repr)
      ensures forall m | m in root.Repr :: m.point in order
      ensures forall q | q in order :: exists m :: m in root.Repr && m.point == q
      ensures |root.Repr| == Size
      ensures forall a, b | a in root.Repr && b in root.Repr && a.point == b.point :: a == b
    {
      assert tree.root != null by {
        assert order[0] in multiset(order);
      }
      root := tree.root;
      ReprPoints(root);
      forall m | m in root.Repr ensures Geometry.Contains(Box(), m.point) {
        assert m.point in multiset(order);
      }
      forall q | q in order ensures exists m :: m in root.Repr && m.point == q {
        assert q in multiset(order);
      }
      SearchableTree(root);
      ReprCount(root);
      CountPoints(root.View);
      ReprInjective(root);
    }

    /** `nearest(p, k)`: k is first clamped to the size; then k searches
      run one after the other, each pushing a placeholder and leaving its
      answer on the stack marked not alive, so later searches skip it.
      Afterwards the whole stack is revived. The answers are k distinct
      stored points, each no farther from p than any stored point not
      already answered before it. */
    method NearestK(p: Point, k: nat) returns (res: seq<Point>)
      requires Valid()
      modifies tree.Repr`alive
      ensures Valid()
      ensures |res| == Min(k, |order|)
      ensures forall i | 0 <= i < |res| :: res[i] in order
      ensures forall i, j | 0 <= i < j < |res| :: res[i] != res[j]
      ensures forall i, j | 0 <= i < j < |res| :: SqDist(res[i], p) <= SqDist(res[j], p)
      ensures forall i, q | 0 <= i < |res| && q in order && q !in res :: SqDist(res[i], p) <= SqDist(q, p)
    {
      var k := k;
      if k > Size {
        k := Size;
      }
      res := [];
      if k == 0 {
        return;
      }
      res := NearestSome(p, k);
    }

    /** `nearest(p, k)` once k is clamped and positive: k searches, each
      skipping the nodes found before, then every found node revived. */
    method NearestSome(p: Point, k: nat) returns (res: seq<Point>)
      requires Valid() && 0 < k <= Size
      modifies tree.Repr`alive
      ensures Valid()
      ensures |res| == k
      ensures forall i | 0 <= i < |res| :: res[i] in order
      ensures forall i, j | 0 <= i < j < |res| :: res[i] != res[j]
      ensures forall i, j | 0 <= i < j < |res| :: SqDist(res[i], p) <= SqDist(res[j], p)
      ensures forall i, q | 0 <= i < |res| && q in order && q !in res :: SqDist(res[i], p) <= SqDist(q, p)
    {
      var root := RootOf();
      ghost var all := root.Repr;
      var stack;
      stack, res := NearestNodes(root, Box(), p, k, all);
      Restored(this);
      NearestPoints(all, order, stack, res, p);
    }
  }

  /** `utilityForRange`: append the node's point when the working
    rectangle contains it, split the rectangle on the node's axis and
    recurse into each child with its side; an absent side ends the
    descent. What is appended is exactly the subtree's points inside the
    rectangle. */
  method UtilityForRange(rect: Option<Rect>, acc: seq<Point>, node: Node) returns (out: seq<Point>)
    requires node.Valid() && Ordered(node.View)
    ensures multiset(out) == multiset(acc) + Within(node.View, rect)
    decreases node.Repr, 1
  {
    if rect.None? {
      WithinNone(node.View);
      return acc;
    }
    out := acc;
    if Geometry.Contains(rect.value, node.point) {
      out := out + [node.point];
    }
    ghost var here := out;
    var pair;
    if node.mod == 0 {
      pair := SplitX(rect.value, node.point.x);
    } else {
      pair := SplitY(rect.value, node.point.y);
    }
    RangeStep(node.View, rect.value);
    assert pair == SplitAt(rect.value, node.View.mod, node.View.point);
    ghost var mine := if Geometry.Contains(rect.value, node.point) then multiset{node.point} else multiset{};
    assert multiset(here) == multiset(acc) + mine;
    out := RangeChild(pair.0, out, node.left, node.View.left);
    ghost var middle := out;
    out := RangeChild(pair.1, out, node.right, node.View.right);
    SumOfParts(multiset(acc), mine, Within(node.View.left, pair.0), Within(node.View.right, pair.1),
               multiset(here), multiset(middle), multiset(out));
  }

  /** One half of a range step: descend into the child, when there is
    one, with its side of the split. */
  method RangeChild(side: Option<Rect>, acc: seq<Point>, child: Node?, ghost view: KdTree)
    returns (out: seq<Point>)
    requires child != null ==> child.Valid() && child.View == view
    requires child == null ==> view == Leaf
    requires Ordered(view)
    ensures multiset(out) == multiset(acc) + Within(view, side)
    decreases if child == null then {} else child.Repr, 2
  {
    if child != null {
      out := UtilityForRange(side, acc, child);
    } else {
      out := acc;
    }
  }

  /** A query that only flips `alive` flags and leaves them all set
      again keeps the set valid. */
  twostate lemma Restored(s: PointSet)
    requires old(s.Valid())
    requires unchanged(s, s.tree)
    requires forall n | n in old(s.tree.Repr) :: unchanged(n`left, n`right, n`Repr, n`View)
    requires AllAlive(s.tree.Repr)
    ensures s.Valid()
  {
    if s.tree.root != null {
      StillValid(s.tree.root);
    }
  }

  /** `utilityForNearest`: a node that is alive and nearer than the bound
    becomes the best so far, replacing the stack's top (which is
    revived); then each side of the split is searched when it exists,
    could hold something nearer than the bound, and has a child. The
    stack is passed by reference in the source and only its top changes,
    so the model takes the top and returns the new one; `sub` is the
    node's footprint, named once so that it need not be read again after
    the flags change. Afterwards the best node is no farther than any
    eligible node of the subtree and the bound only shrank. */
  method UtilityForNearest(rect: Rect, node: Node, top: Node, p: Point, d: Bound,
                           ghost all: set<Node>, ghost cand: set<Node>, ghost sub: set<Node>)
    returns (top': Node, d': Bound)
    requires node in all && node.Repr == sub && Searchable(all)
    requires forall m | m in sub :: Geometry.Contains(rect, m.point)
    requires Searching(all, cand, top, d, p)
    modifies all`alive, top`alive
    ensures Searching(all, cand, top', d', p)
    ensures top' == top || top' in all
    ensures NoLarger(d', d) && Searchable(all)
    ensures forall m | m in sub && m in cand :: AtMost(d', SqDist(m.point, p))
    decreases sub, 2
  {
    top', d' := Visit(node, top, p, d, all, cand);
    ghost var d1 := d';
    top', d' := Descend(rect, node, top', p, d', all, cand, sub);
    assert node in cand ==> AtMost(d1, SqDist(node.point, p));
  }

  /** The two recursive steps of `utilityForNearest`: split the working
    rectangle on the node's axis and search the left side, then the right
    side. Afterwards no eligible node below the node is nearer than the
    bound. */
  method Descend(rect: Rect, node: Node, top: Node, p: Point, d: Bound,
                 ghost all: set<Node>, ghost cand: set<Node>, ghost sub: set<Node>)
    returns (top': Node, d': Bound)
    requires node in all && node.Repr == sub && Searchable(all)
    requires forall m | m in sub :: Geometry.Contains(rect, m.point)
    requires Searching(all, cand, top, d, p)
    modifies all`alive, top`alive
    ensures Searching(all, cand, top', d', p)
    ensures top' == top || top' in all
    ensures NoLarger(d', d) && Searchable(all)
    ensures forall m | m in sub && m != node && m in cand :: AtMost(d', SqDist(m.point, p))
    decreases sub, 1
  {
    var left := node.left;
    ghost var lsub := if left == null then {} else left.Repr;
    ghost var rsub := if node.right == null then {} else node.right.Repr;
    var pair := SplitAt(rect, node.mod, node.point);
    assert Shaped(node, all);
    ChildSides(node, rect, all, lsub, rsub);
    assert sub == {node} + lsub + rsub && node !in lsub;
    top', d' := NearestSide(pair.0, left, top, p, d, all, cand, lsub);
    ghost var d2 := d';
    top', d' := RightSide(rect, node, top', p, d', all, cand, sub, lsub);
    forall m | m in sub && m != node && m in cand ensures AtMost(d', SqDist(m.point, p)) {
      if m in lsub {
        assert AtMost(d2, SqDist(m.point, p));
      }
    }
  }

  /** The right-hand recursive step of `utilityForNearest`, taken after
    the left one: afterwards no eligible node below the right child is
    nearer than the bound. */
  method RightSide(rect: Rect, node: Node, top: Node, p: Point, d: Bound,
                   ghost all: set<Node>, ghost cand: set<Node>, ghost sub: set<Node>, ghost lsub: set<Node>)
    returns (top': Node, d': Bound)
    requires node in all && node.Repr == sub && Searchable(all)
    requires lsub == if node.left == null then {} else node.left.Repr
    requires forall m | m in sub :: Geometry.Contains(rect, m.point)
    requires Searching(all, cand, top, d, p)
    modifies all`alive, top`alive
    ensures Searching(all, cand, top', d', p)
    ensures top' == top || top' in all
    ensures NoLarger(d', d) && Searchable(all)
    ensures forall m | m in sub - {node} - lsub && m in cand :: AtMost(d', SqDist(m.point, p))
    decreases sub, 0
  {
    var right := node.right;
    ghost var rsub := if right == null then {} else right.Repr;
    var pair := SplitAt(rect, node.mod, node.point);
    assert Shaped(node, all);
    ChildSides(node, rect, all, lsub, rsub);
    assert sub - {node} - lsub <= rsub && rsub < sub;
    top', d' := NearestSide(pair.1, right, top, p, d, all, cand, rsub);
  }

  /** The first step of `utilityForNearest`: compare the node with the
    bound and, when it is alive and strictly nearer, pop the old best
    off the stack, revive it, mark the node and push it. */
  method Visit(node: Node, top: Node, p: Point, d: Bound,
               ghost all: set<Node>, ghost cand: set<Node>)
    returns (top': Node, d': Bound)
    requires node in all && Searchable(all) && Searching(all, cand, top, d, p)
    modifies node`alive, top`alive
    ensures Searching(all, cand, top', d', p)
    ensures top' == top || top' in all
    ensures NoLarger(d', d) && Searchable(all)
    ensures node in cand ==> AtMost(d', SqDist(node.point, p))
  {
    if node.IsAlive() && Below(SqDist(node.point, p), d) {
      d' := Finite(SqDist(node.point, p));
      top.SetAlive(true);
      node.SetAlive(false);
      top' := node;
    } else {
      top', d' := top, d;
    }
  }

  /** One branch of `utilityForNearest`: the child, whose footprint is
    `sub`, is searched when its side exists, is nearer than the bound and
    the child exists; pruned otherwise, and then nothing below the child
    is nearer than the bound. */
  method NearestSide(side: Option<Rect>, child: Node?, top: Node, p: Point, d: Bound,
                     ghost all: set<Node>, ghost cand: set<Node>, ghost sub: set<Node>)
    returns (top': Node, d': Bound)
    requires child != null ==> child in all && child.Repr == sub
    requires child == null ==> sub == {}
    requires forall m | m in sub :: InSide(side, m.point)
    requires Searchable(all) && Searching(all, cand, top, d, p)
    modifies all`alive, top`alive
    ensures Searching(all, cand, top', d', p)
    ensures top' == top || top' in all
    ensures NoLarger(d', d) && Searchable(all)
    ensures forall m | m in sub && m in cand :: AtMost(d', SqDist(m.point, p))
    decreases sub, 3
  {
    if side.Some? && Below(RectSqDist(side.value, p), d) && child != null {
      top', d' := UtilityForNearest(side.value, child, top, p, d, all, cand, sub);
    } else {
      top', d' := top, d;
      if child != null {
        Pruned(side, sub, p, d, cand);
      }
    }
  }

  /** The search of `nearest(p)` from the root of a tree whose nodes are
    all alive: the node found is no farther from p than any node of the
    tree, and it is revived, so all nodes are alive again. */
  method NearestNode(root: Node, box: Rect, p: Point, ghost all: set<Node>) returns (best: Node)
    requires root in all && root.Repr == all && Searchable(all) && AllAlive(all)
    requires forall m | m in all :: Geometry.Contains(box, m.point)
    modifies all`alive
    ensures AllAlive(all)
    ensures best in all
    ensures forall m | m in all :: SqDist(best.point, p) <= SqDist(m.point, p)
  {
    assert root in all - {};
    best := SearchOnce(box, root, p, all, {});
    best.SetAlive(true);
  }

  /** The loop of `nearest(p, k)` from the root of a tree whose nodes are
    all alive, for k no larger than the tree: search k times, each answer
    staying marked so that later searches skip it, then revive the stack.
    The stack holds k distinct nodes and the answers are their points, in
    order of distance from p, each no farther than any node left off the
    stack. */
  method NearestNodes(root: Node, box: Rect, p: Point, k: nat, ghost all: set<Node>)
    returns (stack: seq<Node>, res: seq<Point>)
    requires root in all && root.Repr == all && Searchable(all) && AllAlive(all)
    requires forall m | m in all :: Geometry.Contains(box, m.point)
    requires k <= |all|
    modifies all`alive
    ensures AllAlive(all)
    ensures |stack| == k && |res| == k
    ensures forall j | 0 <= j < k :: stack[j] in all && res[j] == stack[j].point
    ensures forall j, l | 0 <= j < l < k :: stack[j] != stack[l]
    ensures forall j, l | 0 <= j < l < k :: SqDist(res[j], p) <= SqDist(res[l], p)
    ensures forall j, m | 0 <= j < k && m in all && m !in stack :: SqDist(res[j], p) <= SqDist(m.point, p)
  {
    stack, res := [], [];
    ghost var found: set<Node> := {};
    for i := 0 to k
      invariant |found| == i && |stack| == i && Answered(all, found, stack, res, p)
      invariant forall n | n in all :: n.alive <==> n !in found
    {
      Remaining(all, found);
      var best := SearchOnce(box, root, p, all, found);
      AnswerMore(all, found, stack, res, p, best);
      stack, res := stack + [best], res + [best.point];
      found := found + {best};
    }
    OnStack(all, found, stack, res, p);
    Revive(stack, all);
  }

  /** The nodes found are the nodes on the stack, all of them in the tree. */
  lemma OnStack(all: set<Node>, found: set<Node>, stack: seq<Node>, res: seq<Point>, p: Point)
    requires Answered(all, found, stack, res, p)
    ensures forall n :: n in stack <==> n in found
    ensures forall j | 0 <= j < |stack| :: stack[j] in all
  {
    forall n | n in stack ensures n in found {
      var j :| 0 <= j < |stack| && stack[j] == n;
    }
  }

  /** What the loop of `nearest(p, k)` keeps about the nodes `found` so
    far: they are exactly the nodes on the stack, which are distinct, the
    answers are their points in order of distance, and each answer is no
    farther than any node not yet found. */
  ghost predicate Answered(all: set<Node>, found: set<Node>, stack: seq<Node>, res: seq<Point>, p: Point) {
    && |stack| == |res| && found <= all
    && (forall j | 0 <= j < |stack| :: stack[j] in found && res[j] == stack[j].point)
    && (forall n | n in found :: n in stack)
    && (forall j, l | 0 <= j < l < |stack| :: stack[j] != stack[l])
    && (forall j, l | 0 <= j < l < |res| :: SqDist(res[j], p) <= SqDist(res[l], p))
    && (forall j, m | 0 <= j < |res| && m in all && m !in found :: SqDist(res[j], p) <= SqDist(m.point, p))
  }

  /** One more search keeps `Answered`: its answer is new, and no farther
    than any node still not found, while every earlier answer was no
    farther than it. */
  lemma AnswerMore(all: set<Node>, found: set<Node>, stack: seq<Node>, res: seq<Point>, p: Point, best: Node)
    requires Answered(all, found, stack, res, p)
    requires best in all && best !in found
    requires forall m | m in all && m !in found :: SqDist(best.point, p) <= SqDist(m.point, p)
    ensures Answered(all, found + {best}, stack + [best], res + [best.point], p)
  {
    var stack', res' := stack + [best], res + [best.point];
    forall j | 0 <= j < |stack'| ensures stack'[j] in found + {best} && res'[j] == stack'[j].point {
      if j < |stack| {
        assert stack'[j] == stack[j] && res'[j] == res[j];
      }
    }
    forall n | n in found + {best} ensures n in stack' {
      if n == best {
        assert stack'[|stack|] == best;
      } else {
        var j :| 0 <= j < |stack| && stack[j] == n;
        assert stack'[j] == n;
      }
    }
  }

  /** One search of `nearest(p, k)`: push a placeholder for p and run
    `utilityForNearest` from the root, with the nodes already answered
    marked not alive. The node left on top is unanswered, no farther from
    p than any other unanswered node, and now marked too. */
  method SearchOnce(box: Rect, root: Node, p: Point, ghost all: set<Node>, ghost found: set<Node>)
    returns (best: Node)
    requires root in all && Searchable(all) && root.Repr == all && all - found != {}
    requires forall m | m in all :: Geometry.Contains(box, m.point)
    requires forall n | n in all :: n.alive <==> n !in found
    modifies all`alive
    ensures best in all && best !in found
    ensures forall n | n in all :: n.alive <==> n !in found && n != best
    ensures forall m | m in all && m !in found :: SqDist(best.point, p) <= SqDist(m.point, p)
  {
    ghost var cand := all - found;
    ghost var spare :| spare in cand;
    var placeholder := new Node(p, 0);
    var d;
    best, d := UtilityForNearest(box, root, placeholder, p, Infinite, all, cand, all);
    assert best in all by {
      assert AtMost(d, SqDist(spare.point, p));
    }
  }

  /** The last loop of `nearest(p, k)`: pop the whole stack, reviving each
    node, so that every node of the tree is alive again. */
  method Revive(stack: seq<Node>, ghost all: set<Node>)
    requires forall j | 0 <= j < |stack| :: stack[j] in all
    requires forall j, l | 0 <= j < l < |stack| :: stack[j] != stack[l]
    requires forall n | n in all :: n.alive <==> n !in stack
    modifies all`alive
    ensures AllAlive(all)
  {
    var rest := stack;
    while |rest| > 0
      invariant forall n | n in all :: n.alive <==> n !in rest
      invariant forall j, l | 0 <= j < l < |rest| :: rest[j] != rest[l]
      invariant forall j | 0 <= j < |rest| :: rest[j] in all
      decreases |rest|
    {
      Last(rest).SetAlive(true);
      rest := rest[..|rest| - 1];
    }
  }

  /** Every node of a valid ordered subtree is itself a valid ordered
      subtree inside it. */
  lemma {:induction false} Subtrees(n: Node)
    requires n.Valid() && Ordered(n.View)
    ensures forall m | m in n.Repr :: m.Valid() && m.Repr <= n.Repr && Ordered(m.View)
    decreases n.Repr
  {
    if n.left != null { Subtrees(n.left); }
    if n.right != null { Subtrees(n.right); }
  }

  /** A valid ordered tree can be searched. */
  lemma SearchableTree(root: Node)
    requires root.Valid() && Ordered(root.View)
    ensures Searchable(root.Repr)
  {
    Subtrees(root);
    forall n | n in root.Repr ensures Shaped(n, root.Repr) {
      if n.left != null { ReprPoints(n.left); }
      if n.right != null { ReprPoints(n.right); }
    }
  }

  /** The nodes below each child of a node lie in that child's side of
      the node's split of a rectangle holding the whole subtree. */
  lemma ChildSides(node: Node, rect: Rect, all: set<Node>, lsub: set<Node>, rsub: set<Node>)
    requires node in all && Searchable(all)
    requires lsub == (if node.left == null then {} else node.left.Repr)
    requires rsub == (if node.right == null then {} else node.right.Repr)
    requires forall m | m in node.Repr :: Contains(rect, m.point)
    ensures forall m | m in lsub :: InSide(SplitAt(rect, node.mod, node.point).0, m.point)
    ensures forall m | m in rsub :: InSide(SplitAt(rect, node.mod, node.point).1, m.point)
  {
    assert Shaped(node, all);
  }

  /** A subtree skipped because its side is no nearer than the bound holds
      no eligible node nearer than the bound. */
  lemma Pruned(side: Option<Rect>, sub: set<Node>, p: Point, d: Bound, cand: set<Node>)
    requires forall m | m in sub :: InSide(side, m.point)
    requires side.Some? ==> !Below(RectSqDist(side.value, p), d)
    ensures forall m | m in sub && m in cand :: AtMost(d, SqDist(m.point, p))
  {
    forall m | m in sub && m in cand ensures AtMost(d, SqDist(m.point, p)) {
      RectSqDistLowerBound(side.value, p, m.point);
      SqDistSymmetric(p, m.point);
    }
  }

  /** The top of a stack. */
  function Last(s: seq<Node>): Node
    requires |s| > 0
  {
    s[|s| - 1]
  }

  /** A proper part of a set by size leaves something out. */
  lemma Remaining<T>(all: set<T>, found: set<T>)
    requires found <= all && |found| < |all|
    ensures all - found != {}
  {
    assert all == found + (all - found);
  }

  /** The answers of `nearest(p, k)` read as points: when each stored
    point is held by exactly one node, the points of distinct nodes are
    distinct stored points, and a stored point not answered is held by a
    node not on the stack. */
  lemma NearestPoints(all: set<Node>, order: seq<Point>, stack: seq<Node>, res: seq<Point>, p: Point)
    requires forall m | m in all :: m.point in order
    requires forall q | q in order :: exists m :: m in all && m.point == q
    requires forall a, b | a in all && b in all && a.point == b.point :: a == b
    requires |stack| == |res|
    requires forall j | 0 <= j < |stack| :: stack[j] in all && res[j] == stack[j].point
    requires forall j, l | 0 <= j < l < |stack| :: stack[j] != stack[l]
    requires forall j, m | 0 <= j < |res| && m in all && m !in stack :: SqDist(res[j], p) <= SqDist(m.point, p)
    ensures forall i | 0 <= i < |res| :: res[i] in order
    ensures forall i, j | 0 <= i < j < |res| :: res[i] != res[j]
    ensures forall i, q | 0 <= i < |res| && q in order && q !in res :: SqDist(res[i], p) <= SqDist(q, p)
  {
    forall i, q | 0 <= i < |res| && q in order && q !in res
      ensures SqDist(res[i], p) <= SqDist(q, p)
    {
      var m :| m in all && m.point == q;
      NotAnswered(res, stack, m);
    }
  }

  /** A node whose point is not among the first i answers is not among
      the first i nodes of the stack. */
  lemma NotAnswered(res: seq<Point>, stack: seq<Node>, m: Node)
    requires |res| == |stack|
    requires forall j | 0 <= j < |res| :: res[j] == stack[j].point
    requires m.point !in res
    ensures m !in stack
  {
    forall j | 0 <= j < |stack| ensures stack[j] != m {
      assert res[j] == stack[j].point;
    }
  }

  /** What `PointSet` keeps about its tree value, insertion order, count
      and box: the tree is a search tree whose axes alternate from 0 at the
      root, it stores each point of the insertion order exactly once, the
      count is the length of the order, and once a point has been put the
      box contains every point put. */
  ghost predicate Consistent(v: KdTree, order: seq<Point>, size: nat, box: Rect) {
    && Ordered(v)
    && Alternating(v, 0)
    && NoDup(Points(v))
    && multiset(order) == Points(v)
    && size == |order|
    && (size > 0 ==> forall q | q in order :: Contains(box, q))
  }

  /** The box after putting p: p itself on the first put, otherwise the
      smallest rectangle holding the old box and p. */
  function Widen(box: Rect, first: bool, p: Point): (r: Rect)
    ensures Contains(r, p)
    ensures !first ==> forall q | Contains(box, q) :: Contains(r, q)
    ensures first ==> forall q | Contains(r, q) :: q == p
  {
    if first then Rect(p.x, p.y, p.x, p.y)
    else Rect(Min(box.xmin, p.x), Min(box.ymin, p.y), Max(box.xmax, p.x), Max(box.ymax, p.y))
  }

  /** The widened box is the smallest one: a rectangle holding p and the
      two corners of a well-formed old box holds every point of it. */
  lemma WidenSmallest(box: Rect, p: Point, other: Rect)
    requires WellFormed(box)
    requires Contains(other, p)
    requires Contains(other, Point(box.xmin, box.ymin)) && Contains(other, Point(box.xmax, box.ymax))
    ensures forall q | Contains(Widen(box, false, p), q) :: Contains(other, q)
  {
  }

  /** Putting a new point keeps the set consistent: the tree gains p once,
      the order gains p at its end, the count grows by one and the widened
      box still contains every point. */
  lemma PutConsistent(v: KdTree, order: seq<Point>, size: nat, box: Rect, box': Rect, p: Point)
    requires Consistent(v, order, size, box) && p !in order
    requires box' == Widen(box, size == 0, p)
    ensures Consistent(Insert(v, p, 0), order + [p], size + 1, box')
  {
    PutTree(v, order, p);
    PutBox(order, size, box, box', p);
  }

  /** The tree half of `PutConsistent`: the new tree is still ordered and
      alternating and stores each point of the longer order once. */
  lemma PutTree(v: KdTree, order: seq<Point>, p: Point)
    requires Ordered(v) && Alternating(v, 0) && NoDup(Points(v))
    requires multiset(order) == Points(v) && p !in order
    ensures Ordered(Insert(v, p, 0)) && Alternating(Insert(v, p, 0), 0)
    ensures NoDup(Points(Insert(v, p, 0))) && multiset(order + [p]) == Points(Insert(v, p, 0))
  {
    InsertPoints(v, p, 0);
    InsertOrdered(v, p, 0);
    InsertAlternating(v, p, 0);
    assert p !in multiset(order);
    NoDupAdd(Points(v), p);
  }

  /** Adding a point not yet counted keeps every count at one. */
  lemma NoDupAdd(m: multiset<Point>, p: Point)
    requires NoDup(m) && p !in m
    ensures NoDup(m + multiset{p})
  {
    forall q | q in m + multiset{p} ensures (m + multiset{p})[q] == 1 {
      assert (m + multiset{p})[q] == m[q] + multiset{p}[q];
    }
  }

  /** The box half of `PutConsistent`: the widened box holds every point
      of the longer order. */
  lemma PutBox(order: seq<Point>, size: nat, box: Rect, box': Rect, p: Point)
    requires size == |order| && (size > 0 ==> forall q | q in order :: Contains(box, q))
    requires box' == Widen(box, size == 0, p)
    ensures forall q | q in order + [p] :: Contains(box', q)
  {
    forall q | q in order + [p] ensures Contains(box', q) {
      if q != p { assert q in order; }
    }
  }

  /** Appending three parts one after the other adds their sum. */
  lemma SumOfParts<T>(a: multiset<T>, m: multiset<T>, w0: multiset<T>, w1: multiset<T>,
                      h: multiset<T>, mid: multiset<T>, o: multiset<T>)
    requires h == a + m && mid == h + w0 && o == mid + w1
    ensures o == a + (m + w0 + w1)
  {
  }

  /** A sequence in which no element occurs twice has no repeated index. */
  lemma DistinctFromCounts(s: seq<Point>)
    requires forall q :: multiset(s)[q] <= 1
    ensures forall i, j | 0 <= i < j < |s| :: s[i] != s[j]
  {
    forall i, j | 0 <= i < j < |s| ensures s[i] != s[j] {
      if s[i] == s[j] {
        RepeatCounts(s, i, j);
      }
    }
  }

  /** An element at two indices occurs at least twice. */
  lemma RepeatCounts(s: seq<Point>, i: int, j: int)
    requires 0 <= i < j < |s| && s[i] == s[j]
    ensures multiset(s)[s[i]] >= 2
  {
    assert s == s[..j] + s[j..];
    assert s[..j][i] == s[i];
    assert s[j..][0] == s[i];
    assert multiset(s) == multiset(s[..j]) + multiset(s[j..]);
  }
}
