/**
 * The 2-d tree as a value: the shape the heap nodes of `TwoDTree` stand
 * for. Each node holds a point and an axis (`mod`: 0 splits on x, anything
 * else on y); a point goes left of a node exactly when its coordinate on
 * the node's axis is strictly below the node's (`Node::dependence`).
 *
 * The functions here are the specifications the heap code is proved
 * against: `Insert` is `Tree::put`/`Tree::reallyPut`, `Find` is the descent
 * of `utilityForContains`, `Within` is what a range query must report, and
 * `SplitAt` is the working-rectangle split shared by the range and nearest
 * searches.
 */
module KdSpec {
  import opened Wrappers
  import opened Geometry

  datatype KdTree = Leaf | Branch(point: Point, mod: int, left: KdTree, right: KdTree)

  /** `Node::dependence`: p belongs in the left subtree of a node holding
      `point` on axis `mod`. The comparison is strict. */
  predicate Dependence(point: Point, mod: int, p: Point) {
    if mod == 0 then p.x < point.x else p.y < point.y
  }

  /** The axis a child of a node on axis `mod` gets. */
  function ChildMod(mod: int): int {
    (mod + 1) % 2
  }

  /** The working rectangle split on a node's axis at the node's point. */
  function SplitAt(rect: Rect, mod: int, point: Point): (Option<Rect>, Option<Rect>) {
    if mod == 0 then SplitX(rect, point.x) else SplitY(rect, point.y)
  }

  /** The points stored in a tree, with their multiplicities. */
  function Points(t: KdTree): multiset<Point> {
    match t
    case Leaf => multiset{}
    case Branch(q, _, l, r) => multiset{q} + Points(l) + Points(r)
  }

  /** The number of nodes. */
  function Count(t: KdTree): nat {
    match t
    case Leaf => 0
    case Branch(_, _, l, r) => 1 + Count(l) + Count(r)
  }

  /** `Tree::reallyPut` on values: descend by `dependence` and put a new
      node on axis `m` into the empty slot reached. At the root, `m` is the
      axis 0 that `Tree::put` gives an empty tree's first node. */
  function Insert(t: KdTree, p: Point, m: int): KdTree {
    match t
    case Leaf => Branch(p, m, Leaf, Leaf)
    case Branch(q, k, l, r) =>
      if Dependence(q, k, p) then Branch(q, k, Insert(l, p, ChildMod(k)), r)
      else Branch(q, k, l, Insert(r, p, ChildMod(k)))
  }

  /** The search invariant, per node and per axis: every point of the left
      subtree is strictly below the node on the node's axis, every point of
      the right subtree is at or above it. */
  ghost predicate Ordered(t: KdTree) {
    match t
    case Leaf => true
    case Branch(q, k, l, r) =>
      && (forall s | s in Points(l) :: Dependence(q, k, s))
      && (forall s | s in Points(r) :: !Dependence(q, k, s))
      && Ordered(l) && Ordered(r)
  }

  /** The axis alternates with depth: a tree whose root is at depth parity
      `m` has axis `m` at the root, the other axis below it, and so on, so
      `Alternating(t, 0)` says that every node's `mod` is its depth mod 2. */
  ghost predicate Alternating(t: KdTree, m: int) {
    match t
    case Leaf => true
    case Branch(_, k, l, r) => k == m && Alternating(l, ChildMod(m)) && Alternating(r, ChildMod(m))
  }

  /** t' is t with exactly one node added, holding p on axis m, in a slot
      that was empty in t; every node of t keeps its point, axis and
      other child. */
  ghost predicate AddsOneLeaf(t: KdTree, t': KdTree, p: Point, m: int) {
    match t
    case Leaf => t' == Branch(p, m, Leaf, Leaf)
    case Branch(q, k, l, r) =>
      t'.Branch? && t'.point == q && t'.mod == k &&
      ((AddsOneLeaf(l, t'.left, p, ChildMod(k)) && t'.right == r) ||
       (t'.left == l && AddsOneLeaf(r, t'.right, p, ChildMod(k))))
  }

  /** Insertion stores p once more and nothing else. */
  lemma {:induction false} InsertPoints(t: KdTree, p: Point, m: int)
    ensures Points(Insert(t, p, m)) == Points(t) + multiset{p}
    ensures Count(Insert(t, p, m)) == Count(t) + 1
  {
    match t
    case Leaf =>
    case Branch(q, k, l, r) =>
      if Dependence(q, k, p) { InsertPoints(l, p, ChildMod(k)); }
      else { InsertPoints(r, p, ChildMod(k)); }
  }

  /** Insertion preserves the search invariant. */
  lemma {:induction false} InsertOrdered(t: KdTree, p: Point, m: int)
    requires Ordered(t)
    ensures Ordered(Insert(t, p, m))
  {
    match t
    case Leaf =>
    case Branch(q, k, l, r) =>
      if Dependence(q, k, p) {
        InsertOrdered(l, p, ChildMod(k));
        InsertPoints(l, p, ChildMod(k));
      } else {
        InsertOrdered(r, p, ChildMod(k));
        InsertPoints(r, p, ChildMod(k));
      }
  }

  /** A new child always gets the axis after its parent's, so insertion
      keeps `mod` equal to depth mod 2 along every path. */
  lemma {:induction false} InsertAlternating(t: KdTree, p: Point, m: int)
    requires Alternating(t, m)
    ensures Alternating(Insert(t, p, m), m)
  {
    match t
    case Leaf =>
    case Branch(q, k, l, r) =>
      if Dependence(q, k, p) { InsertAlternating(l, p, ChildMod(k)); }
      else { InsertAlternating(r, p, ChildMod(k)); }
  }

  /** Insertion adds exactly one leaf at a previously empty slot. */
  lemma {:induction false} InsertAddsOneLeaf(t: KdTree, p: Point, m: int)
    ensures AddsOneLeaf(t, Insert(t, p, m), p, m)
  {
    match t
    case Leaf =>
    case Branch(q, k, l, r) =>
      if Dependence(q, k, p) { InsertAddsOneLeaf(l, p, ChildMod(k)); }
      else { InsertAddsOneLeaf(r, p, ChildMod(k)); }
  }

  /** The descent of `utilityForContains`: stop at an equal point, else
      follow `dependence` to the one child insertion would have chosen. */
  function Find(t: KdTree, p: Point): bool {
    match t
    case Leaf => false
    case Branch(q, k, l, r) =>
      if q == p then true
      else if Dependence(q, k, p) then Find(l, p)
      else Find(r, p)
  }

  /** On an ordered tree the single-path descent finds exactly the stored
      points: no false negatives, because it uses insertion's tie-break. */
  lemma {:induction false} FindCorrect(t: KdTree, p: Point)
    requires Ordered(t)
    ensures Find(t, p) <==> p in Points(t)
  {
    match t
    case Leaf =>
    case Branch(q, k, l, r) =>
      if q != p {
        FindCorrect(l, p);
        FindCorrect(r, p);
      }
  }

  /** The stored points a side of a split contains, with multiplicities;
      an absent side contains none. */
  function Within(t: KdTree, side: Option<Rect>): multiset<Point> {
    match t
    case Leaf => multiset{}
    case Branch(q, _, l, r) =>
      (if InSide(side, q) then multiset{q} else multiset{}) + Within(l, side) + Within(r, side)
  }

  /** `Within` is the filter of the stored points by the side. */
  lemma {:induction false} WithinFilter(t: KdTree, side: Option<Rect>, q: Point)
    ensures Within(t, side)[q] == if InSide(side, q) then Points(t)[q] else 0
  {
    match t
    case Leaf =>
    case Branch(s, _, l, r) =>
      WithinFilter(l, side, q);
      WithinFilter(r, side, q);
  }

  /** An absent side selects nothing. */
  lemma {:induction false} WithinNone(t: KdTree)
    ensures Within(t, None) == multiset{}
  {
    match t
    case Leaf =>
    case Branch(_, _, l, r) =>
      WithinNone(l);
      WithinNone(r);
  }

  /** One step of the range search: what a tree selects from a working
      rectangle is the root (when the rectangle contains it) and what each
      subtree selects from its side of the split; the subtrees are ordered. */
  lemma RangeStep(t: KdTree, rect: Rect)
    requires t.Branch? && Ordered(t)
    ensures Ordered(t.left) && Ordered(t.right)
    ensures Within(t, Some(rect)) ==
      (if Contains(rect, t.point) then multiset{t.point} else multiset{})
      + Within(t.left, SplitAt(rect, t.mod, t.point).0)
      + Within(t.right, SplitAt(rect, t.mod, t.point).1)
  {
    SplitSeparates(t, rect);
    WithinAgree(t.left, SplitAt(rect, t.mod, t.point).0, Some(rect));
    WithinAgree(t.right, SplitAt(rect, t.mod, t.point).1, Some(rect));
  }

  /** Two sides that agree on every stored point select the same points. */
  lemma WithinAgree(t: KdTree, s1: Option<Rect>, s2: Option<Rect>)
    requires forall q | q in Points(t) :: InSide(s1, q) <==> InSide(s2, q)
    ensures Within(t, s1) == Within(t, s2)
  {
    forall q ensures Within(t, s1)[q] == Within(t, s2)[q] {
      WithinFilter(t, s1, q);
      WithinFilter(t, s2, q);
    }
  }

  /** The split on a node's axis sends each subtree's points to its own
      side: a left point lies in the working rectangle exactly when it lies
      in the left side, a right point exactly when it lies in the right side. */
  lemma SplitSeparates(t: KdTree, rect: Rect)
    requires t.Branch? && Ordered(t)
    ensures forall q | q in Points(t.left) ::
      Contains(rect, q) <==> InSide(SplitAt(rect, t.mod, t.point).0, q)
    ensures forall q | q in Points(t.right) ::
      Contains(rect, q) <==> InSide(SplitAt(rect, t.mod, t.point).1, q)
  {
  }

  /** Every stored point occurs once. */
  predicate NoDup(m: multiset<Point>) {
    forall q | q in m :: m[q] == 1
  }

  /** A tree storing no point twice: neither do its subtrees, the root's
      point is in neither, and no point is in both. */
  lemma NoDupParts(t: KdTree)
    requires t.Branch? && NoDup(Points(t))
    ensures NoDup(Points(t.left)) && NoDup(Points(t.right))
    ensures t.point !in Points(t.left) && t.point !in Points(t.right)
    ensures forall q | q in Points(t.left) :: q !in Points(t.right)
  {
    var l, r := Points(t.left), Points(t.right);
    assert Points(t) == multiset{t.point} + l + r;
    forall q | q in l ensures l[q] == 1 && q !in r && q != t.point {
      assert Points(t)[q] == multiset{t.point}[q] + l[q] + r[q];
    }
    forall q | q in r ensures r[q] == 1 && q != t.point {
      assert Points(t)[q] == multiset{t.point}[q] + l[q] + r[q];
    }
  }

  /** The number of nodes is the number of stored points. */
  lemma {:induction false} CountPoints(t: KdTree)
    ensures |Points(t)| == Count(t)
  {
    match t
    case Leaf =>
    case Branch(_, _, l, r) =>
      CountPoints(l);
      CountPoints(r);
  }
}
