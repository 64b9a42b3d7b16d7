/**
 * The brute-force point set as the specification of the 2-d tree's
 * queries: whatever two answers meet the contracts of the two `range`s,
 * of the two `nearest(p)`s or of the two `nearest(p, k)`s over the same
 * stored points, they agree: as multisets of points for `range`, in
 * distance for `nearest`, and distance by distance for `nearest(p, k)`.
 */
module Oracle {
  import opened Wrappers
  import opened Geometry
  import opened RbPointSet
  import KdPointSet

  /** The comparison the brute-force set exists for: put the same points
      into both sets, ask both the same three queries, and the answers
      agree as the lemmas below say. */
  method Compare(points: seq<Point>, rect: Rect, p: Point, k: nat)
    returns (kdRange: seq<Point>, rbRange: seq<Point>,
             kdNear: Option<Point>, rbNear: Option<Point>,
             kdNearK: seq<Point>, rbNearK: seq<Point>)
    ensures multiset(kdRange) == multiset(rbRange)
    ensures forall q :: q in kdRange <==> q in points && Contains(rect, q)
    ensures kdNear.Some? == rbNear.Some? && (kdNear.Some? <==> points != [])
    ensures kdNear.Some? ==> SqDist(kdNear.value, p) == SqDist(rbNear.value, p)
    ensures |kdNearK| == |rbNearK| <= k
    ensures forall i | 0 <= i < |kdNearK| :: SqDist(kdNearK[i], p) == SqDist(rbNearK[i], p)
  {
    var kd, rb := Fill(points);
    assert kd.order == [] <==> points == [] by {
      if points != [] { assert points[0] in points; }
      if kd.order != [] { assert kd.order[0] in kd.order; }
    }
    kdRange, rbRange := CompareRange(kd, rb, rect);
    kdNear, rbNear := CompareNearest(kd, rb, p);
    kdNearK, rbNearK := CompareNearestK(kd, rb, p, k);
  }

  /** Both `range`s over the same points. The 2-d tree's `range` needs a
      non-empty set, so on an empty one it is not asked. */
  method CompareRange(kd: KdPointSet.PointSet, rb: RbPointSet.PointSet, rect: Rect)
    returns (kdRange: seq<Point>, rbRange: seq<Point>)
    requires kd.Valid() && rb.Valid() && kd.order == rb.order
    ensures multiset(kdRange) == multiset(rbRange)
    ensures forall q :: q in kdRange <==> q in kd.order && Contains(rect, q)
  {
    rbRange := rb.Range(rect);
    if kd.Empty() {
      kdRange := [];
    } else {
      kdRange := kd.Range(rect);
    }
    SortedDistinct(rbRange);
    RangeAgree(kdRange, rbRange, kd.order, rect);
  }

  /** Both `nearest(p)`s over the same points. */
  method CompareNearest(kd: KdPointSet.PointSet, rb: RbPointSet.PointSet, p: Point)
    returns (kdNear: Option<Point>, rbNear: Option<Point>)
    requires kd.Valid() && rb.Valid() && kd.order == rb.order
    modifies kd.tree.Repr`alive
    ensures kd.Valid() && rb.Valid() && kd.order == rb.order
    ensures kdNear.Some? == rbNear.Some? && (kdNear.Some? <==> kd.order != [])
    ensures kdNear.Some? ==> SqDist(kdNear.value, p) == SqDist(rbNear.value, p)
  {
    kdNear := kd.Nearest(p);
    rbNear := rb.Nearest(p);
    if kdNear.Some? {
      NearestAgree(kdNear.value, rbNear.value, kd.order, p);
    }
  }

  /** Both `nearest(p, k)`s over the same points. */
  method CompareNearestK(kd: KdPointSet.PointSet, rb: RbPointSet.PointSet, p: Point, k: nat)
    returns (kdNearK: seq<Point>, rbNearK: seq<Point>)
    requires kd.Valid() && rb.Valid() && kd.order == rb.order
    modifies kd.tree.Repr`alive
    ensures |kdNearK| == |rbNearK| <= k
    ensures forall i | 0 <= i < |kdNearK| :: SqDist(kdNearK[i], p) == SqDist(rbNearK[i], p)
  {
    ghost var order := kd.order;
    kdNearK := kd.NearestK(p, k);
    assert NearestAnswer(kdNearK, order, p);
    rbNearK := rb.NearestK(p, k);
    assert NearestAnswer(rbNearK, order, p);
    NearestKAgree(kdNearK, rbNearK, order, p);
  }

  /** Both sets after putting the same points in the same order: they hold
      the same insertion order, made of exactly the points put. */
  method Fill(points: seq<Point>) returns (kd: KdPointSet.PointSet, rb: RbPointSet.PointSet)
    ensures kd.Valid() && rb.Valid() && kd.order == rb.order
    ensures SameMembers(kd.order, points)
    ensures fresh(kd) && fresh(kd.tree) && fresh(kd.tree.Repr) && fresh(rb)
  {
    kd := new KdPointSet.PointSet();
    rb := new RbPointSet.PointSet();
    for i := 0 to |points|
      invariant kd.Valid() && rb.Valid() && kd.order == rb.order
      invariant SameMembers(kd.order, points[..i])
      invariant fresh(kd) && fresh(kd.tree) && fresh(kd.tree.Repr) && fresh(rb)
    {
      ghost var before := kd.order;
      PutBoth(kd, rb, points[i]);
      Prefix(before, kd.order, points, i);
    }
    assert points[..|points|] == points;
  }

  /** Two sequences holding the same values, in any order and number. */
  ghost predicate SameMembers(a: seq<Point>, b: seq<Point>) {
    forall q :: q in a <==> q in b
  }

  /** The order after one more put holds exactly the points of one more
      prefix of the input. */
  lemma Prefix(before: seq<Point>, after: seq<Point>, points: seq<Point>, i: int)
    requires 0 <= i < |points|
    requires SameMembers(before, points[..i])
    requires forall q :: q in after <==> q in before || q == points[i]
    ensures SameMembers(after, points[..i + 1])
  {
    assert points[..i + 1] == points[..i] + [points[i]];
  }

  /** One point put into both sets: their orders stay equal and gain p
      when it is new. */
  method PutBoth(kd: KdPointSet.PointSet, rb: RbPointSet.PointSet, p: Point)
    requires kd.Valid() && rb.Valid() && kd.order == rb.order
    modifies kd, kd.tree, kd.tree.Repr`left, kd.tree.Repr`right, kd.tree.Repr`Repr, kd.tree.Repr`View, rb
    ensures kd.Valid() && rb.Valid() && kd.order == rb.order
    ensures forall q :: q in kd.order <==> q in old(kd.order) || q == p
    ensures fresh(kd.tree.Repr - old(kd.tree.Repr))
  {
    kd.Put(p);
    rb.Put(p);
  }

  /** What both `range`s promise: the points of the order the rectangle
      contains, each once. */
  ghost predicate RangeAnswer(res: seq<Point>, order: seq<Point>, rect: Rect) {
    && (forall q :: q in res <==> q in order && Contains(rect, q))
    && Distinct(res)
  }

  /** The two `range`s answer the same multiset of points. */
  lemma RangeAgree(a: seq<Point>, b: seq<Point>, order: seq<Point>, rect: Rect)
    requires RangeAnswer(a, order, rect) && RangeAnswer(b, order, rect)
    ensures multiset(a) == multiset(b)
  {
    forall q ensures multiset(a)[q] == multiset(b)[q] {
      DistinctCount(a, q);
      DistinctCount(b, q);
    }
  }

  /** A strictly increasing sequence repeats nothing: the brute-force
      `range` answers each point once. */
  lemma SortedDistinct(s: seq<Point>)
    requires Sorted(s)
    ensures Distinct(s)
  {
    forall i, j | 0 <= i < j < |s| ensures s[i] != s[j] {
      Trichotomy(s[i], s[j]);
    }
  }

  /** In a sequence without repeats a value occurs once or not at all. */
  lemma {:induction false} DistinctCount<T>(s: seq<T>, q: T)
    requires Distinct(s)
    ensures multiset(s)[q] == if q in s then 1 else 0
  {
    if s != [] {
      var init := s[..|s| - 1];
      assert s == init + [s[|s| - 1]];
      assert Distinct(init);
      DistinctCount(init, q);
      assert multiset(s) == multiset(init) + multiset{s[|s| - 1]};
      assert s[|s| - 1] !in init;
    }
  }

  /** Two stored points each no farther from p than any stored point are
      equally far: the two `nearest(p)`s agree in distance. */
  lemma NearestAgree(x: Point, y: Point, order: seq<Point>, p: Point)
    requires x in order && forall q | q in order :: SqDist(x, p) <= SqDist(q, p)
    requires y in order && forall q | q in order :: SqDist(y, p) <= SqDist(q, p)
    ensures SqDist(x, p) == SqDist(y, p)
  {
  }

  /** What both `nearest(p, k)`s promise: distinct stored points in order
      of distance, none farther than a stored point left out. */
  ghost predicate NearestAnswer(res: seq<Point>, order: seq<Point>, p: Point) {
    && (forall i | 0 <= i < |res| :: res[i] in order)
    && Distinct(res)
    && (forall i, j | 0 <= i < j < |res| :: SqDist(res[i], p) <= SqDist(res[j], p))
    && (forall i, q | 0 <= i < |res| && q in order && q !in res :: SqDist(res[i], p) <= SqDist(q, p))
  }

  /** Two answers of the same length agree distance by distance: the
      i-th nearest distance does not depend on how ties were broken. */
  lemma NearestKAgree(a: seq<Point>, b: seq<Point>, order: seq<Point>, p: Point)
    requires NearestAnswer(a, order, p) && NearestAnswer(b, order, p) && |a| == |b|
    ensures forall i | 0 <= i < |a| :: SqDist(a[i], p) == SqDist(b[i], p)
  {
    forall i | 0 <= i < |a| ensures SqDist(a[i], p) == SqDist(b[i], p) {
      NoNearer(a, b, order, p, i);
      NoNearer(b, a, order, p, i);
    }
  }

  /** The i-th answer of b is no farther than the i-th answer of a: of the
      i + 1 first answers of a one is missing from the i first answers of
      b, and wherever it is (later in b, or not in b) it bounds b's i-th
      distance from above. */
  lemma NoNearer(a: seq<Point>, b: seq<Point>, order: seq<Point>, p: Point, i: int)
    requires NearestAnswer(a, order, p) && NearestAnswer(b, order, p) && |a| == |b|
    requires 0 <= i < |a|
    ensures SqDist(b[i], p) <= SqDist(a[i], p)
  {
    var t := Missing(a, b, i);
    var x := a[t];
    assert SqDist(x, p) <= SqDist(a[i], p) by {
      if t < i { assert SqDist(a[t], p) <= SqDist(a[i], p); }
    }
    if x in b {
      var u :| 0 <= u < |b| && b[u] == x;
      assert u >= i;
      if u > i { assert SqDist(b[i], p) <= SqDist(b[u], p); }
    } else {
      assert x in order;
      assert SqDist(b[i], p) <= SqDist(x, p);
    }
  }

  /** Of the i + 1 first elements of a sequence without repeats, one is
      missing from the i first elements of any other sequence. */
  lemma Missing<T>(a: seq<T>, b: seq<T>, i: int) returns (t: int)
    requires Distinct(a) && 0 <= i < |a| && i <= |b|
    ensures 0 <= t <= i && forall w | 0 <= w < i :: b[w] != a[t]
  {
    var first, earlier := a[..i + 1], b[..i];
    var front := set x | x in first;
    var seen := set x | x in earlier;
    assert Distinct(first);
    DistinctCard(first);
    SeqSetCard(earlier);
    var x := Leftover(front, seen);
    t :| 0 <= t <= i && a[t] == x by {
      assert x in first;
    }
    forall w | 0 <= w < i ensures b[w] != a[t] {
      assert earlier[w] == b[w];
    }
  }

  /** A larger set has an element the smaller one lacks. */
  lemma Leftover<T>(big: set<T>, small: set<T>) returns (x: T)
    requires |big| > |small|
    ensures x in big && x !in small
  {
    assert big == (big - small) + (big * small);
    assert small == (big * small) + (small - big);
    assert |big - small| > 0;
    x :| x in big - small;
  }

  /** A sequence has at most as many distinct elements as its length. */
  lemma {:induction false} SeqSetCard<T>(s: seq<T>)
    ensures |set x | x in s| <= |s|
  {
    if s != [] {
      var init := s[..|s| - 1];
      SeqSetCard(init);
      assert (set x | x in s) == (set x | x in init) + {s[|s| - 1]};
    }
  }
}
