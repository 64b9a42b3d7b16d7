/**
 * `rbtree::PointSet`: the brute-force point set the 2-d tree is measured
 * against. It keeps the points both in a `std::set` (iterated in
 * increasing `operator<` order) and in insertion order (the vector behind
 * its iterator), and answers every query by scanning all of them.
 *
 * The `std::set` is modelled as a strictly increasing sequence, and its
 * `insert` as an ordinary sorted insertion into it: the balancing of the
 * library's red-black tree is not part of this model.
 */
module RbPointSet {
  import opened Wrappers
  import opened Geometry
  import opened KdSearch

  /** Strictly increasing under `operator<`: how a `std::set<Point>`
      iterates, each point once. */
  ghost predicate Sorted(s: seq<Point>) {
    forall i, j | 0 <= i < j < |s| :: Less(s[i], s[j])
  }

  ghost predicate Distinct<T>(s: seq<T>) {
    forall i, j | 0 <= i < j < |s| :: s[i] != s[j]
  }

  /** `std::set::insert` of a point not yet in the set: the result is
      still strictly increasing and holds the old points and p. */
  function SetInsert(s: seq<Point>, p: Point): (r: seq<Point>)
    requires Sorted(s) && p !in s
    ensures Sorted(r)
    ensures forall q :: q in r <==> q in s || q == p
    ensures |r| == |s| + 1
  {
    if s == [] || Less(p, s[0]) then
      [p] + s
    else
      Trichotomy(p, s[0]);
      var rest := SetInsert(s[1..], p);
      assert forall x | x in rest :: Less(s[0], x) by {
        forall x | x in rest ensures Less(s[0], x) {
          if x != p {
            var t :| 0 <= t < |s[1..]| && s[1..][t] == x;
            assert s[t + 1] == x;
          }
        }
      }
      [s[0]] + rest
  }

  class PointSet {
    var Size: nat
    /** The `std::set<Point>` member `rbmap`. */
    var rbmap: seq<Point>
    /** The points in insertion order: what `begin()`..`end()` walk. */
    var order: seq<Point>

    /** The set and the insertion order hold the same points, the order
        holds each once, and `Size` counts them. */
    ghost predicate Valid()
      reads this
    {
      && Sorted(rbmap)
      && (forall q :: q in rbmap <==> q in order)
      && Distinct(order)
      && Size == |order| == |rbmap|
    }

    constructor ()
      ensures Valid() && Size == 0 && order == [] && rbmap == []
    {
      Size := 0;
      rbmap := [];
      order := [];
    }

    /** `empty()`. */
    function Empty(): (b: bool)
      reads this
      requires Valid()
      ensures b <==> order == [] && rbmap == []
    {
      Size == 0
    }

    /** `size()`: the number of distinct points put. */
    function Cardinality(): (n: nat)
      reads this
      requires Valid()
      ensures n == |order| && n == |rbmap|
    {
      Size
    }

    /** `contains`: a look-up in the `std::set`; it agrees with the
        insertion order. */
    function Contains(p: Point): (b: bool)
      reads this
      requires Valid()
      ensures b <==> p in order
    {
      p in rbmap
    }

    /** `put`: a point not yet present joins the set, the insertion order
        and the count; a point already present changes nothing. */
    method Put(p: Point)
      requires Valid()
      modifies this
      ensures Valid()
      ensures p in old(order) ==> order == old(order) && rbmap == old(rbmap) && Size == old(Size)
      ensures p !in old(order) ==> order == old(order) + [p] && Size == old(Size) + 1
      ensures Contains(p)
    {
      if !Contains(p) {
        rbmap := SetInsert(rbmap, p);
        order := order + [p];
        Size := Size + 1;
      }
    }

    /** `range`: scan the set in increasing order and keep the points the
        rectangle contains; the answer is exactly those points, in
        increasing order and so each once. */
    method Range(r: Rect) returns (res: seq<Point>)
      requires Valid()
      ensures forall q :: q in res <==> q in order && Geometry.Contains(r, q)
      ensures Sorted(res)
    {
      res := [];
      for i := 0 to |rbmap|
        invariant forall q :: q in res <==> q in rbmap[..i] && Geometry.Contains(r, q)
        invariant Sorted(res)
        invariant forall j, t | 0 <= j < |res| && i <= t < |rbmap| :: Less(res[j], rbmap[t])
      {
        if Geometry.Contains(r, rbmap[i]) {
          res := res + [rbmap[i]];
        }
      }
      assert rbmap[..|rbmap|] == rbmap;
    }

    /** `nearest(p)`: nothing on an empty set; otherwise one pass over the
        set keeping the first point strictly nearer than the best so far.
        The answer is a stored point no farther from p than any other, and
        among equally near points the least under `operator<`. */
    method Nearest(p: Point) returns (r: Option<Point>)
      requires Valid()
      ensures r.None? <==> order == []
      ensures r.Some? ==> r.value in order && forall q | q in order :: SqDist(r.value, p) <= SqDist(q, p)
      ensures r.Some? ==> forall q | q in order && Less(q, r.value) :: SqDist(r.value, p) < SqDist(q, p)
    {
      if Size == 0 {
        return None;
      }
      var pmin := rbmap[0];
      var minDistance := Infinite;
      ghost var at := 0;
      for i := 0 to |rbmap|
        invariant minDistance.Infinite? <==> i == 0
        invariant i > 0 ==> at < i && rbmap[at] == pmin && minDistance == Finite(SqDist(pmin, p))
        invariant forall t | 0 <= t < i :: AtMost(minDistance, SqDist(rbmap[t], p))
        invariant forall t | 0 <= t < i && Less(rbmap[t], pmin) :: SqDist(pmin, p) < SqDist(rbmap[t], p)
      {
        var d := SqDist(rbmap[i], p);
        if Below(d, minDistance) {
          pmin := rbmap[i];
          minDistance := Finite(d);
          at := i;
        }
      }
      r := Some(pmin);
      forall q | q in order ensures SqDist(pmin, p) <= SqDist(q, p) {
        var t :| 0 <= t < |rbmap| && rbmap[t] == q;
      }
    }

    /** `nearest(p, k)` as the source has it: k rounds, each scanning the
        insertion order for the nearest point not yet marked, appending it
        and marking it. k is not clamped: once every point is marked, a
        round finds nothing and appends the first point put again. The
        first Min(k, Size) answers are the nearest points in order of
        distance; every answer past `Size` is `order[0]`. The first round
        reads `order[0]`, which does not exist on an empty set, so k must
        be 0 there. */
    method NearestKAsWritten(p: Point, k: nat) returns (res: seq<Point>)
      requires Valid() && (k > 0 ==> Size > 0)
      ensures |res| == k
      ensures forall i | 0 <= i < |res| :: res[i] in order
      ensures forall i, j | 0 <= i < j < Min(k, Size) :: res[i] != res[j]
      ensures forall i, j | 0 <= i < j < Min(k, Size) :: SqDist(res[i], p) <= SqDist(res[j], p)
      ensures forall i, q | 0 <= i < Min(k, Size) && q in order && q !in res[..Min(k, Size)] ::
        SqDist(res[i], p) <= SqDist(q, p)
      ensures forall i | Size <= i < k :: res[i] == order[0]
    {
      ghost var picked;
      res, picked := Rounds(order, p, k);
      Answers(res, picked, order, p);
    }

    /** `nearest(p, k)` with k clamped to `Size`, as the 2-d tree's own
        `nearest(p, k)` does: Min(k, Size) distinct stored points, in
        order of distance, none farther than a stored point left out. */
    method NearestK(p: Point, k: nat) returns (res: seq<Point>)
      requires Valid()
      ensures |res| == Min(k, |order|)
      ensures forall i | 0 <= i < |res| :: res[i] in order
      ensures forall i, j | 0 <= i < j < |res| :: res[i] != res[j]
      ensures forall i, j | 0 <= i < j < |res| :: SqDist(res[i], p) <= SqDist(res[j], p)
      ensures forall i, q | 0 <= i < |res| && q in order && q !in res :: SqDist(res[i], p) <= SqDist(q, p)
    {
      var k := k;
      if k > Size {
        k := Size;
      }
      res := NearestKAsWritten(p, k);
      assert res[..Min(k, Size)] == res;
    }
  }

  /** The k rounds of `nearest(p, k)` over the insertion order, with a
      fresh `vector<bool>` of marks. */
  method Rounds(order: seq<Point>, p: Point, k: nat) returns (res: seq<Point>, ghost picked: seq<int>)
    requires Distinct(order) && (k > 0 ==> |order| > 0)
    ensures |res| == k && |picked| == Min(k, |order|)
    ensures Picks(res, picked, order, p)
    ensures forall i | |order| <= i < k :: res[i] == order[0]
  {
    res := [];
    var size := |order|;
    var marked := new bool[size](_ => false);
    picked := [];
    for i := 0 to k
      invariant |res| == i && |picked| == Min(i, size)
      invariant Picks(res, picked, order, p)
      invariant forall j | 0 <= j < size :: marked[j] <==> j in picked
      invariant forall t | size <= t < i :: res[t] == order[0]
    {
      var pmin, jpmin := Scan(order, marked, p, picked);
      PickMore(res, picked, order, p, jpmin, i < size);
      res := res + [pmin];
      marked[jpmin] := true;
      if i < size {
        picked := picked + [jpmin];
      }
    }
  }

  /** One round of `nearest(p, k)`: scan the insertion order for the
      first point strictly nearer than the best so far that is not marked.
      While some point is unmarked the answer is an unmarked point no
      farther than any other unmarked one; once all are marked nothing is
      found and the round falls back to the first point. */
  method Scan(order: seq<Point>, marked: array<bool>, p: Point, ghost picked: seq<int>)
    returns (pmin: Point, jpmin: int)
    requires |order| > 0 && marked.Length == |order|
    requires Distinct(picked) && |picked| <= |order|
    requires forall t | 0 <= t < |picked| :: 0 <= picked[t] < |order|
    requires forall j | 0 <= j < |order| :: marked[j] <==> j in picked
    ensures 0 <= jpmin < |order| && pmin == order[jpmin]
    ensures |picked| < |order| ==>
      jpmin !in picked && forall j | 0 <= j < |order| && j !in picked :: SqDist(pmin, p) <= SqDist(order[j], p)
    ensures |picked| == |order| ==> jpmin == 0 && jpmin in picked
  {
    Pigeonhole(picked, |order|);
    var minDistance := Infinite;
    pmin := order[0];
    jpmin := 0;
    for j := 0 to |order|
      invariant 0 <= jpmin < |order| && pmin == order[jpmin]
      invariant minDistance.Infinite? ==> jpmin == 0 && forall t | 0 <= t < j :: marked[t]
      invariant minDistance.Finite? ==> !marked[jpmin] && minDistance.v == SqDist(pmin, p)
      invariant forall t | 0 <= t < j && !marked[t] :: AtMost(minDistance, SqDist(order[t], p))
    {
      var d := SqDist(order[j], p);
      if Below(d, minDistance) && !marked[j] {
        pmin, jpmin, minDistance := order[j], j, Finite(d);
      }
    }
  }

  /** What the rounds of `nearest(p, k)` have found so far: the first
      |picked| answers are the points at the distinct indices `picked`, in
      order of distance, each no farther than any point not yet picked. */
  ghost predicate Picks(res: seq<Point>, picked: seq<int>, order: seq<Point>, p: Point) {
    && |picked| <= |res|
    && (forall t | 0 <= t < |picked| :: 0 <= picked[t] < |order| && res[t] == order[picked[t]])
    && Distinct(picked)
    && (forall t, u | 0 <= t < u < |picked| :: SqDist(res[t], p) <= SqDist(res[u], p))
    && (forall t, j | 0 <= t < |picked| && 0 <= j < |order| && j !in picked ::
          SqDist(res[t], p) <= SqDist(order[j], p))
  }

  /** One more round keeps `Picks`: a fresh pick that is nearest among
      the points not yet picked extends it; a round after every point is
      picked only appends. */
  lemma PickMore(res: seq<Point>, picked: seq<int>, order: seq<Point>, p: Point, jpmin: int, unpicked: bool)
    requires Picks(res, picked, order, p) && 0 <= jpmin < |order|
    requires unpicked ==> |picked| == |res| && jpmin !in picked
    requires unpicked ==> forall j | 0 <= j < |order| && j !in picked :: SqDist(order[jpmin], p) <= SqDist(order[j], p)
    ensures unpicked ==> Picks(res + [order[jpmin]], picked + [jpmin], order, p)
    ensures Picks(res + [order[jpmin]], picked, order, p)
  {
    var res' := res + [order[jpmin]];
    assert forall t | 0 <= t < |res| :: res'[t] == res[t];
    if unpicked {
      var picked' := picked + [jpmin];
      assert forall t | 0 <= t < |picked| :: picked'[t] == picked[t];
      forall j | 0 <= j < |order| && j !in picked' ensures j !in picked { }
    }
  }

  /** The picks of `nearest(p, k)` read as points: distinct indices into a
      sequence without repeats name distinct points, and a point of the
      order not answered sits at an index not picked. */
  lemma Answers(res: seq<Point>, picked: seq<int>, order: seq<Point>, p: Point)
    requires Distinct(order) && Distinct(picked) && |picked| <= |res|
    requires forall t | 0 <= t < |picked| :: 0 <= picked[t] < |order| && res[t] == order[picked[t]]
    requires forall t, j | 0 <= t < |picked| && 0 <= j < |order| && j !in picked ::
      SqDist(res[t], p) <= SqDist(order[j], p)
    ensures forall i, j | 0 <= i < j < |picked| :: res[i] != res[j]
    ensures forall i, q | 0 <= i < |picked| && q in order && q !in res[..|picked|] ::
      SqDist(res[i], p) <= SqDist(q, p)
  {
    forall i, q | 0 <= i < |picked| && q in order && q !in res[..|picked|]
      ensures SqDist(res[i], p) <= SqDist(q, p)
    {
      var j :| 0 <= j < |order| && order[j] == q;
      forall t | 0 <= t < |picked| ensures picked[t] != j {
        assert res[..|picked|][t] == res[t];
      }
    }
  }

  /** Distinct indices below n: fewer than n of them leave one out, and n
      of them take every one. */
  lemma Pigeonhole(picked: seq<int>, n: nat)
    requires Distinct(picked) && |picked| <= n
    requires forall t | 0 <= t < |picked| :: 0 <= picked[t] < n
    ensures |picked| < n ==> exists j :: 0 <= j < n && j !in picked
    ensures |picked| == n ==> forall j | 0 <= j < n :: j in picked
  {
    var s := set x | x in picked;
    var all := Indices(n);
    DistinctCard(picked);
    assert all == s + (all - s);
    if |picked| < n {
      var j :| j in all - s;
    } else {
      assert |all - s| == 0;
      forall j | 0 <= j < n ensures j in picked {
        assert j in all && j !in all - s;
      }
    }
  }

  /** The indices below n. */
  function Indices(n: nat): (s: set<int>)
    ensures |s| == n
    ensures forall j :: j in s <==> 0 <= j < n
  {
    if n == 0 then {} else Indices(n - 1) + {n - 1}
  }

  /** A sequence without repeats has as many distinct elements as its
      length. */
  lemma {:induction false} DistinctCard<T>(s: seq<T>)
    requires Distinct(s)
    ensures |set x | x in s| == |s|
  {
    if s != [] {
      var init := s[..|s| - 1];
      assert Distinct(init);
      DistinctCard(init);
      assert (set x | x in s) == (set x | x in init) + {s[|s| - 1]};
      assert s[|s| - 1] !in init;
    }
  }

  /** The input that shows the missing clamp: one point put and two
      nearest points asked for. The answer repeats the point. */
  method RepeatsFirstPoint() returns (res: seq<Point>)
    ensures res == [Point(0, 0), Point(0, 0)]
  {
    var s := new PointSet();
    s.Put(Point(0, 0));
    res := s.NearestKAsWritten(Point(1, 1), 2);
  }

  /** The same input with k clamped: the one point, once. */
  method ClampedAnswer() returns (res: seq<Point>)
    ensures res == [Point(0, 0)]
  {
    var s := new PointSet();
    s.Put(Point(0, 0));
    res := s.NearestK(Point(1, 1), 2);
  }
}
