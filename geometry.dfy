/** Optional values, the model of std::optional. */
module Wrappers {
  datatype Option<T> = None | Some(value: T)
}

/**
 * The geometry primitives of the 2-d tree: an immutable point with the
 * lexicographic order of its comparison operators, and an axis-aligned
 * rectangle with containment, distance to a point and splitting by a line.
 *
 * Coordinates are unbounded integers (the source uses doubles). Point::distance takes a
 * square root; every use of a distance in the index is a comparison, so the
 * model works with SQUARED distances throughout, which order exactly as the
 * distances do.
 */
module Geometry {
  import opened Wrappers

  datatype Point = Point(x: int, y: int)

  /** `Point::operator<`: lexicographic, on x first and then on y. */
  predicate Less(p: Point, q: Point) {
    if q.x != p.x then p.x < q.x else p.y < q.y
  }

  /** `Point::operator>`. */
  predicate Greater(p: Point, q: Point) {
    if q.x != p.x then p.x > q.x else p.y > q.y
  }

  /** `Point::operator<=`. */
  predicate LessEq(p: Point, q: Point) {
    Less(p, q) || p == q
  }

  /** `Point::operator>=`. */
  predicate GreaterEq(p: Point, q: Point) {
    Greater(p, q) || p == q
  }

  /** Exactly one of `<`, `==` and `>` holds of any two points,
      and `>` is `<` with its arguments swapped. */
  lemma Trichotomy(p: Point, q: Point)
    ensures (Less(p, q) && !(p == q) && !Greater(p, q))
         || (!Less(p, q) && p == q && !Greater(p, q))
         || (!Less(p, q) && !(p == q) && Greater(p, q))
    ensures Greater(p, q) <==> Less(q, p)
  {
  }

  /** `<` is transitive, so it is a strict total order on points. */
  lemma LessTransitive(p: Point, q: Point, r: Point)
    requires Less(p, q) && Less(q, r)
    ensures Less(p, r)
  {
  }

  /** `<=` and `>=` are complementary to `>` and `<`. */
  lemma LessEqIsNotGreater(p: Point, q: Point)
    ensures LessEq(p, q) <==> !Greater(p, q)
    ensures GreaterEq(p, q) <==> !Less(p, q)
  {
  }

  function Sq(a: int): (r: int)
    ensures r >= 0
  {
    a * a
  }

  /** `Point::distance`, squared. */
  function SqDist(p: Point, q: Point): (d: int)
    ensures d >= 0
    ensures d == 0 <==> p == q
  {
    SqSign(p.x - q.x);
    SqSign(p.y - q.y);
    Sq(p.x - q.x) + Sq(p.y - q.y)
  }

  /** The distance does not depend on the order of the two points. */
  lemma SqDistSymmetric(p: Point, q: Point)
    ensures SqDist(p, q) == SqDist(q, p)
  {
    SqNeg(p.x - q.x);
    SqNeg(p.y - q.y);
  }

  function Min(a: int, b: int): (m: int)
    ensures m <= a && m <= b && (m == a || m == b)
  {
    if a <= b then a else b
  }

  function Max(a: int, b: int): (m: int)
    ensures m >= a && m >= b && (m == a || m == b)
  {
    if a >= b then a else b
  }

  /** An axis-aligned rectangle [xmin, xmax] x [ymin, ymax]. */
  datatype Rect = Rect(xmin: int, ymin: int, xmax: int, ymax: int)

  /** `Rect::contains`: all four edges are inclusive. */
  predicate Contains(r: Rect, p: Point) {
    p.x >= r.xmin && p.x <= r.xmax && p.y >= r.ymin && p.y <= r.ymax
  }

  /** A rectangle whose edges are in order, as every rectangle the index
      builds is; a malformed one is the caller's fault in the source. */
  predicate WellFormed(r: Rect) {
    r.xmin <= r.xmax && r.ymin <= r.ymax
  }

  /** `Rect(left_bottom, right_top)`: the points between the two corners,
      edges included; it is well formed exactly when the corners are in
      order, and then it contains both of them. */
  function FromCorners(leftBottom: Point, rightTop: Point): (r: Rect)
    ensures forall q :: Contains(r, q) <==>
      leftBottom.x <= q.x <= rightTop.x && leftBottom.y <= q.y <= rightTop.y
    ensures WellFormed(r) <==> leftBottom.x <= rightTop.x && leftBottom.y <= rightTop.y
    ensures WellFormed(r) ==> Contains(r, leftBottom) && Contains(r, rightTop)
  {
    Rect(leftBottom.x, leftBottom.y, rightTop.x, rightTop.y)
  }

  /** `Rect::distance`, squared, branch by branch: zero inside; the distance
      to the nearer horizontal edge when p lies within the x-range; to the
      nearer vertical edge when it lies within the y-range; otherwise the
      distance to the nearest of the four corners. */
  function RectSqDist(r: Rect, p: Point): (d: int)
    ensures d >= 0
    ensures Contains(r, p) ==> d == 0
  {
    if Contains(r, p) then 0
    else if p.x >= r.xmin && p.x <= r.xmax then
      Min(Sq(p.y - r.ymin), Sq(p.y - r.ymax))
    else if p.y >= r.ymin && p.y <= r.ymax then
      Min(Sq(p.x - r.xmin), Sq(p.x - r.xmax))
    else
      Min(Min(SqDist(Point(r.xmin, r.ymin), p), SqDist(Point(r.xmax, r.ymin), p)),
          Min(SqDist(Point(r.xmin, r.ymax), p), SqDist(Point(r.xmax, r.ymax), p)))
  }

  /** Squaring does not see the sign. */
  lemma SqNeg(a: int)
    ensures Sq(-a) == Sq(a)
  {
  }

  lemma SqPositive(a: int)
    requires a != 0
    ensures Sq(a) > 0
  {
  }

  lemma SqSign(a: int)
    ensures Sq(a) == 0 <==> a == 0
  {
    if a != 0 { SqPositive(a); }
  }

  /** Along one axis: a coordinate c beyond the edge e, seen from a,
      is at least as far from a as the edge is. */
  lemma AxisBound(a: int, e: int, c: int)
    requires a < e <= c || c <= e < a
    ensures Sq(a - e) <= Sq(a - c) && Sq(e - a) <= Sq(c - a)
  {
    if a < e {
      assert 0 < e - a <= c - a;
      assert (e - a) * (e - a) <= (c - a) * (e - a) <= (c - a) * (c - a);
    } else {
      assert 0 < a - e <= a - c;
      assert (a - e) * (a - e) <= (a - c) * (a - e) <= (a - c) * (a - c);
    }
    SqNeg(a - e);
    SqNeg(a - c);
  }

  /** The pruning lower bound: the distance from p to a rectangle is never
      larger than the distance from p to any point the rectangle contains. */
  lemma RectSqDistLowerBound(r: Rect, p: Point, q: Point)
    requires Contains(r, q)
    ensures RectSqDist(r, p) <= SqDist(p, q)
  {
    if Contains(r, p) {
    } else if p.x >= r.xmin && p.x <= r.xmax {
      // p lies strictly below or strictly above the rectangle
      if p.y < r.ymin {
        AxisBound(p.y, r.ymin, q.y);
      } else {
        AxisBound(p.y, r.ymax, q.y);
      }
    } else if p.y >= r.ymin && p.y <= r.ymax {
      if p.x < r.xmin {
        AxisBound(p.x, r.xmin, q.x);
      } else {
        AxisBound(p.x, r.xmax, q.x);
      }
    } else {
      CornerBound(r, p, q);
    }
  }

  /** The corner case of the lower bound: p is outside both ranges,
      and the corner facing p is nearer than any point of the rectangle. */
  lemma CornerBound(r: Rect, p: Point, q: Point)
    requires Contains(r, q)
    requires !(p.x >= r.xmin && p.x <= r.xmax) && !(p.y >= r.ymin && p.y <= r.ymax)
    ensures RectSqDist(r, p) <= SqDist(p, q)
  {
    var cx := if p.x < r.xmin then r.xmin else r.xmax;
    var cy := if p.y < r.ymin then r.ymin else r.ymax;
    AxisBound(p.x, cx, q.x);
    AxisBound(p.y, cy, q.y);
    var corner := SqDist(Point(cx, cy), p);
    assert corner <= SqDist(p, q);
    assert RectSqDist(r, p) <= corner;
  }

  /** On a well-formed rectangle the distance is zero exactly for the
      points the rectangle contains. */
  lemma RectSqDistZero(r: Rect, p: Point)
    requires WellFormed(r)
    ensures RectSqDist(r, p) == 0 <==> Contains(r, p)
  {
    if !Contains(r, p) {
      if p.x >= r.xmin && p.x <= r.xmax {
        SqPositive(p.y - r.ymin);
        SqPositive(p.y - r.ymax);
      } else if p.y >= r.ymin && p.y <= r.ymax {
        SqPositive(p.x - r.xmin);
        SqPositive(p.x - r.xmax);
      } else {
        SqPositive(r.xmin - p.x);
        SqPositive(r.xmax - p.x);
      }
    }
  }

  /** A side of a split: present and containing q. */
  predicate InSide(side: Option<Rect>, q: Point) {
    side.Some? && Contains(side.value, q)
  }

  /** `Rect::splitX`: the halves left and right of the vertical line at x.
      A point left of the line lies in the rectangle exactly when it lies in
      the left side; a point on or right of the line, exactly when it lies in
      the right side. */
  function SplitX(r: Rect, x: int): (halves: (Option<Rect>, Option<Rect>))
    ensures forall q: Point :: q.x < x ==> (Contains(r, q) <==> InSide(halves.0, q))
    ensures forall q: Point :: q.x >= x ==> (Contains(r, q) <==> InSide(halves.1, q))
    ensures forall q :: InSide(halves.0, q) || InSide(halves.1, q) ==> Contains(r, q)
  {
    if x >= r.xmin && x <= r.xmax then
      (Some(Rect(r.xmin, r.ymin, x, r.ymax)), Some(Rect(x, r.ymin, r.xmax, r.ymax)))
    else if x > r.xmax then
      (Some(r), None)
    else
      (None, Some(r))
  }

  /** `Rect::splitY`: the halves below and above the horizontal line at y. */
  function SplitY(r: Rect, y: int): (halves: (Option<Rect>, Option<Rect>))
    ensures forall q: Point :: q.y < y ==> (Contains(r, q) <==> InSide(halves.0, q))
    ensures forall q: Point :: q.y >= y ==> (Contains(r, q) <==> InSide(halves.1, q))
    ensures forall q :: InSide(halves.0, q) || InSide(halves.1, q) ==> Contains(r, q)
  {
    if y >= r.ymin && y <= r.ymax then
      (Some(Rect(r.xmin, r.ymin, r.xmax, y)), Some(Rect(r.xmin, y, r.xmax, r.ymax)))
    else if y > r.ymax then
      (Some(r), None)
    else
      (None, Some(r))
  }

  /** Inside its range the line cuts the rectangle into [xmin, x] and
      [x, xmax]; past either edge the whole rectangle goes to one side and
      the other side is absent. Every point of the rectangle is in a side. */
  lemma SplitXCases(r: Rect, x: int)
    requires WellFormed(r)
    ensures r.xmin <= x <= r.xmax ==>
      SplitX(r, x).0 == Some(Rect(r.xmin, r.ymin, x, r.ymax)) &&
      SplitX(r, x).1 == Some(Rect(x, r.ymin, r.xmax, r.ymax))
    ensures x > r.xmax ==> SplitX(r, x) == (Some(r), None)
    ensures x < r.xmin ==> SplitX(r, x) == (None, Some(r))
    ensures forall q :: Contains(r, q) ==> InSide(SplitX(r, x).0, q) || InSide(SplitX(r, x).1, q)
  {
  }

  /** The same four facts of `splitY`, on the y axis. */
  lemma SplitYCases(r: Rect, y: int)
    requires WellFormed(r)
    ensures r.ymin <= y <= r.ymax ==>
      SplitY(r, y).0 == Some(Rect(r.xmin, r.ymin, r.xmax, y)) &&
      SplitY(r, y).1 == Some(Rect(r.xmin, y, r.xmax, r.ymax))
    ensures y > r.ymax ==> SplitY(r, y) == (Some(r), None)
    ensures y < r.ymin ==> SplitY(r, y) == (None, Some(r))
    ensures forall q :: Contains(r, q) ==> InSide(SplitY(r, y).0, q) || InSide(SplitY(r, y).1, q)
  {
  }
}
