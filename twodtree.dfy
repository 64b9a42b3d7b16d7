/**
 * The partition tree on the heap: `Node` and `Tree` of 2dtree.cpp.
 *
 * Each node exclusively owns its children (the source's shared pointers are
 * only ever held by one parent). A node carries two ghost fields: `Repr`,
 * the set of nodes of its subtree, and `View`, the subtree as a `KdTree`
 * value. `Valid()` ties both to the real fields. It reads only the
 * structural fields (`left`, `right` and the ghost ones), never `alive`, so
 * the nearest-neighbour search, which flips `alive` flags, keeps every
 * subtree valid without further proof.
 */
module TwoDTree {
  import opened Geometry
  import opened KdSpec

  class Node {
    const point: Point
    const mod: int
    var alive: bool
    var left: Node?
    var right: Node?
    ghost var Repr: set<Node>
    ghost var View: KdTree

    ghost predicate Valid()
      reads this`Repr, this`left, this`right, this`View
      reads Repr`left, Repr`right, Repr`Repr, Repr`View
      decreases Repr
    {
      && this in Repr
      && (left != null ==>
            left in Repr && left.Repr <= Repr && this !in left.Repr && left.Valid())
      && (right != null ==>
            right in Repr && right.Repr <= Repr && this !in right.Repr && right.Valid())
      && (left != null && right != null ==> left.Repr !! right.Repr)
      && Repr == {this} + (if left == null then {} else left.Repr)
                        + (if right == null then {} else right.Repr)
      && View == Branch(point, mod,
                        if left == null then Leaf else left.View,
                        if right == null then Leaf else right.View)
    }

    /** `Node(p, m)`: a childless node holding p on axis m, alive. */
    constructor (p: Point, m: int)
      ensures Valid() && Repr == {this}
      ensures point == p && mod == m && alive
      ensures left == null && right == null
      ensures View == Branch(p, m, Leaf, Leaf)
    {
      point, mod := p, m;
      alive := true;
      left, right := null, null;
      Repr := {this};
      View := Branch(p, m, Leaf, Leaf);
    }

    /** `Node::isAlive`. */
    function IsAlive(): bool
      reads this`alive
    {
      alive
    }

    /** `Node::setAlive`: afterwards `isAlive()` answers `live`. */
    method SetAlive(live: bool)
      modifies this`alive
      ensures IsAlive() == live
    {
      alive := live;
    }

    /** `Node::setLeftNode`: the left child becomes `node`. */
    method SetLeftNode(node: Node?)
      modifies this`left
      ensures left == node
    {
      left := node;
    }

    /** `Node::setRightNode`: the right child becomes `node`. */
    method SetRightNode(node: Node?)
      modifies this`right
      ensures right == node
    {
      right := node;
    }
  }

  /** `dependence` is strict: a point whose coordinate on the node's axis
      equals the node's never goes left, so equal points go right. */
  lemma DependenceStrict(n: Node, p: Point)
    requires (if n.mod == 0 then p.x == n.point.x else p.y == n.point.y)
    ensures !Dependence(n.point, n.mod, p)
    ensures !Dependence(n.point, n.mod, n.point)
  {
  }

  /** The nodes of a valid subtree hold exactly the points of its view. */
  lemma {:induction false} ReprPoints(n: Node)
    requires n.Valid()
    ensures forall m | m in n.Repr :: m.point in Points(n.View)
    ensures forall q | q in Points(n.View) :: exists m :: m in n.Repr && m.point == q
    decreases n.Repr
  {
    var l := if n.left == null then Leaf else n.left.View;
    var r := if n.right == null then Leaf else n.right.View;
    assert Points(n.View) == multiset{n.point} + Points(l) + Points(r);
    if n.left != null { ReprPoints(n.left); }
    if n.right != null { ReprPoints(n.right); }
    forall m | m in n.Repr ensures m.point in Points(n.View) {
      if m != n {
        if n.left != null && m in n.left.Repr {
          assert m.point in Points(l);
        } else {
          assert m.point in Points(r);
        }
      }
    }
    forall q | q in Points(n.View) ensures exists m :: m in n.Repr && m.point == q {
      if q == n.point {
        assert n in n.Repr;
      } else if q in Points(l) {
        var m :| m in n.left.Repr && m.point == q;
        assert m in n.Repr;
      } else {
        var m :| m in n.right.Repr && m.point == q;
        assert m in n.Repr;
      }
    }
  }

  /** A valid subtree has one node per stored point. */
  lemma {:induction false} ReprCount(n: Node)
    requires n.Valid()
    ensures |n.Repr| == Count(n.View)
    decreases n.Repr
  {
    var l := if n.left == null then {} else n.left.Repr;
    var r := if n.right == null then {} else n.right.Repr;
    if n.left != null { ReprCount(n.left); }
    if n.right != null { ReprCount(n.right); }
    assert n.Repr == {n} + l + r;
    assert {n} !! l && {n} !! r && l !! r;
    assert |{n} + l| == 1 + |l|;
    assert |{n} + l + r| == 1 + |l| + |r|;
  }

  /** When no point is stored twice, no two nodes hold the same point. */
  lemma ReprInjective(n: Node)
    requires n.Valid() && NoDup(Points(n.View))
    ensures forall a, b | a in n.Repr && b in n.Repr && a.point == b.point :: a == b
  {
    forall a, b | a in n.Repr && b in n.Repr && a.point == b.point ensures a == b {
      SamePointSameNode(n, a, b);
    }
  }

  /** One pair at a time: the descent towards two nodes holding the same
      point never splits, so they are the same node. */
  lemma {:induction false} SamePointSameNode(n: Node, a: Node, b: Node)
    requires n.Valid() && NoDup(Points(n.View))
    requires a in n.Repr && b in n.Repr && a.point == b.point
    ensures a == b
    decreases n.Repr
  {
    NoDupParts(n.View);
    if n.left != null { ReprPoints(n.left); }
    if n.right != null { ReprPoints(n.right); }
    SameSide(n, a, b);
    if a != n {
      if n.left != null && a in n.left.Repr {
        SamePointSameNode(n.left, a, b);
      } else {
        SamePointSameNode(n.right, a, b);
      }
    }
  }

  /** The case split behind `ReprInjective`: two nodes holding the same
      point are both the root, or both in the same subtree. */
  lemma SameSide(n: Node, a: Node, b: Node)
    requires n.Valid() && NoDup(Points(n.View))
    requires a in n.Repr && b in n.Repr && a.point == b.point
    requires n.left != null ==> forall m | m in n.left.Repr :: m.point in Points(n.left.View)
    requires n.right != null ==> forall m | m in n.right.Repr :: m.point in Points(n.right.View)
    ensures a == n <==> b == n
    ensures n.left != null ==> (a in n.left.Repr <==> b in n.left.Repr)
  {
    NoDupParts(n.View);
  }

  /** No node is marked: the state between queries. */
  ghost predicate AllAlive(nodes: set<Node>)
    reads nodes`alive
  {
    forall n | n in nodes :: n.alive
  }

  /** Flipping `alive` flags keeps a valid subtree valid: validity reads
      only the structural fields. */
  twostate lemma StillValid(n: Node)
    requires old(n.Valid())
    requires forall m | m in old(n.Repr) :: unchanged(m`left, m`right, m`Repr, m`View)
    ensures n.Valid()
  {
  }

  class Tree {
    var root: Node?
    ghost var Repr: set<Node>
    ghost var View: KdTree

    ghost predicate Valid()
      reads this, Repr`left, Repr`right, Repr`Repr, Repr`View
    {
      && (root == null ==> Repr == {} && View == Leaf)
      && (root != null ==> root in Repr && Repr == root.Repr && root.Valid() && View == root.View)
    }

    constructor ()
      ensures Valid() && Repr == {} && View == Leaf
    {
      root := null;
      Repr := {};
      View := Leaf;
    }

    /** `Tree::put`: an empty tree gets p as its root, on axis 0; otherwise
      `reallyPut` descends from the root. Only fresh nodes join the
      footprint, all of them alive, and no node's `alive` flag changes. */
    method Put(p: Point)
      requires Valid()
      modifies this, Repr`left, Repr`right, Repr`Repr, Repr`View
      ensures Valid()
      ensures View == Insert(old(View), p, 0)
      ensures old(Repr) <= Repr && fresh(Repr - old(Repr))
      ensures forall n | n in Repr - old(Repr) :: n.alive
      ensures old(AllAlive(Repr)) ==> AllAlive(Repr)
      ensures old(root) != null ==> root == old(root)
    {
      if root == null {
        root := new Node(p, 0);
      } else {
        ReallyPut(root, p);
      }
      Repr := root.Repr;
      View := root.View;
    }

    /** `Tree::reallyPut`: descend by `dependence` and install a new node,
      on the axis after its parent's, in the empty child slot reached. The
      four cases are split out below, one method each. */
    method ReallyPut(node: Node, p: Point)
      requires node.Valid()
      modifies node.Repr`left, node.Repr`right, node.Repr`Repr, node.Repr`View
      ensures node.Valid()
      ensures node.View == Insert(old(node.View), p, 0)
      ensures old(node.Repr) <= node.Repr && fresh(node.Repr - old(node.Repr))
      ensures forall n | n in node.Repr - old(node.Repr) :: n.alive
      decreases node.Repr, 1
    {
      if Dependence(node.point, node.mod, p) {
        if node.left != null {
          DescendLeft(node, p);
        } else {
          AttachLeft(node, p);
        }
      } else {
        if node.right != null {
          DescendRight(node, p);
        } else {
          AttachRight(node, p);
        }
      }
    }

    /** p belongs left and the left child exists: recurse into it. */
    method DescendLeft(node: Node, p: Point)
      requires node.Valid() && Dependence(node.point, node.mod, p) && node.left != null
      modifies node.Repr`left, node.Repr`right, node.Repr`Repr, node.Repr`View
      ensures node.Valid()
      ensures node.View == Insert(old(node.View), p, 0)
      ensures old(node.Repr) <= node.Repr && fresh(node.Repr - old(node.Repr))
      ensures forall n | n in node.Repr - old(node.Repr) :: n.alive
      decreases node.Repr, 0
    {
      ReallyPut(node.left, p);
      Relink(node);
    }

    /** p belongs right and the right child exists: recurse into it. */
    method DescendRight(node: Node, p: Point)
      requires node.Valid() && !Dependence(node.point, node.mod, p) && node.right != null
      modifies node.Repr`left, node.Repr`right, node.Repr`Repr, node.Repr`View
      ensures node.Valid()
      ensures node.View == Insert(old(node.View), p, 0)
      ensures old(node.Repr) <= node.Repr && fresh(node.Repr - old(node.Repr))
      ensures forall n | n in node.Repr - old(node.Repr) :: n.alive
      decreases node.Repr, 0
    {
      ReallyPut(node.right, p);
      Relink(node);
    }

    /** p belongs left and there is no left child: p becomes it. */
    method AttachLeft(node: Node, p: Point)
      requires node.Valid() && Dependence(node.point, node.mod, p) && node.left == null
      modifies node`left, node`Repr, node`View
      ensures node.Valid()
      ensures node.View == Insert(old(node.View), p, 0)
      ensures old(node.Repr) <= node.Repr && fresh(node.Repr - old(node.Repr))
      ensures forall n | n in node.Repr - old(node.Repr) :: n.alive
    {
      var child := new Node(p, ChildMod(node.mod));
      node.SetLeftNode(child);
      Relink(node);
    }

    /** p belongs right and there is no right child: p becomes it. */
    method AttachRight(node: Node, p: Point)
      requires node.Valid() && !Dependence(node.point, node.mod, p) && node.right == null
      modifies node`right, node`Repr, node`View
      ensures node.Valid()
      ensures node.View == Insert(old(node.View), p, 0)
      ensures old(node.Repr) <= node.Repr && fresh(node.Repr - old(node.Repr))
      ensures forall n | n in node.Repr - old(node.Repr) :: n.alive
    {
      var child := new Node(p, ChildMod(node.mod));
      node.SetRightNode(child);
      Relink(node);
    }

    /** Recompute a node's ghost footprint and view from its children's,
      once a child has changed. */
    ghost method Relink(node: Node)
      requires node.left != null ==> node.left.Valid() && node !in node.left.Repr
      requires node.right != null ==> node.right.Valid() && node !in node.right.Repr
      requires node.left != null && node.right != null ==> node.left.Repr !! node.right.Repr
      modifies node`Repr, node`View
      ensures node.Valid()
      ensures node.Repr == {node} + (if node.left == null then {} else node.left.Repr)
                                  + (if node.right == null then {} else node.right.Repr)
      ensures node.View == Branch(node.point, node.mod,
                                  if node.left == null then Leaf else node.left.View,
                                  if node.right == null then Leaf else node.right.View)
    {
      node.Repr := {node} + (if node.left == null then {} else node.left.Repr)
                          + (if node.right == null then {} else node.right.Repr);
      node.View := Branch(node.point, node.mod,
                          if node.left == null then Leaf else node.left.View,
                          if node.right == null then Leaf else node.right.View);
    }
  }
}
