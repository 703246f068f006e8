/** The two rotation primitives and the four rebalancing cases built from
    them, shared by insertion and deletion. */
module Rotations {
  import opened AvlTree

  /** Promotes the left child `x` of `y`: `y` becomes `x`'s right child and
      takes `x`'s old right subtree as its left. Only the two moved nodes get
      their heights recomputed, the demoted `y` first. */
  function RightRotate(y: Tree): (x: Tree)
    requires y.Node? && y.left.Node?
    ensures x.Node? && x.right.Node?
    ensures x.key == y.left.key && x.right.key == y.key
    ensures x.left == y.left.left && x.right.left == y.left.right && x.right.right == y.right
    ensures HeightsOk(y.left.left) && HeightsOk(y.left.right) && HeightsOk(y.right) ==> HeightsOk(x)
    ensures InOrder(x) == InOrder(y)
    ensures Keys(x) == Keys(y)
    ensures Bst(x) <==> Bst(y)
  {
    var x := y.left;
    var t2 := x.right;
    var demoted := MakeNode(y.key, t2, y.right);
    MakeNode(x.key, x.left, demoted)
  }

  /** Mirror of RightRotate: promotes the right child `y` of `x`. */
  function LeftRotate(x: Tree): (y: Tree)
    requires x.Node? && x.right.Node?
    ensures y.Node? && y.left.Node?
    ensures y.key == x.right.key && y.left.key == x.key
    ensures y.right == x.right.right && y.left.right == x.right.left && y.left.left == x.left
    ensures HeightsOk(x.left) && HeightsOk(x.right.left) && HeightsOk(x.right.right) ==> HeightsOk(y)
    ensures InOrder(y) == InOrder(x)
    ensures Keys(y) == Keys(x)
    ensures Bst(y) <==> Bst(x)
  {
    var y := x.right;
    var t2 := y.left;
    var demoted := MakeNode(x.key, x.left, t2);
    MakeNode(y.key, demoted, y.right)
  }

  /** The rotations are inverse to each other on correctly cached trees. */
  lemma RotationsAreInverse(t: Tree)
    requires HeightsOk(t) && t.Node?
    ensures t.left.Node? ==> LeftRotate(RightRotate(t)) == t
    ensures t.right.Node? ==> RightRotate(LeftRotate(t)) == t
  {
  }

  /** Left-Left case: a node two levels heavier on the left whose left child
      does not lean right is balanced by one right rotation. The result is
      as tall as the left child, or one taller when that child was level. */
  lemma LeftLeftCase(k: int, l: Tree, r: Tree)
    requires Valid(l) && Valid(r) && Below(Keys(l), k) && Above(Keys(r), k)
    requires Height(l) == Height(r) + 2 && GetBalance(l) >= 0
    ensures l.Node?
    ensures Valid(RightRotate(MakeNode(k, l, r)))
    ensures Keys(RightRotate(MakeNode(k, l, r))) == Keys(l) + {k} + Keys(r)
    ensures Height(RightRotate(MakeNode(k, l, r))) == Height(l) + 1 - GetBalance(l)
  {
    HeightBounds(r);
    HeightBounds(l);
    var t := RightRotate(MakeNode(k, l, r));
    HeightBounds(l.left);
    HeightBounds(l.right);
    assert HeightsOk(t);
    MakeNodeValid(k, l.right, r);
    MakeNodeValid(l.key, l.left, t.right);
  }

  /** Right-Right case, the mirror of LeftLeftCase. */
  lemma RightRightCase(k: int, l: Tree, r: Tree)
    requires Valid(l) && Valid(r) && Below(Keys(l), k) && Above(Keys(r), k)
    requires Height(r) == Height(l) + 2 && GetBalance(r) <= 0
    ensures r.Node?
    ensures Valid(LeftRotate(MakeNode(k, l, r)))
    ensures Keys(LeftRotate(MakeNode(k, l, r))) == Keys(l) + {k} + Keys(r)
    ensures Height(LeftRotate(MakeNode(k, l, r))) == Height(r) + 1 + GetBalance(r)
  {
    HeightBounds(r);
    HeightBounds(l);
    var t := LeftRotate(MakeNode(k, l, r));
    HeightBounds(r.left);
    HeightBounds(r.right);
    assert HeightsOk(t);
    MakeNodeValid(k, l, r.left);
    MakeNodeValid(r.key, t.left, r.right);
  }

  /** The common outcome of both double rotations: the grandchild `gk` on
      top of two nodes whose four subtrees differ in height by at most one. */
  lemma DoubleRotationValid(lk: int, a: Tree, c: Tree, gk: int, d: Tree, k: int, r: Tree)
    requires Valid(a) && Valid(c) && Valid(d) && Valid(r)
    requires Below(Keys(a), lk) && Above(Keys(c), lk) && Below(Keys(c), gk)
    requires Above(Keys(d), gk) && Below(Keys(d), k) && Above(Keys(r), k)
    requires lk < gk < k
    requires Height(a) == Height(r) && Height(r) - 1 <= Height(c) <= Height(r)
    requires Height(r) - 1 <= Height(d) <= Height(r)
    ensures Valid(MakeNode(gk, MakeNode(lk, a, c), MakeNode(k, d, r)))
    ensures Height(MakeNode(gk, MakeNode(lk, a, c), MakeNode(k, d, r))) == Height(r) + 2
    ensures Keys(MakeNode(gk, MakeNode(lk, a, c), MakeNode(k, d, r)))
         == Keys(a) + {lk} + Keys(c) + {gk} + Keys(d) + {k} + Keys(r)
  {
    var lower := MakeNode(lk, a, c);
    var upper := MakeNode(k, d, r);
    MakeNodeValid(lk, a, c);
    MakeNodeValid(k, d, r);
    assert Below(Keys(lower), gk);
    assert Above(Keys(upper), gk);
    MakeNodeValid(gk, lower, upper);
  }

  /** Left-Right case: a node two levels heavier on the left whose left child
      leans right is balanced by rotating the child left and the node right;
      the stale height cached in the node in between is never read. The
      result is exactly as tall as the left child. */
  lemma LeftRightCase(k: int, h: int, l: Tree, r: Tree)
    requires Valid(l) && Valid(r) && Below(Keys(l), k) && Above(Keys(r), k)
    requires Height(l) == Height(r) + 2 && GetBalance(l) < 0
    ensures l.Node? && l.right.Node?
    ensures Valid(RightRotate(Node(k, h, LeftRotate(l), r)))
    ensures Keys(RightRotate(Node(k, h, LeftRotate(l), r))) == Keys(l) + {k} + Keys(r)
    ensures Height(RightRotate(Node(k, h, LeftRotate(l), r))) == Height(l)
  {
    HeightBounds(r);
    HeightBounds(l);
    HeightBounds(l.right);
    var Node(lk, _, a, g) := l;
    var Node(gk, _, c, d) := g;
    HeightBounds(a);
    HeightBounds(c);
    HeightBounds(d);
    assert RightRotate(Node(k, h, LeftRotate(l), r)) == MakeNode(gk, MakeNode(lk, a, c), MakeNode(k, d, r));
    assert Valid(a) && Valid(g);
    assert Valid(c) && Valid(d);
    assert GetBalance(l) == -1 && -1 <= GetBalance(g) <= 1;
    assert Height(a) == Height(r);
    assert Keys(g) == Keys(c) + {gk} + Keys(d);
    assert lk < gk < k;
    assert Above(Keys(c), lk) && Below(Keys(d), k);
    DoubleRotationValid(lk, a, c, gk, d, k, r);
  }

  /** Right-Left case, the mirror of LeftRightCase. */
  lemma RightLeftCase(k: int, h: int, l: Tree, r: Tree)
    requires Valid(l) && Valid(r) && Below(Keys(l), k) && Above(Keys(r), k)
    requires Height(r) == Height(l) + 2 && GetBalance(r) > 0
    ensures r.Node? && r.left.Node?
    ensures Valid(LeftRotate(Node(k, h, l, RightRotate(r))))
    ensures Keys(LeftRotate(Node(k, h, l, RightRotate(r)))) == Keys(l) + {k} + Keys(r)
    ensures Height(LeftRotate(Node(k, h, l, RightRotate(r)))) == Height(r)
  {
    HeightBounds(r);
    HeightBounds(l);
    HeightBounds(r.left);
    var Node(rk, _, g, e) := r;
    var Node(gk, _, c, d) := g;
    HeightBounds(e);
    HeightBounds(c);
    HeightBounds(d);
    assert LeftRotate(Node(k, h, l, RightRotate(r))) == MakeNode(gk, MakeNode(k, l, c), MakeNode(rk, d, e));
    assert Valid(e) && Valid(g);
    assert Valid(c) && Valid(d);
    assert GetBalance(r) == 1 && -1 <= GetBalance(g) <= 1;
    assert Height(e) == Height(l);
    assert Keys(g) == Keys(c) + {gk} + Keys(d);
    assert k < gk < rk;
    assert Above(Keys(c), k) && Below(Keys(d), rk);
    DoubleRotationValid(k, l, c, gk, d, rk, e);
  }
}
