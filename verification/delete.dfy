/** Deletion: descend by key comparison, remove the key (splicing in the
    only child, or copying the in-order successor's key and deleting the
    successor instead), then recompute the height and rebalance at every node
    on the way back up. */
module AvlDelete {
  import opened AvlTree
  import opened Rotations

  /** The work done at one node after a removal below it: the height is
      recomputed, then the sign of the heavy child's own balance factor
      selects at most one of the four rotation cases, a level child taking
      the single rotation. The node is left as it is when its balance factor
      is within [-1, 1]; the result is as tall as the taller child plus at
      most one. */
  function RebalanceAfterDelete(k: int, l: Tree, r: Tree): (t: Tree)
    requires Valid(l) && Valid(r) && Below(Keys(l), k) && Above(Keys(r), k)
    requires -2 <= Height(l) - Height(r) <= 2
    ensures Valid(t)
    ensures Keys(t) == Keys(l) + {k} + Keys(r)
    ensures -1 <= Height(l) - Height(r) <= 1 ==> t == MakeNode(k, l, r)
    ensures Max(Height(l), Height(r)) <= Height(t) <= Max(Height(l), Height(r)) + 1
  {
    var node := MakeNode(k, l, r);
    var balance := GetBalance(node);
    HeightBounds(l);
    HeightBounds(r);
    if balance > 1 && GetBalance(node.left) >= 0 then
      LeftLeftCase(k, l, r);
      RightRotate(node)
    else if balance > 1 && GetBalance(node.left) < 0 then
      LeftRightCase(k, node.height, l, r);
      RightRotate(Node(k, node.height, LeftRotate(node.left), r))
    else if balance < -1 && GetBalance(node.right) <= 0 then
      RightRightCase(k, l, r);
      LeftRotate(node)
    else if balance < -1 && GetBalance(node.right) > 0 then
      RightLeftCase(k, node.height, l, r);
      LeftRotate(Node(k, node.height, l, RightRotate(node.right)))
    else
      MakeNodeValid(k, l, r);
      node
  }

  /** The height after rebalancing a node whose one side is two levels
      taller: exactly that side's child's height, plus one when the child
      was level. */
  lemma RebalanceAfterDeleteHeight(k: int, l: Tree, r: Tree)
    requires Valid(l) && Valid(r) && Below(Keys(l), k) && Above(Keys(r), k)
    requires -2 <= Height(l) - Height(r) <= 2
    ensures Height(l) - Height(r) == 2 ==>
      Height(RebalanceAfterDelete(k, l, r)) == Height(l) + (if GetBalance(l) == 0 then 1 else 0)
    ensures Height(r) - Height(l) == 2 ==>
      Height(RebalanceAfterDelete(k, l, r)) == Height(r) + (if GetBalance(r) == 0 then 1 else 0)
  {
    HeightBounds(l);
    HeightBounds(r);
    var node := MakeNode(k, l, r);
    if Height(l) - Height(r) == 2 {
      if GetBalance(l) >= 0 {
        LeftLeftCase(k, l, r);
      } else {
        LeftRightCase(k, node.height, l, r);
      }
    } else if Height(r) - Height(l) == 2 {
      if GetBalance(r) <= 0 {
        RightRightCase(k, l, r);
      } else {
        RightLeftCase(k, node.height, l, r);
      }
    }
  }

  /** What DeleteNode promises about `r` as the result of deleting `key`
      from `t`. */
  ghost predicate DeletedFrom(t: Tree, key: int, r: Tree) {
    && Valid(r)
    && Keys(r) == Keys(t) - {key}
    && Height(t) - 1 <= Height(r) <= Height(t)
    && (key !in Keys(t) ==> r == t)
  }

  /** One step back up the left-hand deletion path: rebalancing the node over
      the shrunk left child meets DeleteNode's promise for the whole node. */
  lemma DeleteLeftStep(k: int, h: int, l: Tree, rt: Tree, key: int, l': Tree)
    requires Valid(Node(k, h, l, rt)) && key < k
    requires DeletedFrom(l, key, l')
    ensures Valid(l') && Valid(rt) && Below(Keys(l'), k) && Above(Keys(rt), k)
    ensures -2 <= Height(l') - Height(rt) <= 1
    ensures DeletedFrom(Node(k, h, l, rt), key, RebalanceAfterDelete(k, l', rt))
  {
    HeightBounds(l);
    HeightBounds(rt);
    HeightBounds(l');
    var t := Node(k, h, l, rt);
    var r := RebalanceAfterDelete(k, l', rt);
    assert Keys(r) == Keys(t) - {key};
  }

  /** Mirror of DeleteLeftStep for the right-hand path. */
  lemma DeleteRightStep(k: int, h: int, l: Tree, rt: Tree, key: int, rt': Tree)
    requires Valid(Node(k, h, l, rt)) && key > k
    requires DeletedFrom(rt, key, rt')
    ensures Valid(l) && Valid(rt') && Below(Keys(l), k) && Above(Keys(rt'), k)
    ensures -1 <= Height(l) - Height(rt') <= 2
    ensures DeletedFrom(Node(k, h, l, rt), key, RebalanceAfterDelete(k, l, rt'))
  {
    HeightBounds(l);
    HeightBounds(rt);
    HeightBounds(rt');
    var t := Node(k, h, l, rt);
    var r := RebalanceAfterDelete(k, l, rt');
    assert Keys(r) == Keys(t) - {key};
  }

  /** Removing a node with at most one child: the child (copied over the
      node, then passed through the usual height update and rebalancing) is
      already a valid tree holding every other key, so it comes out as it
      went in. */
  lemma DeleteSpliceStep(k: int, h: int, l: Tree, rt: Tree)
    requires Valid(Node(k, h, l, rt)) && (l.Leaf? || rt.Leaf?)
    ensures var child := if l.Node? then l else rt;
      && Valid(child)
      && (child.Node? ==> -1 <= Height(child.left) - Height(child.right) <= 1)
      && (child.Node? ==> Below(Keys(child.left), child.key) && Above(Keys(child.right), child.key))
      && (child.Node? ==> RebalanceAfterDelete(child.key, child.left, child.right) == child)
      && DeletedFrom(Node(k, h, l, rt), k, child)
  {
    HeightBounds(l);
    HeightBounds(rt);
    var child := if l.Node? then l else rt;
    if child.Node? {
      HeightBounds(child.left);
      HeightBounds(child.right);
      assert Valid(child.left) && Valid(child.right);
      assert RebalanceAfterDelete(child.key, child.left, child.right) == MakeNode(child.key, child.left, child.right);
    }
    assert k !in Keys(l) && k !in Keys(rt);
  }

  /** Removing a node with two children: its key is overwritten by the least
      key `m` of the right subtree, and `m` is then deleted from that
      subtree. Rebalancing the result meets DeleteNode's promise. */
  lemma DeleteSuccessorStep(k: int, h: int, l: Tree, rt: Tree, m: int, rt': Tree)
    requires Valid(Node(k, h, l, rt)) && l.Node? && rt.Node?
    requires m in Keys(rt) && forall x | x in Keys(rt) :: m <= x
    requires DeletedFrom(rt, m, rt')
    ensures Valid(l) && Valid(rt') && Below(Keys(l), m) && Above(Keys(rt'), m)
    ensures -1 <= Height(l) - Height(rt') <= 2
    ensures DeletedFrom(Node(k, h, l, rt), k, RebalanceAfterDelete(m, l, rt'))
  {
    HeightBounds(l);
    HeightBounds(rt);
    HeightBounds(rt');
    var t := Node(k, h, l, rt);
    assert k < m;
    assert Below(Keys(l), m);
    var r := RebalanceAfterDelete(m, l, rt');
    assert k !in Keys(l) && k !in Keys(rt);
    assert Keys(r) == Keys(t) - {k};
  }

  /** Deletes `key` from a valid AVL tree. The result is a valid AVL tree
      holding every old key except `key`; it is at most one level lower; a
      key not present leaves the tree as it was. */
  function DeleteNode(t: Tree, key: int): (r: Tree)
    requires Valid(t)
    ensures Valid(r)
    ensures Keys(r) == Keys(t) - {key}
    ensures Height(t) - 1 <= Height(r) <= Height(t)
    ensures key !in Keys(t) ==> r == t
  {
    match t
    case Leaf => Leaf
    case Node(k, h, l, rt) =>
      if key < k then
        var l' := DeleteNode(l, key);
        DeleteLeftStep(k, h, l, rt, key, l');
        RebalanceAfterDelete(k, l', rt)
      else if key > k then
        var rt' := DeleteNode(rt, key);
        DeleteRightStep(k, h, l, rt, key, rt');
        RebalanceAfterDelete(k, l, rt')
      else if l.Leaf? || rt.Leaf? then
        var child := if l.Node? then l else rt;
        DeleteSpliceStep(k, h, l, rt);
        if child.Leaf? then Leaf
        else RebalanceAfterDelete(child.key, child.left, child.right)
      else
        var successor := MinValueNode(rt);
        var rt' := DeleteNode(rt, successor.key);
        DeleteSuccessorStep(k, h, l, rt, successor.key, rt');
        RebalanceAfterDelete(successor.key, l, rt')
  }

  /** Deleting the key of a node with at most one child replaces the node by
      that child, or by nothing when it has none. */
  lemma DeleteRootAtMostOneChild(t: Tree)
    requires Valid(t) && t.Node? && (t.left.Leaf? || t.right.Leaf?)
    ensures DeleteNode(t, t.key) == if t.left.Node? then t.left else t.right
  {
    DeleteSpliceStep(t.key, t.height, t.left, t.right);
  }

  /** Deleting the key of a node with two children overwrites it with the
      least key `m` of the right subtree and deletes `m` from that subtree;
      unless the shorter right side makes the node rotate, the left subtree
      stays in place. */
  lemma DeleteRootTwoChildren(t: Tree)
    requires Valid(t) && t.Node? && t.left.Node? && t.right.Node?
    ensures var m := MinValueNode(t.right).key;
      && m in Keys(t.right) && (forall x | x in Keys(t.right) :: m <= x)
      && Keys(DeleteNode(t.right, m)) == Keys(t.right) - {m}
      && (Height(t.left) - Height(DeleteNode(t.right, m)) <= 1 ==>
            DeleteNode(t, t.key) == MakeNode(m, t.left, DeleteNode(t.right, m)))
  {
    var m := MinValueNode(t.right).key;
    var rt' := DeleteNode(t.right, m);
    DeleteSuccessorStep(t.key, t.height, t.left, t.right, m, rt');
  }
}
