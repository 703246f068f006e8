/** Insertion: descend by key comparison, attach a new node, then recompute
    the height and rebalance at every node on the way back up. */
module AvlInsert {
  import opened AvlTree
  import opened Rotations

  /** The root of a subtree that just grew taller leans, by exactly one
      level, towards the side the new key went to. */
  ghost predicate LeansTowards(t: Tree, key: int) {
    t.Node? && ((key < t.key && GetBalance(t) == 1) || (key > t.key && GetBalance(t) == -1))
  }

  /** The work done at one node after a recursive insertion below it: the
      height is recomputed, then the inserted key, compared with the heavy
      child's key, selects at most one of the four rotation cases. The node
      is left as it is when its balance factor is within [-1, 1]; otherwise
      the result is exactly as tall as the taller child. */
  function RebalanceAfterInsert(k: int, l: Tree, r: Tree, key: int): (t: Tree)
    requires Valid(l) && Valid(r) && Below(Keys(l), k) && Above(Keys(r), k)
    requires -2 <= Height(l) - Height(r) <= 2
    requires Height(l) - Height(r) == 2 ==> LeansTowards(l, key)
    requires Height(r) - Height(l) == 2 ==> LeansTowards(r, key)
    ensures Valid(t)
    ensures Keys(t) == Keys(l) + {k} + Keys(r)
    ensures -1 <= Height(l) - Height(r) <= 1 ==> t == MakeNode(k, l, r)
    ensures !(-1 <= Height(l) - Height(r) <= 1) ==> Height(t) == Max(Height(l), Height(r))
  {
    var node := MakeNode(k, l, r);
    var balance := GetBalance(node);
    if balance > 1 && key < node.left.key then
      LeftLeftCase(k, l, r);
      RightRotate(node)
    else if balance < -1 && key > node.right.key then
      RightRightCase(k, l, r);
      LeftRotate(node)
    else if balance > 1 && key > node.left.key then
      LeftRightCase(k, node.height, l, r);
      RightRotate(Node(k, node.height, LeftRotate(node.left), r))
    else if balance < -1 && key < node.right.key then
      RightLeftCase(k, node.height, l, r);
      LeftRotate(Node(k, node.height, l, RightRotate(node.right)))
    else
      MakeNodeValid(k, l, r);
      node
  }

  /** What Insert promises about `r` as the result of inserting `key` into `t`. */
  ghost predicate InsertedInto(t: Tree, key: int, r: Tree) {
    && Valid(r)
    && Keys(r) == Keys(t) + {key}
    && Height(t) <= Height(r) <= Height(t) + 1
    && (t.Node? && Height(r) == Height(t) + 1 ==> LeansTowards(r, key))
    && (key in Keys(t) ==> r == t)
  }

  /** One step back up the left-hand insertion path: rebalancing the node
      over the grown left child meets Insert's promise for the whole node. */
  lemma InsertLeftStep(k: int, h: int, l: Tree, rt: Tree, key: int, l': Tree)
    requires Valid(Node(k, h, l, rt)) && key < k
    requires InsertedInto(l, key, l')
    ensures Valid(l') && Valid(rt) && Below(Keys(l'), k) && Above(Keys(rt), k)
    ensures -1 <= Height(l') - Height(rt) <= 2
    ensures Height(l') - Height(rt) == 2 ==> LeansTowards(l', key)
    ensures InsertedInto(Node(k, h, l, rt), key, RebalanceAfterInsert(k, l', rt, key))
  {
    HeightBounds(l);
    HeightBounds(rt);
    HeightBounds(l');
    var t := Node(k, h, l, rt);
    var r := RebalanceAfterInsert(k, l', rt, key);
    assert Keys(r) == Keys(t) + {key};
    if Height(l') - Height(rt) == 2 {
      assert Height(r) == Height(t);
    } else {
      assert r == MakeNode(k, l', rt);
    }
  }

  /** Mirror of InsertLeftStep for the right-hand path. */
  lemma InsertRightStep(k: int, h: int, l: Tree, rt: Tree, key: int, rt': Tree)
    requires Valid(Node(k, h, l, rt)) && key > k
    requires InsertedInto(rt, key, rt')
    ensures Valid(l) && Valid(rt') && Below(Keys(l), k) && Above(Keys(rt'), k)
    ensures -2 <= Height(l) - Height(rt') <= 1
    ensures Height(rt') - Height(l) == 2 ==> LeansTowards(rt', key)
    ensures InsertedInto(Node(k, h, l, rt), key, RebalanceAfterInsert(k, l, rt', key))
  {
    HeightBounds(l);
    HeightBounds(rt);
    HeightBounds(rt');
    var t := Node(k, h, l, rt);
    var r := RebalanceAfterInsert(k, l, rt', key);
    assert Keys(r) == Keys(t) + {key};
    if Height(rt') - Height(l) == 2 {
      assert Height(r) == Height(t);
    } else {
      assert r == MakeNode(k, l, rt');
    }
  }

  /** Inserts `key` into a valid AVL tree. The result is a valid AVL tree
      holding the old keys and `key`; it is at most one level taller; a key
      already present leaves the tree as it was. */
  function Insert(t: Tree, key: int): (r: Tree)
    requires Valid(t)
    ensures Valid(r)
    ensures Keys(r) == Keys(t) + {key}
    ensures Height(t) <= Height(r) <= Height(t) + 1
    ensures t.Node? && Height(r) == Height(t) + 1 ==> LeansTowards(r, key)
    ensures key in Keys(t) ==> r == t
  {
    match t
    case Leaf => NewNode(key)
    case Node(k, h, l, rt) =>
      if key < k then
        var l' := Insert(l, key);
        InsertLeftStep(k, h, l, rt, key, l');
        RebalanceAfterInsert(k, l', rt, key)
      else if key > k then
        var rt' := Insert(rt, key);
        InsertRightStep(k, h, l, rt, key, rt');
        RebalanceAfterInsert(k, l, rt', key)
      else
        t
  }
}
