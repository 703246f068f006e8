/** The AVL tree's data model: the node datatype, the small helpers every
    operation shares (height, maximum, balance factor, new node, minimum
    node), and the invariants the operations rely on but never check. */
module AvlTree {

  /** A subtree: absent, or a node with a unique key, the height it caches
      for itself, and two owned children. */
  datatype Tree = Leaf | Node(key: int, height: int, left: Tree, right: Tree)

  /** The height cached in a subtree's root; an absent subtree has height 0. */
  function Height(t: Tree): int {
    match t
    case Leaf => 0
    case Node(_, h, _, _) => h
  }

  /** The larger of two integers. */
  function Max(a: int, b: int): (m: int)
    ensures m >= a && m >= b
    ensures m == a || m == b
  {
    if a > b then a else b
  }

  /** A node whose cached height is recomputed from its children's. */
  function MakeNode(k: int, l: Tree, r: Tree): Tree {
    Node(k, 1 + Max(Height(l), Height(r)), l, r)
  }

  /** Left height minus right height at the root; 0 for an absent subtree.
      On a tree whose cached heights are right it is the difference of the
      children's true depths. */
  function GetBalance(t: Tree): (b: int)
    ensures t.Node? && HeightsOk(t) ==> b == Depth(t.left) - Depth(t.right)
  {
    match t
    case Leaf => 0
    case Node(_, _, l, r) =>
      HeightIsDepth(l);
      HeightIsDepth(r);
      Height(l) - Height(r)
  }

  /** A fresh single-node subtree holding `key`. */
  function NewNode(key: int): (t: Tree)
    ensures Valid(t)
    ensures Keys(t) == {key}
    ensures Height(t) == 1 && InOrder(t) == [key]
  {
    Node(key, 1, Leaf, Leaf)
  }

  /** The leftmost node of a non-empty subtree; in a search tree it holds
      the least key. */
  function MinValueNode(t: Tree): (m: Tree)
    requires t.Node?
    ensures m.Node? && m.left.Leaf?
    ensures m.key in Keys(t)
    ensures Bst(t) ==> forall x | x in Keys(t) :: m.key <= x
  {
    if t.left.Leaf? then t else MinValueNode(t.left)
  }

  /** The keys stored in a subtree. */
  ghost function Keys(t: Tree): set<int> {
    match t
    case Leaf => {}
    case Node(k, _, l, r) => Keys(l) + {k} + Keys(r)
  }

  /** The keys of a subtree in left, node, right order. */
  function InOrder(t: Tree): (s: seq<int>)
    ensures forall x :: x in s <==> x in Keys(t)
  {
    match t
    case Leaf => []
    case Node(k, _, l, r) => InOrder(l) + [k] + InOrder(r)
  }

  /** The true height of a subtree, counted without trusting any cache. */
  ghost function Depth(t: Tree): nat {
    match t
    case Leaf => 0
    case Node(_, _, l, r) =>
      1 + if Depth(l) >= Depth(r) then Depth(l) else Depth(r)
  }

  ghost predicate Below(s: set<int>, k: int) {
    forall x | x in s :: x < k
  }

  ghost predicate Above(s: set<int>, k: int) {
    forall x | x in s :: k < x
  }

  /** Search-tree order with strict inequalities, so no key occurs twice. */
  ghost predicate Bst(t: Tree) {
    match t
    case Leaf => true
    case Node(k, _, l, r) => Bst(l) && Bst(r) && Below(Keys(l), k) && Above(Keys(r), k)
  }

  /** Every cached height is one more than the larger child height. */
  ghost predicate HeightsOk(t: Tree) {
    match t
    case Leaf => true
    case Node(_, h, l, r) => HeightsOk(l) && HeightsOk(r) && h == 1 + Max(Height(l), Height(r))
  }

  /** The balance factor of every node lies in [-1, 1]. */
  ghost predicate Balanced(t: Tree) {
    match t
    case Leaf => true
    case Node(_, _, l, r) => Balanced(l) && Balanced(r) && -1 <= GetBalance(t) <= 1
  }

  /** The AVL tree invariant. */
  ghost predicate Valid(t: Tree) {
    Bst(t) && HeightsOk(t) && Balanced(t)
  }

  /** When the cached heights are consistent they are the true heights. */
  lemma {:induction false} HeightIsDepth(t: Tree)
    ensures HeightsOk(t) ==> Height(t) == Depth(t)
  {
    match t
    case Leaf =>
    case Node(_, _, l, r) =>
      HeightIsDepth(l);
      HeightIsDepth(r);
  }

  /** Heights are never negative, and only an absent subtree has height 0. */
  lemma HeightBounds(t: Tree)
    requires HeightsOk(t)
    ensures Height(t) >= 0
    ensures t.Node? <==> Height(t) >= 1
  {
    HeightIsDepth(t);
  }

  /** A node built from two valid subtrees on either side of its key, whose
      heights differ by at most one, is valid. */
  lemma MakeNodeValid(k: int, l: Tree, r: Tree)
    requires Valid(l) && Valid(r) && Below(Keys(l), k) && Above(Keys(r), k)
    requires -1 <= Height(l) - Height(r) <= 1
    ensures Valid(MakeNode(k, l, r))
    ensures Keys(MakeNode(k, l, r)) == Keys(l) + {k} + Keys(r)
    ensures Height(MakeNode(k, l, r)) == 1 + Max(Height(l), Height(r))
  {
  }
}
