/** Worked examples of the rebalancing cases, stated for any keys in the
    given order (the classic instances use 10, 20, 30, ...). */
module Scenarios {
  import opened AvlTree
  import opened AvlInsert
  import opened AvlDelete

  /** Inserting into an empty tree gives one node of height 1 with no
      children. */
  lemma InsertIntoEmpty(key: int)
    ensures Insert(Leaf, key) == Node(key, 1, Leaf, Leaf)
  {
  }

  /** Ascending inserts a, b, c (10, 20, 30) trigger the Right-Right case:
      one left rotation leaves b at the root over a and c. */
  lemma AscendingInsertsRotateLeft(a: int, b: int, c: int)
    requires a < b < c
    ensures Insert(Insert(Insert(Leaf, a), b), c) == Node(b, 2, NewNode(a), NewNode(c))
  {
    var t1 := Insert(Leaf, a);
    assert t1 == NewNode(a);
    var t2 := Insert(t1, b);
    assert t2 == Node(a, 2, Leaf, NewNode(b));
  }

  /** Descending inserts c, b, a (30, 20, 10) trigger the Left-Left case:
      one right rotation leaves b at the root over a and c. */
  lemma DescendingInsertsRotateRight(a: int, b: int, c: int)
    requires a < b < c
    ensures Insert(Insert(Insert(Leaf, c), b), a) == Node(b, 2, NewNode(a), NewNode(c))
  {
    var t1 := Insert(Leaf, c);
    assert t1 == NewNode(c);
    var t2 := Insert(t1, b);
    assert t2 == Node(c, 2, NewNode(b), Leaf);
  }

  /** Continuing ascending inserts with d and e triggers the Right-Right
      case below the root, at c. */
  lemma AscendingInsertsRotateBelowRoot(a: int, b: int, c: int, d: int, e: int)
    requires a < b < c < d < e
    ensures Insert(Insert(Insert(Insert(Insert(Leaf, a), b), c), d), e)
         == Node(b, 3, NewNode(a), Node(d, 2, NewNode(c), NewNode(e)))
  {
    var t3 := Insert(Insert(Insert(Leaf, a), b), c);
    AscendingInsertsRotateLeft(a, b, c);
    assert Insert(NewNode(c), d) == Node(c, 2, Leaf, NewNode(d));
    var t4 := Insert(t3, d);
    assert t4 == Node(b, 3, NewNode(a), Node(c, 2, Leaf, NewNode(d)));
    assert Insert(Node(c, 2, Leaf, NewNode(d)), e) == Node(d, 2, NewNode(c), NewNode(e));
  }

  /** Inserting a, b, c, d, e and then f with b < f < c (10, 20, 30, 40, 50
      and then 25) ends with a Right-Left case at the root, which leaves c at
      the root. */
  lemma RightLeftAtRoot(a: int, b: int, f: int, c: int, d: int, e: int)
    requires a < b < f < c < d < e
    ensures Insert(Insert(Insert(Insert(Insert(Insert(Leaf, a), b), c), d), e), f)
         == Node(c, 3, Node(b, 2, NewNode(a), NewNode(f)), Node(d, 2, Leaf, NewNode(e)))
  {
    AscendingInsertsRotateBelowRoot(a, b, c, d, e);
    assert Insert(NewNode(c), f) == Node(c, 2, NewNode(f), Leaf);
    assert Insert(Node(d, 2, NewNode(c), NewNode(e)), f) == Node(d, 3, Node(c, 2, NewNode(f), Leaf), NewNode(e));
  }

  /** Deleting the root b of the tree built from b, a, c (20, 10, 30), which
      has two children: its key is replaced by the successor c and the
      successor's node is removed, leaving c over a with no right child. */
  lemma DeleteRootWithTwoChildren(a: int, b: int, c: int)
    requires a < b < c
    ensures Insert(Insert(Insert(Leaf, b), a), c) == Node(b, 2, NewNode(a), NewNode(c))
    ensures DeleteNode(Node(b, 2, NewNode(a), NewNode(c)), b) == Node(c, 2, NewNode(a), Leaf)
  {
    var t1 := Insert(Leaf, b);
    assert t1 == NewNode(b);
    assert Insert(t1, a) == Node(b, 2, NewNode(a), Leaf);
    var t := Node(b, 2, NewNode(a), NewNode(c));
    assert MinValueNode(NewNode(c)).key == c;
    assert DeleteNode(NewNode(c), c) == Leaf;
  }
}
