/** The read-only walks over the tree: lookup by key, and the key sequence
    the printing routine walks through. The console output itself is not
    modelled; each walk returns what it would print. */
module Traversal {
  import opened AvlTree

  /** Looks `key` up by descending on comparisons. A hit is always a key of
      the tree; in a search tree every key is also a hit. */
  function Find(t: Tree, key: int): (found: bool)
    ensures found ==> key in Keys(t)
    ensures Bst(t) ==> (found <==> key in Keys(t))
  {
    match t
    case Leaf => false
    case Node(k, _, l, r) =>
      if key < k then Find(l, key)
      else if key > k then Find(r, key)
      else true
  }

  /** The keys in the order the printing routine visits them: the node
      first, then its left subtree, then its right subtree. It visits every
      key of the tree once, and a non-empty subtree starts with its root's
      key. */
  function PrintInOrder(t: Tree): (keys: seq<int>)
    ensures multiset(keys) == multiset(InOrder(t))
    ensures t.Node? ==> |keys| > 0 && keys[0] == t.key
  {
    match t
    case Leaf => []
    case Node(k, _, l, r) => [k] + PrintInOrder(l) + PrintInOrder(r)
  }

  ghost predicate StrictlyIncreasing(s: seq<int>) {
    forall i, j | 0 <= i < j < |s| :: s[i] < s[j]
  }

  /** Two strictly increasing runs on either side of `k` join into one. */
  lemma JoinIncreasing(a: seq<int>, k: int, b: seq<int>)
    requires StrictlyIncreasing(a) && StrictlyIncreasing(b)
    requires forall i | 0 <= i < |a| :: a[i] < k
    requires forall i | 0 <= i < |b| :: k < b[i]
    ensures StrictlyIncreasing(a + [k] + b)
  {
    var s := a + [k] + b;
    forall i, j | 0 <= i < j < |s|
      ensures s[i] < s[j]
    {
      if j < |a| {
        assert s[i] == a[i] && s[j] == a[j];
      } else if i > |a| {
        assert s[i] == b[i - |a| - 1] && s[j] == b[j - |a| - 1];
      } else if i == |a| {
        assert s[j] == b[j - |a| - 1];
      } else if j == |a| {
        assert s[i] == a[i];
      } else {
        assert s[i] == a[i] && s[j] == b[j - |a| - 1];
      }
    }
  }

  /** A strictly increasing run splits around any of its elements. */
  lemma SplitIncreasing(a: seq<int>, k: int, b: seq<int>)
    requires StrictlyIncreasing(a + [k] + b)
    ensures StrictlyIncreasing(a) && StrictlyIncreasing(b)
    ensures forall i | 0 <= i < |a| :: a[i] < k
    ensures forall i | 0 <= i < |b| :: k < b[i]
  {
    var s := a + [k] + b;
    assert s[|a|] == k;
    forall i, j | 0 <= i < j < |a| ensures a[i] < a[j] {
      assert s[i] == a[i] && s[j] == a[j];
    }
    forall i, j | 0 <= i < j < |b| ensures b[i] < b[j] {
      assert s[|a| + 1 + i] == b[i] && s[|a| + 1 + j] == b[j];
    }
    forall i | 0 <= i < |a| ensures a[i] < k {
      assert s[i] == a[i];
    }
    forall i | 0 <= i < |b| ensures k < b[i] {
      assert s[|a| + 1 + i] == b[i];
    }
  }

  /** A tree is a search tree exactly when its in-order key sequence is
      strictly increasing. */
  lemma {:induction false} BstIffInOrderSorted(t: Tree)
    ensures Bst(t) <==> StrictlyIncreasing(InOrder(t))
  {
    match t
    case Leaf =>
    case Node(k, _, l, r) =>
      BstIffInOrderSorted(l);
      BstIffInOrderSorted(r);
      var sl, sr := InOrder(l), InOrder(r);
      assert InOrder(t) == sl + [k] + sr;
      if Bst(t) {
        assert forall i | 0 <= i < |sl| :: sl[i] in Keys(l);
        assert forall i | 0 <= i < |sr| :: sr[i] in Keys(r);
        JoinIncreasing(sl, k, sr);
      }
      if StrictlyIncreasing(InOrder(t)) {
        SplitIncreasing(sl, k, sr);
        forall x | x in Keys(l) ensures x < k {
          var i :| 0 <= i < |sl| && sl[i] == x;
        }
        forall x | x in Keys(r) ensures k < x {
          var i :| 0 <= i < |sr| && sr[i] == x;
        }
      }
  }

  /** The printing walk is not ascending even on a valid AVL tree: the
      tree holding a < b < c, rooted at b, is visited as b, a, c. */
  lemma PrintInOrderIsNotAscending(a: int, b: int, c: int)
    requires a < b < c
    ensures var t := Node(b, 2, NewNode(a), NewNode(c));
      && Valid(t)
      && PrintInOrder(t) == [b, a, c]
      && !StrictlyIncreasing(PrintInOrder(t))
      && InOrder(t) == [a, b, c]
  {
    var t := Node(b, 2, NewNode(a), NewNode(c));
    assert PrintInOrder(t)[0] > PrintInOrder(t)[1];
  }
}
