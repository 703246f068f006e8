/** Properties of whole operations and of sequences of them: what lookup
    reports after an insertion or a deletion, and what repeating an
    operation does. */
module AvlProperties {
  import opened AvlTree
  import opened AvlInsert
  import opened AvlDelete
  import opened Traversal

  /** After inserting `key`, lookup hits `key` and otherwise hits exactly the
      keys it hit before. */
  lemma FindAfterInsert(t: Tree, key: int, x: int)
    requires Valid(t)
    ensures Find(Insert(t, key), x) <==> x == key || Find(t, x)
  {
  }

  /** After deleting `key`, lookup misses `key` and otherwise hits exactly
      the keys it hit before. */
  lemma FindAfterDelete(t: Tree, key: int, x: int)
    requires Valid(t)
    ensures Find(DeleteNode(t, key), x) <==> x != key && Find(t, x)
  {
  }

  /** Inserting a key a second time gives the very same tree as inserting it
      once. */
  lemma InsertTwiceIsInsertOnce(t: Tree, key: int)
    requires Valid(t)
    ensures Insert(Insert(t, key), key) == Insert(t, key)
  {
  }

  /** Deleting an inserted key that was not there before gives back a tree
      with the original keys (not necessarily the original shape). */
  lemma DeleteUndoesInsertOnKeys(t: Tree, key: int)
    requires Valid(t) && key !in Keys(t)
    ensures Keys(DeleteNode(Insert(t, key), key)) == Keys(t)
  {
  }

  /** After an insertion the in-order keys are strictly increasing and are
      exactly the old keys and `key`. */
  lemma InOrderAfterInsert(t: Tree, key: int)
    requires Valid(t)
    ensures StrictlyIncreasing(InOrder(Insert(t, key)))
    ensures forall x :: x in InOrder(Insert(t, key)) <==> x == key || x in Keys(t)
  {
    BstIffInOrderSorted(Insert(t, key));
  }

  /** After a deletion the in-order keys are strictly increasing and are
      exactly the old keys other than `key`. */
  lemma InOrderAfterDelete(t: Tree, key: int)
    requires Valid(t)
    ensures StrictlyIncreasing(InOrder(DeleteNode(t, key)))
    ensures forall x :: x in InOrder(DeleteNode(t, key)) <==> x != key && x in Keys(t)
  {
    BstIffInOrderSorted(DeleteNode(t, key));
  }
}
