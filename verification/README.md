# AVL tree over integer keys, in Dafny

This project models a small C library. The library implements an AVL tree:
a binary search tree over `int` keys. Each node caches its own height. After
every insertion or deletion, the heights are recomputed on the way back to
the root and the tree is rebalanced by rotations.

The C code mutates nodes through pointers and returns the new subtree root.
The model uses an immutable datatype instead:
`Tree = Leaf | Node(key, height, left, right)`. Each operation is a pure
function that returns the new root. The cached `height` stays a field of the
node. Rotations and rebalancing recompute it exactly where the C code does,
and they read the stale value nowhere the C code does not.

Modules, in the order of the program:

- `AvlTree` (`tree.dfy`): the node datatype and the shared helpers
  (`Height`, `Max`, `GetBalance`, `NewNode`, `MinValueNode`). It also holds
  the invariants the code relies on but never checks: strict search-tree
  order (`Bst`), consistent cached heights (`HeightsOk`), balance factors in
  [-1, 1] (`Balanced`), and their conjunction `Valid`. It defines the key
  set `Keys`, the in-order key sequence `InOrder`, and `Depth`, a reference
  height that trusts no cache.
- `Rotations` (`rotations.dfy`): `RightRotate`, `LeftRotate`, and the four
  rebalancing cases that insertion and deletion share.
- `AvlInsert` (`insert.dfy`): `Insert`, plus the fix-up done at each node on
  the way back up.
- `AvlDelete` (`delete.dfy`): `DeleteNode`, plus its fix-up. A node with at
  most one child is replaced by its child. A node with two children takes
  its in-order successor's key, and the successor is then deleted from the
  right subtree.
- `Traversal` (`traversal.dfy`): `Find` as a membership query, and
  `PrintInOrder` as the sequence of keys it would print.
- `AvlProperties` (`properties.dfy`): lookup after insertion and deletion,
  repeated insertion, and in-order sequences after each operation.
- `Scenarios` (`scenarios.dfy`): the classic rotation examples, stated for
  any keys in the given order.

`Insert` and `DeleteNode` require `Valid(t)`, meaning the tree satisfies the
AVL invariant. The C code dereferences `node->left->key`, and the children
that rotations move, with no NULL check. Consistent cached heights alone
keep some of those pointers non-NULL: the heavy child read for its key, the
child an outer (single) rotation lifts, and the grandchild a deletion's
inner rotation lifts, since a heavy child leaning the other way has that
grandchild. They do not protect insertion's inner rotations. There the
grandchild exists only because the tree was balanced before the insertion
and the new key went into that grandchild's side. For example, on the
left-leaning chain 50, 30, 20, 10, whose heights are consistent, inserting
60 takes the Left-Right branch and rotates 30, which has no right child.
The results are only correct when the full invariant holds.

## Model

| member | source | states |
|---|---|---|
| `AvlTree.HeightIsDepth` | avl_tree.c:11-15 | when every cached height is 1 + the larger child height, the height read at a root (0 for an absent subtree) is the true depth of the subtree |
| `AvlTree.HeightBounds` | avl_tree.c:11-15 | on consistently cached trees a height is never negative, and it is at least 1 exactly for a present node |
| `AvlTree.Max` | avl_tree.c:18-20 | the result is one of the two arguments and at least both |
| `AvlTree.GetBalance` | avl_tree.c:23-27 | the balance factor of a consistently cached node is the depth of its left subtree minus the depth of its right subtree |
| `AvlTree.MinValueNode` | avl_tree.c:31-39 | the node reached has no left child, holds a key of the tree, and in a search tree that key is the least one |
| `AvlTree.NewNode` | avl_tree.c:43-50 | a new node is a valid AVL tree of height 1 whose only key is the given key |
| `AvlTree.InOrder` | avl_tree.c:242-248 | the in-order sequence (the corrected traversal) contains exactly the keys of the tree |
| `AvlTree.MakeNodeValid` | avl_tree.c:101 | a node over two valid subtrees on the correct sides of its key, with heights at most one apart, is valid once its height is recomputed, and it holds the union of the keys |
| `Rotations.RightRotate` | avl_tree.c:53-67 | the left child becomes the root and the old root becomes its right child, taking the child's former right subtree; the three subtrees are reattached unchanged; the in-order sequence and key set are preserved; search order holds after exactly when it held before; the two moved nodes' heights are recomputed, so correct subtree heights give a correctly cached result |
| `Rotations.LeftRotate` | avl_tree.c:70-84 | mirror of RightRotate: the right child becomes the root, with the same guarantees |
| `Rotations.RotationsAreInverse` | avl_tree.c:53-84 | on a correctly cached tree a left rotation undoes a right rotation and vice versa |
| `Rotations.LeftLeftCase` | avl_tree.c:194-196 | a node two levels heavier on the left whose left child does not lean right becomes a valid AVL tree with the same keys after one right rotation; its height is that of the left child, plus one if that child was level |
| `Rotations.RightRightCase` | avl_tree.c:204-206 | mirror of LeftLeftCase, with one left rotation |
| `Rotations.LeftRightCase` | avl_tree.c:198-202 | a node two levels heavier on the left whose left child leans right becomes a valid AVL tree with the same keys, exactly as tall as the left child, after a left rotation of the child and a right rotation of the node; the stale height cached in between does not matter |
| `Rotations.RightLeftCase` | avl_tree.c:208-212 | mirror of LeftRightCase |
| `Rotations.DoubleRotationValid` | avl_tree.c:119-129 | the shape both double rotations produce (the grandchild over two nodes whose four subtrees differ in height by at most one) is a valid AVL tree two levels above the outer subtrees |
| `AvlInsert.RebalanceAfterInsert` | avl_tree.c:100-132 | after a subtree below grew by one level, the node comes out as a valid AVL tree with the same keys: it is left untouched when its balance factor is in [-1, 1]; otherwise the inserted key chooses the rotation case and the result is exactly as tall as its taller child |
| `AvlInsert.InsertLeftStep` | avl_tree.c:92-93 | inserting into the left subtree and then rebalancing the node meets Insert's whole contract for that node |
| `AvlInsert.InsertRightStep` | avl_tree.c:94-95 | mirror of InsertLeftStep for the right subtree |
| `AvlInsert.Insert` | avl_tree.c:87-133 | on a valid AVL tree the result is a valid AVL tree whose keys are the old keys plus `key`; it is the same height or one taller, and when a non-empty subtree grows its root leans by exactly one towards the new key; a key already present returns the tree unchanged |
| `AvlDelete.RebalanceAfterDelete` | avl_tree.c:186-214 | after a subtree below shrank by at most one level, the node comes out as a valid AVL tree with the same keys: it is left untouched when its balance factor is in [-1, 1]; otherwise the sign of the heavy child's balance factor chooses the case, a level child taking the single rotation; the height is the taller child's plus 0 or 1 |
| `AvlDelete.RebalanceAfterDeleteHeight` | avl_tree.c:194-212 | when one side is two levels taller, the rebalanced node is exactly as tall as that side's child, plus one when that child was level. The tie-break itself (`>= 0` / `<= 0`) is pinned by `RebalanceAfterDelete`'s validity guarantee; this lemma gives only the height |
| `AvlDelete.DeleteLeftStep` | avl_tree.c:145-146 | deleting from the left subtree and then rebalancing the node meets DeleteNode's whole contract for that node |
| `AvlDelete.DeleteRightStep` | avl_tree.c:150-151 | mirror of DeleteLeftStep for the right subtree |
| `AvlDelete.DeleteSpliceStep` | avl_tree.c:157-168 | removing a node with at most one child yields that child, which already holds exactly the other keys and comes through the height update and rebalancing unchanged |
| `AvlDelete.DeleteSuccessorStep` | avl_tree.c:169-179 | overwriting a two-child node's key with the least key of its right subtree, deleting that key on the right and rebalancing meets DeleteNode's whole contract for that node |
| `AvlDelete.DeleteNode` | avl_tree.c:138-215 | on a valid AVL tree the result is a valid AVL tree whose keys are the old keys minus `key`; it is the same height or one lower; an empty tree, or any tree without `key`, comes back unchanged, with no rotation |
| `AvlDelete.DeleteRootAtMostOneChild` | avl_tree.c:157-168 | deleting the key of a node with at most one child replaces the node by that child, or by nothing |
| `AvlDelete.DeleteRootTwoChildren` | avl_tree.c:170-178 | deleting the key of a node with two children uses the least key `m` of the right subtree, removes exactly `m` from it, and, when no rotation fires, leaves `m` at the node over the unchanged left subtree |
| `Traversal.Find` | avl_tree.c:225-236 | a hit is always a key of the tree, and in a search tree every key of the tree is a hit |
| `Traversal.PrintInOrder` | avl_tree.c:242-248 | the walk as written visits every key of the tree once, as a permutation of the in-order sequence, and for a non-empty subtree it starts with the root's key before either subtree |
| `Traversal.BstIffInOrderSorted` | avl_tree.c:242-248 | a tree is a search tree exactly when its in-order key sequence is strictly increasing |
| `Traversal.PrintInOrderIsNotAscending` | avl_tree.c:242-248 | for any keys a < b < c, the valid tree b over a and c is walked as b, a, c, which is not ascending, while its in-order sequence is a, b, c |
| `AvlProperties.FindAfterInsert` | avl_tree.c:225-236 | after inserting `key`, lookup hits `key` and otherwise hits exactly what it hit before |
| `AvlProperties.FindAfterDelete` | avl_tree.c:225-236 | after deleting `key`, lookup misses `key` and otherwise hits exactly what it hit before |
| `AvlProperties.InsertTwiceIsInsertOnce` | avl_tree.c:96-98 | inserting a key twice gives the same tree as inserting it once |
| `AvlProperties.DeleteUndoesInsertOnKeys` | avl_tree.c:138-215 | deleting a freshly inserted key restores the original key set |
| `AvlProperties.InOrderAfterInsert` | avl_tree.c:87-133 | after an insertion the in-order keys are strictly increasing and are exactly the old keys plus `key` |
| `AvlProperties.InOrderAfterDelete` | avl_tree.c:138-215 | after a deletion the in-order keys are strictly increasing and are exactly the old keys other than `key` |
| `Scenarios.InsertIntoEmpty` | avl_tree.c:89-90 | inserting into an empty tree gives one node of height 1 with no children |
| `Scenarios.AscendingInsertsRotateLeft` | avl_tree.c:115-117 | inserting a < b < c in ascending order (10, 20, 30) fires the Right-Right case, leaving b (height 2) over a and c (height 1) |
| `Scenarios.DescendingInsertsRotateRight` | avl_tree.c:111-113 | inserting them in descending order (30, 20, 10) fires the Left-Left case, with the same result |
| `Scenarios.AscendingInsertsRotateBelowRoot` | avl_tree.c:115-117 | continuing with d and e (40, 50) fires the Right-Right case at c, below the root b |
| `Scenarios.RightLeftAtRoot` | avl_tree.c:125-129 | then inserting f with b < f < c (25) fires the Right-Left case at the root, leaving c at the root over b(a, f) and d(-, e) |
| `Scenarios.DeleteRootWithTwoChildren` | avl_tree.c:170-178 | in the tree built from b, a, c (20, 10, 30), deleting b copies the successor c into the root and removes c's node, leaving c over a with no right child |

## Left out

- Memory management is not modelled: `malloc`, `free`, the struct copy
  `*root = *temp` in the one-child case, and the unchecked `malloc` failure
  in `NewNode`. Functionally, the one-child case replaces the node by its
  child.
- `DeleteTree` only releases storage and has no logical result.
- Console output is not modelled. `Find` returns whether the key was found
  instead of printing "Key: k" or "No such element". `PrintInOrder` returns
  the keys it would print. `PrintNode` only prints, so it is left out.
- C `int` overflow is not modelled. Keys and heights are mathematical
  integers. Keys are only compared, and heights stay logarithmic in the
  node count.
- The logarithmic AVL height bound (about 1.44·log2(n + 2)) is not proved.
  The code never relies on it.
- AvlInsert.Insert: defined only on trees that satisfy the AVL invariant,
  which every public operation maintains. The C code never checks it. Its
  inner rotations dereference a grandchild whose presence follows from the
  balance invariant together with the new key's side (`LeansTowards`), not
  from consistent heights alone. Its results are only correct on such trees.
- AvlDelete.DeleteNode: defined only on trees that satisfy the AVL
  invariant, which every public operation maintains. Unlike insertion, the
  C code does not depend on it for pointer safety. Non-negative cached
  heights already guarantee that the heavy child and the grandchild it
  rotates exist. It is needed for the results: on a tree that is not a
  search tree, the descent can miss the key. The key set, validity and
  the height bound are promised only for valid trees.
- Traversal.Find: the two-way statement (hit exactly for the tree's keys)
  holds only on search trees. On any tree, only the one-way statement holds:
  a hit is a key of the tree.
- The name `PrintInOrder` promises the order left, node, right, which
  prints keys in ascending order. The code visits node, left, right. The
  model follows the code; see the finding below.

## Findings

| source | as written | input that shows it | evidently intended | confidence | as-written member | corrected member |
|---|---|---|---|---|---|---|
| avl_tree.c:242-248 | `PrintInOrder` prints the node's key before walking its left and right subtrees (pre-order) | the valid tree built from 10, 20, 30 (root 20) is printed as `20 10 30` | print the keys in order (left, node, right), which is ascending in a search tree, as the name says | medium; not executed | `Traversal.PrintInOrderIsNotAscending` | `Traversal.BstIffInOrderSorted` |

The as-written walk is `Traversal.PrintInOrder`. The corrected walk is
`AvlTree.InOrder`, and the rest of the model uses it: the rotations preserve
it, and `AvlProperties` states the ordering after each operation in terms of
it.
