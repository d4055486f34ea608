# AVL tree with parent pointers: a verified model

This project models the small C++ AVL tree of the repository. The tree is a
class template `AVLTree<Key>`. Its nodes carry a key, a `balance` field
(height of the left subtree minus height of the right one, encoded as
`LEFT_HEAVY = 1`, `BALANCED = 0`, `RIGHT_HEAVY = -1`) and `left`, `right`
and `parent` pointers. The model covers:

- binary search (`search`, `find`);
- insertion with the bottom-up rebalancing walk: `rebalance_after_insertion`,
  with the single (LL, RR) and double (RL, LR) rotations built from
  `left_rotate` and `right_rotate`;
- the predecessor-based `remove`;
- `clear`;
- the `to_string` labels of nodes and the two traversals `inorder_sequence`
  and `preorder_sequence`;
- the test driver's `construct_tree`, which rebuilds a tree from a pre-order
  and an in-order label sequence.

## How the model is built

- **The tree is a node arena** (`AVL.AVLTree`). The class has one sequence
  per node field: `key`, `balance`, `left`, `right` and `parent`. It also
  has a `root` index, and `NIL = -1` is the null pointer. A node is an index
  into these sequences, and `new AVLNode(key)` appends a slot.
- **Each method updates the fields in place, in the order the C++ code
  does.** The methods are `Search`, `Insert`, `LeftRotate`, `RightRotate`,
  `Rebalance`, `Remove` and `Clear`.
- **A ghost `shape` records the reachable nodes** as a tree of arena indices
  (`Shape.Tree`).
- **`Valid()` is the class invariant.**
  - The links lay out `shape` from `root`, and every parent field is
    consistent with them (`Links.Linked`).
  - No node occurs twice.
  - Every node is a slot of the arena.
  - The keys in symmetric order strictly increase (`Order.Ordered`).
- **The AVL property is a separate predicate, `IsAVL()`** (`Balance.BalOk`).
  It says every balance field equals the height difference of its node and
  lies in {-1, 0, 1}. It is kept apart from `Valid()` because `remove` does
  not restore it.
- **Positions in the tree are zippers** (`Shape.Ctx`). The insertion hole,
  the node being removed and the rebalancing walk are all described this
  way.
- **Each rotation case** is stated on shapes (`Shape.ShapeLL` and the other
  three), on keys (`Order.KeysApplyFix`) and on balance fields
  (`Balance.RotateLL` and the others).

### Removal keeps the source's behaviour

`remove` is modelled as written. In the two-children case the predecessor's
key is copied into the node. The predecessor is then replaced by its *right*
child, which is always NULL, so the predecessor's left subtree is detached
from the tree (`AVLremove.cpp:60-62`, `65-73`).

`Order.RemoveSpec` describes the result as a `Removal` record: the new
shape, the new key fields and the detached subtree `lost`. `Remove` proves
that the new in-order keys are the old ones without `k` and without the
keys of `lost`. `RemoveExample.ExampleTreeWellFormed` and
`RemoveExample.RemoveDropsPredecessorChild` show a reachable AVL tree in
which key 1 disappears when 4 is removed.

`remove` then calls `rebalance_after_insertion(root_)`. That call does
nothing, because the root has no parent, and the model proves it does
nothing (`AVL.AVLTree.Rebalance`). No AVL property is claimed after a
removal.

## Model

| member | source | states |
|---|---|---|
| AVL.AVLTree.constructor | a9/AVLTree.h:18 | the new tree is empty (`root_` is NULL): valid, no keys, an AVL tree |
| AVL.AVLTree.Search | a9/AVLTree.cpp:16-23 | the descent returns NIL or a node of the subtree holding `k`; it returns NIL exactly when `k` is not among the subtree's keys |
| AVL.AVLTree.Find | a9/AVLTree.h:36 | `find(k)` is true exactly when `k` is one of the tree's keys |
| AVL.AVLTree.Insert | a9/AVLTree.cpp:26-54 | returns true exactly when `k` was absent; false leaves the object unchanged; true appends one slot holding `k`, makes the keys the old sorted keys with `k` inserted in place, puts the new leaf where the descent stopped, rearranged only by the recorded rotations; an AVL tree stays an AVL tree |
| AVL.AVLTree.Descend | a9/AVLTree.cpp:27-38 | the descent loop finds `k` exactly when it is present; otherwise it stops at the empty child of `p` that lies between the keys below `k` and those above it |
| AVL.AVLTree.Attach | a9/AVLTree.cpp:41-48 | the new node is appended with balance BALANCED and parent `p`; it becomes `p`'s left child when its key is below `p`'s, its right child otherwise, or the root when `p` is NULL, and no other link changes; the keys become the sorted insertion; on an AVL tree the walk's starting condition holds |
| AVL.AVLTree.NewNode | a9/AVLTree.h:59-60 | `new AVLNode(k)`: a fresh slot with key `k`, balance BALANCED and NIL pointers; every other slot unchanged |
| AVL.AVLTree.LeftRotate | a9/AVLTree.cpp:57-79 | no-op without a node or a right child; otherwise the right child becomes the local root and the new root if the node was the root; the shape is the left rotation at the node, keys, balances and in-order contents are unchanged, and the links stay consistent |
| AVL.AVLTree.RightRotate | a9/AVLTree.cpp:83-105 | the mirror image of LeftRotate, with the left child |
| AVL.AVLTree.Rebalance | a9/AVLTree.cpp:108-219 | the walk changes only balance fields and applies at most one single or double rotation; keys and their order are unchanged; started as an insertion leaves the tree, it ends in an AVL tree; from a node without a parent it changes nothing |
| AVL.AVLTree.Step | a9/AVLTree.cpp:114-121 | one walk step: the parent's balance moves by one toward the grown side (+1 left, -1 right), and no other balance changes, whenever no rotation follows; the walk stops with no rotation when the parent has no parent or becomes BALANCED; otherwise it either hands the grandparent to the next step with no link changed or stops after a rotation case; keys and contents are kept; a stop after growth leaves an AVL tree |
| AVL.AVLTree.RotateAt | a9/AVLTree.cpp:125-215 | a rotation happens exactly when the grandparent is heavy on the parent's side, and it is LL, LR, RL or RR by which child the parent and the grown node are; otherwise nothing changes and the grandparent has room for the growth; keys and contents are kept; after growth a rotation leaves an AVL tree |
| AVL.AVLTree.CaseLL | a9/AVLTree.cpp:127-137 | p and gp become BALANCED and no other balance changes, then a right rotation at gp; keys and contents are kept; after growth the result is an AVL tree |
| AVL.AVLTree.CaseRL | a9/AVLTree.cpp:139-168 | p's and gp's new balances depend on the node's (LEFT_HEAVY: -1/0, BALANCED: 0/0, RIGHT_HEAVY: 0/+1, any other value: unchanged); the node becomes BALANCED and no other balance changes; a right rotation at p, then a left rotation at gp; after growth the result is an AVL tree |
| AVL.AVLTree.CaseRR | a9/AVLTree.cpp:171-182 | mirror of the LL case: p and gp become BALANCED and no other balance changes, then a left rotation at gp; after growth the result is an AVL tree |
| AVL.AVLTree.CaseLR | a9/AVLTree.cpp:184-213 | mirror of the RL case (LEFT_HEAVY: 0/-1, BALANCED: 0/0, RIGHT_HEAVY: +1/0, any other value: unchanged); the node becomes BALANCED and no other balance changes; after growth the result is an AVL tree |
| AVL.AVLTree.Remove | a9/AVLremove.cpp:43-83 | returns true exactly when `k` was present; false changes nothing; true gives the shape and key fields of the as-written removal; balance fields are untouched; the new in-order keys are the old ones without `k` and without the keys of the detached subtree; `k` is gone and the keys stay ordered |
| AVL.AVLTree.Delete | a9/AVLremove.cpp:49-80 | splicing out the found node: with at most one child that child takes its place; with two children the predecessor's key is copied in and the predecessor is replaced by its right child (NULL); parent pointers and `root_` are updated; the result sets the same state as the removal |
| AVL.AVLTree.DescendRight | a9/AVLremove.cpp:56-59 | the loop that follows right children stops at the rightmost node of the left subtree, the predecessor, whose right child is NIL |
| AVL.AVLTree.Unlink | a9/AVLremove.cpp:64-77 | the parent's pointer to the node (or `root_`) now points to the replacement, whose parent field becomes the node's parent; keys and balances are unchanged; the links lay out the tree with the replacement in the node's place |
| AVL.AVLTree.InorderFrom | a9/AVLTree.cpp:222-232 | the labels of the subtree: left subtree's, then the node's `key(balance)`, then the right subtree's |
| AVL.AVLTree.PreorderFrom | a9/AVLTree.cpp:235-246 | the labels of the subtree: the node's, then the left subtree's, then the right subtree's |
| AVL.AVLTree.InorderSequence | a9/AVLTree.h:185-187 | read back one by one, the in-order labels give the tree's keys in increasing order, and no label occurs twice |
| AVL.AVLTree.PreorderSequence | a9/AVLTree.h:182-184 | the pre-order labels are the in-order labels rearranged (same multiset), starting with the root's label |
| AVL.AVLTree.LabelsBalanced | a9/AVLTree.h:52-53 | on an AVL tree every label shows a balance in {RIGHT_HEAVY, BALANCED, LEFT_HEAVY} |
| AVL.AVLTree.RebuildFromTraversals | a9/main.cpp:108-110 | `construct_tree` applied to the tree's pre-order and in-order sequences rebuilds the tree of labels exactly |
| AVL.AVLTree.ClearNode | a9/AVLTree.cpp:249-256 | every node of the subtree has NULL links afterwards (children first), the reference becomes NULL, and slots outside the subtree are untouched |
| AVL.AVLTree.Clear | a9/AVLTree.h:44 | the tree is empty, valid and an AVL tree, every former node has NULL links, and every other slot keeps its links |
| Describe.IntToString | a9/AVLTree.h:65 | the decimal text of an int: non-empty, with no parentheses, and starting with '-' exactly for negatives |
| Describe.IntRoundTrip | a9/AVLTree.h:65 | reading the decimal text of an integer back gives the integer |
| Describe.LabelRoundTrip | a9/AVLTree.h:63-67 | the key and the balance can both be read back from a `key(balance)` label |
| Describe.LabelInjective | a9/AVLTree.h:63-67 | two nodes have the same label only when they have equal keys and equal balances |
| Rebuild.Construct | a9/main.cpp:136-155 | the rebuilt tree, when there is one, has as many nodes as the input sequences have labels |
| Rebuild.ConstructTree | a9/main.cpp:136-155 | the recursive `construct_tree` with its search loop computes `Construct` on the windows `a[aStart..aStart+len]` and `b[bStart..bStart+len]`; the thrown error is `Err` |
| Rebuild.ConstructSound | a9/main.cpp:136-155 | whenever a tree is built, its pre-order and in-order sequences are exactly the inputs |
| Rebuild.ConstructComplete | a9/main.cpp:136-155 | a tree with pairwise different labels is rebuilt from its own traversals |
| Rebuild.ConstructMissingRoot | a9/main.cpp:144-149 | a first pre-order label missing from the in-order sequence gives the error "Invalid pair of in/pre-order sequences" |
| Rebuild.TraversalsPermute | a9/AVLTree.cpp:222-246 | the pre-order and in-order sequences hold the same labels, each equally often |
| Labels.InorderLabelKeys | a9/AVLTree.cpp:222-232 | position by position, the key in the i-th in-order label is the i-th key in symmetric order |
| Labels.InorderLabelsDistinct | a9/AVLTree.cpp:222-232 | on an ordered tree the in-order labels are pairwise different |
| Labels.BalancedLabels | a9/AVLTree.h:52-53 | every label of an AVL tree shows a balance between -1 and 1 |
| Order.SearchStep | a9/AVLTree.cpp:18-21 | a key below the node's key is in the tree exactly when it is in the left subtree; a key above it, exactly when it is in the right subtree |
| Order.InsertStep | a9/AVLTree.cpp:29-37 | going left keeps every key after the hole above `k`; going right keeps every key before it below `k`; equal keys mean `k` is present |
| Order.InsertAtHole | a9/AVLTree.cpp:41-48 | a new leaf at the hole where the descent ended puts `k` at its sorted place among the keys and keeps them ordered |
| Order.InsertSortedCorrect | a9/AVLTree.h:22-25 | inserting an absent key into a sorted sequence keeps it sorted and adds exactly that key |
| Order.InsertSortedMembers | a9/AVLTree.h:22-25 | after insertion the members are the old ones and `k` |
| Order.KeysRotAt | a9/AVLTree.cpp:57-105 | a left or right rotation anywhere in the tree leaves the in-order key sequence unchanged |
| Order.KeysApplyFix | a9/AVLTree.cpp:125-213 | none of the four rotation cases changes the in-order keys |
| Order.RemoveSpecKeys | a9/AVLremove.cpp:43-83 | after the as-written removal the in-order keys are the old ones without `k` and without the keys of the detached subtree |
| Order.RemoveSpecFrame | a9/AVLremove.cpp:43-83 | the removal only uses nodes of the old tree; the remaining tree and the detached subtree are disjoint, and the detached nodes keep their keys |
| Order.KeysRightmost | a9/AVLremove.cpp:56-62 | the left subtree's keys are those left after dropping the predecessor, then the predecessor's left subtree's, then the predecessor's own key |
| Order.FilterSorted | a9/AVLremove.cpp:43-83 | removing keys from a sorted sequence keeps it sorted |
| Order.FilterMembers | a9/AVLremove.cpp:43-83 | what remains after a removal is exactly the old keys outside the removed list |
| RemoveExample.ExampleTreeWellFormed | a9/AVLTree.cpp:26-54 | the arena left by inserting 4, 2, 5, 1 is a well-formed AVL tree, 4(2(1), 5), with the keys [1, 2, 4, 5] |
| RemoveExample.RemoveDropsPredecessorChild | a9/AVLremove.cpp:55-62 | in that tree, removing 4 leaves the keys [2, 5]: key 1 in the predecessor's left subtree is lost |
| Balance.GrownLeaf | a9/AVLTree.h:84-89 | a new BALANCED leaf in an AVL tree's empty slot is where the walk starts: a subtree that has just grown by one level |
| Balance.StepLeft | a9/AVLTree.cpp:114-121 | after `p->balance++` for a grown left child: if p became BALANCED or has no parent the tree is AVL; otherwise p's subtree has grown for its own parent |
| Balance.StepRight | a9/AVLTree.cpp:114-121 | the mirror image after `p->balance--` |
| Balance.GrownUnbalanced | a9/AVLTree.h:106-112 | if the parent did not become balanced it was BALANCED before, and its other subtree is one level lower than the grown one |
| Balance.RotateLL | a9/AVLTree.cpp:127-137 | the LL rotation with both balances set to BALANCED yields an AVL tree |
| Balance.RotateRR | a9/AVLTree.cpp:171-182 | the RR rotation with both balances set to BALANCED yields an AVL tree |
| Balance.RotateRL | a9/AVLTree.cpp:139-168 | the RL double rotation with the balances of the three-case switch yields an AVL tree |
| Balance.RotateLR | a9/AVLTree.cpp:184-213 | the LR double rotation with the balances of the three-case switch yields an AVL tree |
| Balance.CaseRLBalance | a9/AVLTree.cpp:150-164 | the node's balance is one of the three switch cases, and each case's balance assignments give an AVL tree after the rotations |
| Balance.CaseLRBalance | a9/AVLTree.cpp:195-209 | mirror of the RL balance switch |
| Shape.ShapeLL | a9/AVLTree.cpp:129-135 | the right rotation at gp rearranges node, p and gp as drawn in the source; the rest of the tree stays put |
| Shape.ShapeRL | a9/AVLTree.cpp:141-166 | the right rotation at p, then the left one at gp, make the node the root of gp and p, as drawn |
| Links.LinkedPlug | a9/AVLTree.h:51-57 | the whole tree is linked from the root exactly when the context is linked around a subtree and the subtree hangs below its parent |

## Left out

- Input and output, the terminal colours, `printtree`, `symmetric_print`, the
  command loop `main`, `prompt`, `insert_key` and `remove_key`. These are
  driver code; the model keeps only `construct_tree` from `main.cpp`.
- `term_control` and `error_handling` (diagnostic output only); `BTree.h`
  and `clear_tree` are not part of this model.
- `minimum`, `maximum`, `successor` and `predecessor`. They are declared in
  `AVLTree.h` but have no definition in the repository.
- The destructor `~AVLTree` (it calls `clear(root_)`, modelled by
  `ClearNode`) and de-allocation itself. Deleted nodes stay as unreachable
  arena slots; `delete node` is not modelled, so no slot is reused.
- Keys are `int`, not a template parameter; the driver uses `string` keys.
  Only `<`, `>` and `==` on keys matter to the tree.
- Balance fields are unbounded integers; the wrap-around of the source's
  `int` is not modelled.
- Remove: no AVL property is stated after a removal, because the source
  does not rebalance there. The removal also detaches the predecessor's
  left subtree, and the contract states exactly that.
- The textbook AVL deletion with rebalancing: the source does not implement
  it.
- Rebuild.ConstructTree: it returns a value tree, not a linked `BTNode`
  structure. The node the source allocates before the loop, and leaks when
  it throws, is not modelled.
- The ghost `shape`, zipper contexts and `Fix` records are proof devices.
  The helper methods `Descend`, `Attach`, `NewNode`, `Step`, `RotateAt`,
  the `Case` methods, `Delete`, `DescendRight` and `Unlink` split single
  C++ functions into parts. They run the same statements in the same order.
