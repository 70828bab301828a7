# Binary search tree and insertion sort

This project models two pieces of a Java interview-preparation repository and proves them correct:

- a binary search tree of `int` keys. Its nodes carry left, right and parent pointers. It supports
  `find`, `put`, `remove`, `findSuccessor` and three recursive traversals.
- an in-place insertion sort of an `int[]`.

The tree is modelled as it is written: `Node` objects on the heap whose fields the operations
update.

- A ghost `shape` records the tree that the nodes form.
- `Valid` ties every node's `data`, `left`, `right` and `parent` field to that shape.
- `Valid` also says no node occurs twice, and that the keys are ordered as the tree keeps them.
  Smaller keys lie on the left; greater or equal keys lie on the right.

Each heap operation is proved equal to a pure function on shapes:

- `Locate` is the search path.
- `Insert` is `put`.
- `SetKey` followed by `Splice` is `remove`; their composition is `Delete`.
- `Leftmost` is the walk to the successor.

Lemmas about those functions state what the operations promise. The keys that are added or
removed are stated as multisets. The lemmas also show that a removal unlinks exactly one node,
that the ordering is kept, and that the in-order walk is sorted.

The sort is a method over an array. Its inner shifting loop is a method of its own. Both are
proved against `SortedPrefix`, a function that inserts the input elements one at a time. That
function is proved to be sorted and to be a permutation of its input. It is also proved to be the
only sorted permutation.

Modules:

- `Sequences`: sortedness and reversal of sequences.
- `TreeShape`: the `Node` class, tree shapes, keys and the heap–shape correspondence.
- `TreeSearch`: the search and the leftmost descent.
- `TreeInsert`: `put`.
- `TreeInsertChained`: the corrected `put` from the finding below.
- `TreeDelete`: `remove`.
- `SearchTree`: the `BinarySearchTree` class.
- `InsertionSort`: the sort.

## Model

B = `chapter1/src/main/java/com/example/java/interview/guide/chapter1/tree/binary/BinarySearchTree.java` and I = `chapter2/src/main/java/com/example/java/interview/guide/chapter2/sort/insertion/InsertionSort.java`; the source column spells both paths out.

| member | source | states |
|---|---|---|
| TreeShape.Node.constructor | chapter1/src/main/java/com/example/java/interview/guide/chapter1/tree/binary/BinarySearchTree.java:26-31 | A new node holds the given key and has no children and no parent. |
| SearchTree.BinarySearchTree.constructor | chapter1/src/main/java/com/example/java/interview/guide/chapter1/tree/binary/BinarySearchTree.java:38-40 | A new tree is valid and empty. |
| SearchTree.BinarySearchTree.Find | chapter1/src/main/java/com/example/java/interview/guide/chapter1/tree/binary/BinarySearchTree.java:49-74 | Returns the node where the search stops. It is null exactly when the tree is empty. Otherwise the node is in the tree, and its key equals `key` exactly when the tree holds `key`. If the keys differ, the node's slot on `key`'s side is empty. |
| TreeSearch.LocateResult | chapter1/src/main/java/com/example/java/interview/guide/chapter1/tree/binary/BinarySearchTree.java:52-73 | The search gives nothing only on an empty tree. Otherwise it stops at a node of the tree, and that node either holds the key or has an empty slot on the key's side. |
| TreeSearch.LocateFinds | chapter1/src/main/java/com/example/java/interview/guide/chapter1/tree/binary/BinarySearchTree.java:55-71 | In an ordered tree the stop node holds the key if and only if the key is in the tree. |
| SearchTree.BinarySearchTree.Put | chapter1/src/main/java/com/example/java/interview/guide/chapter1/tree/binary/BinarySearchTree.java:81-98 | The tree stays valid and gains exactly one fresh node. The new shape is `Insert` of the old one. The new keys plus any displaced subtree's keys equal the old keys plus `value`. |
| SearchTree.BinarySearchTree.Attach | chapter1/src/main/java/com/example/java/interview/guide/chapter1/tree/binary/BinarySearchTree.java:88-97 | The new leaf hangs below the stop node: on the left if its key is smaller, on the right otherwise. Its parent pointer is set. The tree stays valid and equals `Insert` of the old shape. |
| TreeInsert.InsertKeys | chapter1/src/main/java/com/example/java/interview/guide/chapter1/tree/binary/BinarySearchTree.java:88-97 | The inserted tree's keys plus the keys of the overwritten right subtree equal the old keys plus the new key, as multisets. |
| TreeInsert.DisplacedOnlyDuplicates | chapter1/src/main/java/com/example/java/interview/guide/chapter1/tree/binary/BinarySearchTree.java:95-97 | When the key is not already in the tree, no subtree is overwritten. |
| TreeInsert.InsertOrdered | chapter1/src/main/java/com/example/java/interview/guide/chapter1/tree/binary/BinarySearchTree.java:88-97 | An insertion keeps the tree ordered, with smaller keys left and greater or equal keys right. |
| TreeInsert.InsertDistinct | chapter1/src/main/java/com/example/java/interview/guide/chapter1/tree/binary/BinarySearchTree.java:84-97 | An insertion adds the new node and no other, keeps nodes unrepeated, and keeps the root unless the tree was empty. |
| TreeInsert.InsertKeysWithin | chapter1/src/main/java/com/example/java/interview/guide/chapter1/tree/binary/BinarySearchTree.java:88-97 | Every key after an insertion was already there or is the new key. |
| TreeInsert.InsertLinks | chapter1/src/main/java/com/example/java/interview/guide/chapter1/tree/binary/BinarySearchTree.java:90-97 | The new leaf's parent is the stop node. Only the stop node's slot on the key's side changes. Every other node keeps its key, children and parent. |
| TreeInsert.LocateReady | chapter1/src/main/java/com/example/java/interview/guide/chapter1/tree/binary/BinarySearchTree.java:88-97 | Before the write, the stop node's fields agree with the shape, and all other nodes are described independently of it. |
| TreeInsert.InsertRelinked | chapter1/src/main/java/com/example/java/interview/guide/chapter1/tree/binary/BinarySearchTree.java:90-97 | After the stop node's slot and the leaf's parent are written, every node's fields agree with the inserted shape. |
| TreeInsertChained.DuplicatePutLosesKey | chapter1/src/main/java/com/example/java/interview/guide/chapter1/tree/binary/BinarySearchTree.java:95-97 | Putting 5 into the tree 5 → right 7 yields keys [5, 5]: the 7 is lost. |
| TreeInsertChained.InsertChainedKeys | chapter1/src/main/java/com/example/java/interview/guide/chapter1/tree/binary/BinarySearchTree.java:95-97 | When an equal key descends right to an empty slot, the keys become exactly the old keys plus the new one. |
| TreeInsertChained.InsertChainedOrdered | chapter1/src/main/java/com/example/java/interview/guide/chapter1/tree/binary/BinarySearchTree.java:95-97 | The corrected insertion keeps the tree ordered. |
| TreeInsertChained.InsertChainedNodes | chapter1/src/main/java/com/example/java/interview/guide/chapter1/tree/binary/BinarySearchTree.java:95-97 | The corrected insertion adds exactly the new node and keeps nodes unrepeated. |
| TreeInsertChained.InsertChainedWithin | chapter1/src/main/java/com/example/java/interview/guide/chapter1/tree/binary/BinarySearchTree.java:95-97 | Every key after the corrected insertion was already there or is the new key. |
| SearchTree.BinarySearchTree.Remove | chapter1/src/main/java/com/example/java/interview/guide/chapter1/tree/binary/BinarySearchTree.java:111-146 | The result is true if and only if the tree held `value`. The tree stays valid, and the new shape is `Delete` of the old one. |
| TreeDelete.DeleteAbsent | chapter1/src/main/java/com/example/java/interview/guide/chapter1/tree/binary/BinarySearchTree.java:112-115 | Removing a missing key leaves the tree unchanged and unlinks nothing. |
| TreeDelete.DeleteKeys | chapter1/src/main/java/com/example/java/interview/guide/chapter1/tree/binary/BinarySearchTree.java:111-146 | Removing a present key takes out exactly one occurrence of it and exactly one node. The tree stays ordered and keeps nodes unrepeated. |
| TreeDelete.DeleteTwoChildren | chapter1/src/main/java/com/example/java/interview/guide/chapter1/tree/binary/BinarySearchTree.java:117-144 | For a node with two children: copying in the successor's key and then splicing out the successor removes that node's key once, removes the successor node, and keeps the tree ordered. |
| TreeDelete.CopySuccessorKey | chapter1/src/main/java/com/example/java/interview/guide/chapter1/tree/binary/BinarySearchTree.java:119-123 | Copying in the successor's key swaps one key for the other, keeps the tree ordered, and leaves the successor where it was. |
| SearchTree.BinarySearchTree.TakeSuccessorKey | chapter1/src/main/java/com/example/java/interview/guide/chapter1/tree/binary/BinarySearchTree.java:121-123 | After the key write the tree is valid and equals `SetKey` of the old shape. The successor is still the leftmost node of the right subtree. |
| TreeDelete.SuccessorAt | chapter1/src/main/java/com/example/java/interview/guide/chapter1/tree/binary/BinarySearchTree.java:160-166 | The successor of a node with a right child lies in that subtree and holds its smallest key. |
| TreeDelete.SuccessorReady | chapter1/src/main/java/com/example/java/interview/guide/chapter1/tree/binary/BinarySearchTree.java:117-121 | Before the key write, the node's and the successor's fields agree with the shape. |
| TreeDelete.SetKeyKeys | chapter1/src/main/java/com/example/java/interview/guide/chapter1/tree/binary/BinarySearchTree.java:121 | Overwriting one node's key swaps that key for the new one in the multiset of keys. |
| TreeDelete.SetKeyOrdered | chapter1/src/main/java/com/example/java/interview/guide/chapter1/tree/binary/BinarySearchTree.java:121 | Writing the smallest key of the right subtree into a node keeps the tree ordered. |
| TreeDelete.SetKeyLinks | chapter1/src/main/java/com/example/java/interview/guide/chapter1/tree/binary/BinarySearchTree.java:121 | A key write changes that node's key only. Children and parents are unchanged. |
| TreeDelete.SetKeyRelinked | chapter1/src/main/java/com/example/java/interview/guide/chapter1/tree/binary/BinarySearchTree.java:121 | After the key write, every node's fields agree with the new shape. |
| SearchTree.BinarySearchTree.Unlink | chapter1/src/main/java/com/example/java/interview/guide/chapter1/tree/binary/BinarySearchTree.java:127-144 | Taking out a node with at most one child keeps the tree valid, and the new shape is `Splice` of the old one. |
| SearchTree.BinarySearchTree.LiftChild | chapter1/src/main/java/com/example/java/interview/guide/chapter1/tree/binary/BinarySearchTree.java:129-133 | The child, if any, now points up to the removed node's parent. Its other fields are unchanged. |
| SearchTree.BinarySearchTree.Bypass | chapter1/src/main/java/com/example/java/interview/guide/chapter1/tree/binary/BinarySearchTree.java:136-144 | Whichever of the root or the parent's left or right slot pointed at the node now points at the child. Nothing else changes. |
| TreeDelete.UnlinkReady | chapter1/src/main/java/com/example/java/interview/guide/chapter1/tree/binary/BinarySearchTree.java:127-144 | Before the writes, the node, its child and its parent agree with the shape, and the node is its parent's left or right child. |
| TreeDelete.LiftedReady | chapter1/src/main/java/com/example/java/interview/guide/chapter1/tree/binary/BinarySearchTree.java:129-133 | The child that takes the node's place is a different node of the tree, with fields that agree with the shape. |
| TreeDelete.ParentReady | chapter1/src/main/java/com/example/java/interview/guide/chapter1/tree/binary/BinarySearchTree.java:136-144 | A non-root node has a parent in the tree, distinct from itself and its child, holding it in one slot. |
| TreeDelete.SoleChild | chapter1/src/main/java/com/example/java/interview/guide/chapter1/tree/binary/BinarySearchTree.java:129 | The child taken for a node with at most one child holds all keys below that node. |
| TreeDelete.SpliceNodes | chapter1/src/main/java/com/example/java/interview/guide/chapter1/tree/binary/BinarySearchTree.java:129-144 | Splicing out a node with at most one child removes exactly that node and keeps nodes unrepeated. |
| TreeDelete.SpliceKeys | chapter1/src/main/java/com/example/java/interview/guide/chapter1/tree/binary/BinarySearchTree.java:129-144 | Splicing out a node removes exactly its key from the multiset of keys. |
| TreeDelete.SpliceOrdered | chapter1/src/main/java/com/example/java/interview/guide/chapter1/tree/binary/BinarySearchTree.java:129-144 | Splicing keeps the tree ordered. |
| TreeDelete.SpliceLinks | chapter1/src/main/java/com/example/java/interview/guide/chapter1/tree/binary/BinarySearchTree.java:129-144 | Only the slot that held the node now holds its child, and only the child's parent changes. |
| TreeDelete.SpliceRelinked | chapter1/src/main/java/com/example/java/interview/guide/chapter1/tree/binary/BinarySearchTree.java:129-144 | After the child and parent writes, every node's fields agree with the spliced shape. |
| SearchTree.BinarySearchTree.FindSuccessor | chapter1/src/main/java/com/example/java/interview/guide/chapter1/tree/binary/BinarySearchTree.java:156-167 | Without a right child the result is the node's parent. Otherwise it is the leftmost node of the right subtree. |
| TreeSearch.Leftmost | chapter1/src/main/java/com/example/java/interview/guide/chapter1/tree/binary/BinarySearchTree.java:160-166 | The walk down left children ends at a node with no left child. |
| TreeSearch.LeftmostMin | chapter1/src/main/java/com/example/java/interview/guide/chapter1/tree/binary/BinarySearchTree.java:160-166 | The leftmost node is in the tree, and in an ordered tree it holds the smallest key. |
| SearchTree.BinarySearchTree.InOrder | chapter1/src/main/java/com/example/java/interview/guide/chapter1/tree/binary/BinarySearchTree.java:184-190 | The keys visited left subtree, node, right subtree are the shape's in-order keys. |
| SearchTree.BinarySearchTree.PreOrder | chapter1/src/main/java/com/example/java/interview/guide/chapter1/tree/binary/BinarySearchTree.java:198-204 | The keys visited node, left subtree, right subtree are the shape's pre-order keys. |
| SearchTree.BinarySearchTree.PostOrder | chapter1/src/main/java/com/example/java/interview/guide/chapter1/tree/binary/BinarySearchTree.java:212-218 | The keys visited left subtree, right subtree, node are the shape's post-order keys. |
| SearchTree.BinarySearchTree.InOrderSorted | chapter1/src/main/java/com/example/java/interview/guide/chapter1/tree/binary/BinarySearchTree.java:184-190 | The in-order walk of a valid tree is sorted and lists one key per node. |
| TreeShape.OrderedKeysSorted | chapter1/src/main/java/com/example/java/interview/guide/chapter1/tree/binary/BinarySearchTree.java:184-190 | An ordered tree's in-order keys are sorted. |
| TreeShape.KeysCount | chapter1/src/main/java/com/example/java/interview/guide/chapter1/tree/binary/BinarySearchTree.java:184-190 | A tree without repeated nodes has one in-order key per node. |
| TreeShape.TraversalsPermute | chapter1/src/main/java/com/example/java/interview/guide/chapter1/tree/binary/BinarySearchTree.java:184-218 | The three traversals list the same multiset of keys. |
| TreeShape.PostOrderMirrorsPreOrder | chapter1/src/main/java/com/example/java/interview/guide/chapter1/tree/binary/BinarySearchTree.java:198-218 | Post-order is the reverse of the pre-order of the mirrored tree. |
| TreeShape.LinkedPointwiseIff | chapter1/src/main/java/com/example/java/interview/guide/chapter1/tree/binary/BinarySearchTree.java:11-19 | The recursive description of the child pointers agrees, node by node, with the shape. |
| TreeShape.ParentLinkedPointwiseIff | chapter1/src/main/java/com/example/java/interview/guide/chapter1/tree/binary/BinarySearchTree.java:11-19 | The recursive description of the parent pointers agrees, node by node, with the shape's parent relation. |
| TreeShape.ChildParent | chapter1/src/main/java/com/example/java/interview/guide/chapter1/tree/binary/BinarySearchTree.java:15-19 | The parent of a node's child is that node. |
| TreeShape.ParentChild | chapter1/src/main/java/com/example/java/interview/guide/chapter1/tree/binary/BinarySearchTree.java:15-19 | A non-root node's parent is in the tree and holds it as its left or right child. |
| InsertionSort.Sort | chapter2/src/main/java/com/example/java/interview/guide/chapter2/sort/insertion/InsertionSort.java:11-31 | A null or empty array is left alone. Otherwise the array ends as `SortedPrefix` of its old contents, and it is sorted. |
| InsertionSort.SortedPrefixSorts | chapter2/src/main/java/com/example/java/interview/guide/chapter2/sort/insertion/InsertionSort.java:16-30 | After each round, the sorted run is sorted and is a permutation of that many input elements. |
| InsertionSort.InsertionSortIsTheSort | chapter2/src/main/java/com/example/java/interview/guide/chapter2/sort/insertion/InsertionSort.java:11-31 | The sort's result equals any sorted permutation of the input. |
| InsertionSort.SortedUnique | chapter2/src/main/java/com/example/java/interview/guide/chapter2/sort/insertion/InsertionSort.java:11-31 | Two sorted sequences with the same multiset are equal. |
| InsertionSort.InsertSortedKeeps | chapter2/src/main/java/com/example/java/interview/guide/chapter2/sort/insertion/InsertionSort.java:18-29 | Inserting an element into a sorted run keeps it sorted. |
| InsertionSort.InsertSortedBag | chapter2/src/main/java/com/example/java/interview/guide/chapter2/sort/insertion/InsertionSort.java:18-29 | Inserting adds exactly that element to the multiset. |
| InsertionSort.InsertSortedAt | chapter2/src/main/java/com/example/java/interview/guide/chapter2/sort/insertion/InsertionSort.java:22-29 | The element lands just after the last element that is not greater than it, scanning from the right. |
| InsertionSort.ShiftLarger | chapter2/src/main/java/com/example/java/interview/guide/chapter2/sort/insertion/InsertionSort.java:20-27 | Stops at the first position from the right whose element is not greater than `current`, or at -1. Every element passed was greater. The passed run has moved one place right, and nothing else changed. |
| InsertionSort.ShiftStep | chapter2/src/main/java/com/example/java/interview/guide/chapter2/sort/insertion/InsertionSort.java:24-26 | Copying one more element right extends the shifted run by one. |
| InsertionSort.PlaceCurrent | chapter2/src/main/java/com/example/java/interview/guide/chapter2/sort/insertion/InsertionSort.java:29 | Writing `current` into the gap turns a run of i+1 sorted elements into one of i+2, and leaves the rest of the input untouched. |

## Left out

- `getRoot` (B:174-176) only returns the root field, which the model exposes as `root`.
- Printing is not modelled. The traversals return the key sequences they would print, in the order they would print them.
- The traversals take a ghost shape argument, which bounds their recursion.
- `PalindromeSplitDemo` and `MergeSortDemo` are not part of this model.
- SearchTree.BinarySearchTree.Remove: requires a non-empty tree. On an empty tree, `find` returns null and the source fails with a null dereference at line 113. That fault is not modelled as a result.
- SearchTree.BinarySearchTree.FindSuccessor: follows the code rather than the method's own comment. For a node without a right child, the code returns the parent, while the comment promises the node itself. `Remove` only calls it on nodes with two children.
- Java `int` keys appear only in comparisons and copies, so unbounded `int` is exact. There is no arithmetic on keys to wrap around.
- Nodes overwritten by a duplicate `put` stay in `Repr` but can no longer be reached from the root. Java's garbage collection of them is not modelled.
- InsertionSort.Sort: its `ensures` states the result as `SortedPrefix` and as sorted. That the result is a permutation of the input is the lemma `SortedPrefixSorts` about `SortedPrefix`, not a clause of `Sort` itself.

## Findings

| source | as written | input that shows it | evidently intended | confidence | as-written member | corrected member |
|---|---|---|---|---|---|---|
| chapter1/src/main/java/com/example/java/interview/guide/chapter1/tree/binary/BinarySearchTree.java:95-97 | `put` of a key equal to the key of the node `find` stops at sets that node's right child to the new leaf. This discards the whole right subtree that was there. | The tree with root 5 and right child 7; `put(5)` leaves in-order keys [5, 5], and 7 is gone. | Equal keys descend to the right until an empty slot. The new key is added and every old key is kept. | not executed | TreeInsertChained.DuplicatePutLosesKey | TreeInsertChained.InsertChainedKeys |
