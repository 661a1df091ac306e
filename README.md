# Binary search tree and min-heap of DSAFinal.java, in Dafny

DSAFinal.java holds two independent integer collections behind a small Swing
form:

- `BinaryTree`: an unbalanced binary search tree of Java `int`s. `add` inserts
  through `addRecursive`, which goes left on a smaller value and right on a
  greater one. An equal value takes neither branch, so duplicates are dropped.
  Three recursive traversals (in-order, pre-order, post-order) each fill an
  `ArrayList` accumulator.
- `MinHeap`: a bag of `int`s in a `java.util.PriorityQueue`. `add` inserts one
  occurrence and `remove` polls the minimum. `getHeapElements` copies the queue
  into a new list and sorts the copy, so the heap itself does not change.

The model has three modules:

- `Ordering` (ordering.dfy): the `Int32` range of Java's `int`, sortedness
  predicates, and the lemmas that a sorted sequence is determined by its
  multiset and a strictly increasing one by its set.
- `Trees` (trees.dfy): the tree as a datatype `Tree = Leaf | Node(left, value,
  right)`, held in the `root` field of class `BinaryTree`. `AddRecursive` is a
  function returning the new subtree. `InOrder`, `PreOrder` and `PostOrder` are
  the specification functions. The traversal methods append to a shared
  `IntList` accumulator (the `ArrayList`), recursing as the Java helpers do, and
  are proved equal to those functions. A ghost field `Added` records every
  argument of `add`, and `Valid()` ties `root` to `Build(Added)`.
- `Heaps` (heaps.dfy): class `MinHeap` over a `seq` store, with abstract value
  `Contents()`, a multiset. `Remove` finds a least element with a loop
  (`MinIndex`). `GetHeapElements` copies the store into a fresh array and sorts
  it in place by insertion (`InsertionSort`).

Values are Java `int`s (`Int32`). Neither structure does arithmetic on them,
only comparisons, so no overflow or wrap-around arises.

On an empty queue `poll` returns `null`, and unboxing it in `remove`
(DSAFinal.java:97-99) throws a `NullPointerException`. The model returns
`EmptyHeapError` on that path and leaves the heap unchanged.

## Model

| member | source | states |
|---|---|---|
| `Trees.AddRecursive` | DSAFinal.java:27-37 | the values after insertion are the old values plus the inserted one; a value not yet present adds exactly one node |
| `Trees.AddRecursivePreservesBst` | DSAFinal.java:27-37 | insertion into a search tree yields a search tree (left values smaller, right values greater at every node) |
| `Trees.AddRecursiveExisting` | DSAFinal.java:31-36 | inserting a value the search tree already holds returns the identical tree, so every traversal is unchanged |
| `Trees.TraversalsArePermutations` | DSAFinal.java:40-82 | pre-order and post-order are permutations of in-order, and all three have as many elements as the tree has nodes |
| `Trees.InOrderValues` | DSAFinal.java:46-52 | an element occurs in the in-order traversal exactly when it is a value of the tree |
| `Trees.InOrderIncreasingIffBst` | DSAFinal.java:46-52 | a tree satisfies the search-tree invariant if and only if its in-order traversal is strictly increasing |
| `Trees.BuildIsBst` | DSAFinal.java:23-37 | after any run of `add` calls on an empty tree, the tree is a search tree and holds exactly the added values |
| `Trees.BuildInOrderSorted` | DSAFinal.java:40-52 | after any run of `add` calls, the in-order traversal equals the strictly increasing arrangement of the distinct added values |
| `Ordering.StrictlyIncreasingUnique` | DSAFinal.java:46-52 | two strictly increasing sequences with the same elements are equal, so "the ascending sort of the distinct values" is well defined |
| `Trees.ScenarioFiveValuesShape` | DSAFinal.java:27-37 | adding 5, 3, 8, 1, 4 builds root 5, left child 3 with children 1 and 4, right child 8 |
| `Trees.ScenarioFiveValues` | DSAFinal.java:46-82 | that tree has in-order [1,3,4,5,8], pre-order [5,3,1,4,8] and post-order [1,4,3,8,5] |
| `Trees.ScenarioDuplicate` | DSAFinal.java:31-36 | adding 5, 5, 3 gives in-order [3,5]; on the empty tree all three traversals are empty |
| `Trees.IntList.constructor` | DSAFinal.java:41 | a new accumulator list is empty |
| `Trees.IntList.Add` | DSAFinal.java:49 | the list gains the value at its end and is otherwise unchanged |
| `Trees.BinaryTree.constructor` | DSAFinal.java:21 | a new tree has a null root and no added values |
| `Trees.BinaryTree.Add` | DSAFinal.java:23-25 | the root becomes the recursive insertion of the value; the tree stays a search tree, its values gain the value, and an already present value leaves the root unchanged |
| `Trees.BinaryTree.InOrderRecursive` | DSAFinal.java:46-52 | the accumulator ends as its old contents followed by the in-order traversal of the node |
| `Trees.BinaryTree.PreOrderRecursive` | DSAFinal.java:61-67 | the accumulator ends as its old contents followed by the pre-order traversal of the node |
| `Trees.BinaryTree.PostOrderRecursive` | DSAFinal.java:76-82 | the accumulator ends as its old contents followed by the post-order traversal of the node |
| `Trees.BinaryTree.InOrderTraversal` | DSAFinal.java:40-44 | returns the in-order traversal of the root, which is strictly increasing and holds exactly the values ever added |
| `Trees.BinaryTree.PreOrderTraversal` | DSAFinal.java:55-59 | returns the pre-order traversal of the root, a permutation of the in-order one |
| `Trees.BinaryTree.PostOrderTraversal` | DSAFinal.java:70-74 | returns the post-order traversal of the root, a permutation of the in-order one |
| `Trees.ScenarioTraversals` | DSAFinal.java:23-82 | on a new `BinaryTree`, `add` of 5, 3, 8, 1, 4 and the three traversals yield [1,3,4,5,8], [5,3,1,4,8] and [1,4,3,8,5] |
| `Trees.ScenarioDuplicateTraversal` | DSAFinal.java:23-52 | on a new `BinaryTree`, `add` of 5, 5, 3 and the in-order traversal yield [3,5] |
| `Heaps.MinIndex` | DSAFinal.java:97-99 | the returned position holds a value no greater than any element of the non-empty store |
| `Heaps.InsertionSort` | DSAFinal.java:103 | the array ends sorted ascending and is a permutation of what it held |
| `Heaps.MinHeap.constructor` | DSAFinal.java:89-91 | a new heap is empty |
| `Heaps.MinHeap.Add` | DSAFinal.java:93-95 | the contents gain exactly one occurrence of the value |
| `Heaps.MinHeap.Remove` | DSAFinal.java:97-99 | on an empty heap the result is the empty-heap failure and nothing changes; otherwise the result is a held value no greater than any other, and exactly one occurrence of it leaves the contents |
| `Heaps.MinHeap.GetHeapElements` | DSAFinal.java:101-105 | returns every held value with its multiplicity, in non-decreasing order; it modifies nothing |
| `Ordering.SortedUnique` | DSAFinal.java:101-105 | a sorted arrangement of a multiset is unique, so two snapshots of unchanged contents are identical |
| `Heaps.ScenarioSorted` | DSAFinal.java:101-105 | the only sorted arrangement of 7, 2, 9, 2 is [2,2,7,9] |
| `Heaps.ScenarioSnapshot` | DSAFinal.java:93-105 | on a new `MinHeap`, `add` of 7, 2, 9, 2 and two calls of `getHeapElements` both yield [2,2,7,9] |

## Left out

- The `TreeGUI` frame (DSAFinal.java:109-175): layout, buttons, the text area and dialogs are presentation only.
- Parsing input with `Integer.parseInt` and reporting `NumberFormatException`: this happens in the presentation layer, before any core call.
- `main` and `SwingUtilities.invokeLater`: event-thread scheduling, not logic.
- Formatting the returned lists as text for display.
- Node identity: `addRecursive` updates the `left`/`right` fields of existing `TreeNode` objects, while the model rebuilds the path as a new datatype value. Nodes are never shared, so no other reference could observe the difference.
- Recursion depth: on a degenerate tree the Java traversals and insertion may overflow the call stack; the model has no stack limit.
- The internal array and sift operations of `java.util.PriorityQueue` are not shown. The model keeps the elements in an unordered `seq` and finds the minimum by a linear search. Only the multiset contents are observable through `remove` and `getHeapElements`.
- Heaps.MinHeap.Remove: states the new contents as a multiset, not the order of the store afterwards, because that order is internal to the queue and not observable.
- `List.sort` (a merge sort in the JDK) is replaced by a local insertion sort. Any sort gives the same result, since a sorted permutation is unique (`Ordering.SortedUnique`).
- The capacity growth of `ArrayList` and `PriorityQueue` is not modelled; the accumulators and store are unbounded sequences.
