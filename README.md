# go-data-structure in Dafny

This project models a small Go library of textbook data structures and proves
what each one promises. Each Go source file is one Dafny module. The two
stacks share the Go package `stack` but are separate modules here:

- `Distance` (`distance.dfy`): the absolute difference `dist`. It also holds
  the linear scan that returns the array element closest to a target.
- `GridIndex` (`grid.dfy`): a uniform 2-D grid of bins. Each bin holds a
  chain of points. The module covers bin computation, insertion, removal of
  the first approximately equal point, and the lower bound on the distance
  from a query point to a cell.
- `MaxHeap` (`heap.dfy`): an array-backed binary max-heap of `*int`
  slots. It grows by doubling and sifts up on insert and down on remove.
- `LinkedList` (`linked_list.dfy`): a singly linked node with tail append.
- `ListStack` (`linked_list_stack.dfy`) and `LinkedQueue` (`queue.dfy`): a
  LIFO stack and a FIFO queue built on those nodes.
- `ArrayStack` (`stack.go` as `stack.dfy`): an `int8` stack over a doubling
  array.
- `SearchTree` (`tree.dfy`): a binary search tree with parent pointers.
  Insertion and lookup go down from a node. Removal covers the leaf case,
  the one-child case and the in-order-successor case.
- `PrefixTrie` (`trie.dfy`): a 26-way trie over lower-case byte strings,
  with insertion, and deletion that prunes bare children.

The mutable structures are Dafny classes whose methods modify their fields:

- Each node chain is described by a ghost sequence of nodes.
- The search tree is described by a ghost `Shape` tree, tied to the
  pointers by the predicate `Linked`.
- The trie uses a ghost `Repr` footprint per node and a ghost predicate
  `Has(w)` for "the word `w` is stored".

Every method is proved against those abstractions. The lemmas beside them
state what the abstractions mean, for example:

- ordering is kept;
- multisets of elements behave as expected;
- the root of the heap is the maximum;
- a bin index lies in its cell;
- each minimum distance is both a lower bound and attained.

## Model

| member | source | states |
|---|---|---|
| Distance.Dist | distance/distance.go:3-9 | the result is non-negative and equals `a - b` or `b - a` |
| Distance.DistSymmetric | distance/distance.go:3-9 | `dist(a, b) == dist(b, a)` |
| Distance.DistZeroIff | distance/distance.go:3-9 | the distance is zero exactly when the two values are equal |
| Distance.LinearScanClosetNeighbor | distance/distance.go:11-29 | an empty slice yields -1; otherwise the result is the first element whose distance to the target is minimal over the whole slice |
| GridIndex.Abs | grid/grid.go:26-30 | the result is non-negative and is `r` or `-r` |
| GridIndex.ApproxEqualPerAxis | grid/grid.go:25-35 | two points are approximately equal iff each axis differs by at most `threshold` (1e-9), in both directions |
| GridIndex.ApproxEqualReflexive | grid/grid.go:25-35 | every point approximately equals itself |
| GridIndex.ApproxEqualSymmetric | grid/grid.go:25-35 | approximate equality does not depend on argument order |
| GridIndex.ApproxEqualIsNotEuclidean | grid/grid.go:25-35 | points `threshold` apart on both axes still match, although their Euclidean distance exceeds `threshold` |
| GridIndex.BinWidth | grid/grid.go:37-40 | `n` bins of the width exactly span `[start, end]`; the width is positive for a non-empty range |
| GridIndex.Bin | grid/grid.go:42-46 | the floored bin `k` satisfies `start + k*w <= v < start + (k+1)*w` |
| GridIndex.BinUnique | grid/grid.go:42-46 | a bin whose cell contains `v` is the only such bin |
| GridIndex.BinInDomain | grid/grid.go:37-46 | a value inside `[start, end)` falls in a bin between 0 and `n-1` |
| GridIndex.FirstMatch | grid/grid.go:83-95 | the index found in a chain is that of the first approximately equal point, or the chain length when none matches |
| GridIndex.RemoveSucceedsIffMatch | grid/grid.go:65-98 | removal from a chain succeeds exactly when some point of the chain approximately equals the query |
| GridIndex.RemoveFirstMatchShape | grid/grid.go:80-95 | a successful removal drops exactly the first matching point and keeps the order of the others |
| GridIndex.PushThenRemove | grid/grid.go:48-98 | deleting a point right after inserting it restores the previous chain |
| GridIndex.Grid.constructor | grid/grid.go:13-23 | the grid's fields take the given values and every bin starts empty |
| GridIndex.Grid.CalculateWidth | grid/grid.go:37-40 | both widths are set so that the bins exactly span the x and y ranges |
| GridIndex.Grid.GetBins | grid/grid.go:42-46 | with positive widths, the returned cell contains the point on both axes |
| GridIndex.Grid.Insert | grid/grid.go:48-63 | succeeds exactly when the point's cell is inside the grid; the point then heads that cell's chain and every other cell is unchanged; points stay in their own cells |
| GridIndex.Grid.Delete | grid/grid.go:65-98 | succeeds exactly when the cell is in range and its chain holds a matching point; only that first match is unlinked and every other cell is unchanged |
| GridIndex.Grid.MinDistToBind | grid/grid.go:100-131 | out-of-range cells give the negative-infinity sentinel; otherwise the result is non-negative and zero when the point is inside the cell |
| GridIndex.AxisExcess | grid/grid.go:110-118 | the per-axis excess is non-negative and zero inside `[lo, hi]` |
| GridIndex.AxisExcessIsLowerBound | grid/grid.go:110-118 | the excess never exceeds the distance to any point of `[lo, hi]` |
| GridIndex.AxisExcessIsAttained | grid/grid.go:110-118 | the excess equals the distance to the clamped point of `[lo, hi]` |
| GridIndex.MinDistIsLowerBound | grid/grid.go:100-131 | the cell distance is at most the squared distance to every point of the cell |
| GridIndex.MinDistIsAttained | grid/grid.go:100-131 | the cell distance is the squared distance to a point of the cell, namely the clamped one |
| GridIndex.ApproxEqualAcrossCellBoundary | grid/grid.go:25-63 | two approximately equal points can land in different bins, so a deletion only searches the query's own cell |
| GridIndex.MinDistExample | grid/grid.go:100-131 | concrete values: a point diagonally outside a 10x10 cell, a point on its edge, and a cell outside the grid |
| MaxHeap.Swap | heap/heap.go:51-53 | a swap exchanges two slots, leaves the rest unchanged and keeps the multiset |
| MaxHeap.RootIsMax | heap/heap.go:25-31 | in a heap-ordered prefix, the root is at least every element |
| MaxHeap.RootIsMaxOfAll | heap/heap.go:25-31 | in a heap-ordered prefix, the root bounds every element of its multiset |
| MaxHeap.StoreAfterLast | heap/heap.go:45-47 | storing after the last element breaks heap order only at the new slot and adds exactly that element |
| MaxHeap.SiftUpStep | heap/heap.go:49-58 | swapping a child above a smaller parent moves the only order violation one level up |
| MaxHeap.SiftUpDone | heap/heap.go:50 | when the parent is not smaller, the whole prefix is heap-ordered |
| MaxHeap.MoveLastToRoot | heap/heap.go:67-71 | moving the last element to the root and clearing its slot keeps order everywhere below the root and removes exactly the old root |
| MaxHeap.SiftDownStep | heap/heap.go:74-99 | swapping a parent with its larger, bigger child moves the only order violation one level down |
| MaxHeap.SiftDownDone | heap/heap.go:89-92 | when the parent is at least both children, the whole prefix is heap-ordered |
| MaxHeap.Heap.constructor | heap/heap.go:13-19 | a new heap has the given capacity and no elements |
| MaxHeap.Heap.Size | heap/heap.go:21-23 | the size is the number of stored elements |
| MaxHeap.Heap.Peek | heap/heap.go:25-31 | an empty heap peeks 0; otherwise the result is a stored element and at least every stored element |
| MaxHeap.Heap.Resize | heap/heap.go:33-38 | the capacity doubles and the stored slots and the elements are kept |
| MaxHeap.Heap.Insert | heap/heap.go:40-59 | exactly the new value is added and heap order is kept; the capacity doubles exactly when the heap was full, and only then is the array a fresh one |
| MaxHeap.Heap.Append | heap/heap.go:45-58 | below capacity, exactly the new value is added and heap order is kept |
| MaxHeap.Heap.SiftUp | heap/heap.go:49-58 | restores heap order, and keeps the multiset and the slots past the last element |
| MaxHeap.Heap.SiftDown | heap/heap.go:74-99 | restores heap order, and keeps the multiset and the slots past the last element |
| MaxHeap.Heap.Remove | heap/heap.go:61-102 | an empty heap yields 0 and is unchanged; otherwise the result is a maximum stored element, exactly one copy of it leaves, and heap order is kept |
| MaxHeap.Heap.Drain | heap/heap_test.go:281-303 | removing until empty yields every stored element, as a multiset, in non-increasing order |
| MaxHeap.MixedInsertRemove | heap/heap_test.go:236-254 | after inserting 10, 20 and 15 into a heap of capacity 5, removal yields 20; after 25 and 5 are added, the maximum is 25 |
| LinkedList.LinkedListNode.constructor | linked_list/linked_list.go:8-13 | a new node is a one-node chain holding the value |
| LinkedList.LinkedListNode.Append | linked_list/linked_list.go:15-24 | a fresh node is linked after the last node; the chain's values gain the value at the end and its nodes are kept |
| ListStack.LinkedListStack.constructor | stack/linked_list_stack.go:12-17 | a new stack holds just the given value |
| ListStack.LinkedListStack.Empty | stack/linked_list_stack.go:7-10 | the zero stack holds nothing |
| ListStack.LinkedListStack.Push | stack/linked_list_stack.go:19-25 | the value goes on top of the previous contents, in a fresh node |
| ListStack.LinkedListStack.Pop | stack/linked_list_stack.go:27-36 | an empty stack yields -1 and is unchanged; otherwise the result is the top value and the rest stays in order |
| LinkedQueue.Queue.constructor | queue/queue.go:12-18 | a new queue holds just the given value, in one node that is both front and back |
| LinkedQueue.Queue.Empty | queue/queue.go:7-10 | the zero queue holds nothing |
| LinkedQueue.Queue.Enqueue | queue/queue.go:20-33 | the value joins the back in a fresh node and the earlier nodes are kept |
| LinkedQueue.Queue.Dequeue | queue/queue.go:35-47 | an empty queue yields -1 and is unchanged; otherwise the result is the front value and the rest stays in order |
| ArrayStack.Stack.constructor | stack.go:9-15 | a new stack has capacity 10 and is empty |
| ArrayStack.Stack.With | stack.go:17-23 | a stack of the given capacity is empty |
| ArrayStack.Stack.Length | stack.go:25-27 | the length is the capacity, which exceeds the top index |
| ArrayStack.Stack.Resize | stack.go:29-37 | the capacity doubles, the old slots are copied, new slots are zero and the contents are kept |
| ArrayStack.Stack.Push | stack.go:39-45 | the value is pushed on top; the capacity doubles exactly when the stack was full, and only then is the array a fresh one |
| ArrayStack.Stack.Pop | stack.go:47-54 | an empty stack yields -1; otherwise the result is the top value and the rest stays in order |
| ArrayStack.PushPastCapacity | stack/stack_test.go:24-41 | a stack of capacity 2 keeps capacity 2 after two pushes and has capacity 4 after a third |
| ArrayStack.PopInReverse | stack/stack_test.go:43-68 | after pushing 1, 2 and 3, the pops yield 3, 2, 1 and then -1 |
| SearchTree.TreeNode.constructor | tree/tree.go:26-29 | a new node holds the value and the parent and has no children |
| SearchTree.TreeNode.InsertNode | tree/tree.go:14-34 | a fresh leaf is hung where the search-tree descent falls off, and the node links are kept consistent |
| SearchTree.TreeNode.FindValue | tree/tree.go:36-50 | `found` holds exactly when the target is in the subtree; the value is then the target, and 0 otherwise |
| SearchTree.BinarySearchTree.constructor | tree/tree.go:52-54 | the zero tree is empty |
| SearchTree.BinarySearchTree.FindTreeNode | tree/tree.go:56-63 | `found` holds exactly when the target is stored in the tree, the value is then the target and 0 otherwise, and the tree is left intact for further calls |
| SearchTree.BinarySearchTree.InsertTreeNode | tree/tree.go:65-75 | the tree becomes its previous shape with a fresh leaf for the value; it stays linked and ordered |
| SearchTree.SingleNode | tree/tree_test.go:56-72 | a tree holding only 42 finds 42 and does not find 100 |
| SearchTree.RemoveLeftLeaf | tree/tree_test.go:74-95 | a reduced, two-node version of the test (which inserts 10, 5, 15, 3, 7 and removes leaf 3): after inserting 10 and then 5, removing the root's left child loses 5 and keeps 10 |
| SearchTree.BinarySearchTree.RemoveTreeNode | tree/tree.go:77-143 | nil or an empty tree changes nothing; otherwise the node leaves the tree, which stays linked and ordered |
| SearchTree.BinarySearchTree.RemoveLeaf | tree/tree.go:83-93 | dropping a leaf removes exactly that node and keeps the tree valid |
| SearchTree.BinarySearchTree.RemoveWithChild | tree/tree.go:96-113 | the only child takes the node's place and the tree stays valid |
| SearchTree.BinarySearchTree.RemoveWithSuccessor | tree/tree.go:116-142 | the in-order successor is unlinked and takes the node's place; the tree stays valid |
| SearchTree.BinarySearchTree.Successor | tree/tree.go:117-121 | the loop reaches the leftmost node of the right subtree, which has no left child |
| SearchTree.InsertKeepsShape | tree/tree.go:14-34 | insertion adds exactly the new node and keeps the root of a non-empty tree |
| SearchTree.InsertAddsValue | tree/tree.go:14-34 | insertion adds exactly one copy of the value to the multiset of values |
| SearchTree.InsertKeepsOrder | tree/tree.go:14-34 | insertion keeps the search-tree order |
| SearchTree.LeftmostFacts | tree/tree.go:117-121 | the leftmost node holds the smallest value of an ordered subtree |
| SearchTree.RemoveKeepsShape | tree/tree.go:77-143 | removal takes exactly the removed node out of the tree's nodes |
| SearchTree.RemoveTakesValue | tree/tree.go:77-143 | removal takes exactly one copy of the removed node's value out of the multiset |
| SearchTree.RemoveKeepsOrder | tree/tree.go:77-143 | removal, including successor replacement, keeps the search-tree order |
| SearchTree.ContainsIsElem | tree/tree.go:36-50 | the descent's membership test agrees with membership in the multiset of values |
| PrefixTrie.LetterToIndex | trie/trie.go:12-14 | the byte arithmetic wraps into 0..255; it is below 26 exactly for lower-case letters, and then maps back to the letter |
| PrefixTrie.LetterIndexRoundTrip | trie/trie.go:12-14 | letter to index and index to letter are inverse on the 26 letters |
| PrefixTrie.LetterToIndexInjective | trie/trie.go:12-14 | distinct letters go to distinct slots |
| PrefixTrie.TrieNode.constructor | trie/trie.go:3-6 | a new node stores no word and has no child array |
| PrefixTrie.TrieNode.EnsureChildren | trie/trie.go:17-20 | the child array is allocated when missing, and the stored words are unchanged |
| PrefixTrie.TrieNode.AddChild | trie/trie.go:28-29 | a fresh empty child fills one empty slot and nothing else changes |
| PrefixTrie.TrieNode.Insert | trie/trie.go:16-35 | the stored words become the old ones plus the suffix from `index` |
| PrefixTrie.TrieNode.Delete | trie/trie.go:38-65 | the stored words lose exactly the suffix from `index`; the slot on the word's path is either cleared or keeps its child, which is then not bare, and every other slot is unchanged; the result says whether the node is now bare |
| PrefixTrie.TrieNode.Bare | trie/trie.go:54-64 | a bare node stores no word |
| PrefixTrie.TrieNode.IsBare | trie/trie.go:54-64 | the scan answers true exactly when the node is no entry and all slots are nil |
| PrefixTrie.Trie.constructor | trie/trie.go:8-10 | the zero trie stores no word |
| PrefixTrie.Trie.Insert | trie/trie.go:67-69 | the stored words become the old ones plus `value`, and the root now has a child array |
| PrefixTrie.Trie.Delete | trie/trie.go:71-73 | where the walk cannot fault, the stored words lose exactly `value`; the root and its child array are kept, so later calls stay safe |
| PrefixTrie.Trie.BareRootCannotDelete | trie/trie.go:38-52 | on a trie that never had a word inserted, deleting any non-empty word faults |
| PrefixTrie.Trie.CanDeleteLower | trie/trie.go:38-73 | outside that case, deleting any lower-case word cannot fault |
| PrefixTrie.Trie.DeleteGuarded | trie/trie.go:71-73 | deleting any lower-case word removes exactly it, including from an empty trie; the root and its child array are kept |
| PrefixTrie.InsertThenDeleteAll | trie/trie.go:67-73 | deletes can run one after another: storing "ab" and "a", deleting both and then deleting "c" leaves a trie that stores nothing |
| PrefixTrie.GrownCanDelete | trie/trie.go:38-52 | below a node that Insert built, every lower-case walk finds a child array where it needs one |

## Left out

- Floating point: `float32` and `float64` are modelled as exact reals. Rounding, NaN and infinities are not modelled.
- GridIndex.Grid.CalculateWidth: requires non-zero bin counts. With a zero count the Go code divides by zero and gets an infinite width without panicking, which is not modelled.
- GridIndex.Grid.Insert and GridIndex.Grid.Delete: both require non-zero bin widths (`HasWidths`). Called before `CalculateWidth`, the Go code divides by a zero width and gets an infinity or NaN bin, which is not modelled.
- GridIndex.Grid.MinDistToBind: the result is the squared distance, because `math.Sqrt` needs no model for a lower bound. The `math.Inf(-1)` sentinel is `None`.
- GridIndex.Grid.GetBins: the conversion of a floor that is out of `int` range is not modelled; the floor is an unbounded integer.
- Go panics are preconditions:
  - `Resize` doubling an `int8` capacity above 63;
  - `NewStackWith` with a negative size, where `make` gets a negative length;
  - `Push` on `NewStackWith(0)`;
  - `NewHeap` with a negative size, for the same reason (the size is a `nat`);
  - `Insert` on `NewHeap(0)`;
  - a trie letter outside `a`..`z`;
  - a trie walk that would index a nil child array.
- Memory is not modelled: there is no garbage collection, and nodes that leave a structure stay allocated.
- PrefixTrie.Trie.Delete: `Repr` is kept unchanged, so pruned nodes stay in the footprint.
- PrefixTrie.Trie: Go holds the root node as a value inside the `Trie` struct; here it is a separate object that the `Trie` owns.
- PrefixTrie: the library has no trie lookup function. The ghost predicate `Has` is the reading of "stored word" that `Insert` and `Delete` are proved against.
- MaxHeap: the test-only helpers `Update` and `GetPriority` in heap/heap_test.go are not part of this model.
- MaxHeap: the slots of `[]*T` are the values they point to (`Slot`), so different pointers to equal values are not told apart.
- ListStack.LinkedListStack: the unused `next` field of the Go struct is not modelled.
- SearchTree.TreeNode: `value` is a constant, because Go never reassigns it.
- SearchTree: the Go tree is generic over `constraints.Ordered`; it is modelled for `int` only, so the "not found" result of `FindValue` and `FindTreeNode` is 0, the zero value of `int`.
- SearchTree.BinarySearchTree.RemoveTreeNode: requires the node to belong to the tree. A foreign node in Go corrupts the tree instead of failing.
- SearchTree.BinarySearchTree.RemoveTreeNode: its contract gives the new shape as `RemoveShape`. The node set, values and order it implies are stated by the `Remove*` lemmas rather than in the method's own contract.
- Helper methods split out of one Go function, each with its own contract:
  - MaxHeap `Append`, `SiftUp` and `SiftDown`;
  - SearchTree `RemoveLeaf`, `RemoveWithChild`, `RemoveWithSuccessor`, `Successor`, `DetachLeaf`, `Splice`, `Relink` and `Transplant`;
  - PrefixTrie `EnsureChildren`, `AddChild` and `IsBare`.

## Findings

| source | as written | input that shows it | evidently intended | confidence | as-written member | corrected member |
|---|---|---|---|---|---|---|
| trie/trie.go:38-52 | `Delete` indexes `children` without checking that the node ever allocated an array | `Trie{}.Delete("a")` on a trie that never had a word inserted indexes a nil slice | deleting from an empty trie is a no-op | not executed | PrefixTrie.Trie.BareRootCannotDelete | PrefixTrie.Trie.DeleteGuarded |
