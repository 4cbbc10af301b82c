# Array-backed binary heaps: a verified model

This project models two C++ programs. `max_heap.cpp` holds a max-heap and
`min_heap.cpp` a min-heap of `int`. Each heap keeps its elements in a
fixed-capacity buffer whose first `heapSize` cells form a binary heap: node
`i` has its parent at `(i - 1) / 2` and its children at `2i + 1` and `2i + 2`.
Each class offers a constructor for an empty heap with a capacity (100 by
default), a constructor that copies an array and builds the heap bottom-up,
`insert` (append, then sift up), `deleteMax` / `deleteMin` (the last live
element moves to the root, then sifts down), a peek, `isEmpty` and `size`.
Each file's `main` also runs an in-place heap sort on a local array. The sort
builds the heap over the whole array, then repeatedly moves the root just
past the shrinking heap window.

Apart from the unused `heapifyUp` in `max_heap.cpp` and the printed labels,
the two files differ only in the comparison. The model therefore writes
everything once, parameterised by `Order` (`MaxFirst` or `MinFirst`):

- `heap_spec.dfy` (module `HeapSpec`) holds the pure part. It defines the
  index arithmetic and the heap property, and gives a functional model for
  every in-place algorithm: `SiftDownF`, `SiftUpF`, `BuildF`, `DeleteRootF`
  and `HeapSortF`. Its lemmas prove what these models achieve.
- `heap_array.dfy` (module `HeapArray`) holds the in-place algorithms on an
  `array<int>`. Each method is proved to leave the array equal to its
  functional model.
- `max_heap.dfy` (module `MaxHeaps`) holds the class `MaxHeap` with the
  fields `heap`, `capacity` and `heapSize`, plus the facts about the file's
  heap sort and its demo data.
- `min_heap.dfy` (module `MinHeaps`) is the same for `MinHeap`.

The code is followed where it departs from what its own text says:

- Sort direction. With a max-heap the sort leaves the array non-decreasing.
  With a min-heap it leaves the array non-increasing. The programs print the
  opposite labels: "descending" at max_heap.cpp:307, "ascending" at
  min_heap.cpp:297, and the comment "correct position from start" at
  min_heap.cpp:267. The model proves the order the code produces.
  `SortsAreMirrored` shows the two results are reverses of each other.
- Errors are not signalled. On an empty heap, delete and peek return the
  sentinel `-1` and change nothing. `insert` on a full heap changes nothing.
  The postconditions state exactly that.
- Index arithmetic. `Parent(i)` is used only for `i > 0`, where C++
  truncating division and Dafny's Euclidean division agree, so it requires
  `i > 0`.
- Equal keys. A child replaces its parent only when it strictly outranks it.
  On equal keys the earlier choice stays, as in the code (`Pick`).

## Model

| member | source | states |
|---|---|---|
| HeapSpec.Better | max_heap.cpp:42-44 | the strict comparison the code moves a key up by (`>` in the max-heap, `<` in the min-heap): it never holds for equal keys, so equal keys are never swapped; every model below swaps only when it holds |
| HeapSpec.Parent | max_heap.cpp:16 | for i > 0, the parent index is below i and i is its left or right child |
| HeapSpec.Left | max_heap.cpp:19 | the left child 2i + 1 lies after i and has i as its parent |
| HeapSpec.Right | max_heap.cpp:22 | the right child lies after i, has i as its parent, and is the left child plus one |
| HeapSpec.Swap | max_heap.cpp:49 | exchanges two cells, leaves every other cell alone, and keeps the multiset |
| HeapSpec.SwapInWindow | max_heap.cpp:138 | a swap inside the live window keeps the window's multiset and leaves the cells past the window alone |
| HeapSpec.RootDominates | max_heap.cpp:149-155 | in a heap, the root dominates every live cell (by induction along parent links) |
| HeapSpec.RootIsExtreme | max_heap.cpp:149-155 | the root of a non-empty heap is a live element and dominates every live element: the maximum for the max-heap, the minimum for the min-heap |
| HeapSpec.Pick | max_heap.cpp:37-45 | the chosen index is the node or one of its children inside the window; a change means a strictly better child; the choice dominates both live children |
| HeapSpec.SiftDownF | max_heap.cpp:36-52 | heapifyDown from node i within n live cells: swap with the child `Pick` chooses and continue there, stop when no child strictly outranks the node; the length is kept, and `SiftDownFrame`, `SiftDownAgree`, `SiftDownHeap` and `HeapifyDownMakesSubtreeHeap` prove what it achieves |
| HeapSpec.SiftDownFrame | max_heap.cpp:36-52 | sift-down permutes the window, leaves the cells past the window alone, and changes no cell outside the subtree of its start node |
| HeapSpec.SiftDownAgree | max_heap.cpp:42-45 | sift-down reads only the window: two buffers that agree on it still agree on it afterwards |
| HeapSpec.SiftDownStep | max_heap.cpp:126-140 | one swap moves the out-of-place node one level down and keeps the sift-down invariant |
| HeapSpec.SiftDownHeap | max_heap.cpp:119-141 | from the sift-down invariant, sifting down yields a window whose edges from lo on are all ordered |
| HeapSpec.SiftDownMakesSubheap | max_heap.cpp:76-78 | if every edge below node i is ordered, sifting i down orders every edge from i on (the bottom-up build step) |
| HeapSpec.SubtreeSiftStep | min_heap.cpp:32-40 | one swap of sift-down inside a subtree keeps the subtree invariant |
| HeapSpec.SubtreeSiftHeap | min_heap.cpp:26-42 | from the subtree invariant, sifting down orders every edge of that subtree |
| HeapSpec.HeapifyDownMakesSubtreeHeap | min_heap.cpp:26-42 | when both child subtrees of i are heaps, heapifyDown(i) makes the subtree of i a heap |
| HeapSpec.SiftUpF | max_heap.cpp:98-101 | the insert loop from node i: while the node strictly outranks its parent, swap them and continue at the parent; the length is kept, and `SiftUpFrame`, `SiftUpHeap` and `InsertCorrect` prove what it achieves |
| HeapSpec.SiftUpFrame | max_heap.cpp:98-101 | sift-up permutes the window and leaves the cells past it alone |
| HeapSpec.SiftUpStep | max_heap.cpp:28-31 | one swap with a strictly worse parent moves the out-of-place node up and keeps the sift-up invariant |
| HeapSpec.SiftUpHeap | max_heap.cpp:26-32 | from the sift-up invariant, sifting up yields a heap (this is also the loop of the unused heapifyUp) |
| HeapSpec.InsertCorrect | min_heap.cpp:78-95 | writing key after a heap of n and sifting it up gives a heap of n + 1 holding the old elements plus key; later cells are untouched |
| HeapSpec.DeleteRootF | max_heap.cpp:115-141 | delete-root on n > 0 live cells: cell n - 1 moves to the root and, when n - 1 > 0, sifts down within n - 1 cells; the length is kept, and `DeleteRootHeap`, `DeleteRootPermutes` and `DeleteRootCorrect` prove what it achieves |
| HeapSpec.MoveLastToRoot | min_heap.cpp:105-107 | moving the last live cell onto the root leaves n - 1 cells holding the old elements minus one copy of the root |
| HeapSpec.DeleteRootHeap | max_heap.cpp:115-141 | moving the last cell to the root and sifting down restores the heap on n - 1 cells |
| HeapSpec.DeleteRootPermutes | max_heap.cpp:115-141 | the remaining window holds the old elements minus one copy of the old root; cells from n - 1 on are unchanged |
| HeapSpec.DeleteRootCorrect | min_heap.cpp:99-135 | delete-root leaves a heap of the old elements minus the root, and that root was a live element dominating all of them |
| HeapSpec.BuildF | max_heap.cpp:76-78 | the bottom-up build: sift down nodes j - 1, j - 2, ..., 0 of the window in that order, started at j = n / 2; the length is kept, and `BuildCorrect`, `BuildWindowCorrect`, `BuildHeapCorrect` and `BuildRootIsExtreme` prove what it achieves |
| HeapSpec.BuildCorrect | max_heap.cpp:247-265 | when every edge from j on is ordered, the build loop from j makes a heap, permutes the window and leaves later cells alone |
| HeapSpec.BuildAgree | max_heap.cpp:64-79 | the bulk build reads only its window: buffers that agree on it still agree after the build |
| HeapSpec.BuildWindowCorrect | min_heap.cpp:54-69 | building a window of n cells gives a heap of the same elements, and the result depends only on the window |
| HeapSpec.BuildHeapCorrect | min_heap.cpp:237-255 | the sort's build phase over the whole array gives a heap that permutes the array |
| HeapSpec.BuildRootIsExtreme | max_heap.cpp:194-196 | after a bulk build the root is an input element and dominates every input element |
| HeapSpec.Round | max_heap.cpp:278-304 | one extraction round over the window [0, e): save the root, move cell e - 1 to the root, sift down within e - 1 cells, write the saved root to cell e - 1; the length is kept, and `RoundIsDeleteRoot`, `RoundShape`, `RoundPermutes` and `RoundKeepsInv` prove what it achieves |
| HeapSpec.ExtractF | max_heap.cpp:274-305 | the extraction phase: e rounds over a window that shrinks by one each time; the length is kept, and `ExtractCorrect` proves it ends sorted and a permutation |
| HeapSpec.HeapSortF | max_heap.cpp:246-305 | the whole sort: the build over the whole array from size / 2, then size rounds; the length is kept, and `HeapSortCorrect`, `HeapSortIsTheSortedPermutation` and `SortsAreMirrored` prove what it achieves |
| HeapSpec.RoundIsDeleteRoot | max_heap.cpp:276-305 | one round of the sort's extraction is delete-root followed by writing the old root into the cell the window gave up |
| HeapSpec.RoundShape | min_heap.cpp:266-295 | a round leaves a heap of e - 1 cells without the old root, then the old root, then the untouched tail |
| HeapSpec.RoundPermutes | max_heap.cpp:276-305 | a round permutes the whole array |
| HeapSpec.RoundTailDominates | max_heap.cpp:303-304 | after a round, every cell from the new window end on dominates every cell in the window |
| HeapSpec.RoundTailSorted | max_heap.cpp:303-304 | after a round, the tail starting at the new window end is sorted |
| HeapSpec.RoundKeepsInv | max_heap.cpp:276-305 | a round keeps the extraction invariant (heap window, sorted tail, tail dominates window) with a window one smaller |
| HeapSpec.ExtractCorrect | max_heap.cpp:274-305 | started from the extraction invariant, the extraction phase ends sorted and permutes its input |
| HeapSpec.HeapSortCorrect | max_heap.cpp:246-305 | the in-place heap sort leaves every element dominating the ones before it, and permutes its input |
| HeapSpec.SortedUnique | min_heap.cpp:264-295 | two sequences sorted the same way with the same elements are equal |
| HeapSpec.HeapSortIsTheSortedPermutation | min_heap.cpp:237-295 | the sort's result is the one sorted permutation of its input |
| HeapSpec.SortsAreMirrored | min_heap.cpp:237-295 | the min-heap sort's result is the reverse of the max-heap sort's result on the same input |
| HeapArray.HeapifyDown | max_heap.cpp:36-52 | the recursive heapifyDown leaves the buffer equal to the sift-down model |
| HeapArray.BuildHeap | max_heap.cpp:74-78 | the constructor's build loop (heapifyDown from n/2 - 1 down to 0) leaves the buffer equal to the build model |
| HeapArray.SiftDown | max_heap.cpp:120-141 | the inline sift-down loop leaves the buffer equal to the sift-down model |
| HeapArray.RemoveRoot | max_heap.cpp:115-141 | saving the root, moving the last cell to the root and sifting down within n - 1 cells gives the delete-root model and returns the old root |
| HeapArray.SiftUp | max_heap.cpp:94-101 | the sift-up loop of insert leaves the buffer equal to the sift-up model |
| HeapArray.Heapify | max_heap.cpp:246-265 | the sort's build phase leaves the array equal to the build model over the whole array |
| HeapArray.ExtractAll | max_heap.cpp:274-305 | the sort's extraction phase leaves the array equal to the extraction model |
| HeapArray.HeapSort | min_heap.cpp:236-295 | the in-place sort leaves the array equal to the sort model, sorted in the heap's direction and a permutation of the input |
| MaxHeaps.MaxHeap.constructor | max_heap.cpp:56-60 | a valid empty heap whose capacity is cap (default 100) |
| MaxHeaps.MaxHeap.FromArray | max_heap.cpp:64-79 | capacity max(cap, n); heapSize n; a valid max-heap holding exactly arr[0..n), laid out as the build model of arr[0..n) |
| MaxHeaps.MaxHeap.Insert | max_heap.cpp:88-105 | a full heap is left as it was; otherwise the size grows by one, key joins the contents, and the heap stays valid |
| MaxHeaps.MaxHeap.DeleteMax | max_heap.cpp:109-145 | on an empty heap returns -1 and changes nothing; otherwise returns the old root, which is a live element at least as large as every live element, and the contents lose exactly one copy of it |
| MaxHeaps.MaxHeap.GetMax | max_heap.cpp:149-155 | -1 on an empty heap; otherwise the root, a live element at least as large as every live element |
| MaxHeaps.MaxHeap.IsEmpty | max_heap.cpp:166 | true exactly when the contents are empty |
| MaxHeaps.MaxHeap.Size | max_heap.cpp:169 | the number of live elements |
| MaxHeaps.SortIsNonDecreasing | max_heap.cpp:274-310 | the max-heap sort leaves the array non-decreasing (not "descending" as printed) and permutes it |
| MaxHeaps.SortInPlace | max_heap.cpp:246-305 | the in-place sort ends non-decreasing, permutes the array, and equals the sort model |
| MaxHeaps.DemoArrayMaximum | max_heap.cpp:183 | an element of the demo array that is at least every element is 40 |
| MaxHeaps.BuildDemoRoot | max_heap.cpp:183-196 | building the demo array puts 40 at the root, the value getMax reports |
| MaxHeaps.SortDemo | max_heap.cpp:235-310 | the demo sort turns 64 34 25 12 22 11 90 into 11 12 22 25 34 64 90 |
| MinHeaps.MinHeap.constructor | min_heap.cpp:46-50 | a valid empty heap whose capacity is cap (default 100) |
| MinHeaps.MinHeap.FromArray | min_heap.cpp:54-69 | capacity max(cap, n); heapSize n; a valid min-heap holding exactly arr[0..n), laid out as the build model of arr[0..n) |
| MinHeaps.MinHeap.Insert | min_heap.cpp:78-95 | a full heap is left as it was; otherwise the size grows by one, key joins the contents, and the heap stays valid |
| MinHeaps.MinHeap.DeleteMin | min_heap.cpp:99-135 | on an empty heap returns -1 and changes nothing; otherwise returns the old root, which is a live element no larger than any live element, and the contents lose exactly one copy of it |
| MinHeaps.MinHeap.GetMin | min_heap.cpp:139-145 | -1 on an empty heap; otherwise the root, a live element no larger than any live element |
| MinHeaps.MinHeap.IsEmpty | min_heap.cpp:156 | true exactly when the contents are empty |
| MinHeaps.MinHeap.Size | min_heap.cpp:159 | the number of live elements |
| MinHeaps.SortIsNonIncreasing | min_heap.cpp:264-300 | the min-heap sort leaves the array non-increasing (not "ascending" as printed) and permutes it |
| MinHeaps.SortInPlace | min_heap.cpp:236-295 | the in-place sort ends non-increasing, permutes the array, and equals the sort model |
| MinHeaps.DemoArrayMinimum | min_heap.cpp:173 | an element of the demo array that is at most every element is 8 |
| MinHeaps.BuildDemoRoot | min_heap.cpp:173-186 | building the demo array puts 8 at the root, the value getMin reports |
| MinHeaps.SortDemo | min_heap.cpp:225-300 | the demo sort turns 64 34 25 12 22 11 90 into 90 64 34 25 22 12 11 |

The members of `HeapSpec` and `HeapArray` serve both heaps, so each also
models the matching lines of the other file. The table cites one file per
row; the counterparts are:

- `Better`: max_heap.cpp:28, 98, 128-130, 254-256 and 291-293; min_heap.cpp:32-34, 88, 118-120, 244-246 and 281-283.
- `SiftDownF`: max_heap.cpp:120-141, 249-264 and 286-301; min_heap.cpp:26-42, 110-131, 239-254 and 276-291.
- `SiftUpF`: max_heap.cpp:26-32; min_heap.cpp:88-91.
- `DeleteRootF`: min_heap.cpp:105-131.
- `BuildF`: max_heap.cpp:247-265; min_heap.cpp:66-68 and 237-255.
- `Round`: min_heap.cpp:268-294. `ExtractF`: min_heap.cpp:264-295. `HeapSortF`: min_heap.cpp:236-295.
- `Parent`, `Left`, `Right`: min_heap.cpp:16, 19, 22.
- `Swap`: min_heap.cpp:39. `SwapInWindow`: min_heap.cpp:128.
- `RootDominates`, `RootIsExtreme`: min_heap.cpp:139-145.
- `Pick`: min_heap.cpp:27-35. `SiftDownAgree`: min_heap.cpp:32-35.
- `SiftDownFrame`, `HeapArray.HeapifyDown`: min_heap.cpp:26-42.
- `SubtreeSiftStep`: max_heap.cpp:42-50. `SubtreeSiftHeap`, `HeapifyDownMakesSubtreeHeap`: max_heap.cpp:36-52.
- `SiftDownStep`: min_heap.cpp:116-130. `SiftDownHeap`: min_heap.cpp:109-131.
- `HeapArray.SiftDown`: min_heap.cpp:110-131, and the sort loops at max_heap.cpp:249-264, max_heap.cpp:286-301, min_heap.cpp:239-254 and min_heap.cpp:276-291.
- `SiftDownMakesSubheap`, `HeapArray.BuildHeap`: min_heap.cpp:64-68.
- `SiftUpFrame`, `SiftUpStep`, `SiftUpHeap`, `HeapArray.SiftUp`: min_heap.cpp:84-91 (`HeapArray.SiftUp` also covers max_heap.cpp:26-32).
- `InsertCorrect`: max_heap.cpp:88-105.
- `MoveLastToRoot`: max_heap.cpp:115-117.
- `DeleteRootHeap`, `DeleteRootPermutes`, `HeapArray.RemoveRoot`: min_heap.cpp:105-131. `DeleteRootCorrect`: max_heap.cpp:109-145.
- `BuildAgree`: min_heap.cpp:54-69. `BuildWindowCorrect`: max_heap.cpp:64-79.
- `BuildCorrect`: min_heap.cpp:237-255. `BuildHeapCorrect`: max_heap.cpp:247-265. `BuildRootIsExtreme`: min_heap.cpp:184-186.
- `HeapArray.Heapify`: min_heap.cpp:236-255.
- `RoundIsDeleteRoot`, `RoundPermutes`, `RoundKeepsInv`: min_heap.cpp:266-295. `RoundShape`: max_heap.cpp:276-305.
- `RoundTailDominates`, `RoundTailSorted`: min_heap.cpp:293-294.
- `ExtractCorrect`, `HeapArray.ExtractAll`: min_heap.cpp:264-295. `SortedUnique`: max_heap.cpp:274-305.
- `HeapSortCorrect`: min_heap.cpp:236-295. `HeapArray.HeapSort`, `HeapSortIsTheSortedPermutation`: max_heap.cpp:246-305.
- `SortsAreMirrored`: max_heap.cpp:246-305, relating it to the min-heap sort it cites.

## Left out

- Console output (`cout` messages, `display`) is not modelled. The messages on overflow and underflow are the only trace of those error paths; the model keeps their effect (nothing changes, `-1` is returned).
- Destructors and `delete[]` are not modelled: Dafny's memory is garbage-collected.
- `int` is modelled as unbounded: values, `heapSize` and `capacity` never wrap around at 32 bits.
- A negative capacity is not modelled (capacity is `nat`). In C++ it makes `new int[capacity]` fail.
- `MaxHeap::heapifyUp` (max_heap.cpp:26-32) is never called. It is the same loop as the one in `insert`, so `HeapArray.SiftUp` and `HeapSpec.SiftUpHeap` cover it rather than a separate member.
- `main` is not modelled as a program. Its demo data appear as facts about the functional models (`BuildDemoRoot`, `SortDemo`). The delete and insert sequences it prints are not replayed.
- The sort inside `main` is lifted into `SortInPlace`, a method over an array argument. The array is a local of `main` in C++.
- The deletion steps of `deleteMax` / `deleteMin` (save the root, move the last cell up, sift down) are not written out inside the class. The class method calls `HeapArray.RemoveRoot` for them and then shrinks `heapSize` itself.
- There is no separate lemma that repeated peeks return the same value. This follows from the peek methods' empty `modifies` clauses.
