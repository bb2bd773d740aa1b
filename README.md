# Verified model of a Python collection of data structures

This project models the core of a small Python repository of textbook data structures in Dafny and proves properties about that model:

- dynamic arrays: generic, and integer-only with reverse, sort and binary search;
- a stack backed by a list;
- an integer ring-buffer queue;
- binary and D-ary min-heaps: the list-backed `MinHeap` and `DAryMinHeap`, and the slot-array `MinDHeap`;
- two indexed min-heaps: `MinIndexedDHeap` and `MinIndexedBinaryHeap`;
- union-find with path compression and union by size;
- two Fenwick trees: point update with prefix query, and range query with point update;
- a binary search tree;
- a recursive AVL tree.

Each source file is one Dafny module, and the model keeps the source's form:

- Objects whose methods update fields in place become classes. Lists become `seq` fields, and fixed-size buffers become `array`s.
- Each method is proved against a specification on values. The specification is either a ghost abstraction (`Abs()`, `Elements()`, `elems`) or a functional definition of the same operation. Properties of those definitions are proved as lemmas.
- Trees that the source rebuilds recursively (`_add`, `_remove`, `_insert`, the rotations) become datatypes and functions. Their iterative traversals stay methods with loops.
- The usage examples at the end of each source file become lemmas or methods. Their contracts state the values that the examples' comments announce.

Shared definitions:

- `common.dfy` holds Option, Result and the Python error kinds, plus the Python floor-division parent index.
- `heap_core.dfy` holds the sequence-level heap operations, namely swim, the sink as the 10-min-D-ary-heap file writes it, and the corrected sink.
- `indexed_heap_core.dfy` holds the state shared by both indexed heaps: the D, size, position map, inverse map and value tables.
- `fenwick_core.dfy` holds the lowest-set-bit arithmetic and the covering ranges of a Fenwick tree.

Every class method models the code as written; the one exception is `UnionFind.UnionFind.SizeFixed`, the corrected `size`. Where the code does not keep its own invariant, the model also has a corrected definition with the intended property proved about it, usually named with a `Fixed` suffix (see "## Findings").

## Model

| member | source | states |
|---|---|---|
| DynamicArray.Grown | 00-dynamic_array/main.py:32-33 | the grown capacity is strictly larger: 1 from 0, otherwise twice the old capacity |
| DynamicArray.New | 00-dynamic_array/main.py:2-7 | a negative capacity raises ValueError; otherwise a fresh empty array with that many empty slots |
| DynamicArray.DynamicArray.constructor | 00-dynamic_array/main.py:2-7 | a fresh array of `capacity` None slots, no elements |
| DynamicArray.DynamicArray.Size | 00-dynamic_array/main.py:9-10 | the number of elements |
| DynamicArray.DynamicArray.IsEmpty | 00-dynamic_array/main.py:12-13 | true exactly when there are no elements |
| DynamicArray.DynamicArray.Get | 00-dynamic_array/main.py:15-18 | IndexError exactly when index is outside [0, len); otherwise the element at index |
| DynamicArray.DynamicArray.Set | 00-dynamic_array/main.py:20-23 | IndexError exactly outside [0, len), with the slots unchanged; otherwise only slot index changes, to elem |
| DynamicArray.DynamicArray.Clear | 00-dynamic_array/main.py:25-28 | the used slots become None, the unused slots and capacity stay, no elements remain |
| DynamicArray.DynamicArray.Add | 00-dynamic_array/main.py:30-40 | elem is appended; a full array is replaced by a fresh one of the grown capacity, otherwise the same array is kept |
| DynamicArray.DynamicArray.RemoveAt | 00-dynamic_array/main.py:42-53 | IndexError exactly outside [0, len), nothing changed; otherwise returns the element at rm_index, the rest keep their order, and the capacity shrinks to the new length |
| DynamicArray.DynamicArray.IndexOf | 00-dynamic_array/main.py:62-70 | the first index holding obj (None matches None), or -1 when obj is absent |
| DynamicArray.DynamicArray.Contains | 00-dynamic_array/main.py:72-73 | true exactly when obj is one of the elements |
| DynamicArray.DynamicArray.Remove | 00-dynamic_array/main.py:55-60 | true exactly when obj was present, and then its first occurrence is removed; otherwise nothing changes |
| DynamicArray.DynamicArrayExample | 00-dynamic_array/main.py:96-105 | after adding 1, 2, 3 and remove_at(1) the elements are [1, 3], 2 is not contained and the size is 2 |
| IntArray.Grown | 01-integer-only-dynamic-array/main.py:38-39 | the grown capacity is strictly larger: 1 from 0, otherwise twice the old capacity |
| IntArray.New | 01-integer-only-dynamic-array/main.py:4-9 | a negative capacity raises ValueError; otherwise a fresh empty array of that many zero slots |
| IntArray.IntArray.constructor | 01-integer-only-dynamic-array/main.py:4-9 | a fresh array of `capacity` zeros, none of them used |
| IntArray.FromArray | 01-integer-only-dynamic-array/main.py:12-19 | None raises ValueError; otherwise a full array (capacity = length) holding a copy of the list |
| IntArray.IntArray.Size | 01-integer-only-dynamic-array/main.py:21-22 | the number of elements |
| IntArray.IntArray.IsEmpty | 01-integer-only-dynamic-array/main.py:24-25 | true exactly when there are no elements |
| IntArray.IntArray.Get | 01-integer-only-dynamic-array/main.py:27-30 | IndexError exactly when index is outside [0, len); otherwise the element at index |
| IntArray.IntArray.Set | 01-integer-only-dynamic-array/main.py:32-35 | IndexError exactly outside [0, len), slots unchanged; otherwise only slot index changes, to elem |
| IntArray.IntArray.Add | 01-integer-only-dynamic-array/main.py:37-45 | elem is appended; a full array is replaced by a fresh one of the grown capacity, otherwise the same array is kept |
| IntArray.IntArray.RemoveAt | 01-integer-only-dynamic-array/main.py:47-53 | IndexError exactly outside [0, len), nothing changed; otherwise the element at rm_index is gone, the rest keep their order, the freed slot is 0 and the array and capacity stay |
| IntArray.IntArray.Remove | 01-integer-only-dynamic-array/main.py:55-60 | true exactly when elem was present, and then its first occurrence is removed; otherwise nothing changes |
| IntArray.IntArray.Reverse | 01-integer-only-dynamic-array/main.py:62-66 | the elements end in the opposite order; the spare slots are untouched |
| IntArray.IntArray.BinarySearch | 01-integer-only-dynamic-array/main.py:68-79 | a result other than -1 is an index holding key; on sorted elements -1 means key is absent |
| IntArray.IntArray.Sort | 01-integer-only-dynamic-array/main.py:81-82 | the elements become their sorted arrangement (sorted and a permutation); the spare slots are untouched |
| IntArray.AddExample | 01-integer-only-dynamic-array/main.py:104-108 | adding 3, 7, 6, -2 gives exactly those elements in that order |
| IntArray.SameElements | 01-integer-only-dynamic-array/main.py:110 | [-2, 3, 6, 7] is a sorted arrangement of [3, 7, 6, -2] |
| IntArray.ReadBack | 01-integer-only-dynamic-array/main.py:112-113 | reading get(i) for every i < size() yields the elements in order |
| IntArray.IntArrayExample | 01-integer-only-dynamic-array/main.py:103-115 | the example prints -2, 3, 6, 7 |
| Common.Reversed | 01-integer-only-dynamic-array/main.py:62-66 | the reversed sequence has the same length and position k holds element len-1-k |
| Common.ReversedTwice | 01-integer-only-dynamic-array/main.py:62-66 | reversing twice gives back the original elements |
| Common.FirstIndex | 00-dynamic_array/main.py:62-70 | -1 exactly when the element is absent; otherwise an index holding it with no earlier occurrence |
| Common.FirstIndexAt | 00-dynamic_array/main.py:62-70 | an index holding the element with no earlier occurrence is the first index |
| Common.InsertSorted | 01-integer-only-dynamic-array/main.py:81-82 | inserting into a sorted sequence keeps it sorted and adds exactly that element |
| Common.SortedCopy | 01-integer-only-dynamic-array/main.py:81-82 | the result is sorted and a permutation of the input |
| Common.SortedUnique | 01-integer-only-dynamic-array/main.py:81-82 | two sorted arrangements of the same elements are equal |
| Common.SortedCopyUnique | 01-integer-only-dynamic-array/main.py:81-82 | any sorted permutation of the input is what sorting gives |
| Stack.Stack.constructor | 04-stack/main.py:2-5 | the stack is empty, or holds first_elem alone when one is given |
| Stack.Stack.Size | 04-stack/main.py:8-9 | the number of elements |
| Stack.Stack.IsEmpty | 04-stack/main.py:12-13 | true exactly when the stack holds nothing |
| Stack.Stack.Push | 04-stack/main.py:16-17 | elem becomes the new top, the rest unchanged |
| Stack.Stack.Pop | 04-stack/main.py:21-24 | IndexError exactly on an empty stack, which stays; otherwise the last pushed element is returned and removed |
| Stack.Stack.Peek | 04-stack/main.py:28-31 | IndexError exactly on an empty stack; otherwise the top element, the stack unchanged |
| Stack.Stack.Iter | 04-stack/main.py:34-36 | the cursor starts above the top; the contents stay |
| Stack.Stack.Next | 04-stack/main.py:38-43 | AttributeError when __iter__ never set the cursor; StopIteration when the cursor is at the bottom; otherwise the cursor moves down one and the element there is returned, or IndexError when a pop since __iter__ left the cursor past the top |
| Stack.IteratorMisuse | 04-stack/main.py:34-43 | __next__ before __iter__ raises AttributeError; __iter__, pop, __next__ raises IndexError |
| Stack.Stack.Items | 04-stack/main.py:34-43 | iterating yields the elements from top to bottom (the reversed list) and leaves the stack unchanged |
| Stack.StackExample | 04-stack/main.py:47-58 | push 1, 2, 3: pop gives 3, peek 2, size 2, iteration 2 then 1 |
| IntQueue.Slot | 07-integer-only-queue/main.py:29-32 | the slot k places after front always lies inside the ring |
| IntQueue.NextSlot | 07-integer-only-queue/main.py:32 | advancing with `(i + 1) % len` wraps to 0 exactly at the last slot |
| IntQueue.RingSize | 07-integer-only-queue/main.py:14-17 | the size is below the ring length and is the distance from front to end around the ring |
| IntQueue.IntQueue.constructor | 07-integer-only-queue/main.py:2-7 | a fresh ring of max_size + 1 slots with nothing queued |
| IntQueue.IntQueue.IsEmpty | 07-integer-only-queue/main.py:10-11 | front == end exactly when nothing is queued |
| IntQueue.IntQueue.Size | 07-integer-only-queue/main.py:14-17 | the number of queued values, never more than max_size |
| IntQueue.IntQueue.Peek | 07-integer-only-queue/main.py:20-23 | IndexError exactly when empty; otherwise the oldest value |
| IntQueue.IntQueue.Enqueue | 07-integer-only-queue/main.py:26-32 | OverflowError exactly when max_size values are queued, nothing changed; otherwise value joins at the back |
| IntQueue.IntQueue.Dequeue | 07-integer-only-queue/main.py:35-40 | IndexError exactly when empty, nothing changed; otherwise the oldest value is returned and leaves |
| IntQueue.FillAndDrain | 07-integer-only-queue/main.py:45-56 | five values fill a queue of five, then 1, 2, 3, 4 leave in order and 5 remains |
| IntQueue.WrapAround | 07-integer-only-queue/main.py:60-67 | three more values wrap around the ring and leave after 5, in order |
| IntQueue.IntQueueExample | 07-integer-only-queue/main.py:44-69 | the example dequeues 1, 2, 3, 4, 5, 1, 2, 3; the queue is non-empty after four and empty at the end |
| Common.Parent | 10-min-D-ary-heap/main.py:11 | the parent slot `(s - 1) // d` of a slot s > 0 lies strictly before it |
| Common.ChildRange | 10-min-D-ary-heap/main.py:11-12 | slot s has parent i exactly when s lies among the d slots starting at `i * d + 1` |
| Common.ChildAfter | 10-min-D-ary-heap/main.py:12 | the first child `i * d + 1` of a slot lies strictly after it |
| HeapCore.RootIsMin | 10-D-ary-heap/minHeap.py:53-59 | in an ordered heap no element is smaller than the root |
| HeapCore.PeekIsMin | 10-D-ary-heap/minHeap.py:53-59 | peek gives None exactly on an empty heap; otherwise an element of the heap, the least one when the heap is ordered |
| HeapCore.Swap | 10-D-ary-heap/minHeap.py:12-13 | the two slots exchange their elements, every other slot stays, the elements are a permutation |
| HeapCore.SwapSymmetric | 10-D-ary-heap/minHeap.py:12-13 | exchanging i with j is exchanging j with i |
| HeapCore.Swim | 10-D-ary-heap/minHeap.py:19-26 | heapify_up keeps the length and the elements (a permutation) |
| HeapCore.SwimStep | 10-D-ary-heap/minHeap.py:19-26 | one round of heapify_up: a slot smaller than its parent is exchanged with it and the rise goes on from the parent |
| HeapCore.SwimStepReady | 10-D-ary-heap/minHeap.py:19-26 | after that exchange the heap is ordered everywhere except possibly at the parent's slot |
| HeapCore.SwimRestoresOrder | 10-D-ary-heap/minHeap.py:19-26 | heapify_up from the only slot that may be smaller than its parent leaves an ordered heap |
| HeapCore.InsertSpec | 10-D-ary-heap/minHeap.py:15-17 | insert adds exactly the value (one more element, multiset grows by it) and keeps an ordered heap ordered |
| HeapCore.ScanResult | 10-D-ary-heap/minHeap.py:45-48 | a left-to-right scan keeps the first slot strictly smaller than the best so far: the result is of least value in the range and strictly below every earlier slot |
| HeapCore.MinChildScanSpec | 10-min-D-ary-heap/main.py:67-76 | min_child is -1 exactly when slot i has no child; otherwise a child of i, after i, of least value among the children and strictly below every earlier child |
| HeapCore.MinChildFixedSpec | 10-D-ary-heap/minHeap.py:43-48 | heapify_down's choice is i itself only when no child is smaller than slot i; otherwise a child of i strictly smaller than slot i and of least value among the children |
| HeapCore.SinkToLeaf | 10-min-D-ary-heap/main.py:53-58 | sink as written keeps the length and the elements (a permutation) |
| HeapCore.SinkToLeafStep | 10-min-D-ary-heap/main.py:53-58 | one round of sink: slot i is exchanged with its least child, which lies after it, and sinking goes on from there |
| HeapCore.SinkToLeafEndsAtLeaf | 10-min-D-ary-heap/main.py:53-58 | sink as written always carries the element at slot i down to a slot without children, whatever its value |
| HeapCore.SinkFixed | 10-D-ary-heap/minHeap.py:42-51 | heapify_down keeps the length and the elements (a permutation) and never touches a slot before i |
| HeapCore.SinkFixedRestoresOrder | 10-D-ary-heap/minHeap.py:42-51 | heapify_down from the only slot that may be larger than its children leaves an ordered heap |
| HeapCore.LastToRoot | 10-min-D-ary-heap/main.py:37-40 | the root is replaced by the last element and the heap shrinks by one: exactly one copy of the old root is gone |
| HeapCore.LastToRootSinkReady | 10-D-ary-heap/minHeap.py:33-37 | on an ordered heap, moving the last element to the root leaves it ordered except at the root |
| HeapCore.ExtractMinSpec | 10-D-ary-heap/minHeap.py:28-40 | extract_min is None exactly on an empty heap; otherwise the root, the least element of an ordered heap, one copy of it removed, and an ordered heap stays ordered |
| HeapCore.PollToLeafSpec | 10-min-D-ary-heap/main.py:34-42 | poll is None exactly on an empty heap; otherwise the root, the least element of an ordered heap, with exactly one copy of it removed (order is not kept) |
| DAryHeap.GetParentIndex | 10-D-ary-heap/minHeap.py:6-7 | `(index - 1) // d` is -1 for the root and the parent slot for every other |
| DAryHeap.GetChildIndex | 10-D-ary-heap/minHeap.py:9-10 | for d >= 1 and child_index in [0, d), `d * parent_index + child_index + 1` is a slot after the root whose parent is parent_index |
| DAryHeap.ChildParentInverse | 10-D-ary-heap/minHeap.py:6-10 | get_child_index and get_parent_index are inverse: a slot has parent p exactly when it is one of the d children of p, and every slot is the ((s - 1) % d)-th child of its parent |
| DAryHeap.DAryMinHeap.constructor | 10-D-ary-heap/minHeap.py:2-4 | an empty heap with d children per node |
| DAryHeap.DAryMinHeap.Swap | 10-D-ary-heap/minHeap.py:12-13 | the list becomes the two slots exchanged |
| DAryHeap.DAryMinHeap.Insert | 10-D-ary-heap/minHeap.py:15-17 | the list becomes Insert of the value, so it gains exactly the value and stays ordered |
| DAryHeap.DAryMinHeap.HeapifyUp | 10-D-ary-heap/minHeap.py:19-26 | the list becomes Swim from index |
| DAryHeap.DAryMinHeap.ExtractMin | 10-D-ary-heap/minHeap.py:28-40 | result and list are ExtractMin's: None on an empty heap, otherwise the least element, removed, order kept |
| DAryHeap.DAryMinHeap.HeapifyDown | 10-D-ary-heap/minHeap.py:42-51 | the list becomes SinkFixed from index |
| DAryHeap.DAryMinHeap.Peek | 10-D-ary-heap/minHeap.py:53-59 | the root, None on an empty heap |
| DAryHeap.DAryMinHeap.GetSize | 10-D-ary-heap/minHeap.py:61-62 | the number of elements |
| DAryHeap.DAryMinHeap.IsEmpty | 10-D-ary-heap/minHeap.py:64-65 | true exactly when there are no elements |
| BinaryHeap.GetParentIndex | 08-binary-heap/minHeap.py:5-6 | `(index - 1) // 2` is -1 for the root and the parent slot for every other |
| BinaryHeap.GetLeftChildIndex | 08-binary-heap/minHeap.py:8-9 | `2 * index + 1` is an odd slot after index whose parent is index |
| BinaryHeap.GetRightChildIndex | 08-binary-heap/minHeap.py:11-12 | `2 * index + 2` is the even slot right after the left child, and its parent is index too |
| BinaryHeap.ChildrenOfParent | 08-binary-heap/minHeap.py:5-12 | both children of a slot have it as parent, and every slot but the root is a child of its parent |
| BinaryHeap.MinHeap.constructor | 08-binary-heap/minHeap.py:2-3 | an empty heap |
| BinaryHeap.MinHeap.HasParent | 08-binary-heap/minHeap.py:14-15 | a slot has a parent exactly when it is not the root |
| BinaryHeap.MinHeap.HasLeftChild | 08-binary-heap/minHeap.py:17-18 | a slot has a left child exactly when some slot of the heap has it as parent |
| BinaryHeap.MinHeap.HasRightChild | 08-binary-heap/minHeap.py:20-21 | a slot has a right child exactly when a second slot of the heap, besides the left child, has it as parent; so it then has a left child too |
| BinaryHeap.MinHeap.Swap | 08-binary-heap/minHeap.py:32-33 | the list becomes the two slots exchanged |
| BinaryHeap.MinHeap.Insert | 08-binary-heap/minHeap.py:35-37 | the list becomes Insert of the value with d = 2 |
| BinaryHeap.MinHeap.HeapifyUp | 08-binary-heap/minHeap.py:39-43 | the list becomes Swim from the last slot |
| BinaryHeap.MinHeap.ExtractMin | 08-binary-heap/minHeap.py:45-58 | result and list are ExtractMin's with d = 2: None on an empty heap, otherwise the least element, removed |
| BinaryHeap.MinHeap.HeapifyDown | 08-binary-heap/minHeap.py:60-71 | the list becomes SinkFixed from index with d = 2 |
| BinaryHeap.MinHeap.Peek | 08-binary-heap/minHeap.py:73-79 | the root, None on an empty heap |
| BinaryHeap.MinHeap.Size | 08-binary-heap/minHeap.py:81-82 | the number of elements |
| BinaryHeap.MinHeap.IsEmpty | 08-binary-heap/minHeap.py:84-85 | true exactly when there are no elements |
| DHeap.BuildTables | 10-min-D-ary-heap/main.py:10-12 | parent[i] is -1 at the root and the parent slot elsewhere; child[i] is `i * d + 1` |
| DHeap.MinDHeap.constructor | 10-min-D-ary-heap/main.py:2-12 | d = max(2, degree), n = max(d, max_nodes), an empty heap of n None slots |
| DHeap.MinDHeap.Size | 10-min-D-ary-heap/main.py:15-16 | the number of elements |
| DHeap.MinDHeap.IsEmpty | 10-min-D-ary-heap/main.py:19-20 | true exactly when there are no elements |
| DHeap.MinDHeap.Clear | 10-min-D-ary-heap/main.py:23-25 | a fresh row of None and no elements |
| DHeap.MinDHeap.Peek | 10-min-D-ary-heap/main.py:28-31 | the root, None on an empty heap |
| DHeap.MinDHeap.Poll | 10-min-D-ary-heap/main.py:34-42 | result and elements are PollToLeaf's: None on an empty heap, otherwise the root, removed |
| DHeap.MinDHeap.LastToRoot | 10-min-D-ary-heap/main.py:37-40 | the size drops by one, the last element takes the root's slot and its old slot becomes None |
| DHeap.MinDHeap.Add | 10-min-D-ary-heap/main.py:45-50 | None raises ValueError and a full heap IndexError, nothing changed; otherwise the elements become Insert of elem |
| DHeap.MinDHeap.Sink | 10-min-D-ary-heap/main.py:53-58 | the elements become SinkToLeaf from i; the slots past the elements stay |
| DHeap.MinDHeap.Swim | 10-min-D-ary-heap/main.py:61-64 | the elements become Swim from i; the slots past i stay |
| DHeap.MinDHeap.MinChild | 10-min-D-ary-heap/main.py:67-76 | the result is MinChildScan of the elements |
| DHeap.MinDHeap.Less | 10-min-D-ary-heap/main.py:79-80 | true exactly when element i is smaller than element j (compare_to is the difference of values) |
| DHeap.MinDHeap.Swap | 10-min-D-ary-heap/main.py:83-84 | the elements become the two slots exchanged; the slots past them stay |
| HeapExamples.TernaryPoll | 10-min-D-ary-heap/main.py:108 | poll on [1, 5, 8, 3, 7] returns 1 and leaves [3, 5, 8, 7] |
| HeapExamples.MinDHeapExample | 10-min-D-ary-heap/main.py:99-109 | after adding 5, 3, 8, 1, 7 peek and poll give 1, then peek gives 3 |
| HeapExamples.DAryExtract | 10-D-ary-heap/minHeap.py:84 | extract_min on [1, 10, 20, 5, 15] returns 1 and leaves [5, 10, 20, 15] |
| HeapExamples.DAryExample | 10-D-ary-heap/minHeap.py:72-90 | after inserting 10, 5, 20, 1, 15 peek and extract_min give 1, four elements remain, not empty |
| HeapExamples.BinaryExample | 08-binary-heap/minHeap.py:88-109 | after inserting 10, 5, 14, 9, 2 peek gives 2, extract_min gives 2, 5, 9, 10, 14, the size in between is 2 and the heap ends empty |
| HeapExamples.PollBreaksOrder | 10-min-D-ary-heap/main.py:53-58 | adding 0, 1, 2, 5, 6, 3 to MinDHeap(2, n) builds an ordered heap; poll as written leaves [1, 5, 2, 3, 6], which is not ordered; heapify_down's rule leaves the ordered [1, 3, 2, 5, 6] |
| IndexedBinaryHeapSpec.Init | 11-min-indexed-binary-heap/main.py:2-9 | a fresh heap is well formed, ordered and empty, with room for max(0, max_size) indices |
| IndexedBinaryHeapSpec.PeekIsMin | 11-min-indexed-binary-heap/main.py:34-37 | peek is None exactly on an empty heap; otherwise a present index, whose key is the least one in an ordered heap |
| IndexedBinaryHeapSpec.GetKey | 11-min-indexed-binary-heap/main.py:39-42 | IndexError exactly outside [0, max_size); otherwise the index's key when it is present and None when it is not |
| IndexedBinaryHeapSpec.AddSpec | 11-min-indexed-binary-heap/main.py:11-21 | IndexError exactly outside [0, max_size), ValueError exactly for an index already present, nothing changed; otherwise size grows by 1, the index is added with its key, the maps stay inverse and an ordered heap stays ordered |
| IndexedBinaryHeapSpec.ForgetKeepsMaps | 11-min-indexed-binary-heap/main.py:31-32 | clearing the position and key of the index just past the occupied slots removes exactly that index and keeps every slot's key |
| IndexedBinaryHeapSpec.ForgetKeepsOrder | 11-min-indexed-binary-heap/main.py:31-32 | clearing that index keeps an ordered heap ordered |
| IndexedBinaryHeapSpec.RemoveSpec | 11-min-indexed-binary-heap/main.py:23-32 | ValueError exactly for an index out of range or absent, nothing changed; otherwise size drops by 1, exactly that index is removed and the maps stay inverse (order is not promised) |
| IndexedBinaryHeapSpec.RemoveFixedSpec | 11-min-indexed-binary-heap/main.py:23-32 | remove followed by the missing swim: the same errors and contents, and an ordered heap stays ordered |
| IndexedBinaryHeap.MinIndexedBinaryHeap.constructor | 11-min-indexed-binary-heap/main.py:2-9 | the arrays hold the state Init describes |
| IndexedBinaryHeap.MinIndexedBinaryHeap.Add | 11-min-indexed-binary-heap/main.py:11-21 | result and new arrays are Add's, and the arrays stay consistent |
| IndexedBinaryHeap.MinIndexedBinaryHeap.Remove | 11-min-indexed-binary-heap/main.py:23-32 | result and new arrays are Remove's, and the arrays stay consistent |
| IndexedBinaryHeap.MinIndexedBinaryHeap.Peek | 11-min-indexed-binary-heap/main.py:34-37 | the result is Peek of the state |
| IndexedBinaryHeap.MinIndexedBinaryHeap.GetKey | 11-min-indexed-binary-heap/main.py:39-42 | the result is GetKey of the state |
| IndexedBinaryHeap.MinIndexedBinaryHeap.Detach | 11-min-indexed-binary-heap/main.py:27-29 | the arrays become Detach's state and the returned slot is the index's old position |
| IndexedBinaryHeap.MinIndexedBinaryHeap.Forget | 11-min-indexed-binary-heap/main.py:31-32 | the arrays become Forget's state |
| IndexedBinaryHeap.MinIndexedBinaryHeap.Swim | 11-min-indexed-binary-heap/main.py:44-48 | the arrays become Swim's state |
| IndexedBinaryHeap.MinIndexedBinaryHeap.Sink | 11-min-indexed-binary-heap/main.py:50-59 | the arrays become SinkFixed's state |
| IndexedBinaryHeap.MinIndexedBinaryHeap.Smallest | 11-min-indexed-binary-heap/main.py:52-55 | the slot chosen is MinChildFixed's: i unless a child is strictly smaller, else the first least child |
| IndexedBinaryHeap.MinIndexedBinaryHeap.Less | 11-min-indexed-binary-heap/main.py:61-62 | true exactly when slot i's key is smaller than slot j's |
| IndexedBinaryHeap.MinIndexedBinaryHeap.Swap | 11-min-indexed-binary-heap/main.py:64-67 | the arrays become Swap's state |
| IndexedBinaryHeapExamples.ExampleAdds | 11-min-indexed-binary-heap/main.py:71-77 | MinIndexedBinaryHeap(10) followed by the five adds of the example reaches the heap E5 |
| IndexedBinaryHeapExamples.ExamplePeeks | 11-min-indexed-binary-heap/main.py:79-83 | from E5 peek gives index 3 with key 1; after remove(3) peek gives index 1 with key 3 |
| IndexedBinaryHeapExamples.BinaryExample | 11-min-indexed-binary-heap/main.py:70-83 | the example's whole run, with the values its comments announce |
| IndexedBinaryHeapExamples.ExampleRemove | 11-min-indexed-binary-heap/main.py:23-32 | remove(3) on E5 leaves E6 |
| IndexedBinaryHeapExamples.S6Remove | 11-min-indexed-binary-heap/main.py:23-32 | from the heap of keys 0, 10, 1, 11, 12, 2, remove(3) moves key 2 into slot 3 and sink leaves it there |
| IndexedBinaryHeapExamples.RemoveBreaksOrder | 11-min-indexed-binary-heap/main.py:23-32 | remove(3) on that ordered heap removes index 3 but leaves an unordered heap; the corrected remove leaves it ordered |
| IndexedHeapCore.MapsFilled | 12-indexed-D-heap/main.py:120-126 | where pm and im are inverse on the first n slots, every one of those slots holds a key with a priority, so less() on them is defined |
| IndexedHeapCore.Swap | 12-indexed-D-heap/main.py:120-123 | slots i and j exchange keys, pm is re-pointed for those two keys only, every other slot, position and priority stays |
| IndexedHeapCore.SwapKeepsFilled | 12-indexed-D-heap/main.py:120-123 | exchanging two filled slots leaves the slots filled |
| IndexedHeapCore.SwapKeepsMaps | 12-indexed-D-heap/main.py:120-123 | swap keeps pm and im inverse and the key-to-priority contents; the two slots exchange their priorities and every other slot keeps its own |
| IndexedHeapCore.Swim | 12-indexed-D-heap/main.py:98-101 | swim changes neither size, priorities nor any slot after i |
| IndexedHeapCore.SwimStep | 12-indexed-D-heap/main.py:98-101 | one round of swim: a slot smaller than its parent is exchanged with it and the rise continues from the parent |
| IndexedHeapCore.SwimKeepsMaps | 12-indexed-D-heap/main.py:98-101 | swim keeps pm and im inverse and the contents unchanged |
| IndexedHeapCore.SwimRestoresOrder | 12-indexed-D-heap/main.py:98-101 | swim from the only slot that may be smaller than its parent leaves an ordered heap |
| IndexedHeapCore.SwimOrderedIsNoop | 12-indexed-D-heap/main.py:98-101 | on an ordered heap swim changes nothing |
| IndexedHeapCore.ScanResult | 12-indexed-D-heap/main.py:111-118 | the scan keeps the first slot strictly smaller than the best so far: of least priority in the range and strictly below every earlier slot |
| IndexedHeapCore.MinChildScanSpec | 12-indexed-D-heap/main.py:111-118 | min_child is -1 exactly when slot i has no occupied child; otherwise an occupied child of i, of least priority among them, strictly below every earlier child; slot i is never compared |
| IndexedHeapCore.MinChildFixedSpec | 11-min-indexed-binary-heap/main.py:50-59 | the corrected choice is i only when no child is smaller than slot i; otherwise a child strictly smaller than slot i and least among the children |
| IndexedHeapCore.SinkToLeaf | 12-indexed-D-heap/main.py:103-109 | sink as written changes neither size, priorities nor the free slots |
| IndexedHeapCore.SinkToLeafKeepsMaps | 12-indexed-D-heap/main.py:103-109 | sink as written keeps pm and im inverse and the contents unchanged |
| IndexedHeapCore.SinkToLeafEndsAtLeaf | 12-indexed-D-heap/main.py:103-109 | sink as written always carries the key of slot i down to a slot without occupied children, whatever its priority |
| IndexedHeapCore.SinkFixed | 11-min-indexed-binary-heap/main.py:50-59 | the corrected sink changes neither size, priorities nor the free slots |
| IndexedHeapCore.SinkFixedKeepsMaps | 11-min-indexed-binary-heap/main.py:50-59 | the corrected sink keeps the maps inverse and the contents unchanged |
| IndexedHeapCore.SinkFixedRestoresOrder | 11-min-indexed-binary-heap/main.py:50-59 | sinking the only slot that may be larger than its children leaves an ordered heap |
| IndexedHeapCore.SinkFixedStaysPut | 11-min-indexed-binary-heap/main.py:56-57 | a slot no larger than its children does not move |
| IndexedHeapCore.OrderedButFrom | 12-indexed-D-heap/main.py:77-96 | giving one slot of an ordered heap a new priority leaves it ordered everywhere else |
| IndexedHeapCore.SwimReadyBelow | 12-indexed-D-heap/main.py:86-90 | a slot whose priority did not grow is the only place swim has to repair |
| IndexedHeapCore.SinkReadyAbove | 12-indexed-D-heap/main.py:92-96 | a slot whose priority did not shrink is the only place sink has to repair |
| IndexedHeapCore.SinkThenSwimRestoresOrder | 12-indexed-D-heap/main.py:82-83 | with the corrected sink, sinking and then swimming a re-prioritised slot leaves an ordered heap |
| IndexedHeapCore.SinkReadyNotRising | 12-indexed-D-heap/main.py:82-83 | a re-prioritised slot no smaller than its parent is ready to sink |
| IndexedHeapCore.RootIsMin | 12-indexed-D-heap/main.py:32-34 | in an ordered heap no occupied slot is smaller than the root |
| IndexedHeapCore.RootHoldsMinKey | 12-indexed-D-heap/main.py:32-43 | in an ordered non-empty heap the key at the root is present and carries the least priority |
| IndexedHeapCore.AbsentKeyLeavesRoom | 12-indexed-D-heap/main.py:50-58 | an absent key in range means a free slot exists, so insert never writes past the arrays |
| IndexedHeapCore.OccupiedCard | 12-indexed-D-heap/main.py:22-23 | the first m occupied slots hold m distinct keys |
| IndexedHeapCore.ContentsSize | 12-indexed-D-heap/main.py:22-23 | the number of present keys equals sz |
| IndexedHeapCore.Place | 12-indexed-D-heap/main.py:54-57 | placing a key at slot sz gives a well-shaped state |
| IndexedHeapCore.PlaceKeepsMaps | 12-indexed-D-heap/main.py:54-57 | placing an absent key at slot sz keeps the maps inverse and adds exactly that key with its priority |
| IndexedHeapCore.PlaceSwimReady | 12-indexed-D-heap/main.py:54-58 | in an ordered heap the key just placed is the only one that may be smaller than its parent |
| IndexedHeapCore.Detach | 12-indexed-D-heap/main.py:66-68 | ki's slot is exchanged with the last occupied one and sz drops by one, leaving ki just past the occupied slots |
| IndexedHeapCore.DetachSpec | 12-indexed-D-heap/main.py:66-68 | after that exchange the maps are inverse on the old slots and the contents are unchanged |
| IndexedHeapCore.DetachVals | 12-indexed-D-heap/main.py:66-68 | ki's old slot now holds the last slot's priority; every other slot keeps its own |
| IndexedHeapCore.DetachLastSinkIsNoop | 12-indexed-D-heap/main.py:66-69 | when ki sits in the last slot the exchange is with itself and the sink does nothing |
| IndexedHeapCore.DetachRestored | 12-indexed-D-heap/main.py:66-70 | the corrected removal (exchange, corrected sink, swim) shrinks the heap by one |
| IndexedHeapCore.DetachRestoredMaps | 12-indexed-D-heap/main.py:66-70 | after the corrected removal steps the maps are inverse on the old slots and ki sits just past the occupied ones |
| IndexedHeapCore.DetachRestoredOrder | 12-indexed-D-heap/main.py:66-70 | the corrected removal steps keep an ordered heap ordered |
| IndexedDHeapSpec.InitSpec | 12-indexed-D-heap/main.py:2-20 | max_size <= 0 raises ValueError; otherwise D = max(2, degree), N = max(D + 1, max_size), an empty well-formed ordered heap |
| IndexedDHeapSpec.Contains | 12-indexed-D-heap/main.py:28-30 | IndexError exactly when ki is outside [0, N); otherwise whether ki is present |
| IndexedDHeapSpec.CheckKeyAndValue | 12-indexed-D-heap/main.py:140-142 | succeeds exactly for a present key with a non-None value; IndexError exactly for a key outside [0, N) |
| IndexedDHeapSpec.ValueOf | 12-indexed-D-heap/main.py:60-62 | a present key's priority; ValueError for an absent key in range, IndexError outside it |
| IndexedDHeapSpec.PeekIsMin | 12-indexed-D-heap/main.py:32-43 | both peeks raise exactly on an empty heap; otherwise a present key and its priority, the least one in an ordered heap |
| IndexedDHeapSpec.InsertSpec | 12-indexed-D-heap/main.py:50-58 | IndexError exactly for ki outside [0, N), ValueError exactly for a present key or None value, nothing changed; otherwise sz grows by 1, ki is added with its priority, the maps stay inverse and order is kept |
| IndexedDHeapSpec.Vacate | 12-indexed-D-heap/main.py:71-74 | the bookkeeping at the end of delete keeps the state well shaped |
| IndexedDHeapSpec.OrderedKeyNeverRises | 12-indexed-D-heap/main.py:64-75 | in an ordered heap the case in which delete goes wrong cannot occur |
| IndexedDHeapSpec.PollNeverRises | 12-indexed-D-heap/main.py:36-48 | the key a poll deletes sits at the root, so the case in which delete goes wrong cannot occur, ordered or not |
| IndexedDHeapSpec.DeleteSteps | 12-indexed-D-heap/main.py:66-70 | delete's exchange, sink and swim keep the maps inverse on the old slots and the contents, with sz one less |
| IndexedDHeapSpec.DeletePresent | 12-indexed-D-heap/main.py:64-75 | delete of a present key returns its priority and its state is the exchange, sink and swim followed by the bookkeeping |
| IndexedDHeapSpec.DeleteSpec | 12-indexed-D-heap/main.py:64-75 | IndexError outside [0, N), ValueError for an absent key, nothing changed; otherwise ki's priority is returned, sz drops by 1, values[ki] = None, pm[ki] = -1, im[sz] = -1, and (unless the last key rises) the heap stays well formed and holds exactly the other keys |
| IndexedDHeapSpec.LastSlotStays | 12-indexed-D-heap/main.py:66-70 | a key in the last slot that is not smaller than its parent stays where delete put it |
| IndexedDHeapSpec.DeleteKeepsMaps | 12-indexed-D-heap/main.py:64-75 | unless the last key rises, delete's steps leave ki just past the occupied slots |
| IndexedDHeapSpec.VacateKeepsMaps | 12-indexed-D-heap/main.py:71-74 | vacating the slot past the occupied ones, holding ki, leaves the maps inverse, removes exactly ki and keeps every other slot's priority |
| IndexedDHeapSpec.VacateKeepsOrder | 12-indexed-D-heap/main.py:71-74 | vacating keeps an ordered heap ordered |
| IndexedDHeapSpec.DeleteLeavesKeyBehind | 12-indexed-D-heap/main.py:64-75 | as written, when ki is in the last slot and smaller than its parent, delete leaves the deleted key in an occupied slot and the maps stop agreeing |
| IndexedDHeapSpec.Reprioritize | 12-indexed-D-heap/main.py:81 | replacing a priority keeps the state well shaped |
| IndexedDHeapSpec.ReprioritizeKeepsMaps | 12-indexed-D-heap/main.py:81 | a new priority for a present key keeps the heap well formed and changes exactly that key's priority |
| IndexedDHeapSpec.ReprioritizeSpec | 12-indexed-D-heap/main.py:81 | a new priority for a present key changes the priority of its slot only |
| IndexedDHeapSpec.UpdateSpec | 12-indexed-D-heap/main.py:77-84 | raises exactly as key_exists_and_value_not_null_or_throw does, nothing changed; otherwise returns the old priority, sz stays, ki gets the new priority, the maps stay inverse (order is not promised) |
| IndexedDHeapSpec.ResettleKeepsMaps | 12-indexed-D-heap/main.py:82-83 | sinking a slot to a leaf and swimming it keeps the heap well formed and its contents |
| IndexedDHeapSpec.SlotLess | 12-indexed-D-heap/main.py:125-126 | on two occupied slots less() compares their priorities (other arguments follow Python's indexing and errors) |
| IndexedDHeapSpec.DecreaseSpec | 12-indexed-D-heap/main.py:86-90 | errors change nothing; otherwise the guard is less(value, values[ki]) on slots: false changes nothing, true gives ki the new priority and a lower one keeps an ordered heap ordered |
| IndexedDHeapSpec.LowerThenSwim | 12-indexed-D-heap/main.py:89-90 | a new priority followed by swim keeps the heap well formed, sets ki's priority and, when it did not grow, keeps order |
| IndexedDHeapSpec.IncreaseSpec | 12-indexed-D-heap/main.py:92-96 | errors change nothing; otherwise the guard is less(values[ki], value) on slots: false changes nothing, true gives ki the new priority and keeps the maps inverse |
| IndexedDHeapSpec.PollSpec | 12-indexed-D-heap/main.py:36-48 | on every well-formed heap both polls raise ValueError exactly when empty; otherwise they remove exactly the root's key and return it (or its priority), and the heap stays well formed; on an ordered heap that key has least priority |
| IndexedDHeapSpec.DeleteFixedPresent | 12-indexed-D-heap/main.py:64-75 | the corrected delete of a present key returns its priority and vacates it after the corrected removal steps |
| IndexedDHeapSpec.DeleteFixedSpec | 12-indexed-D-heap/main.py:64-75 | the corrected delete raises as delete does; otherwise it returns ki's priority, removes exactly ki, and keeps the heap well formed and ordered |
| IndexedDHeapSpec.UpdateFixedSpec | 12-indexed-D-heap/main.py:77-84 | update with the corrected sink: errors as written; otherwise the old priority is returned, ki gets the new one and order is kept |
| IndexedDHeapSpec.ReplaceThenSettle | 12-indexed-D-heap/main.py:81-83 | a new priority followed by the corrected sink and swim keeps the heap well formed, sets ki's priority and keeps order |
| IndexedDHeapSpec.SettleKeepsMaps | 12-indexed-D-heap/main.py:81-83 | the corrected sink and swim keep the maps inverse and set ki's priority |
| IndexedDHeapSpec.SettleKeepsOrder | 12-indexed-D-heap/main.py:81-83 | the corrected sink and swim after a new priority keep order |
| IndexedDHeapSpec.DecreaseFixedSpec | 12-indexed-D-heap/main.py:86-90 | decrease comparing priorities: errors as written; nothing changes unless the new priority is strictly smaller, and order is kept |
| IndexedDHeapSpec.IncreaseFixedSpec | 12-indexed-D-heap/main.py:92-96 | increase comparing priorities with the corrected sink: nothing changes unless the new priority is strictly larger, and order is kept |
| IndexedDHeap.BuildTables | 12-indexed-D-heap/main.py:16-20 | child[i] = i * D + 1; parent[0] is None and parent[i] = (i - 1) // D elsewhere |
| IndexedDHeap.Create | 12-indexed-D-heap/main.py:2-20 | max_size <= 0 raises ValueError; otherwise a fresh heap whose state is Init's |
| IndexedDHeap.MinIndexedDHeap.constructor | 12-indexed-D-heap/main.py:2-20 | the arrays hold the state Init describes: D, N, sz = 0, every map entry -1 and every priority None |
| IndexedDHeap.MinIndexedDHeap.Size | 12-indexed-D-heap/main.py:22-23 | the number of present keys |
| IndexedDHeap.MinIndexedDHeap.IsEmpty | 12-indexed-D-heap/main.py:25-26 | true exactly when no key is present |
| IndexedDHeap.MinIndexedDHeap.Contains | 12-indexed-D-heap/main.py:28-30 | the result of Contains on the state |
| IndexedDHeap.MinIndexedDHeap.PeekMinKeyIndex | 12-indexed-D-heap/main.py:32-34 | ValueError on an empty heap, otherwise the key at the root |
| IndexedDHeap.MinIndexedDHeap.PeekMinValue | 12-indexed-D-heap/main.py:41-43 | ValueError on an empty heap, otherwise the root key's priority |
| IndexedDHeap.MinIndexedDHeap.ValueOf | 12-indexed-D-heap/main.py:60-62 | the result of ValueOf on the state |
| IndexedDHeap.MinIndexedDHeap.CheckKeyAndValue | 12-indexed-D-heap/main.py:140-142 | the result of CheckKeyAndValue on the state |
| IndexedDHeap.MinIndexedDHeap.Insert | 12-indexed-D-heap/main.py:50-58 | result and new arrays are Insert's, and the arrays stay consistent |
| IndexedDHeap.MinIndexedDHeap.Delete | 12-indexed-D-heap/main.py:64-75 | result and new arrays are Delete's; the arrays stay consistent except in the case DeleteLeavesKeyBehind exhibits |
| IndexedDHeap.MinIndexedDHeap.Update | 12-indexed-D-heap/main.py:77-84 | result and new arrays are Update's |
| IndexedDHeap.MinIndexedDHeap.Decrease | 12-indexed-D-heap/main.py:86-90 | result and new arrays are Decrease's |
| IndexedDHeap.MinIndexedDHeap.Increase | 12-indexed-D-heap/main.py:92-96 | result and new arrays are Increase's |
| IndexedDHeap.MinIndexedDHeap.PollMinKeyIndex | 12-indexed-D-heap/main.py:36-39 | result and new arrays are PollMinKeyIndex's; the arrays stay consistent |
| IndexedDHeap.MinIndexedDHeap.PollMinValue | 12-indexed-D-heap/main.py:45-48 | result and new arrays are PollMinValue's; the arrays stay consistent |
| IndexedDHeap.MinIndexedDHeap.Detach | 12-indexed-D-heap/main.py:66-68 | the arrays become Detach's state and the returned slot is ki's old position |
| IndexedDHeap.MinIndexedDHeap.Vacate | 12-indexed-D-heap/main.py:71-74 | the arrays become Vacate's state |
| IndexedDHeap.MinIndexedDHeap.SinkThenSwim | 12-indexed-D-heap/main.py:69-70 | the arrays become the state after sink then swim at slot i |
| IndexedDHeap.MinIndexedDHeap.Swim | 12-indexed-D-heap/main.py:98-101 | the arrays become Swim's state |
| IndexedDHeap.MinIndexedDHeap.SwimExchange | 12-indexed-D-heap/main.py:99-101 | one round: the exchange with the smaller parent leaves a state whose swim from the parent is the swim from slot cur |
| IndexedDHeap.MinIndexedDHeap.Sink | 12-indexed-D-heap/main.py:103-109 | the arrays become SinkToLeaf's state |
| IndexedDHeap.MinIndexedDHeap.MinChild | 12-indexed-D-heap/main.py:111-118 | the result is MinChildScan of the state |
| IndexedDHeap.MinIndexedDHeap.Swap | 12-indexed-D-heap/main.py:120-123 | the arrays become Swap's state |
| IndexedDHeap.MinIndexedDHeap.Less | 12-indexed-D-heap/main.py:125-126 | the result is SlotLess of the state |
| IndexedDHeapExamples.TernaryInserts | 12-indexed-D-heap/main.py:166-171 | MinIndexedDHeap(3, 10) followed by the five inserts of the example reaches the heap T5 |
| IndexedDHeapExamples.TernaryPeeks | 12-indexed-D-heap/main.py:173-181 | from T5 both peeks give key 3 with priority 1, and delete(3) returns 1 and leaves T6 |
| IndexedDHeapExamples.TernaryExample | 12-indexed-D-heap/main.py:165-181 | the example's run: the minimum is key 3 with priority 1, delete(3) returns 1, and the heap is then ordered and holds keys 0, 1, 2 and 4 |
| IndexedDHeapExamples.TernaryDelete | 12-indexed-D-heap/main.py:64-75 | delete(3) on T5 returns 1 and leaves T6 |
| IndexedDHeapExamples.BinaryInserts | 12-indexed-D-heap/main.py:50-58 | MinIndexedDHeap(2, 2) with insert(0, 0) and insert(1, 1) gives an ordered heap B2 |
| IndexedDHeapExamples.BinaryUpdate | 12-indexed-D-heap/main.py:77-84 | update(0, 0) on B2 returns 0 and leaves B3, with key 1 at the root |
| IndexedDHeapExamples.BinaryDelete | 12-indexed-D-heap/main.py:64-75 | delete(0) on B3 returns 0 and leaves B4 |
| IndexedDHeapExamples.UpdateBreaksOrder | 12-indexed-D-heap/main.py:77-84 | after insert(0, 0), insert(1, 1), update(0, 0) the heap is no longer ordered and peek_min_key_index gives key 1, although key 0 has the smaller priority |
| IndexedDHeapExamples.DeleteRevivesKey | 12-indexed-D-heap/main.py:64-75 | continuing with delete(0): the deleted key 0 is back at the root while pm says it is absent, so peek_min_key_index returns a deleted key |
| IndexedDHeapExamples.DecreaseComparesSlots | 12-indexed-D-heap/main.py:86-90 | after insert(0, 5), decrease(0, 1) raises TypeError because less() reads two empty slots; the corrected decrease gives key 0 priority 1 |
| IndexedDHeapExamples.K1SlotLess | 12-indexed-D-heap/main.py:125-126 | less(1, 5) on that heap reads values[-1] = None and raises TypeError |
| UnionFind.RankBelowRoot | 13-union-find/main.py:11-15 | following parent links only climbs: every element ranks at most its root, strictly below when it is not a root itself, so the root search ends |
| UnionFind.Compress | 13-union-find/main.py:17-21 | pointing a non-root element straight at its root keeps the partition, the representatives and the set of roots |
| UnionFind.Merge | 13-union-find/main.py:46-51 | after linking, exactly the members of l change representative, to w |
| UnionFind.LinkForest | 13-union-find/main.py:46-51 | linking root l under root w keeps a forest (with w's rank raised), and l stops being a root |
| UnionFind.Link | 13-union-find/main.py:46-54 | linking l under w, adding l's size to w's and counting one component less keeps the whole invariant |
| UnionFind.MergeMembers | 13-union-find/main.py:46-51 | w's new members are the disjoint union of both old member sets, so its size is their sum; l has none; other roots keep theirs |
| UnionFind.AllRoots | 13-union-find/main.py:7-9 | n elements that are each their own parent form n components |
| UnionFind.New | 13-union-find/main.py:2-9 | size <= 0 raises ValueError; otherwise a fresh structure of that many singletons |
| UnionFind.UnionFind.constructor | 13-union-find/main.py:2-9 | every element is its own root with component size 1, and there are size components |
| UnionFind.PathFacts | 13-union-find/main.py:13-15 | the elements on the parent path from i, up to but not including its root, lie in i's component, are not roots and rank at least as high as i |
| UnionFind.UnionFind.Find | 13-union-find/main.py:11-23 | returns p's representative, a root; path compression points every element on p's old path at that root and leaves every other parent link as it was; the set of roots does not change |
| UnionFind.UnionFind.Connected | 13-union-find/main.py:25-26 | true exactly when p and q have the same representative; the partition is unchanged |
| UnionFind.UnionFind.ComponentSize | 13-union-find/main.py:28-29 | the number of elements in p's component |
| UnionFind.RootsBound | 13-union-find/main.py:7-9 | there are never more roots than elements |
| UnionFind.UnionFind.Size | 13-union-find/main.py:31-32 | `self.size = size` in __init__ hides the method, so calling size() raises TypeError |
| UnionFind.UnionFind.SizeFixed | 13-union-find/main.py:31-32 | size() as intended: the number of elements, which is at least the number of components |
| UnionFind.UnionFind.Components | 13-union-find/main.py:34-35 | the number of components equals the number of roots |
| UnionFind.UnionFind.Unify | 13-union-find/main.py:37-54 | afterwards p and q are connected; already connected: the partition, sizes and count stay; otherwise the smaller component's root (q's on a tie) goes under the other root, whose size becomes the sum, and there is one component less |
| UnionFind.UnionFind.LinkRoots | 13-union-find/main.py:46-54 | root l goes under root w: l's members join w, w's size grows by l's, the other sizes stay, one component less |
| UnionFindExamples.JoinOneTwoThree | 13-union-find/main.py:59-62 | after unify(1, 2) and unify(2, 3) on ten singletons, 1 and 3 share root 1 of size 3, 8 components remain, and 4 and 5 are still alone |
| UnionFindExamples.UnionFindExample | 13-union-find/main.py:58-69 | the example prints True, 3, 8, True, 2 |
| FenwickCore.LowBit | 19-fenwick-tree/main.py:14 | `i & -i` for i >= 1 lies between 1 and i |
| FenwickCore.OddPart | 19-fenwick-tree/main.py:14 | what is left of i >= 1 once every factor 2 is divided out is odd |
| FenwickCore.LowBitSpec | 19-fenwick-tree/main.py:14 | `i & -i` is a power of two and i is it times an odd number, so it is the lowest set bit of i |
| FenwickCore.Lo | 19-fenwick-tree/main.py:25 | clearing the lowest set bit moves strictly down |
| FenwickCore.Next | 19-fenwick-tree/main.py:14 | adding the lowest set bit moves strictly up, so the update loop ends |
| FenwickCore.SumSplit | 19-fenwick-tree/main.py:16-26 | sums over adjacent ranges add up |
| FenwickCore.SumUpdate | 19-fenwick-tree/main.py:6-14 | adding d at one position adds d to exactly the range sums that hold it |
| FenwickCore.LowBitDouble | 19-fenwick-tree/main.py:14 | doubling a number doubles its lowest set bit |
| FenwickCore.EvenChain | 19-fenwick-tree/main.py:12-14 | the update path from an even slot visits only even slots |
| FenwickCore.ChainDouble | 19-fenwick-tree/main.py:12-14 | the update path from 2x is the update path from x, doubled |
| FenwickCore.CoversIffChain | 19-fenwick-tree/main.py:12-14 | update(p) visits slot j exactly when slot j's range (j - lsb(j), j] holds p, in both directions |
| FenwickCore.ChainExtend | 19-fenwick-tree/main.py:12-14 | the update path goes on from each of its slots to the next one |
| FenwickCore.ChainFrom | 19-fenwick-tree/main.py:12-14 | a later slot on an update path is on the path from any earlier one |
| FenwickCore.NextOnChain | 19-fenwick-tree/main.py:12-14 | no slot of the update path lies strictly between i and i + lsb(i) |
| FenwickCore.UpdateRepresents | 19-fenwick-tree/main.py:6-14 | adding delta to exactly the slots on p's path keeps the tree a representation of the point values, now with delta added at p |
| FenwickCore.QueryStep | 19-fenwick-tree/main.py:23-25 | the prefix sum up to i is slot i plus the prefix sum up to i - lsb(i) |
| FenwickTree.FenwickTree.constructor | 19-fenwick-tree/main.py:2-4 | size + 1 zero slots representing size zero point values |
| FenwickTree.FenwickTree.Update | 19-fenwick-tree/main.py:6-14 | delta is added to the point value at index (1-based), every other stays; an index past size changes nothing; the tree keeps representing the values |
| FenwickTree.FenwickTree.Query | 19-fenwick-tree/main.py:16-26 | the sum of the point values at positions 1 to index; 0 for index <= 0; IndexError exactly when index > size |
| FenwickTree.ZeroSum | 19-fenwick-tree/main.py:2-4 | a sum over zero point values is 0 |
| FenwickTree.ExampleSums | 19-fenwick-tree/main.py:49-51 | after the example's updates the prefix sums to 3, 7 and 10 are 7, 14 and 14 |
| FenwickTree.FenwickTreeExample | 19-fenwick-tree/main.py:36-51 | the example's three queries return 7, 14 and 14 |
| FenwickRange.FenwickTreeRangeQueryPointUpdate.constructor | 19-error-fenwick-tree-range-query-point-update/main.py:2-15 | from a size: N = size + 1 and every point value 0; from a list: N = len + 1 and the point values are the list, positions from 1 |
| FenwickRange.FenwickTreeRangeQueryPointUpdate.AddAll | 19-error-fenwick-tree-range-query-point-update/main.py:10-11 | adding each value at its 1-based position to an all-zero tree makes the point values the list |
| FenwickRange.FenwickTreeRangeQueryPointUpdate.PrefixSum | 19-error-fenwick-tree-range-query-point-update/main.py:20-25 | the sum of the point values at 1 to i, 0 for i <= 0; IndexError exactly when i >= N |
| FenwickRange.FenwickTreeRangeQueryPointUpdate.RangeSum | 19-error-fenwick-tree-range-query-point-update/main.py:27-30 | ValueError when right < left; IndexError when right >= N; otherwise the sum of the point values at left to right |
| FenwickRange.FenwickTreeRangeQueryPointUpdate.Get | 19-error-fenwick-tree-range-query-point-update/main.py:32-33 | the point value at i (0 for i <= 0); IndexError exactly when i >= N |
| FenwickRange.FenwickTreeRangeQueryPointUpdate.Add | 19-error-fenwick-tree-range-query-point-update/main.py:35-38 | v is added to the point value at i, every other stays; i >= N changes nothing |
| FenwickRange.FenwickTreeRangeQueryPointUpdate.Set | 19-error-fenwick-tree-range-query-point-update/main.py:40-42 | the point value at i becomes v and every other stays; IndexError exactly when i >= N, nothing changed |
| FenwickRange.ZeroRepresents | 19-error-fenwick-tree-range-query-point-update/main.py:8-15 | an all-zero tree represents all-zero point values |
| FenwickRange.ZeroSum | 19-error-fenwick-tree-range-query-point-update/main.py:8-15 | a sum over zero point values is 0 |
| FenwickRange.ExampleSums | 19-error-fenwick-tree-range-query-point-update/main.py:61-63 | after adding 5, 3, 7, 6 at 1 to 4 the range 1 to 3 sums to 15 |
| FenwickRange.ExampleTreeLow | 19-error-fenwick-tree-range-query-point-update/main.py:68-73 | after set(3, 10) slots 1 to 4 hold 5, 8, 10, 24 |
| FenwickRange.ExampleTreeHigh | 19-error-fenwick-tree-range-query-point-update/main.py:68-73 | after set(3, 10) slot 8 holds 24 (it covers positions 1 to 8) and slots 5 to 7, 9 and 10 hold 0 |
| FenwickRange.ExampleTree | 19-error-fenwick-tree-range-query-point-update/main.py:68-73 | the tree after set(3, 10) is [5, 8, 10, 24, 0, 0, 0, 24, 0, 0] |
| FenwickRange.FenwickRangeExample | 19-error-fenwick-tree-range-query-point-update/main.py:50-73 | range_sum(1, 3) is 15, get(3) is 7, and the final tree slots are [5, 8, 10, 24, 0, 0, 0, 24, 0, 0] |
| BinarySearchTree.InOrder | 14-binary-search-tree/main.py:116-130 | the in-order listing has one entry per node |
| BinarySearchTree.InOrderElems | 14-binary-search-tree/main.py:116-130 | a value is listed in order exactly when the tree holds it |
| BinarySearchTree.InOrderIncreasing | 14-binary-search-tree/main.py:116-130 | the in-order listing of a search tree is strictly increasing |
| BinarySearchTree.OrdersSameData | 14-binary-search-tree/main.py:103-147 | the pre-order and post-order listings hold the same values, with the same multiplicities, as the in-order one |
| BinarySearchTree.ContainsIn | 14-binary-search-tree/main.py:72-81 | on a search tree the descent answers true exactly when the value is in the tree |
| BinarySearchTree.Insert | 14-binary-search-tree/main.py:26-35 | adds the value as a new leaf: one more node, the set of values grows by it, a search tree stays one when the value is new, and the height grows by at most 1 |
| BinarySearchTree.Pow2 | 14-binary-search-tree/main.py:86-89 | a power of two is at least 1 |
| BinarySearchTree.HeightBounds | 14-binary-search-tree/main.py:86-89 | the height is at most the node count, and the node count is below 2 to the height |
| BinarySearchTree.PowMono | 14-binary-search-tree/main.py:86-89 | powers of two grow with the exponent |
| BinarySearchTree.LeftmostLeast | 14-binary-search-tree/main.py:64-67 | the leftmost value of a search tree is in it and no larger than any value in it |
| BinarySearchTree.FindMin | 14-binary-search-tree/main.py:64-67 | the loop ends at the leftmost node, which has no left child |
| BinarySearchTree.Delete | 14-binary-search-tree/main.py:44-62 | a search tree stays one, loses exactly the value (nothing if absent), and does not grow taller |
| BinarySearchTree.PreOrderStep | 14-binary-search-tree/main.py:107-112 | popping a node and pushing its right and then its left child keeps the listing still to produce |
| BinarySearchTree.PreOrderWeight | 14-binary-search-tree/main.py:107-112 | that step strictly shrinks the work left, so the loop ends |
| BinarySearchTree.InOrderDescend | 14-binary-search-tree/main.py:122-124 | pushing the current node and going left keeps the listing still to produce |
| BinarySearchTree.InOrderVisit | 14-binary-search-tree/main.py:125-128 | popping a node, listing it and going right keeps the listing still to produce |
| BinarySearchTree.PostOrderStep | 14-binary-search-tree/main.py:137-142 | the first loop of the post-order traversal keeps the reversed listing still to produce |
| BinarySearchTree.PostOrderWeight | 14-binary-search-tree/main.py:137-142 | that step strictly shrinks the work left |
| BinarySearchTree.PostOrderPop | 14-binary-search-tree/main.py:144-145 | popping the second stack lists its nodes in reverse |
| BinarySearchTree.RevPostReversed | 14-binary-search-tree/main.py:132-147 | the order in which nodes reach the second stack, reversed, is the post-order listing |
| BinarySearchTree.LevelOrderVisit | 14-binary-search-tree/main.py:153-158 | taking the front node and queueing its children keeps the values still to be listed, and shrinks the work left |
| BinarySearchTree.SizeIsElems | 14-binary-search-tree/main.py:15-16 | in a search tree the node count is the number of distinct values |
| BinarySearchTree.BinarySearchTree.constructor | 14-binary-search-tree/main.py:8-10 | a new tree is empty, with count 0 |
| BinarySearchTree.BinarySearchTree.Size | 14-binary-search-tree/main.py:15-16 | the number of distinct values in the tree |
| BinarySearchTree.BinarySearchTree.IsEmpty | 14-binary-search-tree/main.py:12-13 | true exactly when the tree holds no value |
| BinarySearchTree.BinarySearchTree.Contains | 14-binary-search-tree/main.py:69-70 | true exactly when the value is in the tree |
| BinarySearchTree.BinarySearchTree.Add | 14-binary-search-tree/main.py:18-24 | true exactly when the value was absent; then it is inserted and the count grows by 1, otherwise nothing changes; the tree stays a search tree |
| BinarySearchTree.BinarySearchTree.Remove | 14-binary-search-tree/main.py:37-42 | true exactly when the value was present; the value is gone afterwards, the count drops by 1 when it was present, and nothing changes otherwise |
| BinarySearchTree.BinarySearchTree.Height | 14-binary-search-tree/main.py:83-89 | the height of the tree, bounded by the count and by its base-2 logarithm |
| BinarySearchTree.BinarySearchTree.Traverse | 14-binary-search-tree/main.py:91-101 | PRE_ORDER, IN_ORDER and POST_ORDER give their listings; LEVEL_ORDER gives every value once with the root first; any other name gives an empty listing |
| BinarySearchTree.BinarySearchTree.PreOrderTraversal | 14-binary-search-tree/main.py:103-114 | the loop over the stack lists node, left subtree, right subtree |
| BinarySearchTree.BinarySearchTree.InOrderTraversal | 14-binary-search-tree/main.py:116-130 | the loop over the stack lists left subtree, node, right subtree |
| BinarySearchTree.BinarySearchTree.PostOrderTraversal | 14-binary-search-tree/main.py:132-147 | the two-stack loops list left subtree, right subtree, node |
| BinarySearchTree.BinarySearchTree.LevelOrderTraversal | 14-binary-search-tree/main.py:149-160 | the queue loop lists every value once, root first |
| BinarySearchTree.InOrderFiveFifteen | 14-binary-search-tree/main.py:175 | a search tree holding 5 and 15 is listed in order as [5, 15] |
| BinarySearchTree.AddExample | 14-binary-search-tree/main.py:165-169 | adding 10, 5 and 15 to an empty tree gives 10 with children 5 and 15 |
| BinarySearchTree.ExampleShape | 14-binary-search-tree/main.py:170-172 | that tree is listed in order as [5, 10, 15] and has height 2 |
| BinarySearchTree.InspectExample | 14-binary-search-tree/main.py:170-172 | the listing, membership and height the example prints: [5, 10, 15], True, 2 |
| BinarySearchTree.RemoveExample | 14-binary-search-tree/main.py:173-175 | after remove(10), 10 is absent and the in-order listing is [5, 15] |
| BinarySearchTree.BinarySearchTreeExample | 14-binary-search-tree/main.py:164-175 | the example's whole run gives the values its comments announce |
| AvlTree.InOrderElems | 22-AVL-tree-recursive/main.py:164-175 | a value is listed by the iterator exactly when the tree holds it |
| AvlTree.InOrderIncreasing | 22-AVL-tree-recursive/main.py:164-175 | the in-order listing of a search tree is strictly increasing |
| AvlTree.DisjointChildren | 22-AVL-tree-recursive/main.py:18-19 | in a search tree the node's value and its two subtrees hold disjoint sets of values |
| AvlTree.CountIsElems | 22-AVL-tree-recursive/main.py:18-19 | in a search tree the number of nodes equals the number of distinct values |
| AvlTree.Compare | 22-AVL-tree-recursive/main.py:158-162 | -1, 0 or 1, negative exactly when the first value is smaller and positive exactly when it is larger |
| AvlTree.HeightField | 22-AVL-tree-recursive/main.py:15-16 | the height read from a node (0 for None) is the real height when the cached fields are right, and on any tree the code can build it is 0 exactly for None |
| AvlTree.Update | 22-AVL-tree-recursive/main.py:64-69 | recomputes height and balance factor from the children: same values, still ordered, and the fields are right when the children's are (and stay well formed when the children's are merely stale) |
| AvlTree.PivotOrdered | 22-AVL-tree-recursive/main.py:102-108 | a tree is a search tree exactly when its right-rotated form is |
| AvlTree.LeftRotation | 22-AVL-tree-recursive/main.py:94-100 | the rotation keeps the in-order listing, the values and the search order, puts the right child on top, and keeps the cached fields correct (or well formed) when the subtrees' are |
| AvlTree.RightRotation | 22-AVL-tree-recursive/main.py:102-108 | the rotation as written, `new_parent` refreshed before `node`: keeps the in-order listing, the values and the search order and puts the left child on top, but promises nothing about the cached fields beyond their being well formed (StaleRightRotation shows them wrong) |
| AvlTree.LeftRightCase | 22-AVL-tree-recursive/main.py:86-88 | the double rotation as written keeps the listing and the order, and puts the left child's right child on top |
| AvlTree.RightLeftCase | 22-AVL-tree-recursive/main.py:90-92 | the double rotation as written keeps the listing and the order, and puts the right child's left child on top |
| AvlTree.Balance | 22-AVL-tree-recursive/main.py:71-84 | _balance as written keeps the listing and the order, leaves a node whose cached balance factor is not -2 or 2 untouched, and otherwise puts on top the node each of the four cases names |
| AvlTree.RightRotationFixed | 22-AVL-tree-recursive/main.py:102-108 | the rotation in the intended order (`node` first): listing, values and order kept, and the cached fields correct when the subtrees' are |
| AvlTree.LeftRightCaseFixed | 22-AVL-tree-recursive/main.py:86-88 | the double rotation over the intended right rotation keeps listing, order and correct cached fields |
| AvlTree.RightLeftCaseFixed | 22-AVL-tree-recursive/main.py:90-92 | the double rotation over the intended right rotation keeps listing, order and correct cached fields |
| AvlTree.BalanceFixed | 22-AVL-tree-recursive/main.py:71-84 | _balance over the intended right rotation keeps listing, order and correct cached fields, and leaves a node whose balance factor is not -2 or 2 untouched |
| AvlTree.RightRotationBalances | 22-AVL-tree-recursive/main.py:74-78 | on a left-left imbalance of 2 the intended right rotation gives an AVL-balanced tree, at most one lower |
| AvlTree.LeftRotationBalances | 22-AVL-tree-recursive/main.py:80-84 | on a right-right imbalance of 2 the left rotation gives an AVL-balanced tree, at most one lower |
| AvlTree.LeftRightBalances | 22-AVL-tree-recursive/main.py:74-78 | on a left-right imbalance of 2 the intended double rotation gives an AVL-balanced tree exactly one lower |
| AvlTree.RightLeftBalances | 22-AVL-tree-recursive/main.py:80-84 | on a right-left imbalance of 2 the intended double rotation gives an AVL-balanced tree exactly one lower |
| AvlTree.BalanceRestores | 22-AVL-tree-recursive/main.py:71-84 | over balanced subtrees whose heights differ by at most 2, the intended balance gives an AVL-balanced tree, at most one lower |
| AvlTree.GrowRebalance | 22-AVL-tree-recursive/main.py:46-62 | when one subtree grew by at most 1, update then the intended balance gives an AVL-balanced tree at most one higher |
| AvlTree.ShrinkRebalance | 22-AVL-tree-recursive/main.py:116-146 | when one subtree shrank by at most 1, update then the intended balance gives an AVL-balanced tree at most one lower |
| AvlTree.GraftOrdered | 22-AVL-tree-recursive/main.py:46-62 | a node whose subtrees stay on the right sides of its value is a search tree |
| AvlTree.InsertIn | 22-AVL-tree-recursive/main.py:46-62 | _insert as written: the value is added to the set, a search tree stays one, the flag says whether the value was new, and an existing value leaves the tree unchanged (balance is not promised: see InsertLosesBalance) |
| AvlTree.InsertInFixed | 22-AVL-tree-recursive/main.py:46-62 | _insert over the intended rotation: the same set, order and flag promises, with correct cached fields kept |
| AvlTree.InsertBalanced | 22-AVL-tree-recursive/main.py:46-62 | inserting with the intended rotation into an AVL-balanced tree keeps it balanced and raises its height by at most 1 |
| AvlTree.LeftmostLeast | 22-AVL-tree-recursive/main.py:148-151 | the leftmost value of a search tree is its least |
| AvlTree.RightmostGreatest | 22-AVL-tree-recursive/main.py:153-156 | the rightmost value of a search tree is its greatest |
| AvlTree.FindMin | 22-AVL-tree-recursive/main.py:148-151 | the loop ends at the leftmost value |
| AvlTree.FindMax | 22-AVL-tree-recursive/main.py:153-156 | the loop ends at the rightmost value |
| AvlTree.RemoveFrom | 22-AVL-tree-recursive/main.py:116-146 | _remove as written: removes exactly the value, says whether it was there, leaves the tree unchanged when it was not, and keeps the order (balance is not promised) |
| AvlTree.RemoveFromFixed | 22-AVL-tree-recursive/main.py:116-146 | _remove over the intended rotation: the same promises, plus correct cached fields and AVL balance kept with the height lower by at most 1 |
| AvlTree.RemovedBelow | 22-AVL-tree-recursive/main.py:122-123 | removing from the left subtree of a search tree removes the value from the whole tree |
| AvlTree.RemovedAbove | 22-AVL-tree-recursive/main.py:124-125 | removing from the right subtree of a search tree removes the value from the whole tree |
| AvlTree.OnlyChild | 22-AVL-tree-recursive/main.py:127-130 | a node with at most one child is replaced by that child, which holds every other value and, with correct fields, is one lower and balanced when the node was |
| AvlTree.ReplacedByMax | 22-AVL-tree-recursive/main.py:133-137 | taking the left subtree's greatest value into the node and removing it below removes exactly the node's value |
| AvlTree.ReplacedByMin | 22-AVL-tree-recursive/main.py:139-143 | taking the right subtree's least value into the node and removing it below removes exactly the node's value |
| AvlTree.ContainsIn | 22-AVL-tree-recursive/main.py:27-36 | on a search tree the descent answers true exactly when the value is in it |
| AvlTree.ValidateIff | 22-AVL-tree-recursive/main.py:177-183 | the recursive check accepts exactly a search tree whose values lie strictly between the bounds |
| AvlTree.ValidateFromRootIff | 22-AVL-tree-recursive/main.py:177-183 | started at the root with open bounds the validation accepts exactly a search tree |
| AvlTree.DefaultCallAcceptsDisorder | 22-AVL-tree-recursive/main.py:177-179 | a tree that is not a search tree is rejected from its root, yet the call with node = None accepts |
| AvlTree.LeftChainCached | 22-AVL-tree-recursive/main.py:46-62 | inserting 3, 2, 1 builds a chain with correct cached fields, three high |
| AvlTree.StaleRightRotation | 22-AVL-tree-recursive/main.py:102-108 | rotating that chain right as written gives root 2 a cached height of 4 and balance factor 2, while it is two high |
| AvlTree.FixedRightRotation | 22-AVL-tree-recursive/main.py:102-108 | rotating the chain in the intended order gives root 2 height 2 and balance factor 0 |
| AvlTree.InsertThreeTwoOne | 22-AVL-tree-recursive/main.py:38-62 | inserting 3, 2, 1 as written gives root 2 whose cached height, which height() returns, is 4 for a tree two high |
| AvlTree.InsertFive | 22-AVL-tree-recursive/main.py:38-62 | inserting 5, 3, 7, 2, 1 as written leaves root 5 with balance factor -3, which _balance does not act on |
| AvlTree.InsertSixUnderSeven | 22-AVL-tree-recursive/main.py:46-62 | inserting 6 below the leaf 7 adds a left leaf and refreshes 7 |
| AvlTree.LeftRightAtFive | 22-AVL-tree-recursive/main.py:71-92 | back at 5, _balance as written takes the left-right case on the stale balance factor of 2 and builds the tree SixInserted |
| AvlTree.InsertLosesBalance | 22-AVL-tree-recursive/main.py:46-108 | inserting 6 next as written leaves a tree that is not AVL-balanced: node 5 has no left child over a right subtree two high, and the root caches height 6 and balance factor 3 |
| AvlTree.InsertFixedKeepsBalance | 22-AVL-tree-recursive/main.py:46-108 | the same six insertions with the intended rotation leave an AVL-balanced tree with correct fields |
| AvlTree.PendingPush | 22-AVL-tree-recursive/main.py:169-171 | pushing a node puts the node and its right subtree in front of what the stack still owes |
| AvlTree.IterDescend | 22-AVL-tree-recursive/main.py:169-171 | going left from a node keeps the listing still to produce |
| AvlTree.IterVisit | 22-AVL-tree-recursive/main.py:173-175 | popping a node, yielding it and going right keeps the listing still to produce |
| AvlTree.AvlTree.constructor | 22-AVL-tree-recursive/main.py:11-13 | a new tree is empty, with count 0 |
| AvlTree.AvlTree.Height | 22-AVL-tree-recursive/main.py:15-16 | the root's cached height: 0 exactly for the empty tree, and the real height when the cached fields are right |
| AvlTree.AvlTree.Size | 22-AVL-tree-recursive/main.py:18-19 | the number of distinct values, which is the number of nodes |
| AvlTree.AvlTree.IsEmpty | 22-AVL-tree-recursive/main.py:21-22 | true exactly when the tree holds no value |
| AvlTree.AvlTree.Contains | 22-AVL-tree-recursive/main.py:24-25 | true exactly when the value is in the tree |
| AvlTree.AvlTree.Insert | 22-AVL-tree-recursive/main.py:38-44 | None is refused and changes nothing; otherwise true exactly when the value was new, the tree becomes the insertion as written, the values gain the new one, the count follows, and the order is kept |
| AvlTree.AvlTree.Remove | 22-AVL-tree-recursive/main.py:110-114 | true exactly when the value was present; the value is gone afterwards, the count follows, and the order is kept |
| AvlTree.AvlTree.Iterate | 22-AVL-tree-recursive/main.py:164-175 | the iterator yields the in-order listing, which is strictly increasing |
| AvlTree.AvlTree.ValidateBstInvariant | 22-AVL-tree-recursive/main.py:177-183 | the call with its default arguments always answers true |
| AvlTree.AvlTree.ValidateFromRoot | 22-AVL-tree-recursive/main.py:177-183 | the validation started from the root answers true exactly when the tree is a search tree |
| AvlTree.ListingIs | 22-AVL-tree-recursive/main.py:196 | an increasing listing with the same values as a search tree is its in-order listing |
| AvlTree.ExampleRemoval | 22-AVL-tree-recursive/main.py:199-200 | removing 20 from {5, 10, 15, 20, 25, 30} leaves the values of [5, 10, 15, 25, 30] |
| AvlTree.InsertAll | 22-AVL-tree-recursive/main.py:191-193 | inserting a list of values adds exactly those values |
| AvlTree.AvlTreeExample | 22-AVL-tree-recursive/main.py:187-203 | the example lists [5, 10, 15, 20, 25, 30], then [5, 10, 15, 25, 30] after remove(20), and the validity check it calls answers True |

## Left out

- Output is not modelled: the `print` calls, `__str__`, `__repr__`, `print_tree` and the `print` lines of the usage examples. The example lemmas state the printed values instead.
- Element values are Python objects compared with `<`. The model uses `int` throughout, so no `TypeError` arises from comparing unorderable values. The exception is the one the indexed D-heap raises through `None`, which is modelled (finding 5).
- The max-heap counterparts (`maxHeap.py`) are not part of this model. They mirror the min-heaps.
- In 10-min-D-ary-heap/main.py, the `Node` wrapper class and its `compare_to` (lines 88-96) are not modelled. The example heap holds the wrapped integers directly, and `less` compares them as `compare_to(...) < 0` would.
- In 08-binary-heap/minHeap.py, the one-line accessors `parent`, `left_child` and `right_child` (lines 23-30) are not separate members. They are plain list reads at the child and parent slots, written inline in `HeapifyUp` and `HeapifyDown`, whose contracts cover them.
- The dynamic arrays' `__iter__`/`__next__` (00-dynamic_array/main.py:75-85, 01-integer-only-dynamic-array/main.py:84-94) are not modelled. Their behaviour is `Elements()` read in order. The stack's iterator is modelled.
- Generator laziness is not modelled. The AVL tree's `__iter__` is modelled as a method that returns the whole listing, and the search tree's traversals return the listing instead of `iter(result)`.
- Python object identity (`is`, default `==`) is not modelled. `remove(obj)`/`index_of(obj)` compare values.
- The `DEFAULT_CAP` default argument of the integer-only array is not modelled. The capacity is always passed explicitly.
- IntQueue.IntQueue.Enqueue: values are `int`, so the `isinstance` check that raises `ValueError` for non-integers (07-integer-only-queue/main.py:27-28) cannot fail and is not modelled.
- IntQueue.IntQueue.constructor: `max_size` is a `nat`. A negative size is not modelled. In Python it gives a buffer of `max_size + 1 <= 0` slots, and the modulo in `enqueue` then fails.
- UnionFind.UnionFind.Find, Connected, ComponentSize and Unify require their arguments in `[0, size)`. Python's negative indexing and `IndexError` for other arguments are not modelled.
- DAryHeap.DAryMinHeap.constructor: requires `d >= 1`. With `d <= 0` the source divides by zero or computes meaningless child indices.
- FenwickTree.FenwickTree.Update and FenwickRange.FenwickTreeRangeQueryPointUpdate.Add/Set require `index >= 1`. For every index <= 0 the source's loop never ends. At 0, `i & -i` is 0. A negative index first writes a slot through Python's negative indexing, then climbs by its lowest set bit to 0 and stays there.
- FenwickRange.FenwickTreeRangeQueryPointUpdate.constructor: the size is a `nat`. The `values is None` branch (main.py:5-6) cannot be reached in Python after the `isinstance` test and is not modelled, nor is a negative size.
- AvlTree.InsertIn, AvlTree.RemoveFrom, AvlTree.AvlTree.Insert and AvlTree.AvlTree.Remove promise no AVL balance and no correct cached heights, because the code as written keeps neither (see "## Findings"); the balance is proved for InsertInFixed and RemoveFromFixed.
- AvlTree.RightRotation, AvlTree.LeftRightCase, AvlTree.RightLeftCase and AvlTree.Balance promise only well-formed cached fields, not correct ones, for the same reason.
- AvlTree.AvlTree.Remove takes an `int`, so `remove(None)`, which raises in the comparison, is not modelled. The `str` branch of `_compare` computes the same three-way result and is covered by `Compare`.
- The `float('-inf')`/`float('inf')` bounds of `validate_bst_invariant` are modelled as `Option<int>`, with `None` meaning unbounded.
- BinarySearchTree.BinarySearchTree.LevelOrderTraversal and BinarySearchTree.BinarySearchTree.Traverse (for LEVEL_ORDER): state that every value is listed exactly once (as a multiset) and that the root comes first. They do not state the breadth-first order of the rest.
- `is_min_heap` and its recursive helper in 12-indexed-D-heap/main.py (lines 148-159) are a debugging check and are not modelled. The heap order they test is the predicate `Ordered`, though the source's check demands strictly smaller children.
- IndexedDHeap.MinIndexedDHeap.Delete: the arrays are promised consistent only when the case shown by finding 2 does not occur. In that case the source itself breaks the maps.
- Concurrency and memory reuse are not modelled.

The comment at 19-error-fenwick-tree-range-query-point-update/main.py:72 expects slot 8 to be 0 after `set(3, 10)`. Slot 8 covers positions 1 to 8, so it holds 24, as `FenwickRange.ExampleTreeHigh` states. The comment is wrong; the code is not.

## Findings

| source | as written | input that shows it | evidently intended | confidence | as-written member | corrected member |
|---|---|---|---|---|---|---|
| 12-indexed-D-heap/main.py:103-118 | `sink` moves slot i to its least child whether or not that child is smaller, because `min_child` never compares with slot i, so `update` can break the heap order | `MinIndexedDHeap(2, 2)`, `insert(0, 0)`, `insert(1, 1)`, `update(0, 0)`: key 1 ends at the root although key 0 has priority 0 | sink stops when no child is smaller than slot i | not executed | IndexedDHeapExamples.UpdateBreaksOrder | IndexedDHeapSpec.UpdateFixedSpec |
| 12-indexed-D-heap/main.py:64-75 | `delete` swims slot `sz` after shrinking the heap; when the deleted key came from that slot and is smaller than its parent, the swim carries it back into the heap | continuing the row above with `delete(0)`: key 0 is back at the root while `pm[0] == -1`, and `peek_min_key_index` returns the deleted key | the removed key stays past the occupied slots (exchange, sink, swim at the old position) | not executed | IndexedDHeapExamples.DeleteRevivesKey | IndexedDHeapSpec.DeleteFixedSpec |
| 11-min-indexed-binary-heap/main.py:23-32 | `remove` only sinks the slot that receives the last element, never swims it | keys 0, 10, 1, 11, 12, 2 at indices 0-5 (an ordered heap), then `remove(3)`: key 2 lands in slot 3 below key 10 | sink and then swim the moved slot | not executed | IndexedBinaryHeapExamples.RemoveBreaksOrder | IndexedBinaryHeapSpec.RemoveFixedSpec |
| 10-min-D-ary-heap/main.py:53-58 | `sink` moves an element down to a leaf regardless of its children's values, so `poll` can leave an unordered heap | `MinDHeap(2, 10)`, add 0, 1, 2, 5, 6, 3, then `poll()`: the heap becomes [1, 5, 2, 3, 6] with 3 below 5 | sink stops when no child is smaller | not executed | HeapExamples.PollBreaksOrder | HeapCore.ExtractMinSpec |
| 12-indexed-D-heap/main.py:86-96 | `decrease`/`increase` call `less(value, values[ki])`, but `less` takes heap slots, not priorities | `MinIndexedDHeap(2, 10)`, `insert(0, 5)`, `decrease(0, 1)`: `less(1, 5)` reads `values[im[1]]`, which is `values[-1]`, which is `None`, and raises `TypeError` | compare the priorities `value < values[ki]` directly | not executed | IndexedDHeapExamples.DecreaseComparesSlots | IndexedDHeapSpec.DecreaseFixedSpec |
| 22-AVL-tree-recursive/main.py:102-108 | `_right_rotation` updates `new_parent` before `node`, so the new root's height is computed from the old, stale height of its new child | inserting 3, 2, 1: the rotation at 3 gives root 2 a cached height of 4 and balance factor 2, though it is two high and level | update `node` first, then `new_parent`, as `_left_rotation` does | not executed | AvlTree.StaleRightRotation | AvlTree.FixedRightRotation |
| 22-AVL-tree-recursive/main.py:46-108 | the stale fields left by `_right_rotation` steer later `_balance` calls wrongly, so the tree loses its AVL balance | inserting 5, 3, 7, 2, 1 leaves root 5 with balance factor -3, untouched by `_balance`; inserting 6 next takes a left-right case on the stale factor and leaves node 5 with no left child over a right subtree two high | every insertion keeps the tree AVL-balanced | not executed | AvlTree.InsertLosesBalance | AvlTree.InsertBalanced |
| 22-AVL-tree-recursive/main.py:177-183 | `validate_bst_invariant()` with its default arguments starts at `node=None` and returns True without looking at the tree | the tree 5 with left child 7 is not a search tree, yet the default call accepts | start from `self.root` | not executed | AvlTree.DefaultCallAcceptsDisorder | AvlTree.ValidateFromRootIff |
| 13-union-find/main.py:31-32 | __init__ stores the element count in the attribute `size`, which hides the method `size`, so `uf.size()` calls an int and raises TypeError | `UnionFind(3).size()` | return the element count | not executed | UnionFind.UnionFind.Size | UnionFind.UnionFind.SizeFixed |
