# Fixed-capacity binary min-heap

This project is a Dafny model of `heap.c`, a priority queue. The queue stores
(key, value) slots in one buffer that is allocated once, together with a live
`size` and a fixed `capacity`. The live entries are `data[0..size)`. They form
an implicit binary tree: the children of slot `i` are `2i+1` and `2i+2`, and
the parent of a slot `i > 0` is `(i-1)/2`.

There are two restore procedures:

- `heap_bubble_up` (sift-up) is a loop. It swaps an entry with its parent
  while the entry's key is smaller.
- `heap_bubble_down` (sift-down) is recursive. It swaps an entry with its
  smallest live child while that child's key is strictly smaller.

`heap_insert` appends an entry and sifts it up. `heap_remove_min` moves the
last live entry into the root and sifts it down.

The project has two modules:

- `HeapIndex` (`heap_index.dfy`) holds the index arithmetic and `heap_level`.
  `Depth` is the specification of `heap_level`: the number of parent hops to
  the root. It is also characterised independently as `floor(log2(i+1))`.
- `MinHeap` (`heap.dfy`) holds the rest:
  - the slot datatype `Node`;
  - heap order on the sequence of live slots, and the lemmas about it;
  - the class `Heap`. The class has the buffer `data` (a constant array, as
    `heap->data` is never reassigned), the mutable `size` and the constant
    `capacity`. Its methods update them in place, as the C functions do.

`Valid()` states `data.Length == capacity`, `size <= capacity` and heap order
on `data[..size]`. `Contents()` is `data[..size]`. The multiset of
`Contents()` is the content of the queue.

Keys are `int`. Values are a type parameter `V`, which the heap never
inspects. `V` is declared with `(0)` so that the buffer can be allocated
without initial values; the C buffer from `malloc` is uninitialised too.

Some modelling decisions:

- `heap_remove_min` returns `NULL` on an empty heap. A C caller cannot tell
  that apart from a stored `NULL` value, so the model returns `Option<V>`:
  `None` when the heap is empty, `Some(v)` otherwise.
- `heap_insert` returns nothing and silently does nothing when the heap is
  full. The model keeps that behaviour: nothing changes. It adds a `bool`
  result that says whether the entry was stored.
- `heap_bubble_down` is modelled as a recursive method, as the C code is. The
  recursion decreases `size - index`.
- `heap_bubble_down` has no requirement that `index` is a live slot.
  `heap_remove_min` calls it at slot 0 after the last entry has been removed,
  when `size` is 0. The C code reads `data[index]` only when a live child
  exists, and the model does the same.

## Model

| member | source | states |
|---|---|---|
| HeapIndex.Parent | heap.c:29-31 | for `i > 0` the parent is strictly smaller than `i`, and `i` is its left (`2p+1`) or right (`2p+2`) child |
| HeapIndex.LeftChild | heap.c:34-36 | the left child lies after `i`, is odd, and its parent is `i` |
| HeapIndex.RightChild | heap.c:39-41 | the right child lies after `i`, directly follows the left child, and its parent is `i` |
| HeapIndex.Level | heap.c:44-51 | the loop that climbs parent by parent returns `Depth(index)`, the number of hops to the root, which is `floor(log2(index+1))`: `2^level <= index+1 < 2^(level+1)` |
| HeapIndex.DepthBounds | heap.c:44-51 | the level of slot `i` is the unique `d` with `2^d <= i+1 < 2^(d+1)`, so level `d` holds exactly slots `2^d-1 .. 2^(d+1)-2` |
| HeapIndex.ChildDepth | heap.c:44-51 | both children of a slot are one level deeper than the slot |
| MinHeap.Heap.constructor | heap.c:9-15 | a new heap has `size == 0`, the requested capacity, a fresh buffer of exactly `capacity` slots, no live entries, and satisfies the heap invariant |
| MinHeap.Heap.Size | heap.c:24-26 | the result is the number of live entries and is at most the capacity |
| MinHeap.Heap.Swap | heap.c:63-67 | the two slots trade their entries and every other slot is unchanged; `size` and `capacity` are not touched; when both slots are live, the live multiset and the dead tail are unchanged |
| MinHeap.Swapped | heap.c:63-67 | exchanging two positions of a sequence keeps its length and its multiset and changes no other position |
| MinHeap.Heap.BubbleUp | heap.c:70-75 | if heap order fails at most between `index` and its parent, and `index`'s parent is no larger than `index`'s children, then afterwards `data[..size]` is a min-heap with the same multiset, and the slots past `size` are unchanged |
| MinHeap.SiftUpStep | heap.c:71-73 | swapping a slot with its larger parent moves the only fault in heap order up to the parent's slot |
| MinHeap.SiftUpDone | heap.c:71 | when the loop stops at the root, or below a parent that is not larger, the sequence is a min-heap |
| MinHeap.Heap.BubbleDown | heap.c:78-93 | if heap order fails at most between `index` and its children, and `index`'s parent is no larger than those children, then afterwards `data[..size]` is a min-heap with the same multiset, and the slots past `size` are unchanged |
| MinHeap.SiftDownStep | heap.c:83-91 | swapping a slot with its smallest live child, when that child is strictly smaller, moves the only fault in heap order down to the child's slot |
| MinHeap.SiftDownDone | heap.c:89 | when no live child is smaller than the slot, the sequence is a min-heap |
| MinHeap.Heap.Insert | heap.c:96-106 | when full (`size == capacity`): reports false, and `size` and the whole buffer are unchanged. Otherwise: reports true, `size` grows by one, the live multiset gains exactly `(key, value)`, heap order holds, and the slots past the new `size` are unchanged |
| MinHeap.AppendLeaf | heap.c:101-105 | appending an entry to a min-heap can break heap order only between the new leaf and its parent |
| MinHeap.Heap.RemoveMin | heap.c:109-122 | on an empty heap: returns `None`, and `size` and the whole buffer are unchanged. Otherwise: returns the root's value, the root's key is at most every live key, `size` drops by one, the live multiset loses exactly the root entry, heap order holds, and every remaining key is at least the returned key (so successive removals come out in non-decreasing key order) |
| MinHeap.LastToRoot | heap.c:116-118 | moving the last live entry into the root leaves one entry fewer, and the multiset loses exactly the old root |
| MinHeap.LastToRootBelow | heap.c:116-119 | after the last entry is moved into the root of a min-heap, heap order can fail only between the root and its children |
| MinHeap.RemovedRootBounds | heap.c:114-121 | any permutation of what is left after the root is removed has the old multiset minus the root, and all its keys are at least the root's key |
| MinHeap.RootIsMinimum | heap.c:114 | in a min-heap the root's key is at most the key of every live slot (by induction over the ancestor chain) |
| MinHeap.RootBoundsAll | heap.c:114 | the root's key is a lower bound on all keys of a non-empty min-heap |
| MinHeap.MinHeapIffChildrenNotSmaller | heap.c:70-93 | heap order stated bottom-up (no slot smaller than its parent, the sift-up view) holds if and only if it holds stated top-down (no slot larger than a live child, the sift-down view) |

## Left out

- `heap_free` (heap.c:18-21) and the `malloc` calls of `heap_create` are memory management, which Dafny's allocator does for the model. An allocation failure, which the C code does not check, has no counterpart.
- `heap_print` (heap.c:54-60) is `printf` output. Only the `heap_level` helper it calls is modelled.
- `heap.h` is not part of this model. `heap_key_t` is modelled as `int`, `heap_value_t` as a type parameter, and `HEAP_KEY_FORMAT` only matters for printing.
- The C code mixes `int` and `unsigned` indices, so an unsigned subtraction could wrap. The model uses unbounded naturals. `Parent` requires `i > 0`, which every call site (heap.c:46, heap.c:71) ensures. Overflow of `2*index+2` for indices near `UINT_MAX` is not modelled.
- A negative `capacity` passed to `heap_create` is not modelled. The model's capacity is a natural number.
- MinHeap.Heap.RemoveMin: on a successful removal, the contract does not state that the slots from the old `size` onward keep their previous contents. The C code does not touch them, and the vacated slot `old(size)-1` still holds the entry that was moved to the root. This is stated only on the empty path.
- The C code has no tests, so there is no end-to-end insertion/extraction scenario. Sorted extraction follows from `RemoveMin`'s last clause applied to successive calls.
