# sortrs in Dafny

A Dafny model of `sortrs`, a small Rust library of in-place comparison sorts.
Each sort takes a mutable slice and a caller-supplied strict "less than"
predicate `lt`:

- **insertion sort** (`insertsort_impl`, `insertsort_by`, `insertsort`);
- **heap sort** over a 0-based binary max-heap (`heapify`, `shift_down`,
  `heapsort_impl`, `heapsort_by`, `heapsort`);
- **introsort** (`lg`, `median_3`, `partition`, `partition_pivot`,
  `introsort_loop`, `introsort_impl`, `introsort_by`, `introsort`). This is
  quicksort with a median-of-three pivot and an unguarded Hoare partition. It
  recurses on the right part, loops on the left part, and falls back to heap
  sort once the depth budget `2 * floor(log2 len)` is spent. One
  insertion-sort pass over the whole slice finishes it.

How the model is built:

- A slice is a `seq<T>`. Each method takes the slice and returns the
  reordered slice, so "in place" becomes "same length, same multiset".
- Raw pointers become indices. A sub-slice `[ptr, last)` becomes a sequence
  of its own.
- `ptr::swap` becomes `Slices.Swap`.
- The read / `copy_memory` / write sequence in insertion sort becomes
  `Insertion.RotateRight`.
- The comparator is a generic `lt: (T, T) -> bool` that must be a strict
  weak order (`Order.StrictWeakOrder`). The reversed comparator used by the
  tests is `Order.Reversed(lt)`.
- The natural-order entry points sort integers with `<` (module `Sortrs`).

Modules: `Order` (comparator contract, sortedness), `Slices` (swap and
permutation facts), `Insertion`, `Heap`, `Intro`, `Sortrs` (natural-order
entry points and fixed-input scenarios).

Three details of the code that the model follows exactly:

- The median of three is taken over positions 1, `len/2` and `len-1`.
- `introsort_loop` recurses on the right part `[cut, len)` and iterates on
  the left part `[0, cut)`.
- `THRESHOLD` is 16.

Beyond sortedness, `Intro.IntrosortLoop` proves what the loop leaves for the
final insertion sort: any two elements `THRESHOLD` or more positions apart
are already in order (`Intro.NearlySorted`).

## Model

| member | source | states |
|---|---|---|
| Order.SortedIffAdjacentSorted | tests/sortrs.rs:17-21 | under a strict weak order, no adjacent pair out of order (the tests' `windows(2)` check) is the same as every pair being in order |
| Order.ReversedIsStrictWeakOrder | tests/sortrs.rs:23-24 | the reversed comparator `b.lt(a)` is again a strict weak order, so every sort's contract applies to it |
| Order.SortedReversedIsNonincreasing | tests/sortrs.rs:83-84 | sorted under the reversed comparator means no element is less than a later one under the original comparator |
| Slices.Swap | src/lib.rs:196 | `ptr::swap` exchanges the two positions, leaves every other position alone and keeps the multiset |
| Insertion.RotateRight | src/lib.rs:38-47 | the block move puts `v[i]` at `j`, shifts `v[j..i)` up by one, leaves everything else alone and keeps the multiset; with `i == j` nothing moves |
| Insertion.RotatePastGreaterIsStable | src/lib.rs:22-29 | moving `v[i]` down past elements it is strictly below keeps every class of equivalent elements in its original order |
| Insertion.InsertExtendsSortedPrefix | src/lib.rs:15-47 | when `v[0..i)` is sorted and the scan stopped at `j`, inserting `v[i]` at `j` makes `[0, i]` sorted |
| Insertion.InsertSortBy | src/lib.rs:13-54 | result is sorted, a permutation, and stable (each equivalence class keeps its order); empty, single-element and already sorted slices come back unchanged |
| Heap.HalfTowardZero | src/lib.rs:68 | the start index `(size - 2) / 2` rounds toward zero as Rust's signed division does (0, not -1, when `size` is 1) |
| Heap.RootIsMaximum | src/lib.rs:117-119 | the root of a max-heap `v[0..=end]` is not less than any element of the heap |
| Heap.SiftStep | src/lib.rs:86-108 | swapping the root with its larger child leaves the heap order broken only below that child, changes only positions of the subtree, and the child's parent is not less than the child's children |
| Heap.ShiftDown | src/lib.rs:80-110 | given that the subtrees below `start` (up to the inclusive `end`) are max-heaps, afterwards the subtree rooted at `start` is a max-heap; only positions in that subtree up to `end` change; the multiset is kept |
| Heap.Heapify | src/lib.rs:64-78 | the result is a max-heap over the whole slice (children `2i+1`, `2i+2`) and a permutation of the input |
| Heap.PopMaximumKeepsOrder | src/lib.rs:117-124 | after the root is swapped to `end` and the rest re-heaped, the sorted suffix grows by one and stays not less than everything before it |
| Heap.HeapSortImpl | src/lib.rs:112-125 | result is sorted and a permutation; under a strict total order sorted input is unchanged |
| Heap.HeapSortBy | src/lib.rs:127-133 | result is sorted and a permutation; an empty slice is left alone |
| Intro.Lg | src/lib.rs:145-148 | `lg(n)` for `n > 0` is the exponent `r` with `2^r <= n < 2^(r+1)` |
| Intro.LeadingZeros | src/lib.rs:147 | `leading_zeros` in a `width`-bit word: at most `width`, `n < 2^(width-z)`, and for `n > 0` the highest set bit is at position `width-1-z` |
| Intro.WordLgIsFloorLog2 | src/lib.rs:145-148 | for `0 < n < 2^64`, `64 - 1 - leading_zeros(n)` equals the floor of `log2 n` |
| Intro.WordLg | src/lib.rs:145-148 | on the 64-bit word `lg` uses, `64 - 1 - leading_zeros(n)` is the floor of `log2 n` for every `0 < n < 2^64` |
| Intro.Median3 | src/lib.rs:155-179 | returns one of the three positions, and the element there is neither strictly below both others nor strictly above both |
| Intro.Partition | src/lib.rs:181-200 | given an element of `v[1..]` not below the pivot, the unguarded scans stay in bounds and return `1 <= cut < len`; the pivot stays at 0; `[0, cut)` holds nothing above the pivot and `[cut, len)` nothing below it; the multiset is kept; the right scan stays at or above index 1 whenever some element of `v[1..]` is not above the pivot |
| Intro.LeftScanStop | src/lib.rs:186-188 | the unguarded left scan stops at the first index from `first` on whose element is not below the pivot; every element it passes is below the pivot; it reaches `len`, past the slice, only when there is no such element |
| Intro.LeftScanStaysInsideIffSentinel | src/lib.rs:186-188 | the left scan stays inside the slice exactly when some element from `first` on is not below the pivot, which is the sentinel `Intro.Partition` requires |
| Intro.PartitionPivot | src/lib.rs:202-209 | for `len >= 4` the median of `v[1]`, `v[len/2]`, `v[len-1]` ends up at index 0, both scans stay inside `[1, len)`, `1 <= cut < len`, and the slice is split around the pivot as a permutation |
| Intro.PartitionStepKeepsOrder | src/lib.rs:218-223 | after partitioning the front and sorting the right part recursively, `[cut, len)` is nearly sorted and not less than anything in `[0, cut)` |
| Intro.HeapFallbackKeepsOrder | src/lib.rs:214-216 | heap-sorting exactly the current front range `[0, len)` completes the nearly sorted arrangement |
| Intro.IntrosortLoop | src/lib.rs:211-224 | terminates (both sub-ranges are strictly shorter), keeps the multiset, leaves slices of length at most 16 unchanged, heap-sorts the whole range when the budget is 0, and leaves every pair 16 or more apart in order |
| Intro.IntrosortBy | src/lib.rs:226-241 | result is sorted and a permutation; empty and single-element slices are unchanged; under a strict total order sorted input is unchanged |
| Sortrs.InsertSort | src/lib.rs:56-58 | natural-order insertion sort: every adjacent window is nondecreasing, same multiset, length 0 and 1 unchanged |
| Sortrs.HeapSort | src/lib.rs:135-137 | natural-order heap sort: every adjacent window is nondecreasing, same multiset, length 0 and 1 unchanged |
| Sortrs.Introsort | src/lib.rs:243-246 | natural-order introsort: every adjacent window is nondecreasing, same multiset, length 0 and 1 unchanged |
| Sortrs.NonStrictComparatorOverrunsPartition | src/lib.rs:184-188 | `a <= b` is not a strict weak order, and on seventeen equal elements no element of `v[1..]` stops the left scan, so the scan reaches past the end of the slice |
| Sortrs.IntrosortByReversedComparator | tests/sortrs.rs:83-84 | introsort with the reversed comparator gives a result that is nonincreasing under the original one |
| Sortrs.IntrosortAscendingExample | tests/sortrs.rs:77-78 | an instance of the tests' nondecreasing check: introsort of `[5,4,1,3,2]` is exactly `[1,2,3,4,5]` |
| Sortrs.IntrosortDescendingExample | tests/sortrs.rs:83-84 | an instance of the tests' nonincreasing check: introsort of `[5,4,1,3,2]` with the reversed comparator `b < a` is exactly `[5,4,3,2,1]` |
| Sortrs.HeapSortEmptyExample | tests/sortrs.rs:58-60 | heap sort of an empty slice is empty |
| Sortrs.InsertSortSingleExample | tests/sortrs.rs:32-34 | insertion sort of `[0xDEADBEEF]` is unchanged |

## Left out

- Benchmarks and the `bench` module: they time the sorts and generate random data, with no functional behaviour.
- Random test generation: the random inputs of the tests are not modelled. The properties they check are proved for every input, and a few fixed inputs are proved as instances.
- Raw-pointer mechanics (`ptr::read`, `copy_memory`, `copy_nonoverlapping_memory`, `mem::forget`, `ptr_distance`): modelled as index arithmetic, element swaps and a block rotation.
- The `leading_zeros` bit trick in `lg` is not computed on a machine word. `Intro.Lg` is a mathematical floor-log2, and `Intro.WordLgIsFloorLog2` proves it agrees with `64 - 1 - leading_zeros` on 64-bit words.
- Integer widths: slice lengths are unbounded naturals, so the `v.len() as int` casts cannot overflow in the model.
- In-place mutation and exclusive access: each sort returns the reordered sequence instead of writing through a pointer.
- Complexity: the O(n log n) bound and the number of comparisons are not modelled. Only termination and the depth-budget fallback are.
- Comparators that are not strict weak orders: every sort requires a strict weak order. For insertion sort and heap sort only the output order is then unspecified, because their index bounds do not depend on the comparator: the scans are guarded by `j > 0` and by `end`. Introsort is different. The scans in `partition` have no bounds check and stop only at the sentinel elements the median of three leaves. With `|a, b| a <= b` on seventeen equal elements there is no such element, and the left scan reads past the end of the slice. `Sortrs.NonStrictComparatorOverrunsPartition` proves this, and the model does not describe what happens after that read.
- Zero-sized element types: `ptr_distance` divides by `size_of::<T>()`, so `introsort` of a non-empty slice of a zero-sized type panics with a division by zero. The model has no element sizes and sorts such a slice like any other.
- The `Show`/`PartialOrd` trait bounds and crate plumbing: they have no behaviour.
- Heap.HeapSortImpl: "sorted input comes back unchanged" is proved only for strict total orders, since heap sort may reorder equivalent elements. Intro.IntrosortBy has the same limit.
- Intro.PartitionPivot: requires `len >= 4`, which is weaker than its only caller's guarantee `len > 16`. Four elements are enough for the three median positions to be distinct.
