# In-place integer sorts: introsort, randomised quicksort and merge sorts

This project models the sorting routines of an algorithms course repository
and proves them correct in Dafny. Every routine works on a vector segment
`[left, right)`. It leaves the segment sorted and holding the same values, and
it changes nothing outside the segment.

- **Introsort** (`A3i/A3i.cpp`, `A3i/a3_experiments.cpp`). A loop partitions
  the pending segment around a randomly chosen pivot, recurses into the
  shorter side and goes on with the longer side. Segments shorter than 16
  elements go to insertion sort. Once the depth budget `2 * floor(log2 n)` is
  spent, the segment goes to heap sort.
- **Randomised quicksort** (`A3i/a3_experiments.cpp`). The same loop without
  a cut-off or a depth budget.
- **Merge sorts** (`A2/A2.cpp`, `A2/a2_experiments.cpp`). Top-down merge sort
  through a caller-supplied `tmp` buffer. There is a plain version and a
  hybrid that sends ranges of at most `threshold` elements to insertion sort.
  `merge_sort` in `A2.cpp` is the hybrid with threshold 15.
- **Pivot generator.** The xorshift generator (`FastRng`, and the global
  `next_rand` in `A3i.cpp`) is a class over a `bv64` state.
- **Test-data generators.** The two `ArrayGenerator` classes of the experiment
  drivers build the random, reversed and almost-sorted vectors.

Vectors are `array<int>`. A segment is sorted and permuted in place. `SortSpec`
says what "sorted" means, what "a permutation of `[lo, hi)` with the rest
unchanged" (`Perm`) means, and what "the segments around `[lo, hi)` are
already in final position" (`Framed`) means. The routines are:

- `Insertion` and `Heap`: the segment sorts.
- `Partition`: the Hoare partition.
- `Introsort` and `QuickSort`: the partition loops.
- `Merging`: the merge and its loops.
- `MergeSort`: the recursive merge sorts.
- `Generators`: the test data.

The merge is specified by the pure function `Merging.Merge`. The proofs show
that it is a sorted rearrangement of its two sorted inputs and that it is
stable. Each cursor loop of the source (both heads left, left run left, right
run left, copy back) is its own method, proved against `MergeFrom`, the merge
of what is left of the two runs.

## Model

| member | source | states |
|---|---|---|
| `XorShift.FastRng.constructor` | A3i/a3_experiments.cpp:10 | the generator starts in the given seed state |
| `XorShift.FastRng.NextU32` | A3i/a3_experiments.cpp:12-16 | the state takes one xorshift step (`^= << 7`, then `^= >> 9`, on 64 bits); the draw is the low 32 bits of the new state; the same as `next_rand` in A3i.cpp |
| `XorShift.FastRng.NextInt` | A3i/a3_experiments.cpp:18-21 | for `l < r`, one step, and the result is `l + draw % (r - l)`, so it lies in `[l, r)` |
| `XorShift.Low32` | A3i/a3_experiments.cpp:15 | the cast to 32 bits is the state modulo `2^32`: together with the high half of the state it rebuilds the state |
| `XorShift.Pick` | A3i/A3i.cpp:35 | the pivot index `left + draw % len` lies in `[left, right)` for every draw |
| `XorShift.StepInvertible` | A3i/A3i.cpp:10-14 | the state update can be undone (`Unstep`), so distinct states never merge |
| `XorShift.StepNonZero` | A3i/A3i.cpp:8-14 | a non-zero state, like the seed, never becomes the stuck state zero |
| `Insertion.InsertionSort` | A3i/A3i.cpp:16-26 | `insertion_sort_segment` (also `insertion_segment`, A2.cpp's `insertion_sort`, a2_experiments.cpp's `insertion_sort_segment`): the segment ends sorted, a permutation of its old contents, and nothing outside it changes; before each insertion the prefix `[left, i)` is sorted |
| `Insertion.Insert` | A3i/A3i.cpp:18-24 | one pass of the shift loop turns a sorted `[left, i)` into a sorted `[left, i + 1)` by a rearrangement of that range only; the loop never reads below `left` |
| `Insertion.InsertStep` | A3i/A3i.cpp:20-24 | after the shifts, `x` lands between an element at most `x` and the shifted elements, all greater than `x`, so the prefix is sorted |
| `Insertion.MoveIsPerm` | A3i/A3i.cpp:20-24 | moving `a[i]` down to `j + 1` and shifting the elements between keeps the multiset |
| `Heap.HeapSort` | A3i/A3i.cpp:28-31 | `heap_sort_segment`: the segment ends sorted and permuted; nothing outside changes |
| `Heap.MakeHeap` | A3i/A3i.cpp:29 | the segment becomes a max-heap by a rearrangement of the segment |
| `Heap.SortHeap` | A3i/A3i.cpp:30 | a max-heap segment ends sorted by a rearrangement of the segment |
| `Heap.SiftDown` | A3i/a3_experiments.cpp:122-123 | sifting the element at `start` down restores the heap order below `start`, rearranging only `[start, end)` |
| `Heap.RootIsMax` | A3i/A3i.cpp:30 | the root of a max-heap is its largest element |
| `Heap.PopStep` | A3i/A3i.cpp:30 | swapping the root behind the heap grows the sorted suffix by one and breaks the heap only at the root |
| `Partition.Partition` | A3i/A3i.cpp:36-54 | for every pivot index in the segment: the result `p` is in `[left, right - 1]`; `[left, p]` is at most the pivot and `(p, right)` at least the pivot; only the segment is permuted; the two unguarded scans stay inside the segment and the loop ends |
| `Partition.PartitionRandom` | A3i/A3i.cpp:33-54 | `partition_random` and `partition_quick` (a3_experiments.cpp:69-82): exactly one generator step; the pivot is the old element at index `left + draw % (right - left)`, with the draw the low half of the new state; then the same guarantees as `Partition` |
| `Partition.ScansMet` | A3i/A3i.cpp:47-48 | scans that meet or cross leave everything up to `j` at most the pivot |
| `Partition.ScansSwap` | A3i/A3i.cpp:50-52 | the swap keeps the segment a permutation and gives each scan a sentinel for the next round |
| `Partition.RecurseLeft` | A3i/A3i.cpp:71-84 | the side that is recursed into never holds more than half of the segment |
| `Introsort.Log2Bounds` | A3i/A3i.cpp:103-109 | the halving count is `floor(log2 n)`: `2^k <= n < 2^(k+1)` |
| `Introsort.DepthLimit` | A3i/a3_experiments.cpp:160-167 | the loop `m >>= 1` computes `depth_limit = 2 * floor(log2 n)` |
| `Introsort.IntrosortRec` | A3i/a3_experiments.cpp:126-155 | `introsort_rec` (also A3i.cpp:56-86): the segment ends sorted and permuted, with nothing outside changed; it ends because the depth budget falls on every partition and is passed on decremented |
| `Introsort.Introsort` | A3i/a3_experiments.cpp:157-170 | `introsort`: for any generator state, the whole vector ends sorted and permuted, with the depth limit computed from its length |
| `Introsort.SortInput` | A3i/A3i.cpp:102-111 | the sort in A3i.cpp's `main`, with the generator started at the global seed `88172645463393265`: the whole vector ends sorted and permuted |
| `QuickSort.QuickSortRec` | A3i/a3_experiments.cpp:84-101 | the segment is always only permuted; it is sorted whenever the loop finishes within the round bound |
| `QuickSort.QuickSort` | A3i/a3_experiments.cpp:103-107 | `quick_sort`: the whole vector is permuted, and sorted when the sort finishes |
| `Merging.MergePerm` | A2/A2.cpp:29-40 | the merge is a rearrangement of the two runs together |
| `Merging.MergeSorted` | A2/A2.cpp:29-40 | the merge of two sorted runs is sorted |
| `Merging.MergeAbove` | A2/A2.cpp:29-40 | a lower bound of both runs is a lower bound of the merge |
| `Merging.MergeKeepsOrder` | A2/A2.cpp:32-40 | the elements taken from the left run appear in the merge in their original order, and so do those from the right run |
| `Merging.MergeStableAt` | A2/A2.cpp:33-34 | for equal keys, an element from the right run never precedes one from the left run |
| `Merging.MergeStable` | A2/a2_experiments.cpp:71-72 | the merge is stable: all equal-key pairs are in left-before-right order |
| `Merging.FromLeftAbove` | A2/A2.cpp:33-36 | a lower bound `v` of the whole left run is a lower bound of every element of the merge that came from the left run |
| `Merging.MergeFromIsMerge` | A2/A2.cpp:29-40 | what the cursor loops produce from `i`, `j` onwards is the merge of `a[i..m)` and `a[j..r)` |
| `Merging.MergeHalves` | A2/A2.cpp:29-41 | the merge loops plus the copy-back leave `a[l..r)` equal to the merge of the old halves; `a` and `tmp` change only inside `[l, r)` |
| `Merging.MergeInto` | A2/a2_experiments.cpp:67-75 | the three cursor loops write the merge into `tmp[l..r)` and nothing else into `tmp` |
| `Merging.MergeBoth` | A2/a2_experiments.cpp:70-73 | while both runs have elements: `k - l == (i - l) + (j - m)`; `tmp[l..k)` is the start of the merge; the smaller head goes next, the left one on a tie |
| `Merging.Advance` | A2/a2_experiments.cpp:71-72 | one step of the first loop writes the next element of the merge, whichever head it takes |
| `Merging.DrainLeft` | A2/a2_experiments.cpp:74 | copying the rest of the left run continues the merge |
| `Merging.DrainRight` | A2/a2_experiments.cpp:75 | copying the rest of the right run completes the merge in `tmp[l..r)` |
| `Merging.TakeFromLeft` | A2/A2.cpp:33-34 | taking `a[i]` when it is not above `a[j]` (or the right run is empty) emits the next element of the merge |
| `Merging.TakeFromRight` | A2/A2.cpp:35-36 | taking `a[j]` when it is below `a[i]` (or the left run is empty) emits the next element of the merge |
| `Merging.CopyBack` | A2/a2_experiments.cpp:76 | the copy-back makes `a[l..r)` equal to `tmp[l..r)` and changes nothing else in `a` |
| `MergeSort.Midpoint` | A2/A2.cpp:25 | `m = l + (r - l) / 2` lies in `[l, r]`, strictly inside once the range has two elements; the halves differ by at most one |
| `MergeSort.HybridStep` | A2/a2_experiments.cpp:81-86 | a range goes to insertion sort exactly when its length is at most the threshold; otherwise it is split inside the range |
| `MergeSort.ThresholdZeroRepeats` | A2/a2_experiments.cpp:81-88 | with threshold 0 a one-element range `[l, l + 1)` is split at `m == l`, so the call on `[m, r)` repeats its own arguments |
| `MergeSort.HybridSplitShrinks` | A2/a2_experiments.cpp:81-88 | with threshold at least 1, both recursive calls are on strictly shorter ranges |
| `MergeSort.MergedSorted` | A2/a2_experiments.cpp:65-76 | merging two sorted halves leaves the range sorted |
| `MergeSort.MergedPerm` | A2/a2_experiments.cpp:67-76 | merging the halves only rearranges the range |
| `MergeSort.MergedSegment` | A2/a2_experiments.cpp:64-76 | sorting the halves and merging them leaves a sorted rearrangement of the original range |
| `MergeSort.MergeSortStdRec` | A2/a2_experiments.cpp:62-77 | `merge_sort_std_rec`: the range ends sorted and permuted, with nothing outside changed and `tmp` written only inside `[l, r)` |
| `MergeSort.MergeSortHybridRec` | A2/a2_experiments.cpp:79-99 | `merge_sort_hybrid_rec`, for threshold at least 1: the range ends sorted and permuted, with `tmp` written only inside `[l, r)`; it terminates |
| `MergeSort.MergeSortA2` | A2/A2.cpp:19-42 | A2.cpp's `merge_sort` (the hybrid with threshold 15) sorts and permutes the range |
| `MergeSort.SortVector` | A2/A2.cpp:53-56 | `main` sorts the whole vector through a fresh buffer of the same size when it has more than one element |
| `MergeSort.SameResult` | A2/a2_experiments.cpp:62-99 | for any threshold of at least 1, the plain and the hybrid merge sort leave identical vectors, the one sorted rearrangement of the input |
| `SortSpec.SortedPermUnique` | A2/a2_experiments.cpp:62-99 | two sorted rearrangements of the same segment are equal |
| `SortSpec.SortIdempotent` | A2/a2_experiments.cpp:62-99 | sorting an already sorted segment changes nothing: a sorted permutation of a sorted segment is that segment |
| `SortSpec.SwapIsPerm` | A3i/A3i.cpp:50 | swapping two positions of a segment is a permutation of that segment |
| `Generators.SortAscending` | A3i/a3_experiments.cpp:41 | `std::sort`: a sorted rearrangement of its input |
| `Generators.AscendingIsAnySort` | A2/a2_experiments.cpp:22 | every sorted rearrangement equals `SortAscending`, so the model agrees with any implementation of `std::sort` |
| `Generators.SortDescending` | A3i/a3_experiments.cpp:37-38 | `std::sort` with `std::greater<int>`: a non-increasing rearrangement of its input |
| `Generators.XorshiftValue` | A3i/a3_experiments.cpp:33-35 | every generated value `draw % (maxValue + 1)` lies in `[0, maxValue]` |
| `Generators.DisplacedSwap` | A3i/a3_experiments.cpp:46 | one swap moves at most two positions away from the ascending order |
| `Generators.DisplacedPrefix` | A3i/a3_experiments.cpp:56 | a prefix is out of place in no more positions than the whole vector |
| `Generators.SortedStart` | A2/a2_experiments.cpp:22-23 | sorting the already sorted `random_` again changes nothing; reversed and sorted copies hold the same values |
| `Generators.RandomKindSorted` | A2/a2_experiments.cpp:22 | for the draws 1, 0 the vector the as-written constructor keeps as random is `[0, 1]`, not the draws |
| `Generators.ArrayGenerator.Xorshift` | A3i/a3_experiments.cpp:31-48 | the xorshift constructor: `random[k]` is the `k`-th generator value; `reversed` is its non-increasing order; `almost` holds the same values and differs from the ascending order in at most `2 * (maxSize / 20)` positions |
| `Generators.ArrayGenerator.DrawXorshift` | A3i/a3_experiments.cpp:32-35 | the value loop stores the first `maxSize` generator values, with the generator advanced by `maxSize` steps; the other two vectors are untouched |
| `Generators.ArrayGenerator.SwapXorshift` | A3i/a3_experiments.cpp:42-47 | the `maxSize / 20` swaps keep the values; each displaces at most two positions |
| `Generators.ArrayGenerator.DrawPositions` | A3i/a3_experiments.cpp:44-45 | two `next_int(0, maxSize)` draws: the generator advances two steps, each position is the low half of one of the new states reduced mod `maxSize`, and so lies in `[0, maxSize)` |
| `Generators.ArrayGenerator.MtAsWritten` | A2/a2_experiments.cpp:12-31 | the mt19937 constructor as written: `random` ends up as the sorted draws and `reversed` as their non-increasing order; the class invariant holds |
| `Generators.ArrayGenerator.Mt` | A2/a2_experiments.cpp:12-31 | the constructor with line 22 corrected: `random` is the draws as drawn; the class invariant holds |
| `Generators.ArrayGenerator.DrawMt` | A2/a2_experiments.cpp:15-16 | the value loop stores the draws in order; the other two vectors are untouched |
| `Generators.ApplySwaps` | A2/a2_experiments.cpp:24-30 | the first `k` swaps, applied in order, keep the values and leave at most `2k` positions changed |
| `Generators.ApplySwapsNext` | A2/a2_experiments.cpp:27-29 | swap `k + 1` exchanges `positions[2k]` and `positions[2k + 1]` in the result of the first `k` swaps |
| `Generators.ArrayGenerator.SwapPairs` | A2/a2_experiments.cpp:26-30 | the swap loop's result is the `swaps` swaps applied in order |
| `Generators.ArrayGenerator.SwapMt` | A2/a2_experiments.cpp:24-30 | `almost` becomes the ascending values with the `maxSize / 20` swaps applied in order; `random` and `reversed` are untouched; the class invariant holds |
| `Generators.ArrayGenerator.Fill` | A3i/a3_experiments.cpp:50-57 | `fill` (also a2_experiments.cpp:33-40) for `n <= maxSize`: `dest` is the first `n` elements of the chosen vector; a reversed prefix is non-increasing; an almost-sorted prefix is out of ascending order in at most `2 * (maxSize / 20)` positions |

## Left out

- Input and output are not modelled. This covers the `main` functions' reading and printing (A3i/A3i.cpp:88-121 apart from lines 102-111; A2/A2.cpp:44-63) and the CSV output. `SortTester` and its `std::chrono` timing loops are measurement code with no sorting logic.
- experiments.cpp and A1/a1i.cpp, a floating-point Monte-Carlo estimate, are not part of this model.
- Elements are unbounded `int`s. The sources use `long long` and `int`, and nothing in the sorts does arithmetic on elements.
- Lengths are at most `2^31 - 1`, the range of the sources' `int` indices. The xorshift routines require this, since `next_int` casts the span to 32 bits.
- `std::make_heap` and `std::sort_heap` have no visible source. `Heap` replaces them with a sift-down heap sort under the same contract: a sorted permutation of the segment. The exact intermediate order of the library heap is not modelled.
- `std::sort` in the generators is `SortAscending` or `SortDescending`. `AscendingIsAnySort` shows that the sorted result does not depend on the algorithm.
- The draws of `std::mt19937` through `std::uniform_int_distribution` are parameters of the mt19937 constructors: the values, and two positions per swap. The constructors require them to lie in the distributions' ranges.
- The global `rng_state` of A3i.cpp is modelled as a `FastRng` object. `Introsort.SortInput` creates it at the same seed (`XorShift.DEFAULT_SEED`) and passes it to the partition. `Introsort.Introsort` is proved for every generator state.
- The two `ArrayGenerator` classes have the same fields and the same `fill`, so they are one class with one constructor per source. The xorshift constructor's generator is a local object, because nothing reads it after construction.
- The `almost_.resize(maxSize_)` at A2/a2_experiments.cpp:21 is not modelled. Line 23 overwrites it.
- `fill` returns the prefix as a new sequence. It does not resize and write a caller's vector.
- `QuickSort.QuickSortRec`: does not model a run that never ends. `quick_sort_rec` has no progress guarantee, because a partition may return `right - 1` and then the loop continues on the same segment. The model takes a bound on the partition rounds per level and reports whether it finished. It is sorted whenever it did, and only permuted in any case.
- `Partition.Partition`: the contract allows `p == right - 1` but does not exhibit an input that reaches it. One such input is the segment `[1, 2]` with the pivot 2.
- `Generators.ArrayGenerator.SwapXorshift`: does not state which positions are swapped or the generator's final state. Nothing reads the generator after construction. The contract holds for any positions in `[0, maxSize)`.
- The mt19937 constructors require `maxSize >= 1`, because `uniform_int_distribution(0, maxSize - 1)` needs a non-empty range.
- `Generators.ArrayGenerator.Xorshift`: requires `0 <= maxValue < 2^31 - 1`. A larger value makes `maxValue + 1` overflow, and -1 makes the modulus zero. Negative values below -1 are also excluded, though the source then draws from a wrapped unsigned range.
- `MergeSort.MergeSortStdRec`: does not state what `tmp` holds inside `[l, r)` afterwards. Nothing reads it. The same holds for `MergeSortHybridRec` and `MergeSortA2`.

## Findings

| source | as written | input that shows it | evidently intended | confidence | as-written member | corrected member |
|---|---|---|---|---|---|---|
| A2/a2_experiments.cpp:81-88 | with `threshold == 0`, a one-element range is split at `m == l`, and the call on `[m, r)` repeats its own arguments, so the recursion never ends | `threshold = 0`, `l = 0`, `r = 1` | thresholds of at least 1 (the driver passes 5, 10, 20, 30, 50) | not executed; latent, since no caller passes 0 | `MergeSort.ThresholdZeroRepeats` | `MergeSort.MergeSortHybridRec` |
| A2/a2_experiments.cpp:22 | `std::sort(random_)` sorts the random vector itself before copying it into `almost_`, so `fill(Random)` hands out ascending data | draws 1, 0: `random_` becomes `[0, 1]` | sort only the copy in `almost_`, as A3i/a3_experiments.cpp:40-41 does | not executed | `Generators.RandomKindSorted` | `Generators.ArrayGenerator.Mt` |
