# tiny_stl algorithms, heap, vector and helpers in Dafny

This project models the core of `tiny_stl`, a header-only re-implementation
of parts of the C++ standard library. It covers:

- the range algorithms of `algobase.hpp` and `algo.hpp`: copying, filling,
  comparing, searching, binary search, reversing, rotating, permuting,
  partitioning, removing, de-duplicating, merging, sorting and
  `nth_element`;
- the binary-heap primitives of `heap_algo.hpp`;
- the growable array of `vector.hpp`;
- the iterator helpers and `reverse_iterator` of `iterator.hpp`;
- `get_temporary_buffer`, `temporary_buffer` and `auto_ptr` of `memory.hpp`;
- `swap`, `swap_range` and `pair` of `utility.hpp`;
- the function objects and hashes of `functional.hpp`.

The model has value semantics. A range `[first, last)` is a `seq<int>` with
offsets into it, and an iterator is an offset. An algorithm that writes
through iterators takes the whole sequence and returns the new one together
with the iterator the C++ function returns. Output ranges that may share
storage with the input are modelled on one sequence. `copy` and
`copy_backward` are modelled by their element loops: the forward loop of
`copy`, and the backward loop of `copy_backward`. For `int` pointers the
library calls `memmove` and `memcpy` instead (see "Left out"), and these
give other values on some overlaps. Element comparisons use `<` on
`int`. A comparator overload is the same loop with another relation and is
not modelled separately.

Every operation is tied to a partner:
- a reference definition, for example `Merged`, `Reversed`, `Rotated`,
  `Filtered`, `Deduped`, `Inserted`, `Erased`, `FirstNotLess` and `Gcd`;
- or an invariant it keeps, for example the heap property, `Sorted`, or
  the permutation of the input;
- or an inverse, for example erase after insert, or a second swap.

The modules follow the source files:

| module | file | models |
|---|---|---|
| `Ranges` | ranges.dfy | shared predicates (`Sorted`, `CutAt`, `SameOutside`) and permutation lemmas |
| `AlgoBase` | algobase.dfy | `algobase.hpp` |
| `HeapAlgo` | heap.dfy | `heap_algo.hpp`, `is_heap`, and the `make_heap`/`sort_heap` that `partial_sort` calls |
| `Search` | search.dfy | `lower_bound`, `upper_bound`, `binary_search`, `equal_range` |
| `Searching` | searching.dfy | `find`, `search`, `search_n`, `find_end`, `adjacent_find`, `includes`, `is_sorted`, `max_element`, `min_elememt` |
| `Rearrange` | rearrange.dfy | `reverse`, `reverse_copy`, `swap_ranges` |
| `Orbits` | orbits.dfy | the number theory behind the random-access `rotate` |
| `Rotate` | rotate.dfy | `rotate` in three iterator tiers, `rgcd`, `rotate_copy` |
| `Reorder` | reorder.dfy | `next_permutation`, `prev_permutation`, `partition`, `remove_copy`, `remove`, `unique_copy`, `unique` |
| `Merge` | merge.dfy | `merge`, `merge_backward` |
| `Inplace` | inplace.dfy | `rotate_adaptive`, `merge_without_buffer`, `merge_adaptive`, `inplace_merge` |
| `SortAlgo` | sort.dfy | `median`, `slg2`, `unchecked_partition`, `partial_sort`, `intro_sort`, the insertion sorts, `sort`, `nth_element` |
| `Findings` | findings.dfy | `nth_element` and `unchecked_insertion_sort` as written |
| `Iterators` | iterator.dfy | `distance`, `advance`, `reverse_iterator` |
| `Memory` | memory.dfy | `get_buffer_helper`, `temporary_buffer`, `auto_ptr` |
| `Utility` | utility.dfy | `swap`, `swap_range`, array `swap`, `pair` |
| `Functional` | functional.dfy | the function objects, integral `hash`, `bitwise_hash` |
| `Vector` | vector.dfy | `vector` |

Modelling choices:
- Allocation failure is a parameter: a `bool` for `try_init`, and a
  predicate `mallocOk` over byte counts for `get_temporary_buffer`.
- The `size_type` arithmetic of `vector::get_new_cap` wraps modulo 2^64,
  as on a 64-bit platform.
- `max_size()` is `(2^64 - 1) / sizeof(T)`, with the element size as a
  parameter.
- `INT_MAX` in `memory.hpp` is 2^31 - 1.

## Model

| member | source | states |
|---|---|---|
| AlgoBase.Max | include/algobase.hpp:21-23 | the result is one of the arguments and is at least both of them; on a tie it is the second argument |
| AlgoBase.Min | include/algobase.hpp:30-32 | the result is one of the arguments and is at most both of them; on a tie it is the second argument |
| AlgoBase.MaxBy | include/algobase.hpp:25-28 | with a comparator: the second argument when `compare(left, right)` holds, otherwise the first |
| AlgoBase.MinBy | include/algobase.hpp:34-37 | with a comparator: the second argument when `compare(right, left)` holds, otherwise the first |
| AlgoBase.MaxMinByExtreme | include/algobase.hpp:25-37 | under a strict weak order, no argument is greater than `max` and none is less than `min` |
| AlgoBase.IterSwap | include/algobase.hpp:39-42 | the two positions exchange their elements and every other position is unchanged |
| AlgoBase.IterSwapInvolution | include/algobase.hpp:39-42 | swapping twice restores the sequence, and a swap is a permutation |
| AlgoBase.Copy | include/algobase.hpp:54-62 | the destination window holds the source range when the two do not overlap harmfully; nothing outside the window changes; the result is the end of the window |
| AlgoBase.CopyBackward | include/algobase.hpp:98-107 | the window ending at `dest` holds the source range, copied from the back; nothing outside it changes; the result is its start |
| AlgoBase.FillN | include/algobase.hpp:289-296 | the first `n` positions hold `value` (none for `n <= 0`); the rest is unchanged; the result is the end of the filled part |
| AlgoBase.Fill | include/algobase.hpp:315-332 | every position of `[first, last)` holds `value` and the rest is unchanged |
| AlgoBase.Equal | include/algobase.hpp:266-275 | true exactly when the first range equals the prefix of the second |
| AlgoBase.Mismatch | include/algobase.hpp:373-381 | the first position where the ranges differ: equal before it, different at it unless the first range ended |
| AlgoBase.LexicographicalCompare | include/algobase.hpp:334-346 | true exactly when the first range is lexicographically less than the second |
| AlgoBase.LexTrichotomy | include/algobase.hpp:334-346 | lexicographic order is a strict total order: exactly one of less, equal or greater |
| AlgoBase.LexTransitive | include/algobase.hpp:334-346 | lexicographic order is transitive |
| AlgoBase.Memcmp | include/algobase.hpp:363-371 | `memcmp` over `n` bytes is zero exactly when the prefixes are equal |
| AlgoBase.LexCompareBytesAgrees | include/algobase.hpp:363-371 | the `unsigned char` overload, using `memcmp` and then the lengths, agrees with the generic lexicographic order |
| HeapAlgo.Parent | include/heap_algo.hpp:11-12 | `(hole - 1) / 2` is the node whose children are `2p + 1` and `2p + 2` |
| HeapAlgo.HeapRootMax | include/heap_algo.hpp:8-18 | in a max-heap every element is at most the root |
| HeapAlgo.HeapRootBounds | include/heap_algo.hpp:8-18 | in a non-empty heap the root bounds the whole range |
| HeapAlgo.PushHeapAux | include/heap_algo.hpp:8-18 | sifting `value` up from `hole` towards `top` leaves a heap under `top`, holding the old elements with `value` in the hole, and changes nothing off the path |
| HeapAlgo.AdjustHeap | include/heap_algo.hpp:55-73 | moving the hole down to a leaf along the larger child and then pushing `value` up gives a heap under the hole with the same elements, other subtrees unchanged |
| HeapAlgo.WalkDown | include/heap_algo.hpp:58-71 | the downward walk stops at a node without a second child and keeps the links of the heap around the hole |
| HeapAlgo.PopHeapAux | include/heap_algo.hpp:75-80 | the root goes to `dest`, `dest`'s old element is re-inserted, and the prefix stays a heap with the expected elements |
| HeapAlgo.PopHeap | include/heap_algo.hpp:82-86 | the maximum moves to the last position, the rest is a heap, and the range is a permutation |
| HeapAlgo.PushHeap | include/heap_algo.hpp:20-29 | given a heap followed by one new element, the result is a heap and a permutation |
| HeapAlgo.IsHeapCheck | include/algo.hpp:737-748 | `is_heap` is true exactly when every child is at most its parent |
| HeapAlgo.MakeHeap | include/algo.hpp:1589 | `make_heap` gives a heap with the same elements |
| HeapAlgo.SortHeap | include/algo.hpp:1595 | `sort_heap` gives a sorted permutation of a heap |
| HeapAlgo.SortedJoin | include/algo.hpp:1595 | two sorted runs, the first at most the second, join into a sorted run |
| HeapAlgo.InTreeRoot | include/heap_algo.hpp:11-12 | every position lies under the root in the parent tree |
| Search.FirstNotLessAt | include/algo.hpp:376-395 | the reference `FirstNotLess` is the unique position with smaller elements before it and not-smaller at it |
| Search.FirstGreaterAt | include/algo.hpp:467-486 | the reference `FirstGreater` is the unique position with at-most elements before it and greater at it |
| Search.SortedPartitioned | include/algo.hpp:415-418 | a sorted range is partitioned with respect to every value |
| Search.LowerBound | include/algo.hpp:376-418 | binary search returns the first position not less than `value`: below it all smaller, from it none smaller |
| Search.UpperBound | include/algo.hpp:467-511 | binary search returns the first position greater than `value` |
| Search.BinarySearch | include/algo.hpp:560-564 | true exactly when `value` occurs in the sorted range |
| Search.EqualRange | include/algo.hpp:574-632 | when `value` occurs, the pair of lower and upper bound, and every element between equals `value`; when it does not, both ends are `last` |
| Search.LowerBoundIn | include/algo.hpp:592 | the inner lower-bound search of `equal_range` finds the first position not less than `value` |
| Search.UpperBoundIn | include/algo.hpp:593-594 | the inner upper-bound search of `equal_range` finds the first position greater than `value` |
| Search.BoundsExample | include/algo.hpp:415-418 | in `[1, 2, 3, 3, 4, 5]` the bounds of 3 are 2 and 4 |
| Searching.Find | include/algo.hpp:67-73 | the first position holding `value`, or the end |
| Searching.Search | include/algo.hpp:92-118 | the first position where the pattern occurs, or the end; an empty pattern occurs at the start |
| Searching.SearchN | include/algo.hpp:148-171 | the first position of a run of `n` copies of `value`, or the end; the start for `n <= 0` |
| Searching.FindEndForward | include/algo.hpp:209-228 | the last position where the pattern occurs, or the end when none; the end for an empty pattern |
| Searching.FindEndBidirectional | include/algo.hpp:230-248 | the same last occurrence, found by searching the reversed ranges |
| Searching.FindEnd | include/algo.hpp:250-257 | both tiers give the last occurrence |
| Searching.LastMatchUnique | include/algo.hpp:209-248 | the last occurrence is unique, so the two tiers agree |
| Searching.AdjacentFind | include/algo.hpp:345-358 | the first position equal to its successor, or the end |
| Searching.Includes | include/algo.hpp:707-720 | on sorted ranges, true exactly when the second is a sub-multiset of the first |
| Searching.IsSorted | include/algo.hpp:762-773 | true exactly when the range is sorted |
| Searching.MaxElement | include/algo.hpp:822-832 | the first position of a maximum; the end for an empty range |
| Searching.MinElement | include/algo.hpp:846-856 | the first position of a minimum; the end for an empty range |
| Rearrange.ReversedInvolution | include/algo.hpp:975-995 | reversing twice gives the range back |
| Rearrange.ReversedConcat | include/algo.hpp:975-995 | reversing a concatenation reverses and swaps the parts |
| Rearrange.ReversedMultiset | include/algo.hpp:975-995 | reversing is a permutation |
| Rearrange.ReverseBidirectional | include/algo.hpp:975-983 | the exchange-from-both-ends loop reverses `[first, last)` and nothing else |
| Rearrange.ReverseRandomAccess | include/algo.hpp:985-990 | the random-access loop reverses `[first, last)` and nothing else |
| Rearrange.Reverse | include/algo.hpp:992-995 | `reverse` reverses `[first, last)` whatever the iterator tier |
| Rearrange.ReverseCopy | include/algo.hpp:997-1006 | the output window holds the reversed range; the rest of the output is unchanged; the result is the window's end |
| Rearrange.SwapRanges | include/algo.hpp:870-877 | two disjoint ranges exchange contents, the rest is unchanged, and the result is the end of the second range |
| Orbits.QuotRem | include/algo.hpp:1079-1117 | the subtraction-based quotient and remainder agree with division |
| Orbits.GcdDivides | include/algo.hpp:1069-1077 | the gcd is zero only for two zeros and otherwise divides both arguments |
| Orbits.GcdGreatest | include/algo.hpp:1069-1077 | every common divisor divides the gcd |
| Orbits.Bezout | include/algo.hpp:1069-1077 | the gcd is an integer combination of the arguments |
| Orbits.PosPeriod | include/algo.hpp:1079-1117 | a cycle of the rotation map closes after `n / gcd` steps |
| Orbits.PosDistinct | include/algo.hpp:1079-1117 | the positions of one cycle are pairwise different |
| Orbits.PosCover | include/algo.hpp:1079-1117 | every position with the cycle's residue lies on the cycle |
| Orbits.PosResidue | include/algo.hpp:1079-1117 | every position on cycle `i` is congruent to `i` modulo the gcd |
| Rotate.RotatedIndex | include/algo.hpp:1119-1127 | element `k` of the rotation is element `(k + m) mod n` of the input |
| Rotate.RotatedInverse | include/algo.hpp:1119-1127 | rotating by `m` and then by `n - m` gives the range back; a rotation is a permutation |
| Rotate.Rgcd | include/algo.hpp:1069-1077 | Euclid's loop returns the greatest common divisor |
| Rotate.RotateForward | include/algo.hpp:1029-1050 | the forward tier rotates the range so that `middle` comes first and returns where the old first element went |
| Rotate.ThreeReversals | include/algo.hpp:1052-1067 | reversing both blocks and then the whole range rotates it |
| Rotate.RotateBidirectional | include/algo.hpp:1052-1067 | the bidirectional tier rotates the range and returns the new position of the first element |
| Rotate.RotateRandomAccess | include/algo.hpp:1079-1117 | the cycle-walking tier rotates the range and returns the new position of the first element |
| Rotate.WalkShort | include/algo.hpp:1094-1102 | the `l < r` walk visits one whole cycle, moving each element `l` places to the front |
| Rotate.WalkLong | include/algo.hpp:1103-1111 | the `l > r` walk visits one whole cycle, moving each element `l` places to the front |
| Rotate.Rotate | include/algo.hpp:1119-1127 | `[first, last)` is rotated so that `middle` comes first, the rest is unchanged, and the result is `first + (last - middle)` |
| Rotate.RotateCopy | include/algo.hpp:1129-1133 | the output window holds `[middle, last)` then `[first, middle)`; the rest of the output is unchanged |
| Reorder.ReversedOrder | include/algo.hpp:1212-1277 | reversing a non-increasing range sorts it, and the other way round |
| Reorder.NextPermutation | include/algo.hpp:1212-1232 | a permutation of the input; false exactly when the input is non-increasing, and then the sorted range; otherwise lexicographically greater |
| Reorder.PrevPermutation | include/algo.hpp:1257-1277 | a permutation of the input; false exactly when the input is sorted, and then the non-increasing range; otherwise lexicographically less |
| Reorder.Partition | include/algo.hpp:1673-1692 | a permutation whose elements satisfying `pred` come before the cut and the others from it |
| Reorder.PartitionSwap | include/algo.hpp:1688-1690 | one exchange of the partition loop keeps the permutation and grows both finished ends |
| Reorder.FilteredMultiset | include/algo.hpp:898-915 | removing `value` leaves exactly the other elements, with their counts |
| Reorder.FilteredIdempotent | include/algo.hpp:898-915 | removing a value twice is removing it once |
| Reorder.RemoveCopy | include/algo.hpp:898-907 | the output window holds the range without `value`, in order; the rest is unchanged; the result is the window's end |
| Reorder.Remove | include/algo.hpp:909-915 | the kept prefix is the range without `value`; the tail is unchanged; the result is the prefix's end |
| Reorder.DedupedNoAdjacent | include/algo.hpp:1921-1994 | after de-duplication no two neighbours are equal |
| Reorder.DedupedFixed | include/algo.hpp:1921-1994 | a range without equal neighbours is its own de-duplication |
| Reorder.DedupedIdempotent | include/algo.hpp:1921-1994 | de-duplicating twice is de-duplicating once |
| Reorder.UniqueCopyForward | include/algo.hpp:1921-1930 | the forward-output tier writes the range with each run of equal neighbours collapsed to its first element |
| Reorder.UniqueCopyOutput | include/algo.hpp:1932-1944 | the output-iterator tier writes the same collapsed range, comparing with a copy of the last written value |
| Reorder.UniqueCopy | include/algo.hpp:1946-1952 | for every tier, including an empty range, the output window holds the collapsed range and nothing else changes |
| Reorder.Unique | include/algo.hpp:1990-1994 | the prefix is the collapsed range, the tail is unchanged, and the result is the prefix's end |
| Merge.MergedPerm | include/algo.hpp:1302-1316 | the merge holds the elements of both inputs |
| Merge.MergedSorted | include/algo.hpp:1302-1316 | the merge of two sorted ranges is sorted |
| Merge.MergedIsSort | include/algo.hpp:1302-1316 | any sorted arrangement of the two sorted inputs is their merge |
| Merge.MergedBackAgrees | include/algo.hpp:1366-1390 | on sorted inputs, merging from the back gives the same result as merging from the front |
| Merge.Merge | include/algo.hpp:1302-1316 | the output window holds the stable merge of the two ranges; nothing else changes; the result is its end |
| Merge.MergeBackward | include/algo.hpp:1366-1390 | the window ending at `result` holds the merge from the back; nothing else changes; the result is its start |
| Inplace.RotateAdaptive | include/algo.hpp:1392-1409 | through the buffer or by `rotate`, the two blocks exchange places and the new middle is `first + len2` |
| Inplace.Cuts | include/algo.hpp:1349-1359 | the cut points come from `lower_bound`/`upper_bound` around a pivot taken from the longer run, and they separate the elements by that pivot |
| Inplace.MergeWithoutBuffer | include/algo.hpp:1334-1364 | merging by rotations merges two sorted runs in place: the range becomes the sorted permutation of both runs, nothing else changes |
| Inplace.AdaptiveStepOf | include/algo.hpp:1411-1445 | one call of `merge_adaptive`: it goes through the buffer from the front exactly when the first run is the shorter one and fits; a split happens only when neither run fits the buffer, and puts the new middle at `first_cut + (second_cut - middle)` between the two cuts |
| Inplace.AdaptiveZeroBufferRepeats | include/algo.hpp:1411-1445 | with no buffer, `[2, 1]` split at 1 cuts at `(0, 1)`, the exchange moves nothing, and the second recursive call repeats the original call |
| Inplace.AdaptiveSplitShrinks | include/algo.hpp:1411-1445 | with a buffer of at least one element, both recursive calls of a split are on shorter ranges |
| Inplace.MergeAdaptive | include/algo.hpp:1411-1445 | with a buffer of at least one element, the two runs are merged in place |
| Inplace.MergedInIsMerge | include/algo.hpp:1447-1467 | a range merged in place equals `merge` of the two runs |
| Inplace.InplaceMerge | include/algo.hpp:1447-1467 | with or without a temporary buffer, `[first, last)` becomes `merge` of the two runs and nothing outside it moves |
| SortAlgo.Pow2 | include/algo.hpp:1711-1716 | the powers of two used by `slg2` are positive |
| SortAlgo.Median | include/algo.hpp:788-803 | the result is one of the three values and at least two values lie on each side of it |
| SortAlgo.MedianSentinels | include/algo.hpp:1742-1744 | the median of the first, middle and last elements occurs in the range and has an element at most it after the start |
| SortAlgo.Slg2 | include/algo.hpp:1711-1716 | `2^k <= n < 2^(k+1)`; 0 for `n <= 1` |
| SortAlgo.UncheckedPartition | include/algo.hpp:1718-1732 | given elements on both sides of the pivot, the result is a permutation cut into a part at most the pivot and a part at least it, with the cut inside the range |
| SortAlgo.PartialSort | include/algo.hpp:1587-1596 | a permutation whose first `middle` elements are sorted and at most every later element |
| SortAlgo.IntroSort | include/algo.hpp:1734-1748 | a permutation in which any two elements at least 128 positions apart are in order and there is a non-empty first section of at most 128 elements with nothing after it smaller than anything in it; ranges of at most 128 elements are left alone |
| SortAlgo.UncheckedLinearInsert | include/algo.hpp:1750-1760 | inserting `value` into a sorted prefix whose first element is at most it keeps the prefix sorted and adds `value` |
| SortAlgo.UncheckedInsertionSort | include/algo.hpp:1762-1767 | given a sorted head and no later element below the first, the result is a sorted permutation |
| SortAlgo.InsertionSort | include/algo.hpp:1769-1782 | the result is a sorted permutation |
| SortAlgo.FinalInsertionSort | include/algo.hpp:1784-1792 | after `intro_sort`, the final pass of the corrected program gives a sorted permutation. As written, the pass over elements past the 128th loses values (Findings.SortByRefCounterexample) |
| SortAlgo.Sort | include/algo.hpp:1794-1799 | the corrected `sort`, which copies the value it inserts, gives a sorted permutation; an empty range is untouched. As written, `sort` on more than 128 elements can lose values (Findings.SortByRefCounterexample) |
| SortAlgo.SortIsReference | include/algo.hpp:1794-1799 | any sorted permutation of the input, so the result of `sort`, is exactly the reference merge sort `SortedOf` |
| SortAlgo.SortedOf | include/algo.hpp:1794-1799 | reference sort by merging sorted halves: a sorted permutation of the input, of the same length |
| SortAlgo.NthElement | include/algo.hpp:1887-1901 | a permutation with no element before `nth` greater than the one at `nth` and none after it smaller, and the value at `nth` is the one a full sort puts there; with `nth == last` the range is untouched |
| SortAlgo.NthIsSortedValue | include/algo.hpp:1887-1901 | an element with nothing greater before it and nothing smaller after it holds the value that every sorted arrangement has at its position |
| SortAlgo.NthFinish | include/algo.hpp:1891-1900 | the final insertion sort of the remaining section puts the `nth` element in place |
| Findings.MedianPos | include/algo.hpp:788-803 | `median` returns a reference to one of the three positions, holding the median value |
| Findings.PartitionByRef | include/algo.hpp:1718-1732 | the partition loop with the pivot read through a reference is still a permutation |
| Findings.PartitionCounterexample | include/algo.hpp:1718-1732 | partitioning `[0, 2, 1, 0, 1, 0]` around the element at position 3 (a 0) through a reference gives `[0, 0, 1, 2, 1, 0]` cut at 3: a 1 before the cut and a 0 after it |
| Findings.NthElementByRef | include/algo.hpp:1887-1901 | `nth_element` as written keeps the length |
| Findings.NthElementByRefCounterexample | include/algo.hpp:1887-1901 | on `[0, 2, 1, 0, 1, 0]` with `nth == 2` an element after `nth` is smaller than the one at `nth` |
| Findings.InsertAfter | include/algo.hpp:1769-1782 | inserting a value into a sorted sequence, after the elements not larger than it, adds exactly that value and keeps the order |
| Findings.InsertionSorted | include/algo.hpp:1769-1782 | the reference insertion sort is a sorted permutation |
| Findings.InsertionSortedIsReference | include/algo.hpp:1769-1782 | the reference insertion sort equals the sorted arrangement `SortedOf`, so it leaves a sorted range alone |
| Findings.PartitionByValue | include/algo.hpp:1718-1732 | `unchecked_partition` with a copied pivot value, as `intro_sort` calls it, is a permutation |
| Findings.IntroSortLongRound | include/algo.hpp:1734-1747 | on `[1, 2, ..., 128, 0]` the pivot is 1 and the partition swaps the two ends and cuts at 1, so `intro_sort` stops with `[0, 2, ..., 128, 1]` |
| Findings.FinalInsertionSortByRef | include/algo.hpp:1784-1792 | `final_insertion_sort` as written on more than 128 elements keeps the length |
| Findings.FinalPassLosesValue | include/algo.hpp:1762-1792 | the final pass as written turns `[0, 2, ..., 128, 1]` into `[0, 2, ..., 128, 128]`, so the 1 is lost |
| Findings.SortByRefCounterexample | include/algo.hpp:1794-1799 | `sort` as written on `[1, 2, ..., 128, 0]` returns something that is not a permutation of its input |
| Findings.UncheckedInsertionSortByRef | include/algo.hpp:1762-1767 | `unchecked_insertion_sort` as written keeps the length |
| Findings.UncheckedInsertionSortByRefCounterexample | include/algo.hpp:1750-1767 | on `[0, 2, 1]` from position 2 the result is `[0, 2, 2]`, not a permutation |
| Iterators.DistanceInput | include/iterator.hpp:410-420 | counting steps gives the random-access difference `last - first` |
| Iterators.Distance | include/iterator.hpp:450-454 | every tier gives `last - first` |
| Iterators.AdvanceInput | include/iterator.hpp:464-469 | `n >= 0` single steps move the iterator by `n` |
| Iterators.AdvanceBidirectional | include/iterator.hpp:480-489 | single steps forward or back move the iterator by `n` of either sign |
| Iterators.Advance | include/iterator.hpp:499-503 | every tier moves the iterator by `n` |
| Iterators.ReverseTraversal | include/iterator.hpp:569-696 | `rbegin() + k` and `rbegin()[k]` reach element `n - 1 - k`, `rbegin() + n == rend()`, and `rend() - rbegin() == n` |
| Iterators.ReverseSteps | include/iterator.hpp:595-670 | `k` increments equal `+ k`; `- k` undoes `+ k`; `--` undoes `++`; the difference counts the steps |
| Iterators.ReverseOrder | include/iterator.hpp:691-794 | the comparisons of reverse iterators agree with the sign of their difference and with one another |
| Memory.MaxElements | include/memory.hpp:19-20 | `INT_MAX / sizeof(T)` is the largest element count whose byte size fits in `INT_MAX` |
| Memory.Clamped | include/memory.hpp:19-21 | the request is clamped to that count and kept when it fits |
| Memory.GrantedBounds | include/memory.hpp:23-31 | the grant is the first of `len, len / 2, len / 4, ...` that `malloc` accepts: a positive grant is one of those halvings and `malloc` accepted it; every larger halving was refused, so a grant of zero means every attempt failed; the whole request is granted when `malloc` accepts it |
| Memory.HalvingBounds | include/memory.hpp:23-31 | every count the halving loop asks for is positive and at most the clamped request |
| Memory.GetBufferHelper | include/memory.hpp:18-41 | the returned size is the clamped, halved grant; a buffer exists exactly when the size is positive |
| Memory.NewTemporaryBuffer | include/memory.hpp:77-107 | `temporary_buffer` records the requested length and holds at most that many elements, in storage `malloc` granted |
| Memory.TemporaryBufferExample | include/memory.hpp:93-107 | a request for 10 four-byte elements that `malloc` accepts is granted in full |
| Memory.Release | include/memory.hpp:144-148 | `release` returns the pointer and leaves the `auto_ptr` empty |
| Memory.CopyConstruct | include/memory.hpp:118-119 | copy construction takes ownership and empties the source |
| Memory.Assign | include/memory.hpp:121-127 | self-assignment changes nothing; otherwise ownership moves and the old pointer is deleted |
| Memory.AssignConverting | include/memory.hpp:128-134 | the converting assignment changes nothing when both hold the same pointer; otherwise ownership moves |
| Memory.Reset | include/memory.hpp:150-155 | the `auto_ptr` holds `p` afterwards; the old pointer is deleted only when it differs from `p` |
| Memory.TransferKeepsSoleOwner | include/memory.hpp:109-156 | after a copy or an assignment, at most one of the two `auto_ptr`s owns the pointer |
| Utility.Swap | include/utility.hpp:40-44 | the two values exchange |
| Utility.SwappedRangesInvolution | include/utility.hpp:46-53 | swapping the same ranges twice restores both sequences |
| Utility.SwapRange | include/utility.hpp:46-53 | the range of the first sequence and the window of the second exchange contents; the result is the window's end |
| Utility.SwappedRangesExample | include/utility.hpp:46-53 | swapping the first three elements of `[1, 2, 3, 4, 5]` and `[5, 4, 3, 2, 1]` |
| Utility.SwapArrays | include/utility.hpp:55-57 | two arrays of one length exchange contents |
| Utility.MakePair | include/utility.hpp:221-223 | the pair holds the two arguments |
| Utility.PairSwap | include/utility.hpp:178-182 | `pair::swap` exchanges the two pairs |
| Utility.PairEqual | include/utility.hpp:185-188 | pairs are equal exactly when both components are |
| Utility.PairNotEqual | include/utility.hpp:196-199 | `!=` is the negation of `==` |
| Utility.PairOrderInt | include/utility.hpp:190-214 | on integers, `<` is lexicographic on (first, second), and `>`, `<=`, `>=` follow from it |
| Utility.PairTrichotomyInt | include/utility.hpp:190-194 | on integers, pair `<` is a strict total order |
| Utility.PairIncomparable | include/utility.hpp:190-194 | two pairs are incomparable exactly when both components are incomparable |
| Utility.PairStrictWeakOrder | include/utility.hpp:190-194 | pair `<` built from strict weak orders is a strict weak order |
| Utility.PairTransitive | include/utility.hpp:190-194 | pair `<` is transitive |
| Functional.MinusNegateInverse | include/functional.hpp:19-41 | for the functors `plus`, `minus` and `negate` (Functional.Plus, Minus, Negate): `minus` undoes `plus`, and `negate` gives the additive inverse |
| Functional.Divides | include/functional.hpp:31-33 | the quotient is truncated: its sign is the product of the signs, and it is 0 when `|x| < |y|` |
| Functional.Modulus | include/functional.hpp:35-37 | the remainder is smaller than the divisor in size and takes the sign of the dividend |
| Functional.DivModIdentity | include/functional.hpp:31-37 | `(x / y) * y + x % y == x` |
| Functional.DividesExamples | include/functional.hpp:31-37 | truncating division agrees with Euclidean division on non-negative operands; `-7 / 2 == -3` rem `-1` |
| Functional.IdentityElement | include/functional.hpp:43-45 | 0 and 1 leave every operand of `plus` and `multiplies` unchanged |
| Functional.ComparisonsFromLess | include/functional.hpp:47-69 | every comparison functor of Functional.Compare is determined by `less` |
| Functional.LogicalDeMorgan | include/functional.hpp:71-81 | De Morgan's laws relate `logical_and`, `logical_or` and `logical_not` |
| Functional.ProjectionsOfMakePair | include/functional.hpp:83-110 | `select1st` and `select2nd` (Functional.Select1st, Select2nd) take a pair apart and agree with `project1st` and `project2nd` (Functional.Project1st, Project2nd); `identity` returns its argument |
| Functional.HashIntegral | include/functional.hpp:120-157 | the hash is the value reduced into `[0, 2^64)`: unchanged in range, `val + 2^64` for a negative value |
| Functional.HashExamples | include/functional.hpp:120-157 | through Functional.HashBool, HashChar (a signed 8-bit `char`), HashChar32 (`char32_t`) and HashIntegral: `hash<bool>(true) == 1`, `hash<char>('a') == 97`, the byte 0xE9 (the `char` -23) hashes to `2^64 - 23`, `hash<char32_t>(U+00E9) == 233`, `hash<int>(-1) == 2^64 - 1` |
| Functional.Fnv1aConcat | include/functional.hpp:178-192 | FNV-1a is a left fold: hashing `a + b` continues the hash of `a` with `b` |
| Functional.BitwiseHash | include/functional.hpp:178-192 | the loop computes 64-bit FNV-1a of the first `count` bytes; no bytes give the offset basis |
| Functional.Fnv1aTestVector | include/functional.hpp:178-192 | the 64-bit FNV-1a hash of `"a"` is `0xaf63dc4c8601ec8c` |
| Vector.EraseUndoesInsert | include/vector.hpp:346-390 | erasing what was inserted gives the original elements |
| Vector.InsertUndoesErase | include/vector.hpp:346-390 | re-inserting an erased slice gives the original elements |
| Vector.Default | include/vector.hpp:409-418 | an empty vector with room for 16 elements, or no storage when allocation fails |
| Vector.FillInit | include/vector.hpp:434-439 | `n` copies of `value` with capacity `max(16, n)` |
| Vector.RangeInit | include/vector.hpp:442-448 | the elements of the range with capacity `max(16, len)` |
| Vector.GetNewCapAsWritten | include/vector.hpp:457-471 | `get_new_cap` with wrapping `size_type` arithmetic, as written |
| Vector.GetNewCapWraps | include/vector.hpp:459-460 | for 4-byte elements a request of 2^62 passes the length check and exceeds `max_size()` |
| Vector.GetNewCap | include/vector.hpp:457-471 | fails with `length_error` exactly when the capacity plus the request exceeds `max_size()`; otherwise at least that sum, at least 16 from empty, at least 1.5 times the capacity when that fits, and within `max_size()` |
| Vector.GetNewCapAgrees | include/vector.hpp:457-471 | when the request is at most `max_size()`, the code as written gives the corrected answer |
| Vector.Reserve | include/vector.hpp:274-287 | fails exactly when growing past `max_size()`; otherwise the same elements with capacity `max(capacity, n)` |
| Vector.ReserveIdempotent | include/vector.hpp:274-287 | reserving the same amount twice is reserving it once |
| Vector.At | include/vector.hpp:137-146 | the element at `n` when `n < size()`, otherwise `out_of_range` |
| Vector.Equal | include/vector.hpp:659-663 | true exactly when the element sequences are equal |
| Vector.Less | include/vector.hpp:665-669 | true exactly when the elements are lexicographically less |
| Vector.LessEq | include/vector.hpp:681-684 | `!(right < left)`: less or equal |
| Vector.GreaterEq | include/vector.hpp:686-689 | `!(left < right)`: greater or equal |
| Vector.Erase | include/vector.hpp:379-390 | the elements without `[first, last)`, the same capacity, and the result `first` |
| Vector.EraseAt | include/vector.hpp:369-377 | the elements without position `pos`, the same capacity, and the result `pos` |
| Vector.Reallocated | include/vector.hpp:543-562 | moving into new storage of capacity `cap` inserts the new elements at `pos` |
| Vector.Insert | include/vector.hpp:346-367 | `value` is inserted before `pos`; the vector grows by `get_new_cap(1)` only when full; that growth failing is the only error |
| Vector.InsertRange | include/vector.hpp:606-643 | the range is inserted before `pos`; storage grows by `get_new_cap(n)` only when the spare room is too small; that growth failing is the only error |
| Vector.InsertWithRoom | include/vector.hpp:612-625 | with enough spare room the range is inserted in place and the capacity is kept |
| Vector.FillInsert | include/vector.hpp:564-603 | `n` copies of `value` are inserted before `pos`. The capacity is kept when the spare room suffices and otherwise becomes the corrected `get_new_cap(n)`. That growth failing is the only error, so `n > max_size()` fails, where the source's wrapped check lets it through |
| Vector.Resize | include/vector.hpp:392-399 | shrinking keeps the first `k` elements; growing appends copies of `value`; the new size is `k`. It fails exactly when `k` exceeds the capacity and the corrected `get_new_cap(k - size())` fails |

## Left out

- `move` and `move_backward` (include/algobase.hpp:175-263) are `copy` and `copy_backward` on values; moved-from states are not modelled.
- The comparator overloads (for example include/heap_algo.hpp:31-53 and 88-120, and the `Compare` versions in algo.hpp) are the same loops with another relation. Only `max` and `min` are modelled with a comparator.
- AlgoBase.Copy: models the element loop of `copy`, not the `memmove` that `copy` uses on pointers to trivially copyable types (include/algobase.hpp:69-79). The two agree unless `dest` lies strictly inside `(first, last)`. There `memmove` copies the source intact, while the forward loop overwrites source elements before reading them. The contract says nothing about that case.
- `lbound_dispatch` for random-access iterators (include/algo.hpp:397-413) falls off its end without a `return`; the model returns `first` there, as evidently intended.
- AlgoBase.CopyBackward: models the backward element loop, not the `memcpy` that `copy_backward` uses on pointers to trivially copyable types (include/algobase.hpp:117-128). `memcpy` is undefined on overlapping ranges. Callers that hand it a destination overlapping the source are `insertion_sort` (include/algo.hpp:1776), the comparator `insertion_sort` (include/algo.hpp:1861), `rotate_adaptive` (include/algo.hpp:1400, modelled by Inplace.RotateAdaptive), `emplace` (include/vector.hpp:310) and `insert` (include/vector.hpp:360, modelled by Vector.Insert). The model gives these callers the backward element copy, which is the behaviour their algorithms need.
- The generic `unchecked_copy`, `unchecked_copy_backward` and `copy_n` fall off their ends without a `return` (include/algobase.hpp:64-67, 109-115, 168-172); the model returns the end of the written range.
- The comparator `intro_sort` and `nth_element` pick the pivot with the `<` form of `median` (include/algo.hpp:1826-1827, 1911), and the comparator `binary_search` drops `compare` in its `lower_bound` call (include/algo.hpp:569). Only the `<` forms are modelled, where this does not arise.
- `find_first_of` (include/algo.hpp:313-323) returns an iterator into the second range where one into the first is meant; it is not modelled.
- `partial_sort_copy` (include/algo.hpp:1609-1671) is not modelled; `partial_sort` is.
- `vector`'s `emplace_back` (include/vector.hpp:323-324), `shrink_to_fit` (include/vector.hpp:291), `fill_assign` (include/vector.hpp:480), move assignment (include/vector.hpp:264-272) and copy assignment (include/vector.hpp:258) do not work as written and are not modelled.
- `random_shuffle` (include/algo.hpp:1008-1027) depends on `rand()` and is left out.
- Reorder.NextPermutation: states that the result is a lexicographically greater permutation, not that it is the next one. Minimality is not stated.
- Reorder.PrevPermutation: states that the result is a lexicographically smaller permutation, not that it is the previous one.
- HeapAlgo.MakeHeap and HeapAlgo.SortHeap: `make_heap` and `sort_heap` are called by `partial_sort` (include/algo.hpp:1589, 1595) but defined in none of the library's headers; they are built here from `adjust_heap` and `pop_heap` and specified as giving a heap and a sorted permutation, not as copies of a definition.
- Inplace.MergeAdaptive: requires a buffer of at least one element; with no buffer the recursion need not end (see Findings).
- `vector`'s `push_back`, `emplace`, `emplace_back`, `pop_back`, `shrink_to_fit`, `assign` (`fill_assign`, `copy_assign`), `operator=`, `swap` and `reinsert` are left out. The copy-assignment logic only rearranges storage; `push_back` (include/vector.hpp:331-338) tests `_end != _cap` the wrong way round and is not modelled.
- Vector: exceptions thrown by element copies and the `try`/`catch` clean-up paths are not modelled; allocation can fail only in `try_init`.
- Vector.GetNewCap and Vector.Reserve: `max_size()` assumes a 64-bit `size_t`.
- Vector.FillInsert and Vector.Resize: grow through the corrected Vector.GetNewCap, so a caller's `n` (or `k - size()`) above `max_size()` gives `length_error`. As written (include/vector.hpp:397, 586 via 459-460), the wrapped check lets such a request through and allocates a capacity above `max_size()` (Findings row 3).
- `hash` for pointers (include/functional.hpp:114-118) and for `float`, `double` and `long double` (include/functional.hpp:194-216) is left out: the model has neither addresses nor floating point.
- Functional.HashChar: takes a signed 8-bit `char`, as on x86-64 GCC; where `char` is unsigned, a byte of 0x80 or above hashes to itself instead. The other integral specialisations (include/functional.hpp:126-157) are Functional.HashIntegral of the value, and `char32_t` is Functional.HashChar32.
- Functional.BitwiseHash: models only the 64-bit FNV-1a branch, not the 32-bit constants used when pointers are 4 bytes.
- Functional.Divides and Functional.Modulus: integers are unbounded, so overflow of `INT_MIN / -1` is not modelled. `plus`, `minus` and `multiplies` likewise do not wrap.
- Utility.PairOrderInt and Utility.PairTrichotomyInt: are stated for `int` components; for general components see Utility.PairStrictWeakOrder.
- Utility.SwapRange: the two ranges are in different sequences; the case of one sequence is Rearrange.SwapRanges.
- `temporary_buffer`'s element initialisation and destructor are left out; only the size it obtains is modelled.
- The iterator category dispatch is a `Category` parameter instead of a type tag.
- Vector.FillInsert: is modelled by the range insertion of `n` copies of `value`, which writes the same elements as the fill branches of `fill_insert`.
- Memory.GetBufferHelper: `malloc` is the parameter `mallocOk`, so which sizes succeed is left open.

## Findings

| source | as written | input that shows it | evidently intended | confidence | as-written member | corrected member |
|---|---|---|---|---|---|---|
| include/algo.hpp:1887-1901 | `nth_element` binds the pivot to the element `median` returns by reference, and `unchecked_partition` then swaps that element, so the pivot value changes during the partition | `[0, 2, 1, 0, 1, 0]`, `nth == 2`: the result has an element after position 2 smaller than the one at position 2 | copy the pivot value first, as `intro_sort` does | high, not executed | Findings.NthElementByRefCounterexample | SortAlgo.NthElement |
| include/algo.hpp:1762-1767 | `unchecked_insertion_sort` passes `*i` by reference to `unchecked_linear_insert`, whose first shift overwrites that element | `[0, 2, 1]` from position 2 gives `[0, 2, 2]`; through `sort`, the 129 elements `[1, 2, ..., 128, 0]` give `[0, 2, ..., 128, 128]` (Findings.SortByRefCounterexample) | copy the value first, as `insertion_sort` does | high, not executed | Findings.UncheckedInsertionSortByRefCounterexample | SortAlgo.UncheckedInsertionSort |
| include/vector.hpp:459-460 | the length check computes `max_size() - add_size` in unsigned arithmetic, which wraps when `add_size > max_size()` | 4-byte elements, empty vector, request 2^62: no `length_error`, and a capacity above `max_size()` | throw whenever `capacity() + add_size > max_size()` | medium, not executed | Vector.GetNewCapWraps | Vector.GetNewCap |
| include/algo.hpp:1411-1445 | `merge_adaptive` with `buffer_size == 0` splits, and the second recursive call can have the same arguments as the first | `[2, 1]` with `middle == 1` and no buffer: the cut is `(0, 1)`, the exchange moves nothing, and the second call repeats the original | a buffer of at least one element; `inplace_merge` passes a non-empty buffer or none, so this is latent | low, not executed | Inplace.AdaptiveZeroBufferRepeats | Inplace.AdaptiveSplitShrinks |
