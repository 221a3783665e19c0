# Enceladus sorting routines in Dafny

This project models the two generic in-place sorting routines of the
`enceladus` Rust data-structures library. Both routines sort a list through
the library's `List` interface. The caller passes the comparator
`cmp(a, b)`, which reads "a may come before b".

- `bubblesort` (`src/bubblesort.rs`) works as an exchange sort. For each
  position `i`, an inner pass walks `j` from the last position down to
  `i + 1`. It swaps `list[i]` and `list[j]` whenever `cmp(list[j], list[i])`
  holds.
- `insertion_sort` (`src/insertion_sort.rs`) saves `key = list[j]`. It moves
  earlier elements one place to the right while `cmp(key, list[i])` holds,
  then writes `key` into the gap.

A list is a Dafny `array<T>`. The three `List` operations the sorts call
are `Lists.Get`, `Lists.Set` and `Lists.Swap`. Each one reports
`OutOfBounds` for a position outside the list. Rust's `?` becomes Dafny's
`:-`.

Each sort is a method that runs the source's loops on the array, and the
proof goes in three steps:

1. The method's postcondition says the final array equals a function of the
   initial contents: `Bubble.BubbleSorted` or `Insertion.InsertionSorted`.
2. Those functions are written in "state after k iterations" form.
   `Bubble.Passes`, `Bubble.Scan` and `Insertion.Insertions` are the
   invariants of bubble sort's two loops and of insertion sort's outer loop.
   Insertion sort's inner `while` loop uses another form. Its invariant says
   that finishing the loop from the current state, followed by the final
   write of `key`, gives the same list as the whole loop from its start
   (`Insertion.Shift`). `Insertion.ShiftInserts` then says what that list is.
3. Lemmas about the functions prove what the source's loops promise:
   - the frozen prefix;
   - the minimum placed at `i`;
   - the sorted prefix of the outer loop;
   - the shifted cells of the inner loop;
   - the final permutation and sortedness.

Two results hold for every comparator:

- the output is a permutation of the input;
- the result is `Ok(())`.

Sortedness needs a total preorder. Module `Scenarios` replays the unit
tests of both files with the tests' comparator `cmp_leq`, which is `<=`. It
also proves that under a total order both routines leave any list in the
same state.

## Model

| member | source | states |
|---|---|---|
| Lists.Get | src/list.rs:10 | `get(pos)` succeeds exactly when `pos` is below the length, and then returns the element at `pos` |
| Lists.Set | src/list.rs:12 | `set(pos, elem)` succeeds exactly when `pos` is in bounds. On success only cell `pos` changes, to `elem`. On failure the list is unchanged |
| Lists.Swap | src/list.rs:17 | `swap(i, j)` succeeds exactly when both positions are in bounds. On success the list becomes `Swapped` of the old one. On failure the list is unchanged |
| Lists.Swapped | src/list.rs:17 | exchanging two positions puts each element at the other's place. It leaves every other position alone and preserves the length and the multiset |
| Ordering.SortedHeadFirst | src/bubblesort.rs:45-51 | helper of `Ordering.SortedUnique`: under a total comparator, the first element of a sorted list may come before every element of the list |
| Ordering.SortedTail | src/bubblesort.rs:45-51 | helper of `Ordering.SortedUnique`: dropping the head of a sorted list leaves it sorted |
| Ordering.SortedSameHead | src/bubblesort.rs:45-51 | helper of `Ordering.SortedUnique`: under a total antisymmetric comparator, two non-empty sorted lists with the same elements start with the same element |
| Ordering.SameTails | src/bubblesort.rs:45-51 | helper of `Ordering.SortedUnique`: two lists with the same elements and the same first element have tails with the same elements |
| Ordering.SortedUnique | src/bubblesort.rs:45-51 | under a total antisymmetric comparator, two sorted lists with the same elements are equal, so a sorted result is determined by the input's multiset |
| Bubble.Step | src/bubblesort.rs:16-18 | one inner iteration, which swaps `i` and `j` when `cmp(list[j], list[i])`, keeps the list's length. `ScanPermutes` and `ScanFrame` state the rest for the whole pass |
| Bubble.Scan | src/bubblesort.rs:15-19 | the inner pass keeps the list's length. `ScanPermutes`, `ScanFrame` and `ScanMin` state what else it does |
| Bubble.ScanPermutes | src/bubblesort.rs:15-19 | the inner pass changes the list only by swaps, so it keeps the list's multiset |
| Bubble.ScanFrame | src/bubblesort.rs:15-17 | during outer iteration `i`, positions before `i` and positions the pass has not reached are never changed |
| Bubble.ScanMin | src/bubblesort.rs:15-19 | with a total preorder, after the pass has processed `j`, `list[i]` may come before every `list[k]` with `k >= j`. At the end of the pass `list[i]` is a minimum of `list[i..n)` |
| Bubble.ScanKeepsLowerBound | src/bubblesort.rs:15-19 | a value that may come before every element of `list[i..n)` still may after the pass, because the pass only permutes those cells |
| Bubble.Passes | src/bubblesort.rs:14-20 | the outer loop, after any number of iterations, keeps the list's length |
| Bubble.PassesPermutes | src/bubblesort.rs:14-20 | the outer loop, after any number of iterations, keeps the list's multiset |
| Bubble.PassesInvariant | src/bubblesort.rs:14-20 | with a total preorder, at the start of outer iteration `i`, `list[0..i)` is sorted and each of its elements may come before every element of `list[i..n)` |
| Bubble.PlaceNext | src/bubblesort.rs:14-20 | one outer iteration takes the outer-loop invariant for `i` to the invariant for `i + 1` |
| Bubble.BubbleSorted | src/bubblesort.rs:8-10 | a list of length 0 or 1 is left unchanged |
| Bubble.BubbleSortedSorts | src/bubblesort.rs:6-23 | the result has the input's length and multiset. With a total preorder it is sorted |
| Bubble.BubbleSortedKeepsSorted | src/bubblesort.rs:97-114 | with a total order, an already sorted list comes back unchanged |
| Bubble.BubbleSort | src/bubblesort.rs:6-23 | the routine returns `Ok(())`, ends in the state `BubbleSorted` of the input, is a permutation of the input, and with a total preorder is sorted |
| Insertion.Shift | src/insertion_sort.rs:21-27 | the inner `while` loop from `i` plus the final write of `key` keep the list's length. `Insertion.ShiftInserts` states what list they produce |
| Insertion.StopAt | src/insertion_sort.rs:21 | the inner loop stops at the highest index that is `-1` or fails `cmp(key, list[i])`. Every element above that index and up to the start passed the test |
| Insertion.InsertedAt | src/insertion_sort.rs:22-27 | position by position, inserting `key` after `k` and dropping `t[j]` keeps `t[0..k]`, puts `key` at `k + 1`, shifts `t[k+1..j-1]` right by one, and keeps the cells after `j` |
| Insertion.ShiftInserts | src/insertion_sort.rs:19-27 | inner-loop invariant: while cells `0..i` hold the originals, cells `i+2..j` hold the original `list[i+1..j-1]` shifted right and later cells are untouched, the rest of the loop and the final write insert `key` right after the stop index |
| Insertion.InsertKeepsSorted | src/insertion_sort.rs:18-27 | with a total preorder, putting `key` after the elements that fail `cmp(key, x)` and before those that pass turns the sorted `list[0..j)` into a sorted `list[0..j]` |
| Insertion.Insertions | src/insertion_sort.rs:15-28 | the outer loop, after any number of iterations, keeps the list's length. `InsertionStep`, `InsertionsInvariant` and `InsertionsSorted` state what else it does |
| Insertion.InsertionStep | src/insertion_sort.rs:15-28 | one outer iteration inserts `list[j]` right after the inner loop's stop index and drops its old cell |
| Insertion.InsertedPermutes | src/insertion_sort.rs:22-27 | writing `key` into the gap makes `list[0..j]` the multiset of the old `list[0..j)` plus `key`, and leaves the cells after `j` alone |
| Insertion.InsertionsInvariant | src/insertion_sort.rs:15-18 | at the start of outer iteration `j`, `list[0..j)` is a permutation of the original `list[0..j)` and `list[j..n)` is untouched |
| Insertion.InsertionsSorted | src/insertion_sort.rs:15-18 | with a total preorder, `list[0..j)` is sorted at the start of outer iteration `j` |
| Insertion.InsertionSorted | src/insertion_sort.rs:9-11 | a list of length 0 or 1 is left unchanged |
| Insertion.InsertionSortedSorts | src/insertion_sort.rs:7-31 | the result has the input's length and multiset. With a total preorder it is sorted |
| Insertion.InsertionSortedKeepsSorted | src/insertion_sort.rs:105-122 | with a total order, an already sorted list comes back unchanged |
| Insertion.InsertionSort | src/insertion_sort.rs:7-31 | the routine returns `Ok(())`, ends in the state `InsertionSorted` of the input, is a permutation of the input, and with a total preorder is sorted |
| Scenarios.CmpLeq | src/bubblesort.rs:31-33 | the tests' comparator `cmp_leq`, which is `a <= b`. `Scenarios.CmpLeqIsTotalOrder` states its property |
| Scenarios.CmpLeqIsTotalOrder | src/bubblesort.rs:31-33 | the tests' comparator `a <= b` is a total order |
| Scenarios.SortsAgree | src/insertion_sort.rs:7-31 | with a total order, `bubblesort` and `insertion_sort` leave every list in the same state |
| Scenarios.FiveSorted | src/bubblesort.rs:45-51 | the tests' expected list `[0, 1, 4, 12, 33]` is non-decreasing |
| Scenarios.FivePermuted | src/bubblesort.rs:39-51 | the expected list holds the elements of the test input `[33, 12, 0, 1, 4]` |
| Scenarios.FiveSortedForm | src/bubblesort.rs:39-51 | the only non-decreasing arrangement of `[33, 12, 0, 1, 4]` is `[0, 1, 4, 12, 33]` |
| Scenarios.BubbleSortNormal | src/bubblesort.rs:36-61 | `bubblesort` with `<=` turns `[33, 12, 0, 1, 4]` into `[0, 1, 4, 12, 33]` and returns `Ok(())` |
| Scenarios.BubbleSortEmpty | src/bubblesort.rs:64-76 | `bubblesort` leaves the empty list empty and returns `Ok(())` |
| Scenarios.BubbleSortSingle | src/bubblesort.rs:79-94 | `bubblesort` leaves `[1]` unchanged and returns `Ok(())` |
| Scenarios.BubbleSortSortedTwo | src/bubblesort.rs:97-114 | `bubblesort` leaves `[1, 12]` unchanged and returns `Ok(())` |
| Scenarios.InsertionSortNormal | src/insertion_sort.rs:44-69 | `insertion_sort` with `<=` turns `[33, 12, 0, 1, 4]` into `[0, 1, 4, 12, 33]` and returns `Ok(())` |
| Scenarios.InsertionSortEmpty | src/insertion_sort.rs:72-84 | `insertion_sort` leaves the empty list empty and returns `Ok(())` |
| Scenarios.InsertionSortSingle | src/insertion_sort.rs:87-102 | `insertion_sort` leaves `[1]` unchanged and returns `Ok(())` |
| Scenarios.InsertionSortSortedTwo | src/insertion_sort.rs:105-122 | `insertion_sort` leaves `[1, 12]` unchanged and returns `Ok(())` |

## Left out

- src/arraylist.rs is not part of this model. The bounds behaviour of `Lists.Get`, `Lists.Set` and `Lists.Swap` is the reading of the `List` interface (src/list.rs:10-17): a position below the length succeeds and any other position gives `OutOfBounds`.
- `length()` (src/list.rs:15) is modelled as the array's length and cannot fail. The interface lets it return an error, but no implementation of it is part of this model.
- The remaining `List` operations are not modelled, because the sorts never call them: `new`, `get_mut`, `insert`, `remove`, `append`, `contains`, `find_all`, `find`, `count` and `clear`.
- The `isize` conversion `(j - 1).try_into().unwrap()` (src/insertion_sort.rs:19) is not modelled. `i` is an unbounded `int`, so the panic branch for lengths beyond `isize::MAX` is not modelled.
- Rust's `usize` and the tests' `u64` are modelled as unbounded integers. This is exact because no index or element computation comes near the bounds.
- The element cloning in `insertion_sort` (src/insertion_sort.rs:16, 22-23, 27) is modelled as copying a value. The trait bounds `Eq + Clone + Display + Debug` have no counterpart.
- The routines are not proved stable. The source makes no such promise, and `bubblesort`'s long-distance swaps are in fact not stable.
- The comparator is modelled as a pure, total Dafny function. A Rust comparator that panics partway through a sort, leaving the list partly sorted, is not modelled.
- For a comparator that is not a total preorder, only the permutation property and the `Ok(())` result are proved. The source promises nothing more for such comparators.
- src/hashmap.rs and src/adjmat_graph.rs contain only struct declarations and have no operations to model.
- src/heap.rs wraps the standard library's binary heap, whose behaviour is not part of this model.
- The other trait-only files (src/map.rs, src/set.rs, src/stack.rs, src/queue.rs, src/priority_queue.rs, src/graph.rs, src/tree.rs) declare signatures without behaviour.
- src/arraytree.rs has only structural equality and `Display` formatting. src/error.rs, src/lib.rs and all `Display` impls are an error enum, a module list and string formatting. `Lists.Error` keeps the one variant `OutOfBounds`.
