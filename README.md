# Sorting routines of `sort.h`, verified

This project models the in-place sorting routines of the `sorting`
repository and proves what each one promises: its result is the sorted
order of its input, rearranged in place, and nothing outside its buffers
changes. It also models `issorted`, the routine the timing harness uses to
check a result.

The elements are `int`. The C code sorts `double` but only ever compares
elements with `<`, `<=` and `>`. A C slice `double *p` of length `n` becomes
an `array<int>` with a window `[lo, lo + n)`, and a pointer `p + k` becomes
the index `lo + k`. The routines that take a whole buffer (`selectionsort`,
`msort`, `qs`, ...) sort `a[0..n)` of an array that may be longer.

Modules follow the code:

- `Primitives`: `pswap`.
- `Orders`: the shared vocabulary.
  - `Sorted`.
  - `SameOutside`: two arrays agree outside a window.
  - `SortsWindow` / `SortedInPlace`: a window replaced by a sorted permutation of itself, stated once with slices and once element by element, with a lemma that the two mean the same.
  - `HoldsSortedPerm`: a sorted copy of a window placed in another buffer.
  - The uniqueness of a sorted permutation.
- `SimpleSorts`: `selectionsort`, `insertionsort`, `thebest`, `selsort`.
- `MergeSorts`:
  - the merge, stated as a function `Merged`, with its properties;
  - `xmerge`, `merge`, `rmsort`, `msort`;
  - the ping-pong sort `xrmsort` with its `phase`, and `xmsort`.
- `QuickSorts`: `partition` and `qs`.
- `Harness`:
  - `issorted`, checked against a first-descent function;
  - one round of `timetest`: run a sort, then check it.

Every routine that loops is a method with the same loop. Routines that
jump out of a loop (`goto done` in `partition`, `break` in `insertionsort`,
an early `return` in `issorted`, written as a `break`) keep that structure. In `partition`:

- each inner `while` is its own method, and reports whether it reached `done`;
- the code at `done` is the method `PlacePivot`, called at both jump sites.

## Model

| member | source | states |
|---|---|---|
| `Primitives.PSwap` | sort.h:23-28 | the two cells are exchanged; every other cell keeps its value; the array's multiset is unchanged |
| `SimpleSorts.SelectionSort` | sort.h:32-42 | `a[0..n)` ends sorted and a permutation of itself; nothing outside it changes |
| `SimpleSorts.SelectStep` | sort.h:34-41 | one outer pass keeps the selection invariant: exchanging `p[i]` with a minimum of `p[i..n)` extends the sorted, dominated prefix by one |
| `SimpleSorts.SelectedAll` | sort.h:34 | after `n` passes the selection invariant means the whole window is sorted |
| `SimpleSorts.InsertionSort` | sort.h:44-53 | `a[0..n)` ends sorted and a permutation of itself; nothing outside it changes |
| `SimpleSorts.TheBest` | sort.h:55-62 | for `n > 0` the result is in the window, at most every element of it, and strictly less than every element before it (the first minimum); for `n == 0` it is `p` itself |
| `SimpleSorts.SelSort` | sort.h:64-70 | `a[0..n)` ends sorted and a permutation of itself; nothing outside it changes |
| `MergeSorts.MergedFrom` | sort.h:80-90 | the merge of what is left of two runs has the combined length |
| `MergeSorts.Merged` | sort.h:80-90 | the merge of two runs has the combined length |
| `MergeSorts.MergedFromPerm` | sort.h:80-90 | merging loses and invents nothing: its multiset is the sum of both runs' remainders |
| `MergeSorts.MergedFromSorted` | sort.h:80-90 | merging two sorted runs gives a sorted result |
| `MergeSorts.MergedSortedPerm` | sort.h:80-90 | the merge of two sorted runs is a sorted permutation of their concatenation |
| `MergeSorts.MergedTakeLeft` | sort.h:82-83 | when the left head is `<=` the right head, the next merged element is the left head (ties go left) |
| `MergeSorts.MergedTakeRight` | sort.h:84-85 | otherwise the next merged element is the right head |
| `MergeSorts.MergedFromExhausted` | sort.h:86-90 | once one run is exhausted the rest of the merge is the rest of both runs, in order |
| `MergeSorts.CopyRun` | sort.h:87-93 | a `*d++ = *s++` loop copies `count` elements, writes nothing else and leaves the source alone |
| `MergeSorts.CopyTails` | sort.h:157-160 | the two tail loops leave both leftovers, left run first, after the merged prefix and write nothing else |
| `MergeSorts.TailsCompleteMerge` | sort.h:156-160 | with one run exhausted, the tail copies complete the merge in the window |
| `MergeSorts.XMerge` | sort.h:143-163 | `dst[dlo..dlo+n1+n2)` becomes the merge of the two source runs; nothing else of `dst` changes; `src` is only read |
| `MergeSorts.MergeStepKeeps` | sort.h:152-155 | one pass of the merge loop writes the next merged element and grows the written prefix by one |
| `MergeSorts.FinishMerge` | sort.h:157-160 | from the state where the merge loop stops, the tail loops finish the whole merge inside the window |
| `MergeSorts.Merge` | sort.h:73-95 | `src` over the window becomes the merge of its two runs, `scratch` holds the same, and nothing outside either window changes |
| `MergeSorts.PairSorted` | sort.h:103-107 | the conditional swap of two elements sorts them in place |
| `MergeSorts.OrderPair` | sort.h:103-107 | `if (*p > *(p+1)) pswap(...)` sorts the pair in place |
| `MergeSorts.MergeSortLevel` | sort.h:109-115 | sorting each half in place and then merging sorts the window in place (its helpers `MergeSortHalves`, `MergeSortWindows` and `MergeLevelRuns` restate the same step on slices) |
| `MergeSorts.LevelFrame` | sort.h:111-115 | the three steps of a level write only inside the level's window |
| `MergeSorts.RMSort` | sort.h:99-117 | the window is sorted in place; the scratch buffer is written only in its own window `[slo, slo+n)`; `n` of 0 and 1 included |
| `MergeSorts.MSort` | sort.h:119-138 | `a[0..n)` ends sorted and a permutation of itself; nothing outside it changes |
| `MergeSorts.SingletonSorted` | sort.h:171-173 | one element, copied or left in place, is a sorted run |
| `MergeSorts.PingPongLevel` | sort.h:183-201 | if the halves' sorted results lie side by side in one buffer, the final `xmerge` puts the sorted window into the other (its helpers `MergeRuns` and `MergeOfSortedRuns` state the merge of the two runs) |
| `MergeSorts.PhaseLevelIntoData` | sort.h:183-198 | phase 0: the halves, sorted at phase 1 into the scratch buffer, are merged into the data buffer |
| `MergeSorts.PhaseLevelIntoScratch` | sort.h:183-200 | phase 1: the halves, sorted at phase 0 in place, are merged into the scratch buffer |
| `MergeSorts.PhaseSingleton` | sort.h:171-173 | one element: at phase 1 it is copied to the scratch buffer; either copy gives the phase's result |
| `MergeSorts.PhasePair` | sort.h:174-181 | two elements: ordered in place and, at phase 1, copied out |
| `MergeSorts.XRMSort` | sort.h:169-203 | phase 0 leaves the sorted original window in `p`; phase 1 leaves it in `s`; only the two windows are written; the `exit(0)` branch cannot be reached |
| `MergeSorts.XMSort` | sort.h:206-225 | `a[0..n)` ends sorted and a permutation of itself; nothing outside it changes |
| `QuickSorts.Partition` | sort.h:230-257 | for `n >= 1`: the result `r` is below `n`; `p[r]` is the old `p[0]`; everything before it is `<=` it and everything after it is `>` it; the window is rearranged and nothing outside it changes |
| `QuickSorts.ScanUp` | sort.h:240-244 | `alpha` only grows and stays `<= beta`; it reaches `done` exactly when it meets `beta`; otherwise it stops at an element above the pivot; the scanned elements are all `<=` the pivot; every `p[alpha+1]` the guard reads lies in the window |
| `QuickSorts.ScanDown` | sort.h:246-250 | `beta` only shrinks and stays `>= alpha`; it reaches `done` exactly when it meets `alpha`; otherwise it stops at an element `<=` the pivot; every `p[beta]` the guard reads lies in `p[1..n)` |
| `QuickSorts.ExchangeOutOfPlace` | sort.h:251 | swapping `p[alpha+1]` and `p[beta]` keeps what the cursors established and the window's contents |
| `QuickSorts.SwapKeepsScanned` | sort.h:251 | the exchange inside the unscanned part keeps both scanned regions |
| `QuickSorts.PlacePivot` | sort.h:254-256 | once the cursors have met, moving the pivot to `p[alpha]` partitions the window there, and `alpha` is returned |
| `QuickSorts.PivotPlaced` | sort.h:255 | the final swap partitions the window around the pivot |
| `QuickSorts.SwapFrame` | sort.h:251-255 | a swap inside the window keeps everything outside it |
| `QuickSorts.QuickSort` | sort.h:259-272 | the window is sorted in place; recursion is only on the strictly shorter windows `[lo, lo+r)` and `[lo+r+1, lo+n)` |
| `QuickSorts.QuickSortLevel` | sort.h:264-270 | a partition at `m`, then sorting each side in place, sorts the window in place |
| `QuickSorts.BoundKept` | sort.h:265-267 | sorting the left side keeps it `<=` the pivot |
| `QuickSorts.AboveKept` | sort.h:268-270 | sorting the right side keeps it above the pivot |
| `QuickSorts.QSort` | sort.h:259-272 | `qs` on `a[0..n)`: sorted, a permutation of itself, nothing outside it changed |
| `Orders.SortedPermUnique` | sort.h:32-272 | a sorted permutation is unique, so all the sorts compute the same function |
| `Harness.AdjacentSortedIsSorted` | sort.c:253-259 | checking adjacent pairs is enough: adjacent order is equivalent to sortedness |
| `Harness.FirstDescentFrom` | sort.c:255-257 | the result is 0 exactly when all pairs from `i` on are in order; otherwise it is the first index `k > i` with `s[k] < s[k-1]` |
| `Harness.FirstDescent` | sort.c:253-259 | 0 exactly when all adjacent pairs are in order; otherwise `1 <= k < n`, `s[k] < s[k-1]`, and every pair before `k` is in order |
| `Harness.IsSorted` | sort.c:253-259 | for `n >= 1`, without writing the buffer: the result is the first descent; 0 exactly when `p[0..n)` is sorted; a nonzero `k` has `1 <= k <= n-1` and `p[k] < p[k-1]`, with every pair before it in order |
| `Harness.UnsignedPred` | sort.c:255 | `n - 1` on `unsigned int`: `n - 1` for `n >= 1` and 4294967295 for `n == 0` |
| `Harness.GuardAsWritten` | sort.c:255 | for `n >= 1` the unsigned guard `i < n - 1` is `i + 1 < n` |
| `Harness.EmptyWindowOverrun` | sort.c:255-256 | for `n == 0` the guard admits `i == 0`, so the first pass reads `p[1]` and `p[0]`, outside the empty window |
| `Harness.IsSortedAnyLength` | sort.c:253-259 | like `IsSorted`, for every `n` including 0, for which it returns 0 |
| `Harness.RunAndCheck` | sort.c:158-167 | for each of the six modelled routines (the table without `libqsort`), the buffer ends sorted and a permutation of its old contents, nothing past `n` changes, and the check reports no failure |
| `Harness.RoutinesAgree` | sort.c:10-18 | any two of the six modelled routines (the table without `libqsort`), run on buffers with the same first `n` elements, leave the same sorted result |

## Left out

- `libqsort` and `dcmp` (sort.h:10-18): they call the C library's `qsort`. That code is not part of this model.
- `msort` and `xmsort` when `malloc` fails (sort.h:130-134, 217-221): the message is printed and the buffer is left as it was. The model always allocates.
- Floating point: elements are `int`. NaN, signed zeros and rounding are not modelled.
- `initreverse`: it depends on floating-point rounding.
- Integer widths. Indices and lengths are unbounded naturals. The C code's `unsigned int` and `int` index variables do not wrap for buffers shorter than 2^31 elements, with two exceptions at `n == 0`. One is `issorted`, which is modelled (see Findings). The other is `partition`'s `unsigned int beta = n - 1` (sort.h:233), which is harmless: `partition` returns at its `n < 2` test before it reads `beta`, and `Partition` requires `n >= 1` (see below).
- The harness in `sort.c` is not modelled:
  - `main`, argument parsing and the sort table's `LSORTS` count (6 for 7 entries, so `qs` is never timed);
  - the clocks, `initrandomd`'s random input, the printing in `timetest`, `rtimetest`, `xtimetest` and `viewsort`.

  `RunAndCheck` keeps only the sort and the `issorted` call of `timetest`. It calls `IsSortedAnyLength`, the check that is safe at `n == 0`; for the `n >= 1` that `timetest` always passes it returns what `issorted` (`IsSorted`) returns.
- `Routine` has no entry for `libqsort`, the table's C-library sort, so `RunAndCheck` and `RoutinesAgree` cover the other six routines only.
- `xrmsort`'s `int phase` is a `bool`: true stands for any nonzero value.
- `MergeSorts.XRMSort`: requires `n >= 1`. For `n == 0` the C code writes `*s = *p` and then reaches `exit(0)`. `xmsort` and the recursion never pass 0.
- `QuickSorts.Partition`: requires `n >= 1`, because `pivot = *p` is read before the `n < 2` test.
- `Harness.IsSorted`: requires `n >= 1`, as the C routine needs. `IsSortedAnyLength` is the variant for every `n`.
- The merge loops assign the chosen head through a local value before storing it. `merge` is `xmerge` followed by the copy back, as the two C functions are the same up to that copy.

## Findings

| source | as written | input that shows it | evidently intended | confidence | as-written member | corrected member |
|---|---|---|---|---|---|---|
| sort.c:255 | `for (unsigned int i = 0; i < n - 1; i++)` with `n - 1` on `unsigned int` | `n == 0`: `n - 1` is 4294967295, so the loop runs and reads `p[1]` and `p[0]` outside an empty buffer | an empty buffer is sorted: return 0 and read nothing | not executed | `Harness.EmptyWindowOverrun` | `Harness.IsSortedAnyLength` |
