# Selection sort with a comparator

This project models the Kotlin selection sort in `src/sorting/SelectionSort.kt`. The sort is the extension function `Array<T>.selectionSort(comparator)`. It works in place on an array. Pass `i` scans positions `i + 1 .. size - 1` for the element the comparator ranks highest. A position `j` replaces the current candidate only when `comparator.compare(this[j], this[candidate]) > 0`. The pass then swaps the selected element into position `i`. Arrays of size 0 or 1 return at once. The file also has the private `swap` helper, two preset comparators over `Int`, and a `main` that runs two scenarios.

The model is the single module `Sorting` in `selection_sort.dfy`.

- The array is an `array<T>`.
- The comparator is a function value `(T, T) -> int`. `cmp(x, y) > 0` means `x` is ranked ahead of `y`, which is how the code reads the comparator.
- `SelectionSort` and `Swap` are imperative methods with the source's loops.
- The inner loop of a pass is the method `SelectIndex`.
- The functions `SelectFrom`, `Select`, `SortFrom` and `SelectionSorted` follow the same loops on sequences. The method is proved to leave exactly `SelectionSorted(cmp, old(a[..]))` in the array.
- The ordering, permutation, tie-break, idempotence and counting properties are lemmas about those functions. The method also states the ordering and permutation properties directly.
- The ghost out-parameter `calls` counts comparator calls.

Callers must pass a comparator that induces a total preorder, which is Java's `Comparator` contract:
- the sign flips when the arguments are swapped: `cmp(x, y) > 0` exactly when `cmp(y, x) < 0`;
- "ranked no higher" (`cmp(x, y) <= 0`) is transitive.

The sign condition is needed in both directions. Without it, the proof that the earliest of several tied best elements stays selected does not go through.

## Model

| member | source | states |
|---|---|---|
| Sorting.CompareTo | src/sorting/SelectionSort.kt:68-74 | `Int.compareTo` as the presets use it: the result is -1, 0 or 1, and its sign is negative, zero or positive exactly when `x < y`, `x == y` or `x > y` |
| Sorting.AscendingComparator | src/sorting/SelectionSort.kt:68-70 | the ascending preset `o2.compareTo(o1)` is positive exactly when `o1 < o2` and negative exactly when `o1 > o2`, so the smaller integer is ranked ahead |
| Sorting.DescendingComparator | src/sorting/SelectionSort.kt:72-74 | the descending preset `o1.compareTo(o2)` is positive exactly when `o1 > o2` and negative exactly when `o1 < o2`, so the larger integer is ranked ahead |
| Sorting.AscendingIsTotalPreorder | src/sorting/SelectionSort.kt:68-70 | the ascending preset `o2.compareTo(o1)` meets the comparator contract the sort requires |
| Sorting.DescendingIsTotalPreorder | src/sorting/SelectionSort.kt:72-74 | the descending preset `o1.compareTo(o2)` meets the comparator contract the sort requires |
| Sorting.AscendingOrderedIsNondecreasing | src/sorting/SelectionSort.kt:68-70 | a sequence is ordered by the ascending preset if and only if it is nondecreasing |
| Sorting.DescendingOrderedIsNonincreasing | src/sorting/SelectionSort.kt:72-74 | a sequence is ordered by the descending preset if and only if it is nonincreasing |
| Sorting.OrderedIffAdjacentOrdered | src/sorting/SelectionSort.kt:37-60 | for a transitive comparator, "no later element ranked above an earlier one" holds for all pairs if and only if it holds for adjacent pairs |
| Sorting.Swapped | src/sorting/SelectionSort.kt:62-66 | the exchanged sequence has the same length, holds each element at the other's index, and is unchanged at every other index |
| Sorting.SwappedIsPermutation | src/sorting/SelectionSort.kt:62-66 | an exchange keeps the multiset of elements, and exchanging an index with itself changes nothing |
| Sorting.Swap | src/sorting/SelectionSort.kt:62-66 | the array afterwards is the old contents with the two positions exchanged |
| Sorting.SelectFrom | src/sorting/SelectionSort.kt:50-55 | the inner scan from `j` returns either the candidate it started with or an index it scanned |
| Sorting.Select | src/sorting/SelectionSort.kt:47-55 | pass `i` selects an index in `i .. size - 1` |
| Sorting.SortFrom | src/sorting/SelectionSort.kt:46-59 | the passes from `i` on keep the length |
| Sorting.SelectionSorted | src/sorting/SelectionSort.kt:37-60 | the sort keeps the length |
| Sorting.FirstBestStart | src/sorting/SelectionSort.kt:47 | before the scan, the candidate `selectedItemIndex = i` is the first best element of `s[i..i]` |
| Sorting.FirstBestStep | src/sorting/SelectionSort.kt:50-55 | one step of the scan keeps the candidate the FIRST best element seen: the strict `> 0` test never lets a tied later element replace it |
| Sorting.FirstBestUnique | src/sorting/SelectionSort.kt:50-55 | the first best index of a range is unique |
| Sorting.SelectFromFirstBest | src/sorting/SelectionSort.kt:50-55 | running the scan to the end of the array yields the first best index of the whole scanned range |
| Sorting.SelectIsFirstBest | src/sorting/SelectionSort.kt:47-55 | pass `i` selects `r` if and only if `r` is the first best index in `s[i..]`: everything before `r` is ranked strictly lower and nothing after it higher |
| Sorting.SelectIndex | src/sorting/SelectionSort.kt:47-55 | the inner loop returns the first best index of `a[i..]`, which is the index `Select` gives, after exactly `size - (i + 1)` comparator calls |
| Sorting.PlaceBest | src/sorting/SelectionSort.kt:57-58 | swapping the first best element of `s[i..]` into position `i` turns a prefix of `i` placed elements into one of `i + 1` |
| Sorting.SortFromIsPermutation | src/sorting/SelectionSort.kt:46-59 | the remaining passes keep the multiset of elements |
| Sorting.SortFromOrders | src/sorting/SelectionSort.kt:46-59 | from a state whose first `i` positions are placed (the outer-loop invariant), the remaining passes leave the sequence ordered |
| Sorting.SelectionSortedIsOrderedPermutation | src/sorting/SelectionSort.kt:37-60 | the sort's result is ordered by the comparator and is a permutation of the input |
| Sorting.SortFromOrderedIsIdentity | src/sorting/SelectionSort.kt:46-59 | on an ordered sequence each remaining pass selects its own position, so nothing moves |
| Sorting.OrderedInputIsUnchanged | src/sorting/SelectionSort.kt:37-60 | an input already ordered by the comparator comes back exactly as it was, ties included |
| Sorting.SelectionSortedIsIdempotent | src/sorting/SelectionSort.kt:37-60 | sorting the sort's result again changes nothing |
| Sorting.SelectionSort | src/sorting/SelectionSort.kt:37-60 | the array afterwards holds `SelectionSorted` of its old contents; an array of size 0 or 1 is untouched; the result is ordered and a permutation; the comparator is called `PassCalls(size, size)` times. The outer loop keeps the first `i` positions placed. |
| Sorting.PassCallsClosedForm | src/sorting/SelectionSort.kt:46-55 | `PassCalls(n, i)` counts one comparator call per inner-loop step of the first `i` passes; twice the comparator calls of the first `i` passes over `n` elements is `i(2n - i - 1)` |
| Sorting.ComparisonCountClosedForm | src/sorting/SelectionSort.kt:18-21 | a full sort of `n` elements calls the comparator exactly `n(n - 1)/2` times, whatever the input order |
| Sorting.AscendingScenarioPasses | src/sorting/SelectionSort.kt:43-45 | on [2, 5, 3, 1, 7] with the ascending preset, pass 0 turns the array into [1, 5, 3, 2, 7] and pass 1 turns that into [1, 2, 3, 5, 7] |
| Sorting.AscendingScenario | src/sorting/SelectionSort.kt:26-28 | sorting [2, 5, 3, 1, 7] with the ascending preset gives [1, 2, 3, 5, 7] |
| Sorting.DescendingScenario | src/sorting/SelectionSort.kt:30-31 | sorting [1, 2, 3, 5, 7] with the descending preset gives [7, 5, 3, 2, 1] |
| Sorting.ByValueAscending | src/sorting/SelectionSort.kt:10-16 | the by-value ascending order of tagged integers: positive exactly when the first value is smaller, negative exactly when it is larger; the tag is ignored |
| Sorting.ByValueAscendingIsTotalPreorder | src/sorting/SelectionSort.kt:10-16 | comparing tagged integers by value alone meets the comparator contract |
| Sorting.NotStable | src/sorting/SelectionSort.kt:10-16 | sorting [4*, 2, 3, 4, 1] by value gives [1, 2, 3, 4, 4*]: the two equal 4s end up in the reverse of their input order, so the sort is not stable |
| Sorting.SortAscendingDemo | src/sorting/SelectionSort.kt:26-28 | a fresh array [2, 5, 3, 1, 7] sorted with the ascending preset holds [1, 2, 3, 5, 7], after 10 comparator calls |
| Sorting.Demo | src/sorting/SelectionSort.kt:25-32 | `main`: the array holds [1, 2, 3, 5, 7] after the ascending sort and then [7, 5, 3, 2, 1] after the descending sort of the same array, with 10 comparator calls each |

## Left out

- `assertTrue` and the `main` entry point are runtime machinery. `Demo` states the two asserted contents as postconditions instead of checking them when it runs.
- The bound `T : Comparable<T>` and the JVM `Comparator` interface are replaced by a comparator function together with the precondition `IsTotalPreorder`. The sort never calls `compareTo` on `T` itself.
- A comparator that breaks the total-preorder contract is outside the model: the sort requires the contract instead of describing what happens without it.
- `CompareTo`: the model returns exactly -1, 0 or 1. Kotlin only promises the sign of `Int.compareTo`, and only the sign is used here. `Int` is 32-bit, but comparing two `Int`s cannot overflow, so the model uses unbounded `int`.
- Null arrays and null comparators are not modelled. Dafny arrays and function values cannot be null.
- The inner loop (lines 50-55) becomes its own method, `SelectIndex`, which the outer loop calls. It scans the same indices and makes the same comparisons in the same order as the inline loop.
- `SelectionSort`: the comparator-call count is stated as `PassCalls(size, size)`, one term per pass. The closed form `n(n - 1)/2` is the separate lemma `ComparisonCountClosedForm`.
- Time beyond the comparison count is not modelled. That covers the O(n²) remarks at lines 18-21 and the number of swaps.
- Element types are limited to types without references (`T(!new)`) wherever a member quantifies over `T`, as the comparator contract does. This loses nothing: the comparator `(T, T) -> int` cannot read the heap, so only element values matter. `Swap` and the sequence functions take any `T`, as the source's `swap` does.
- Stability is not claimed. `NotStable` gives an input on which it fails.
