# Verified model of the `QS` quicksort buffer

This project models class `QS` of `Lab5-Quicksort/QS.cpp`, a fixed-capacity integer buffer that sorts itself in place by quicksort. It has two parts:

- **Storage.** `createArray`, `addToArray`, `getSize`, `clear` and `getArray` keep a length-tracked array and render it as comma-joined decimal text.
- **Sorting.** `medianOfThree` picks the pivot and `partition` splits a range around it. `sortAll` sorts the values. In the model, `partition` is a two-pointer partition, and `sortAll` runs a recursive `sort` over sub-ranges.

Bad input is signalled with `-1` (index results) or `false` (mutating operations), and in those cases nothing changes.

The model is imperative, as the source is. Class `QuickSort.QS` holds:

- an `array<int>` of items;
- a `capacity` equal to the array's length;
- a `count` of values added, with `0 <= count <= capacity` (invariant `Valid()`).

Every method says what it changes through `modifies`. It states the new state in terms of the old one, through `Contents()` (the first `count` cells) and `items[..]`.

Files:

- `qs.dfy` (module `QuickSort`): the class, plus the sequence-level description of the median-of-three comparators (`OrderStep`, `MedianSteps`) and lemmas about them.
- `ranges.dfy` (module `Ranges`): what "sorted" and "rearranged in place" mean, and the lemmas the recursion uses. `Permuted(a, b, lo, hi)` says that cells outside `[lo, hi]` are equal and the range holds the same multiset. `SortsRange` says what one `sort(left, right)` call does.
- `render.dfy` (module `Render`): decimal rendering of an int, the comma join, and a decoder. The decoder is used to prove that the join keeps exactly the values, in order, and adds nothing.

The bodies of `sortAll`, `medianOfThree` and `partition` in the source are stubs, and there is no recursive `sort` helper. The model implements what their documentation promises. The scheme below is the model's own choice, not taken from the source:

- **medianOfThree:** three strict-comparison conditional swaps, on the cell pairs (left, middle), (left, right) and (middle, right). The documentation says only that the three values are bubble-sorted. A bubble sort would compare (left, middle), (middle, right), (left, middle), and ends in the same ordered triple.
- **partition:**
  - Swap the pivot to `left`.
  - Scan `i` up from `left + 1` while the value is `<=` the pivot and `i < right`.
  - Scan `j` down from `right` while the value is `>` the pivot and `j > left`.
  - Exchange the two values while `i < j`.
  - Finally swap the pivot into `j` and return `j`.

  The loop is written as two scans followed by `while i < j { exchange; scan; scan }`. `Exchange` holds that loop. The partition algorithm the documentation points to (a page of a course text) is not part of this model.
- **sort(left, right)**, a helper of the model's own: stop when the range holds at most one value or `medianOfThree` fails. Otherwise partition around the median, then recurse on both sides. Termination is by `right - left`.

## Model

| member | source | states |
|---|---|---|
| `QuickSort.QS.constructor` | Lab5-Quicksort/QS.cpp:3-6 | A new buffer has capacity 0 and no values. |
| `QuickSort.QS.CreateArray` | Lab5-Quicksort/QS.cpp:139-159 | Returns false iff the capacity is negative, and then leaves storage, capacity and contents as they were. Otherwise it installs fresh storage of exactly that capacity (0 included), holding no values. |
| `QuickSort.QS.Clear` | Lab5-Quicksort/QS.cpp:161-167 | Afterwards the storage is released: capacity 0 and no values. |
| `QuickSort.QS.GetSize` | Lab5-Quicksort/QS.cpp:111-116 | Returns the number of values added so far, which lies between 0 and the capacity. |
| `QuickSort.QS.AddToArray` | Lab5-Quicksort/QS.cpp:118-137 | Returns true iff the buffer was not full. On true, the value is stored at index `size`, the size grows by one, every other cell is unchanged, and the contents are the old contents plus the value. On false, nothing changes. |
| `QuickSort.QS.GetArray` | Lab5-Quicksort/QS.cpp:86-109 | The result is `Join` of exactly the added values, in order. Unused cells never appear. |
| `Render.Join` | Lab5-Quicksort/QS.cpp:87-92 | The text is empty iff there are no values. A non-empty text neither starts nor ends with a comma. |
| `Render.DecodeJoin` | Lab5-Quicksort/QS.cpp:87-92 | Splitting the joined text at commas and reading each piece as a decimal gives back exactly the values, in order. So the text holds `size` values, and no comma is missing or extra. |
| `Render.IntToString` | Lab5-Quicksort/QS.cpp:101 | The rendering of an int is non-empty, contains no comma and ends in a digit. |
| `Render.NatToString` | Lab5-Quicksort/QS.cpp:101 | A natural number renders as non-empty decimal digits with no leading zero. |
| `Render.ParseIntToString` | Lab5-Quicksort/QS.cpp:101 | Reading back the decimal rendering of any int, negative ones included, gives that int. |
| `QuickSort.QS.MedianOfThree` | Lab5-Quicksort/QS.cpp:28-56 | Returns -1 iff the array is empty, either index is out of bounds, or `left >= right`; on -1 nothing changes. Otherwise it returns `(left + right) / 2` and leaves `items[left] <= items[middle] <= items[right]`. Only those three cells change, and only by being permuted among themselves. |
| `QuickSort.QS.OrderPair` | Lab5-Quicksort/QS.cpp:37 | One comparator of the network: the new array is `OrderStep` of the old one, so the two cells are swapped iff the second value is strictly smaller. |
| `QuickSort.MedianStepsOrdered` | Lab5-Quicksort/QS.cpp:37-39 | The three comparators, in the model's order, leave left <= middle <= right, as the documentation promises. This includes the case where middle and left are the same cell. |
| `QuickSort.MedianStepsPermuted` | Lab5-Quicksort/QS.cpp:37-39 | The three comparators only rearrange the range [left, right]. |
| `QuickSort.MedianStepsFrame` | Lab5-Quicksort/QS.cpp:37-39 | The three comparators change no cell other than left, middle and right. |
| `QuickSort.QS.Partition` | Lab5-Quicksort/QS.cpp:58-84 | Returns -1 iff the array is empty, either bound is out of bounds, `left >= right`, or the pivot index is outside [left, right]; on -1 nothing changes. Otherwise it returns `p` in [left, right] holding the original pivot value. Every value in [left, p) is <= the pivot value, and every value in (p, right] is > it. Cells outside [left, right] are unchanged, and the range is a permutation of its former contents. |
| `QuickSort.QS.Exchange` | Lab5-Quicksort/QS.cpp:63-66 | The two-pointer loop ends with the index `j` such that (left, j] holds only values <= pivot and (j, right] only values > pivot. The pivot stays at `left`, and the range is only rearranged. |
| `QuickSort.QS.ScanUp` | Lab5-Quicksort/QS.cpp:63-64 | The upward scan stops at the first value > pivot, or at the right boundary. Every value it passes is <= pivot. |
| `QuickSort.QS.ScanDown` | Lab5-Quicksort/QS.cpp:64-65 | The downward scan stops at the first value <= pivot, or at the left boundary. Every value it passes is > pivot. |
| `QuickSort.QS.Sort` | Lab5-Quicksort/QS.cpp:12-26 | A range inside the added values with two or more values ends sorted and is a permutation of its former contents; cells outside it are unchanged. Any other range is left as it is. |
| `QuickSort.QS.SortAll` | Lab5-Quicksort/QS.cpp:12-26 | Afterwards every added value is <= its successor, the multiset of values is unchanged, and unused cells are untouched. It does nothing when there are at most one value, and leaves already-sorted contents exactly as they were. |
| `Ranges.QuicksortStep` | Lab5-Quicksort/QS.cpp:15-16 | Partitioning a range around `p` (only rearranging it) and then sorting both sides of `p` sorts the range and only rearranges it. This is what one `sort` call proves. |
| `Ranges.QuicksortStepSorted` | Lab5-Quicksort/QS.cpp:15-16 | A range partitioned around `p`, whose two sides are then sorted, is sorted. |
| `Ranges.QuicksortStepPermuted` | Lab5-Quicksort/QS.cpp:15-16 | A partition followed by sorting its two sides only rearranges the range. |
| `Ranges.SortedOrdered` | Lab5-Quicksort/QS.cpp:15-16 | "Every value <= its successor" implies `s[i] <= s[j]` whenever `i <= j`. |
| `Ranges.SortedPermutationUnique` | Lab5-Quicksort/QS.cpp:15-16 | Two sorted sequences with the same multiset of values are equal. So the sort's outcome is unique, and sorting sorted data is the identity. |

## Left out

- Manual memory management is not modelled: `new[]`, `delete[]`, the NULL `items` state and the destructor (QS.cpp:8-10). The model allocates a fresh `array<int>`; "no storage" is an array of length 0.
- `getSize`'s body (`sizeof(items) / sizeof(*items)`) measures the pointer's width, not the number of values. `addToArray`'s body never advances a count. The model follows both functions' documentation, through an explicit `count` field.
- `sortAll`, `medianOfThree` and `partition` are stubs in the source. The model implements what their documentation promises, with the scheme described above. The course text's partition algorithm, which QS.cpp:61 refers to, is not part of this model.
- `createArray`'s documentation says a "non-positive" capacity is refused, but its body refuses only negative ones. The model follows the body, so capacity 0 is accepted.
- `clear` always releases the storage and resets capacity, even when nothing was added; the model does the same. With the explicit count, `clear` also resets the count to 0.
- Values are unbounded integers. Only comparisons are applied to values, so C++ `int` range does not matter for them. The possible overflow of `left + right` in `int` index arithmetic, for indices above 2^30, is not modelled.
- `to_string` is modelled as plain decimal with a leading `-` for negatives, digit by digit. Locale and other formatting details are not modelled.
- `sort` is the model's own helper. It has no branch for `partition` returning -1 after a successful `medianOfThree`. That cannot happen, because the median index lies in the range, and the model proves it with an assertion.
- Recursion depth and stack use are not modelled; only termination is proved.
- `QuickSort.QS.MedianOfThree`: its postcondition states the ordering, the return value and that only the three cells are permuted. It does not state the exact outcome of each comparator. That outcome is `OrderPair`'s contract (`OrderStep`), and the body applies the three comparators in the model's chosen order.
