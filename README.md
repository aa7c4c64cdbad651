# Line-length overlay statistics

The line-length bookmarklet outlines the element under the mouse pointer and
shows an info card with the length of its longest visual line and its median
line length, both in characters. The per-line character counts come from the
`element-line-length` package. The bookmarklet turns them into the card's
numbers with `computeStats`, which returns `null` ("No text found") when there
are no lines, and with `median`, which sorts a copy of the counts.

This project models that statistics step in the module `LineStats`
(`stats.dfy`):

- Line lengths are `seq<nat>`, because they are character counts.
- `Stats | null` is `Option<Stats>`.
- The median is a `real`, so the mean of the two middle counts is exact.
- The sorted copy `lengths.slice().sort((a, b) => a - b)` appears twice:
  - `SortAscending` is a pure insertion sort. It is the specification that
    `Median` and `ComputeStats` use.
  - `SortInPlace` sorts an array in place. `MedianOfArray` runs it on a fresh
    copy of the caller's array. The caller's array is not in any `modifies`
    clause, so the verifier checks that it is left unchanged.

`median` is only ever called by `computeStats`, and only after the empty check
(see "Left out").

## Model

| member | source | states |
|---|---|---|
| `LineStats.ComputeStats` | src/bookmarklet.js:166-172 | The result is absent exactly when there are no lines. Otherwise `max` is one of the line lengths and is at least every line length, and the median lies between the shortest and the longest line. |
| `LineStats.MaxOf` | src/bookmarklet.js:169 | `Math.max(...lengths)` is an element of the lengths and is at least every element. |
| `LineStats.SortAscending` | src/bookmarklet.js:175 | The sorted copy is ascending in numeric order, is a permutation of the input and has the same length. |
| `LineStats.SortedUnique` | src/bookmarklet.js:175 | Two ascending sequences with the same multiset of elements are equal. So the sorted copy depends only on the multiset of the input. |
| `LineStats.MedianOfSortedCopy` | src/bookmarklet.js:174-183 | For any ascending permutation `t` of the input, the median is `t[n/2]` when the count `n` is odd. When `n` is even it is the mean of `t[n/2 - 1]` and `t[n/2]`. |
| `LineStats.Median` | src/bookmarklet.js:174-183 | `median(lengths)` is at least the shortest line and at most the longest line. `MedianOfSortedCopy` gives its exact value. |
| `LineStats.MiddleOf` | src/bookmarklet.js:176-182 | The value read off the middle of an ascending sequence lies between its first and its last element. |
| `LineStats.SortedCopyEnds` | src/bookmarklet.js:169-175 | The ascending sorted copy starts with the least line length and ends with `Math.max` of the lengths. |
| `LineStats.ComputeStatsPermutationInvariant` | src/bookmarklet.js:166-183 | Any reordering of the lengths gives the same `max` and the same median. |
| `LineStats.MaxOfPermutationInvariant` | src/bookmarklet.js:169 | The maximum depends only on the multiset of the lengths. |
| `LineStats.MedianPermutationInvariant` | src/bookmarklet.js:175-182 | The median depends only on the multiset of the lengths. |
| `LineStats.SingleLine` | src/bookmarklet.js:166-180 | A single line `[x]` gives `max` x and median x. |
| `LineStats.OddCountExample` | src/bookmarklet.js:176-180 | `[5, 1, 9]` gives median 5 (the middle of `[1, 5, 9]`) and max 9. |
| `LineStats.EvenCountExample` | src/bookmarklet.js:176-182 | `[3, 9]` gives median 6 (the mean of the two middle counts) and max 9. |
| `LineStats.SortInPlace` | src/bookmarklet.js:175 | Sorting in place leaves the array ascending and a permutation of what it held before. |
| `LineStats.MedianOfArray` | src/bookmarklet.js:174-183 | Sorting a fresh copy of the caller's array and reading its middle gives exactly `Median` of the array's contents. The caller's array is not modified. |

## Left out

- Median: requires at least one line. In the source, `median([])` would give `NaN`. The only call (src/bookmarklet.js:170) is guarded by the non-empty check at line 167, so that case is never reached.
- MedianOfArray: requires a non-empty array, for the same reason as `Median`.
- `elementLineLength` (the `element-line-length` package, src/bookmarklet.js:1, 46) is not part of this model. Its source is not in this repository. It does the text fragmentation, the geometry queries and the grouping into lines. The model starts from the sequence of line lengths that it returns.
- `whenEscape`, `trackMouse`, `createGlobalStyles` and `createInfoCard` (src/bookmarklet.js:3-153) are left out. They register and remove browser event listeners, inject CSS, and render and position the info card. This is DOM and UI code with no computation to verify.
- JavaScript numbers are IEEE doubles. The model uses unbounded naturals for the lengths and an exact `real` for the median. For character counts the even-count mean `/ 2` is exact in doubles too, as long as the sum stays below 2^53.
- The limits of `Math.max(...lengths)` are left out. The spread has an argument-count limit on very large arrays. `Math.max()` with no arguments gives `-Infinity`, but line 167 already guards the empty case. Neither can be expressed over `seq<nat>`.
- The sort algorithm of the JavaScript engine is not modelled. Only its result is: an ascending permutation, and by `SortedUnique` that result is unique. Insertion sort is used as one algorithm that produces it.
