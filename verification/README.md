# Alternating disks, modelled in Dafny

The puzzle: a row of 2n disks starts alternating dark and light (D L D L …,
dark at every even index). Only adjacent disks may be swapped, and the goal is
to bring all dark disks to the left half and all light disks to the right half,
counting the swaps. `disks.hpp` gives the row type `disk_state`, the result
type `sorted_disks` and two algorithms. `sort_left_to_right` repeats
left-to-right passes. `sort_lawnmower` repeats a left-to-right pass followed
by a right-to-left pass.

The model has three modules:

- `Disks` (`disks.dfy`): `Color`, the row `DiskState` as an immutable value
  (`TotalCount`, `LightCount`, `DarkCount`, `IsIndex`, `Get`, `Swap`,
  `IsAlternating`, `IsSorted`, `ToString`), and the constructor
  `NewDiskState`. It also has the closed forms `AlternatingRow(n)` and
  `SortedRow(n)`, and `Parse`, the inverse of `ToString`. `Parse` does not
  exist in the source; it is there to pin down what `ToString` renders.
  The C++ `assert`s in `get`, `swap` and the constructor are `requires`
  clauses. `DiskState.Valid()` is the invariant every `disk_state` keeps:
  a non-empty row with as many dark disks as light ones, so its length is
  even. The constructor establishes it and `Swap` preserves it. The sorts
  require it as well as `is_alternating`. Without it, the odd-length
  alternating row "D L D" becomes "D D L" after one swap. That row has no
  pair left to swap and still fails `is_sorted`, so the loop would never end.
  The constructor cannot build such a row.
- `DiskOrder` (`order.dfy`): `Inversions`, the number of (light before dark)
  pairs, and the facts about it. An adjacent (light, dark) swap removes
  exactly one inversion. A valid row is sorted exactly when it has no
  inversions. A valid row with no adjacent (light, dark) pair is sorted. The
  alternating row with n light disks has n(n-1)/2 inversions.
- `Sorting` (`sorting.dfy`): `SortedDisks` (`sorted_disks`), the two passes,
  the two sorts, and the forward loop exactly as written (see Findings).

Both sorts are proved to return the sorted row of the input's size, holding
the input's disks, with a swap count equal to the input's inversion count,
n(n-1)/2. That is 3 swaps for n = 3 and 6 for n = 4. So the lawnmower never
makes fewer swaps than the left-to-right algorithm: for every input the two
counts are equal. It may need fewer outer iterations, but that is not
modelled. Termination of both `while (!is_sorted())` loops uses the inversion
count as its variant. A pass that swaps nothing leaves a valid row with no
adjacent (light, dark) pair, and such a row is already sorted.

Equality of rows is Dafny's equality of `DiskState` values: equal length
and equal disks. This is stricter than the source's `operator==` (see
"## Left out"). `Get` carries only its precondition. No clock,
randomness or I/O is involved.

## Model

| member | source | states |
|---|---|---|
| Disks.NewDiskState | disks.hpp:31-39 | for light_count > 0, builds a row of 2 * light_count disks that is alternating, equals D L repeated light_count times, satisfies the row invariant, and reports light_count light and dark disks |
| Disks.AlternatingRowCounts | disks.hpp:31-39 | the row the constructor builds holds exactly n dark and n light disks |
| Disks.DiskState.LightCount | disks.hpp:50-52 | on every valid row, total_count / 2 is the actual number of light disks |
| Disks.DiskState.DarkCount | disks.hpp:54-56 | on every valid row, the value light_count returns is the actual number of dark disks |
| Disks.DiskState.Swap | disks.hpp:67-72 | needs both left_index and left_index + 1 in range; exchanges exactly those two disks; leaves every other disk and the length unchanged; keeps the multiset of colours and the row invariant |
| Disks.SwapInvolution | disks.hpp:67-72 | swapping the same pair twice restores the row |
| Disks.AlternatingRowIff | disks.hpp:96-122 | an even-length row passes is_alternating exactly when it is D L repeated, in both directions |
| Disks.SortedRowIff | disks.hpp:127-153 | an even-length row passes is_sorted exactly when it is n dark disks followed by n light disks |
| Disks.DiskState.ToString | disks.hpp:74-91 | a row of k > 0 disks renders to 2k - 1 characters; the empty row renders to the empty string |
| Disks.ParseToString | disks.hpp:74-91 | reading back the rendering gives the original row, so the rendering loses nothing |
| Disks.ToStringParse | disks.hpp:74-91 | any text that reads back as a row is exactly that row's rendering: one D or L per disk, single spaces between |
| DiskOrder.SwapRemovesOneInversion | disks.hpp:201-207 | a counted swap of an adjacent (light, dark) pair lowers the inversion count by exactly one |
| DiskOrder.NoPairBalancedIsSorted | disks.hpp:194-209 | a valid row with no adjacent (light, dark) pair passes is_sorted, so a pass without swaps ends the loop |
| DiskOrder.SortedIffNoInversions | disks.hpp:127-153 | a valid row passes is_sorted exactly when it has no light disk before a dark disk |
| DiskOrder.AlternatingRowInversions | disks.hpp:188-209 | the alternating row with n light disks has n(n-1)/2 inversions, which is the number of swaps either sort makes |
| DiskOrder.AlternatingSortedIffSingle | disks.hpp:193-194 | a valid alternating row skips the sort loop (is already sorted) exactly when it holds one light disk |
| DiskOrder.ScenarioInversionCounts | disks.hpp:188-209 | three light disks take 3 swaps and four take 6 |
| Sorting.ForwardPass | disks.hpp:196-208 | the left-to-right pass keeps length and colour multiset, counts one swap per inversion removed, and swaps nothing only on a row with no adjacent (light, dark) pair, which it leaves unchanged |
| Sorting.BackwardPass | disks.hpp:241-253 | the right-to-left pass touches only valid indices, keeps length and colour multiset, counts one swap per inversion removed, and swaps nothing only on a row with no adjacent (light, dark) pair |
| Sorting.SortLeftToRight | disks.hpp:182-212 | for an alternating input: the result is sorted, has the input's length and colours, equals the sorted row, and its swap count is the input's inversion count n(n-1)/2; an already sorted input comes back unchanged with 0 swaps |
| Sorting.SortLawnmower | disks.hpp:215-257 | the same guarantees as the left-to-right sort, hence the same row and the same swap count |
| Sorting.SortedOutcome | disks.hpp:194-211 | once the loop exits, the final row is the unique sorted row and the swaps made account for every inversion of the input |
| Sorting.ForwardPassAsWritten | disks.hpp:197-208 | the forward loop with the bound i < total_count(): reads get(i), reads get(i + 1) only when disk i is light, and swaps and counts on (light, dark). A get out of range ends it as IndexOutOfRange, always at index total_count(). A completed pass keeps the length and the colours, and only adds to the count |
| Sorting.AsWrittenPassOverrunsRow | disks.hpp:197-201 | with the loop bound as written and the last disk light, the forward pass always reads index total_count, out of range |
| Sorting.AsWrittenSortFailsOnFirstPass | disks.hpp:186-201 | for every alternating row with two or more light disks, the sort as written enters its loop and fails the get assertion in the first pass |

## Left out

- `Get` and `IsIndex` have no contract beyond the range precondition, which is the source's `assert(is_index(index))`.
- With assertions enabled, a failing C++ `assert` aborts the process. Here each such check is a `requires`, except in `ForwardPassAsWritten`, where the failure is the `IndexOutOfRange` outcome. With `NDEBUG`, the loop as written reads `_colors[total_count()]`, which is undefined behaviour. It may then call `swap(total_count() - 1)` and write past the end. None of that is modelled.
- The swap counter is `unsigned` in the source; here it is a `nat`. With a 32-bit `unsigned`, n(n-1)/2 exceeds 4294967295 from n = 92683 light disks on. From that size the corrected loop's count, held in an `unsigned`, would be n(n-1)/2 modulo 2^32, while `Sorting.SortLeftToRight` and `Sorting.SortLawnmower` promise n(n-1)/2 exactly.
- `operator==` (disks.hpp:42-44) calls the three-argument `std::equal`, which compares only the first `total_count()` disks of the right row. It is true when the left row is a prefix of the right one, so "D L" == "D L D L" holds. It is undefined when the right row is shorter. Only equal-length equality is modelled.
- Disks.NewDiskState: does not model the `size_t` arithmetic of `light_count * 2` (disks.hpp:32). With a 64-bit `size_t` the product wraps from light_count >= 2^63. light_count = 2^63 builds an empty row that still passes `assert(light_count > 0)`. light_count = 2^63 + 1 builds "D L", whose `light_count()` is 1. The model promises 2 * lightCount disks and `Valid()` for every lightCount > 0.
- The rvalue-reference constructor of `sorted_disks` is an ownership detail. It means the same as the copying one, which is the datatype constructor `SortedDisks`.
- `to_string`'s string-stream mechanics are not modelled. Only the produced text is.
- The outer-iteration count of each sort is not modelled, so the lawnmower's advantage in passes is not stated. Only swap counts are.
- The `//sc` step-count annotations are complexity bookkeeping, not behaviour.
- Sorting a row that is sorted but not alternating is not modelled, because the sorts require an alternating input. The only sorted alternating row is "D L", and the sorts return it unchanged with 0 swaps.

## Findings

| source | as written | input that shows it | evidently intended | confidence | as-written member | corrected member |
|---|---|---|---|---|---|---|
| disks.hpp:197-201 | The forward loop runs i up to total_count() - 1 and tests disks i and i + 1. At the last index the disk is always light, so `get(total_count())` is evaluated and fails its range assertion (line 63). The lawnmower's forward loop at lines 229-233 is identical. | "D L D L" (light_count 2), or any alternating row with at least two light disks | scan only while i + 1 < total_count() | high; not executed | Sorting.AsWrittenSortFailsOnFirstPass | Sorting.ForwardPass |

The sorts in the `Sorting` module use the corrected pass. Input "D L" never reaches the loop, because it is already sorted. Every larger alternating input fails on the first pass as written.
