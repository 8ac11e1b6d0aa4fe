# Exact order statistics and frequency tables

A Dafny model of the two exact aggregators of the `stats` crate for Rust.

## What is modelled

**`Unsorted`** (src/unsorted.rs) collects samples in a vector and carries a
`sorted` flag. `add`, `extend` and `merge` append samples and lower the flag.
Every query first calls `sort`, which sorts only while the flag is down, and
then runs a helper over the sorted slice:

- `median_on_sorted`: the middle sample, or the mean of the two middle ones.
- `quartiles_on_sorted`: a case analysis on `n mod 4` with unchecked reads at
  offsets of `k = (n - r) / 4`.
- `mode_on_sorted`: a single pass that tracks the current mode and the run
  after it.
- `modes_on_sorted`: run-length counting, keeping the values whose run is
  longest when that run is longer than 1.
- `cardinality`: sort, then `dedup`, then the length.

Module layout:

- `SortedStats` (sorted_stats.dfy) holds the helpers.
  - `median_on_sorted` and `quartiles_on_sorted` are functions.
  - `mode_on_sorted` and `modes_on_sorted` are methods with loops. Each is proved
    against a left fold that takes one loop iteration per sample (`ModeTrack`,
    `ScanModes`).
  - The run-length reading `Runs` says what the `modes_on_sorted` fold computes.
- `UnsortedStats` (unsorted.dfy) holds the `Unsorted` class, with fields `data`
  and `sorted`.
- `Sorting` (sorting.dfy) supplies one insertion sort that stands for the
  library's `sort_unstable`. Its lemmas give the sorted-permutation facts, and
  uniqueness of the result under an antisymmetric order.
- `Optional` (optional.dfy) holds the `Option` type that the queries return.

**`Frequencies`** (src/frequency.rs) is a hash map from sample to count. The
model (frequency.dfy) is a class with a `map<int, nat>` field, plus a ghost
multiset `Samples` of everything added. The invariant `TableOf(data, Samples)`
says that the map is exactly the frequency table of the samples.

- `add`, `merge`, `extend`, `most_frequent`, `least_frequent`, `par_frequent` and
  `unique_values` are methods.
- The hash map's iteration order is unspecified, so those loops pick any
  remaining key (`:|`).
- `count`, `len`, `cardinality` and `is_empty` are functions.

Samples are `int` with their natural order. Means are `real`.

The `sorted` flag follows the code. The field's name and its use suggest a
flag that records a sort: `sort` skips the work when the flag is set
(src/unsorted.rs:245, 276). Yet nothing sets it after construction
(src/unsorted.rs:347): `sort` (src/unsorted.rs:275-279) leaves it as it was. So in the model, `Sort` keeps the flag as
it was (`sorted == old(sorted)`), and every query after the first `add` sorts
again. `SortedIsSortInts` shows that this costs time, never a different answer:
sorting sorted data gives back the same sequence.

A second quirk of `mode_on_sorted` is kept as written. On a tie the loop resets
`mode` and `mode_count` but leaves `next` and `next_count` as they are
(src/unsorted.rs:193-196). A later, shorter run can then be reported.
`ModeCanReportShorterRun` proves that on `[1, 1, 1, 2, 2, 2, 3, 3]` the result is
`Some(3)`. Because of this, the contract of `ModeOnSorted` promises only:

- a reported value occurs at least twice;
- a unique longest run of length at least 2 is always found.

## Model

| member | source | states |
|---|---|---|
| Sorting.SortedUnique | src/frequency.rs:129-143 | two sequences that are both ordered by an antisymmetric total order and hold the same elements are equal: the tie-broken sort has exactly one possible result |
| SortedStats.SortIntsSortsAndPermutes | src/unsorted.rs:275-279 | `sort_unstable` leaves the samples in ascending order and as a permutation of what was there |
| SortedStats.SortedIsSortInts | src/unsorted.rs:275-279 | an ascending sequence with the same samples as `t` is the sort of `t`; in particular, sorting sorted data changes nothing |
| SortedStats.SortIntsDependsOnlyOnMultiset | src/unsorted.rs:275-279 | the sorted samples depend only on which samples there are, not on their arrival order |
| SortedStats.MedianOnSorted | src/unsorted.rs:67-81 | absent exactly when there are no samples; otherwise the mean of the samples at (n-1)/2 and n/2, i.e. the middle sample when n is odd and the mean of the two middle samples when n is even |
| SortedStats.MedianSplitsSamples | src/unsorted.rs:67-81 | on sorted data, the median is at least every sample of the lower half and at most every sample of the upper half |
| SortedStats.MedianExamples | src/unsorted.rs:374-377 | median of `[]` is absent, of `[3,5,7,9]` is 6 and of `[3,5,7]` is 5 |
| SortedStats.QuartilesOnSorted | src/unsorted.rs:83-162 | absent exactly when there are fewer than 3 samples; `(x0, x1, x2)` for exactly 3; for n >= 4 every unchecked read at offsets k-1 through 3k+2 is within the slice (each read is a bounds obligation of the function) |
| SortedStats.QuartilesAreMediansOfHalves | src/unsorted.rs:96-158 | for every n >= 3, Q2 is the median of all samples, Q1 the median of the lower half and Q3 the median of the upper half (the middle sample in neither half when n is odd), as the branch comments say |
| SortedStats.QuartilesOrdered | src/unsorted.rs:83-162 | on sorted data Q1 <= Q2 <= Q3 |
| SortedStats.QuartilesExamples | src/unsorted.rs:430-467 | the nine `quartiles_stream` vectors plus the two-sample case, e.g. `[3,5,7,9,12]` gives (4, 7, 10.5) and `[3,5,7,9,12,20]` gives (5, 8, 12), and fewer than 3 samples gives none |
| SortedStats.ModeOnSorted | src/unsorted.rs:164-199 | the loop returns the fold's mode; a reported value occurs at least twice; on sorted data, a value whose count is at least 2 and strictly above every other count is returned |
| SortedStats.ModeTrackTracks | src/unsorted.rs:175-197 | on any input the tracked mode has been seen more than `mode_count` times and the tracked next value more than `next_count` times |
| SortedStats.ModeRepeats | src/unsorted.rs:175-198 | any value the pass reports occurs at least twice, so it occurs in the data |
| SortedStats.ModeTrackSorted | src/unsorted.rs:175-197 | on sorted input the last sample is the mode or the next value, and each tracked count is exactly one less than that value's number of occurrences |
| SortedStats.ModeFindsUniqueLongestRun | src/unsorted.rs:175-198 | on sorted data, a value with a strictly longest run of length >= 2 is the result |
| SortedStats.ModeAbsentWithoutRepeats | src/unsorted.rs:175-198 | when no sample repeats (a single sample included) the result is absent |
| SortedStats.ModeOfThreeThenOne | src/unsorted.rs:175-198 | for any two distinct values `a`, `b`, the scan of `a,a,a,b` ends with `mode` a (count 2) and `next` b (count 0) |
| SortedStats.ModeOfQuirk | src/unsorted.rs:186-196 | for any three distinct values, the scan of `a,a,a,b,b,b,c,c` reports `Some(c)`: the tie between a and b clears `mode` but keeps `next` |
| SortedStats.ModeCanReportShorterRun | src/unsorted.rs:193-196 | the tie reset leaves `next` live: `[1,1,1,2,2,2,3,3]` yields `Some(3)` although 3 occurs less often than 1 |
| SortedStats.ModeExamples | src/unsorted.rs:380-385 | `[3,5,7,9]` and `[1,1,2,3,3]` have no mode; `[3,3,3,3]` and `[3,3,3,4]` have mode 3 |
| SortedStats.ModeOfPairsAroundSingle | src/unsorted.rs:175-198 | for any three distinct values, `a,a,b,c,c` ends with no mode (the two pairs tie) and `next` c |
| SortedStats.HighestRun | src/unsorted.rs:206-220 | `highest_mode` starts at 1, is at least every run length, and is 1 or the length of some run |
| SortedStats.SelectModes | src/unsorted.rs:227-232 | the zip-filter keeps exactly the values whose count equals the highest count when that count exceeds 1, in their original order (so an ascending `values` gives an ascending result) |
| SortedStats.ScanIsRuns | src/unsorted.rs:206-226 | after any input the loop's `values`, `modes` and `highest_mode` are the run values, the run lengths and the highest run of the input |
| SortedStats.ModesOnSorted | src/unsorted.rs:201-233 | the loop computes the run-length selection; on sorted data the result is strictly ascending and holds exactly the values that occur at least twice and at least as often as any other value |
| SortedStats.RunsCover | src/unsorted.rs:210-226 | every run is non-empty and has a value from the input, every input value heads some run, and the last run holds the last sample |
| SortedStats.RunsOfSorted | src/unsorted.rs:210-226 | on sorted data the run values strictly ascend and each run's length is that value's number of occurrences |
| SortedStats.SelectedIsModal | src/unsorted.rs:227-232 | on sorted data, every reported value is modal |
| SortedStats.ModalIsSelected | src/unsorted.rs:227-232 | on sorted data, every modal value is reported |
| SortedStats.ModesCharacterised | src/unsorted.rs:201-233 | on sorted data the modes are strictly ascending and are exactly the modal values (both directions) |
| SortedStats.ModesEmptyWithoutRepeats | src/unsorted.rs:227-232 | on sorted data with no repeated sample (the highest run is 1, or there are no samples) there are no modes |
| SortedStats.ModesExamples | src/unsorted.rs:404-425 | `[]` and `[3,5,7,9]` have no modes; `[3,3,3,3]` and `[3,3,3,4]` have `[3]`; `[3,3,4,4]` has `[3,4]`, `[1,1,2,2]` has `[1,2]`, and `[1,1,2,3,3]` has `[1,3]` although `mode` reports nothing on it |
| SortedStats.ModesOfTwoPairs | src/unsorted.rs:201-233 | for any two distinct values, `a,a,b,b` has modes `[a,b]` |
| SortedStats.ModesOfPairsAroundSingle | src/unsorted.rs:201-233 | when `a != b != c`, `a,a,b,c,c` has modes `[a,c]` |
| SortedStats.Dedup | src/unsorted.rs:291-292 | `Vec::dedup` keeps the same set of values, never lengthens, and on sorted input leaves a strictly ascending sequence |
| SortedStats.DistinctCount | src/unsorted.rs:291-293 | a strictly ascending sequence has as many distinct values as elements |
| SortedStats.DedupCountsDistinct | src/unsorted.rs:289-294 | on sorted input the deduplicated length is the number of distinct values |
| UnsortedStats.Unsorted.constructor | src/unsorted.rs:344-349 | `new`/`default`: no samples and the flag up |
| UnsortedStats.Unsorted.Add | src/unsorted.rs:257-260 | appends exactly `v`, lowers the flag, and the length grows by one; nothing else changes |
| UnsortedStats.Unsorted.Len | src/unsorted.rs:264-266 | the number of samples |
| UnsortedStats.Unsorted.IsEmpty | src/unsorted.rs:270-272 | true exactly when the length is 0 |
| UnsortedStats.Unsorted.Sort | src/unsorted.rs:275-279 | the samples become their ascending sort, a permutation of the samples before, and the flag is left as it was |
| UnsortedStats.Unsorted.Dirtied | src/unsorted.rs:282-284 | lowers the flag and keeps the samples |
| UnsortedStats.Unsorted.Cardinality | src/unsorted.rs:289-294 | sorts, and returns the number of distinct samples, which is at most the length and 0 for no samples |
| UnsortedStats.Unsorted.Mode | src/unsorted.rs:300-303 | sorts, then runs the single pass; a reported value occurs at least twice and a unique longest run of length >= 2 is reported |
| UnsortedStats.Unsorted.Modes | src/unsorted.rs:307-313 | sorts, then returns in ascending order exactly the modal samples |
| UnsortedStats.Unsorted.Median | src/unsorted.rs:319-322 | sorts, then returns the median of the sorted samples, absent exactly when there are none |
| UnsortedStats.Unsorted.Quartiles | src/unsorted.rs:328-331 | sorts, then returns the quartiles of the sorted samples, absent exactly when there are fewer than 3 |
| UnsortedStats.Unsorted.Merge | src/unsorted.rs:336-339 | appends all of the other collection's samples in order, lowers the flag, and the length is the sum of both lengths |
| UnsortedStats.Unsorted.Extend | src/unsorted.rs:363-366 | appends the stream in order, lowers the flag, and the length grows by the stream's length |
| UnsortedStats.FromIter | src/unsorted.rs:354-358 | a fresh collection holding the stream, flag down |
| UnsortedStats.StreamMedian | src/unsorted.rs:10-16 | the median of the sorted stream |
| UnsortedStats.StreamQuartiles | src/unsorted.rs:21-27 | the quartiles of the sorted stream |
| UnsortedStats.StreamMode | src/unsorted.rs:34-40 | the mode of the sorted stream, with the guarantees of `Mode` |
| UnsortedStats.StreamModes | src/unsorted.rs:59-65 | the modes of the stream, ascending, exactly the modal values |
| UnsortedStats.MergeCommutes | src/unsorted.rs:334-339 | merging in either order gives the same sorted samples, so no query can tell the receiver from the argument |
| UnsortedStats.StreamExamples | src/unsorted.rs:380-411 | the unsorted stream tests: `[4,3,3,3]` has mode 3 and modes `[3]` once sorted; added beside them, the reordering `[9,3,7,5]` of the tested `[3,5,7,9]` has median 6 |
| FrequencyTable.ListingFacts | src/frequency.rs:78-85 | a collected listing of the entries has one position per key, with that key's count, and no key twice |
| FrequencyTable.ParOrdersAreTotal | src/frequency.rs:129-143 | both `par_frequent` comparators are total orders with no ties between distinct entries |
| FrequencyTable.Frequencies.constructor | src/frequency.rs:184-190 | `new`/`default`: an empty table of no samples |
| FrequencyTable.Frequencies.Add | src/frequency.rs:31-40 | inserts the key with count 1 or increments its count; `count(v)` grows by exactly 1 and every other count is unchanged |
| FrequencyTable.Frequencies.Count | src/frequency.rs:45-47 | the number of times `v` was added, so 0 for a value never added |
| FrequencyTable.Frequencies.Len | src/frequency.rs:149-151 | the number of distinct values added |
| FrequencyTable.Frequencies.Cardinality | src/frequency.rs:52-54 | equals `len`, the number of distinct values added |
| FrequencyTable.Frequencies.IsEmpty | src/frequency.rs:155-157 | true exactly when no sample was added |
| FrequencyTable.Frequencies.CountsWithTotal | src/frequency.rs:77-85 | the collected vector lists each `(key, count)` entry exactly once, and the total is the number of samples added |
| FrequencyTable.Frequencies.MostFrequent | src/frequency.rs:76-88 | each entry exactly once, by non-increasing count, with the total number of samples |
| FrequencyTable.Frequencies.LeastFrequent | src/frequency.rs:94-106 | each entry exactly once, by non-decreasing count, with the total number of samples |
| FrequencyTable.Frequencies.ParFrequent | src/frequency.rs:112-145 | each entry exactly once, by count (ascending when `least`) then value ascending; this order is the only one, and the total is the number of samples |
| FrequencyTable.Frequencies.Mode | src/frequency.rs:59-70 | absent exactly when no key has a strictly greatest count (empty table, or the two top counts tie); otherwise the key whose count is strictly greatest |
| FrequencyTable.Frequencies.Merge | src/frequency.rs:170-181 | every key's count becomes the sum of both tables' counts, the key set is the union, and the samples are both tables' samples together |
| FrequencyTable.Frequencies.Extend | src/frequency.rs:204-208 | adds every sample of the stream, so each count grows by its number of occurrences in the stream |
| FrequencyTable.Frequencies.UniqueValues | src/frequency.rs:161-165 | each distinct value added exactly once, so as many items as `len` |
| FrequencyTable.FromIter | src/frequency.rs:195-199 | a fresh table of exactly the stream's samples |
| FrequencyTable.Ranked | src/frequency.rs:228-238 | the `ranked` test: after extending a new table with `[1,1,2,2,2,2,2,3,4,4,4]`, `most_frequent` starts with (2, 5) and `least_frequent` with (3, 1), both with total 11 |
| FrequencyTable.Ranked2 | src/frequency.rs:241-251 | the `ranked2` test: `par_frequent(false)` starts with (2, 5) and `par_frequent(true)` with (3, 1), both with total 11 |
| FrequencyTable.RankedTable | src/frequency.rs:230-231 | the table of `[1,1,2,2,2,2,2,3,4,4,4]` is {1:2, 2:5, 3:1, 4:3} |
| FrequencyTable.ListedFirstIsMax | src/frequency.rs:76-88 | in any listing by non-increasing count, a key whose count is strictly highest comes first, with its count |
| FrequencyTable.ListedFirstIsMin | src/frequency.rs:94-106 | in any listing by non-decreasing count, a key whose count is strictly lowest comes first, with its count |
| FrequencyTable.RankedMostFirst | src/frequency.rs:232-234 | whatever the listing order, `most_frequent` puts `(2, 5)` first |
| FrequencyTable.RankedLeastFirst | src/frequency.rs:235-237 | whatever the listing order, `least_frequent` puts `(3, 1)` first |
| FrequencyTable.RankedParFirst | src/frequency.rs:242-251 | `par_frequent(false)` starts with `(2, 5)` and `par_frequent(true)` with `(3, 1)` |
| FrequencyTable.UniqueValuesSet | src/frequency.rs:254-258 | the 13 samples of the test have the distinct values 1 to 8 |
| FrequencyTable.UniqueValuesExample | src/frequency.rs:254-258 | those 13 samples have 8 distinct values |

## Left out

- Integer widths: sample values are unbounded `int`, and counts (`u64`, `u32`, `usize`) are `nat`. The model does not capture overflow of `mode_count`, `modes[count]`, the `u64` counters or `total_count`.
- Floating point: the `to_f64().unwrap()` conversion and its panic path are not modelled. Means are exact `real` values.
- The `Partial` total-order wrapper and the ordering of NaN are not modelled. Samples use the natural order on `int`.
- Only the sort's result is modelled, not the internals of `sort_unstable`, `sort_unstable_by` or `par_sort_unstable_by`: one insertion sort stands for all of them. For ints, and for the tie-broken `par_frequent` order, the result is unique anyway. For `most_frequent` and `least_frequent`, the order among equal counts is not fixed by the source: the model's result is one valid order, and the contracts state only sortedness and permutation.
- Rayon parallelism in `par_frequent`: only its result order is modelled.
- Hash-map internals, iteration order and capacity hints (`with_capacity(10_000)`, `Vec::with_capacity(1000)`) are not modelled. Iteration picks any remaining key.
- The vectors are modelled as sequences that are reassigned, not buffers updated in place. This concerns the in-place `Vec` sort, `push`, `extend` and `dedup`. `Vec::dedup` is a function on the cloned samples.
- `Debug` formatting and the lifetime mechanics of the `UniqueValues` iterator are not modelled. `unique_values` returns the keys as a sequence.
- src/stats.rs (`Variance`) is not part of this model: it is floating-point numerics only.
- Element types are `int` only. The source is generic over `PartialOrd`/`Hash` types, and its float tests (`median_floats`, `mode_floats`, `modes_floats`, `quartiles_floats`) are represented by their integer-valued counterparts where those exist. The vector `[1.0, 2.5, 3.0]` with median 2.5 (src/unsorted.rs:392) has no integer counterpart and is not represented.
- SortedStats.ModeOnSorted: does not promise "absent exactly when the longest run is tied". The source's tie reset can report a shorter later run, as `ModeCanReportShorterRun` shows.
