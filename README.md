# Decile cut-points over merged survey files — a Dafny model

The repository reads, for each configured year, every CSV file of that
year's input folder. It keeps the `NEWID` column and one target column of
every record and merges the rows of all files into one dataset. Over the
numeric values of the target column it computes ten decile buckets, each
reported as `(decile, min, max)` with the bounds rounded to a multiple of
1000.

This project models the logic of `tasks/find-deciles.js`:

- `collector.dfy` (module `Collector`): the per-record row extraction and
  the merge `combinedData = combinedData.concat(data)`, with the
  concatenation `Flatten` as its reference value.
- `deciles.dfy` (module `Deciles`): `generateDecileReport`. It coerces
  each value (`Parsed`), drops negatives (`NonNegative`), sorts, returns
  nothing for an empty population, and otherwise builds the ten rows
  (`BuildDeciles`, specified by `DecileTable`). `DecileReport` is the pure
  reference value that the method `GenerateDecileReport` is proved to
  compute.
- `sorting.dfy` (module `Sorting`): the in-place `values.sort`. It is
  specified as "an ascending permutation", and `SortedUnique` proves that
  there is exactly one such value.
- `buckets.dfy` (module `Buckets`): the start and end index formulas of
  the ten buckets and the proof that they partition the sorted population.
- `pipeline.dfy` (module `Pipeline`): one unit of work of `runPipeline`,
  which merges the files and then calls the report with three arguments.
- `wrappers.dfy`: the `Option` type; `seqs.dfy`: two small facts about
  sequences and their multisets.

Modelling choices:

- Values are exact reals, not doubles.
- `parseFloat` is a parameter `parse: string -> Option<real>`, where
  `None` stands for NaN. An absent cell (`undefined`) always coerces to
  NaN.
- `Math.floor(k * (N / 10))` is modelled as the exact integer quotient
  `k * N / 10`.
- `Math.round(v / 1000) * 1000` is modelled as `Floor(v / 1000 + 1/2) * 1000`.
- Reading `values[-1]` gives `undefined`, and rounding it gives NaN. This
  is modelled by `At` (an `Option`) and by `Num.NaN`.
- A report that is not written (no data) is `None`.

Some behaviours of the code differ from what a reader might expect of a
decile report; the model follows the code:

- Negatives are always excluded. The call at line 83 passes no fourth
  argument, so `includeNegatives` at line 92 is `undefined`. The
  module-level flag at line 17 is never consulted. The
  `includeNegatives = true` path is modelled but never taken by
  `Pipeline.RunUnit`.
- One might expect fewer than ten samples to give buckets that merely
  repeat boundary values. In the code, every decile `i` with `i * N < 10`
  reads `values[-1]`, so its `max` is NaN (`Deciles.TableRow`). Some
  deciles also end before they start (`endIdx < startIdx`); they end one
  index early, so their `min` is at least their `max` and can exceed it
  (`Deciles.InvertedBucket`). With the three samples 100, 2600, 4400,
  deciles 1-3 have max NaN and decile 5 has min 3000 and max 0
  (`Deciles.SmallPopulationExample`).
- One might expect halves to round away from zero. `Math.round` rounds
  them up. The two differ only for negative values, and those never
  reach the rounding on the pipeline's path.
- Bucket sizes are `N / 10` or `N / 10 + 1`, spread by the floor formula
  (`Buckets.BucketSize`). The remainder does not go to the later buckets
  as a block.
- With the ten values `0, 1000, 2200, 2800, …, 9900`, decile 3 holds 2200
  and is written as 2000. 2800 falls in decile 4 (`Deciles.TenSampleExample`).

## Model

| member | source | states |
|---|---|---|
| `Collector.Field` | tasks/find-deciles.js:63-67 | a row's cell is present exactly when the record has that column, and then it is the record's text |
| `Collector.ExtractRow` | tasks/find-deciles.js:66-69 | the row's raw value and identifier are present exactly when the record has the target and `NEWID` columns, and are then the record's texts |
| `Collector.ExtractFile` | tasks/find-deciles.js:62-69 | one row per record, in record order, keeping the record's `NEWID` and raw target text |
| `Collector.ExtractFiles` | tasks/find-deciles.js:55-73 | one row list per file, in enumeration order |
| `Collector.Flatten` | tasks/find-deciles.js:75 | a row is in the merged dataset iff it is in one of the files' row lists |
| `Collector.FlattenAppend` | tasks/find-deciles.js:75 | merging two batches of files in turn equals merging them at once |
| `Collector.FlattenLength` | tasks/find-deciles.js:52-76 | the merged dataset has as many rows as all files together |
| `Collector.FlattenAt` | tasks/find-deciles.js:75 | row `j` of file `f` appears unchanged at offset (rows of earlier files) + `j` |
| `Collector.MergedRowIsRecord` | tasks/find-deciles.js:62-75 | each merged row keeps the identifier and raw target text of the CSV record it came from |
| `Collector.FlattenPermutation` | tasks/find-deciles.js:50-76 | enumerating the files in another order yields the same multiset of merged rows |
| `Collector.FlattenRemove` | tasks/find-deciles.js:75 | removing one file from the list removes exactly its rows from the merged multiset |
| `Deciles.Coerce` | tasks/find-deciles.js:95 | an absent cell coerces to NaN; a present one to what `parseFloat` gives for its text |
| `Deciles.Parsed` | tasks/find-deciles.js:94-96 | the parsed samples are at most as many as the rows |
| `Deciles.ParsedMembers` | tasks/find-deciles.js:94-96 | a number is a parsed sample iff some row's raw value parses to it |
| `Deciles.ParsedAppend` | tasks/find-deciles.js:94-96 | coercing a concatenation coerces each part in turn |
| `Deciles.ParsedPermutation` | tasks/find-deciles.js:94-96 | the multiset of parsed samples depends only on the multiset of rows |
| `Deciles.NonNegative` | tasks/find-deciles.js:101 | every value `>= 0` keeps its multiplicity (zero included) and every negative value is dropped |
| `Deciles.Population` | tasks/find-deciles.js:92-106 | without `includeNegatives` every sample of the population is `>= 0`, and there are at most as many samples as rows |
| `Deciles.PopulationMembers` | tasks/find-deciles.js:92-106 | with negatives excluded, a number is in the population iff it is `>= 0` and some row parses to it |
| `Sorting.Sort` | tasks/find-deciles.js:109 | the array ends ascending, is a permutation of its old contents, and equals the reference sort of them |
| `Sorting.SortSeq` | tasks/find-deciles.js:109 | the reference sort is ascending and a permutation of its input |
| `Sorting.SortedUnique` | tasks/find-deciles.js:109 | two ascending sequences with the same multiset are equal, so any correct sort gives the same array |
| `Deciles.ReportNoData` | tasks/find-deciles.js:111-114 | no report exactly when the filtered population is empty |
| `Buckets.StartIdx` | tasks/find-deciles.js:129 | the start index is `>= 0` and, for N > 0, inside the population |
| `Buckets.EndIdx` | tasks/find-deciles.js:130 | the `Math.min` clamp never takes effect; the end index is in `-1 .. N-1` and is `-1` exactly when `i * N < 10` |
| `Buckets.BucketsAdjacent` | tasks/find-deciles.js:129-130 | bucket `i + 1` starts right after bucket `i` ends, for every N |
| `Buckets.BucketsCoverEnds` | tasks/find-deciles.js:128-130 | bucket 1 starts at 0 and bucket 10 ends at N - 1 |
| `Buckets.BucketSize` | tasks/find-deciles.js:128-131 | each bucket holds `N / 10` or `N / 10 + 1` indices, so sizes differ by at most one and none is empty for N >= 10 |
| `Buckets.StartMonotone` | tasks/find-deciles.js:129 | bucket start indices never decrease |
| `Buckets.BucketOf` | tasks/find-deciles.js:128-131 | every index is assigned a bucket number in 1..10 |
| `Buckets.BucketsPartition` | tasks/find-deciles.js:128-131 | every index `0 <= k < N` lies in exactly one bucket's range |
| `Deciles.RoundThousand` | tasks/find-deciles.js:134-135 | the result is a multiple of 1000 within `[v - 500, v + 500)` of `v` |
| `Deciles.RoundThousandUnique` | tasks/find-deciles.js:134-135 | that multiple of 1000 is the only one in that range, i.e. nearest with halves up |
| `Deciles.RoundMonotone` | tasks/find-deciles.js:134-135 | rounding never reverses the order of two values |
| `Deciles.At` | tasks/find-deciles.js:134-135 | an index read yields a value exactly when the index is inside the array, and that value is the element at the index |
| `Deciles.RoundBound` | tasks/find-deciles.js:134-135 | an absent read rounds to NaN; a present value rounds to the multiple of 1000 within `[v - 500, v + 500)` |
| `Deciles.BucketRow` | tasks/find-deciles.js:132-136 | the pushed row carries decile `i`; its min is a number iff N > 0 and is then the rounded start value; its max is NaN iff `i * N < 10` and is otherwise the rounded end value |
| `Deciles.DecileTable` | tasks/find-deciles.js:127-137 | exactly ten rows with `decile` fields 1..10 in order |
| `Deciles.TableRow` | tasks/find-deciles.js:128-136 | row `i`'s min is the rounded value at the start index; its max is NaN iff `i * N < 10`, otherwise the rounded value at the end index |
| `Deciles.InvertedBucket` | tasks/find-deciles.js:129-135 | a bucket whose end index is below its start index ends exactly one index early, so over sorted values its numeric max is at most its min |
| `Deciles.BuildDeciles` | tasks/find-deciles.js:127-137 | the loop's pushed rows are the ten table rows over the sorted array |
| `Deciles.GenerateDecileReport` | tasks/find-deciles.js:92-141 | the method (coerce, filter, sort in place, empty check, loop) computes the reference report |
| `Deciles.DecileReport` | tasks/find-deciles.js:108-137 | a written report has exactly ten rows, with `decile` fields 1..10 in order |
| `Deciles.TableBoundsRounded` | tasks/find-deciles.js:134-135 | every finite bound is a multiple of 1000, and none is negative when no sample is |
| `Deciles.SortedNonNegative` | tasks/find-deciles.js:99-109 | with negatives excluded, the sorted population has no negative value |
| `Deciles.ReportBoundsRounded` | tasks/find-deciles.js:134-135 | every bound the pipeline writes is NaN or a non-negative multiple of 1000 |
| `Deciles.TableOrdered` | tasks/find-deciles.js:128-135 | for N >= 10 all bounds are numbers, min <= max in each decile, and each max <= the next decile's min |
| `Deciles.ReportOrdered` | tasks/find-deciles.js:128-135 | a population of at least ten samples yields a report ordered as above |
| `Deciles.ReportOrderIndependent` | tasks/find-deciles.js:94-109 | the report depends only on the multiset of merged rows |
| `Deciles.TenSampleExample` | tasks/find-deciles.js:127-137 | with ten samples each decile holds one value: 2200 is written as 2000, 2800 as 3000 |
| `Deciles.SmallPopulationExample` | tasks/find-deciles.js:127-137 | with the three samples 100, 2600, 4400, deciles 1-3 have max NaN, deciles 1-4 share min 0, and decile 5 has min 3000 above its max 0 |
| `Pipeline.RunUnit` | tasks/find-deciles.js:52-83 | the merged rows are the concatenation of the files' rows, and the report is the reference report with negatives excluded |
| `Pipeline.UnitReportFileOrderIndependent` | tasks/find-deciles.js:50-83 | the unit's report does not depend on the order of the directory listing |
| `Pipeline.UnitPopulationNonNegative` | tasks/find-deciles.js:83-106 | every sample a unit bins parsed from a merged row and is `>= 0`, whatever the module-level flag says |

## Left out

- File system and CSV I/O: creating the output folder, listing the input
  folder and keeping `.csv` names, reading and parsing the CSV streams,
  and writing the merged file and the decile file (lines 40-51, 56-61,
  70-73, 79, 117-124, 139). A file enters the model as its parsed records. The
  outputs are the values `combined` and `report`.
- Promises, `async`/`await`, and the `on('error')` rejection. These are
  orchestration with no effect on the computed values.
- The outer loop over `yearVars`, the per-unit `try`/`catch`, and every
  `console.log`. The logged counts (excluded negatives, no data) are not
  modelled. `RunUnit` models one iteration of the loop.
- `parseFloat` itself: prefix parsing, `Infinity`, and double rounding.
  It is a parameter of the model, and parsed numbers are finite reals.
- Double-precision evaluation of `values.length / 10` and of `v / 1000`.
  The model uses exact arithmetic, so a product that double arithmetic
  would land just below an integer is not modelled.
- The engine's own sort algorithm. `Sorting.Sort` is an insertion sort.
  Every correct sort yields the same array (`Sorting.SortedUnique`).
- Dead code: the unused `parseFloat` at line 64, and the module constants
  of lines 9-17 that the loop shadows or never reads.
