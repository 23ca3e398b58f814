# CSV analyzer: column statistics engine

A Dafny model of the computational core of the CSV Analyzer Dashboard, a
single-page React application that uploads a CSV file, parses it, and shows
per-column statistics and charts. The model covers:

- `calculateStats` (`src/App.js`). For every header it does the following:
  - collects the column's present cells, dropping null, undefined and the
    empty string;
  - classifies the column as numeric when at least one of those cells is a
    non-NaN number;
  - records either a numeric summary (count, mean, median of the ascending
    sort, min, max, spread) or a text summary (count, number of distinct
    values, the first five distinct values in order of appearance).
- The acceptance checks of `handleFileUpload`. The name must end in `.csv`,
  the size must be at most 10 MiB, and the parse must succeed and give at
  least one row. Only then does `calculateStats` run.
- The category-frequency reducer that feeds the pie chart. It counts the
  truthy cells of the first text column per property key of an accumulator
  object.

Files and modules:

- `cells.dfy` (`Cells`): the cell values the statistics distinguish:
  `Num(real) | NaN | Str | Bool | Null | Absent`, the scalars the parser
  delivers with dynamic typing on (see "Left out" for the others).
  `Absent` is JavaScript's `undefined`. Rows are maps from header to cell.
- `lists.dfy` (`Lists`): `FilterMap`, the shape of the `map(...).filter(...)`
  chains, with its order, membership, length and permutation lemmas.
- `sorting.dfy` (`Sorting`): the reference sort `SortSeq`, and the in-place
  insertion sort `SortInPlace` of the copied array, proved to produce it.
- `numeric.dfy` (`Numeric`): sum, mean, median, min, max and the population
  variance over exact reals, with their order, sign and invariance lemmas.
- `text.dfy` (`Text`): `[...new Set(values)]` as `Distinct`, first-occurrence
  order, and the `slice(0, 5)` sample.
- `analyzer.dfy` (`Analyzer`): the per-column specification `Summarize` and
  the imperative `SummarizeColumn` and `CalculateStats`, which fill the
  statistics map header by header.
- `upload.dfy` (`Upload`): the upload checks and their error messages.
- `category.dfy` (`Category`): the pie-chart reducer, as intended and as
  written.
- `scenarios.dfy` (`Scenarios`): worked examples proved on concrete tables.

Numbers are exact `real`s. The model reports the variance in place of the
standard deviation, which is its square root (see "Left out").

## Model

| member | source | states |
|---|---|---|
| Cells.CellAt | src/App.js:16 | definition without a contract of its own: `row[header]`, undefined when the row has no such key; what is read from the rows is stated by `CollectMembership` and `CollectRowByRow` |
| Cells.IsMissing | src/App.js:16 | definition without a contract of its own: null, undefined and the empty string, the cells the collection drops; used by `CollectMembership` and `CollectLength` |
| Cells.IsValidNumber | src/App.js:17 | definition without a contract of its own: a number other than NaN (NaN is a tag of its own); used by `ClassifiedNumericIff` and `NumericValuesMembership` |
| Lists.FilterMap | src/App.js:16-17 | the `map(...).filter(...)` chain, never longer than its input; order, membership, length and permutation are stated by the lemmas below |
| Analyzer.Collect | src/App.js:16 | the present cells of a column, never more than the rows; which cells and in what order is stated by `CollectMembership`, `CollectRowByRow` and `CollectLength` |
| Analyzer.NumericValues | src/App.js:17 | the valid numbers among the collected cells, never more than the cells; membership is stated by `NumericValuesMembership` |
| Analyzer.Summarize | src/App.js:18-44 | a numeric summary counts between 1 and the number of values; a text summary counts every value, has no more distinct values than values and at most five sampled; the full properties are `NumericSummaryProperties` and `TextSummaryProperties` |
| Analyzer.CollectMembership | src/App.js:16 | a cell is collected for a header iff it is not null/undefined/'' and some row holds it under that header |
| Analyzer.CollectRowByRow | src/App.js:16 | collection keeps row order: one more row appends exactly that row's cell, or nothing if it is missing |
| Analyzer.CollectLength | src/App.js:16 | the number of collected cells equals the number of rows whose cell is present |
| Analyzer.ClassifiedNumericIff | src/App.js:17-30 | a column is numeric iff some collected value is a valid number; its count is then the number of numeric values only, so strings in a mixed column are dropped |
| Analyzer.NumericValuesMembership | src/App.js:17 | v is among the numeric values iff `Num(v)` was collected |
| Analyzer.NumericSummaryProperties | src/App.js:18-35 | numeric summary: count > 0; min and max are numbers of the column bounding all of them; min <= median <= max; min <= mean <= max; variance >= 0 and = 0 iff all numbers are equal |
| Analyzer.TextSummaryProperties | src/App.js:37-44 | text summary: no collected value is a number; count = number of collected values; unique = number of distinct values <= count; the sample has min(5, unique) values, no repeats, and is a prefix of the distinct values |
| Analyzer.EmptyColumn | src/App.js:16-44 | a column with no present cell gives a text summary with count 0, unique 0 and an empty sample |
| Analyzer.SingleNumber | src/App.js:19-35 | a single number v gives count 1, mean = median = min = max = v and variance 0 |
| Analyzer.ElementsOfPermutation | src/App.js:38 | rearranged values have the same set of distinct values |
| Analyzer.SummaryIgnoresOrder | src/App.js:17-44 | rearranging a column's values keeps its classification and every statistic except the text sample (which distinct values it shows, and in what order) |
| Analyzer.RowOrderIrrelevant | src/App.js:15-44 | shuffling the rows keeps every column's classification and every statistic except the text sample (which distinct values it shows, and in what order) |
| Analyzer.SummarizeColumn | src/App.js:16-45 | the column summary computed by copying the numbers to an array and sorting it in place equals `Summarize` of the collected cells |
| Analyzer.CalculateStats | src/App.js:13-49 | the statistics map has exactly the headers as keys (one entry each, nothing else), and each entry is the summary of that header's column |
| Lists.FilterMapAppend | src/App.js:16-17 | filter-and-map distributes over concatenation, so kept values stay in input order |
| Lists.FilterMapMembership | src/App.js:16-17 | y is kept iff some element maps to y |
| Lists.FilterMapLength | src/App.js:16-17 | the output has one value per kept position |
| Lists.FilterMapPermutation | src/App.js:16-17 | inputs with equal multisets give outputs with equal multisets |
| Sorting.Insert | src/App.js:19 | inserting into a sorted sequence keeps it sorted, adds exactly one occurrence of x and nothing else |
| Sorting.SortSeq | src/App.js:19 | the reference sort is ascending and a permutation of its input |
| Sorting.SortedUnique | src/App.js:19 | two ascending sequences with the same multiset are equal, so the sorted result does not depend on input order |
| Sorting.SortSeqCharacterised | src/App.js:19 | any ascending permutation of s is `SortSeq(s)` |
| Sorting.SinkLast | src/App.js:19 | one insertion pass: with `a[..i]` sorted, swapping `a[i]` down leaves `a[..i + 1]` sorted, the multiset of the array unchanged and every element after index i where it was |
| Sorting.SortInPlace | src/App.js:19 | sorting the copied array in place leaves exactly `SortSeq` of its old contents |
| Numeric.Sum | src/App.js:20 | definition without a contract of its own: the sum from 0; its bounds are stated by `SumBounds` and its order independence by `TotalSortSeq` |
| Numeric.SumSquaredDeviations | src/App.js:26 | definition without a contract of its own: the sum of squared distances from m; its sign and zero case are stated by `SumSquaredDeviationsNonNegative` and `ZeroDeviationsMeansConstant` |
| Numeric.Mean | src/App.js:20-21 | definition without a contract of its own (sum over count); its bounds are stated by `MeanBetween` and `MeanBounds` |
| Numeric.Variance | src/App.js:26 | definition without a contract of its own (population variance, divided by n); its sign and zero case are stated by `VarianceNonNegative` and `VarianceZeroIffAllEqual` |
| Numeric.Median | src/App.js:22-25 | definition without a contract of its own (middle selection for odd and even lengths); its bounds are stated by `MedianBetweenEnds` and `MedianBounds` |
| Numeric.Min | src/App.js:33 | `Math.min`: a value of the list that no value is below |
| Numeric.Max | src/App.js:34 | `Math.max`: a value of the list that no value is above |
| Numeric.MinMaxAreSortEnds | src/App.js:19-34 | min is the first and max the last element of the ascending sort |
| Numeric.MedianBetweenEnds | src/App.js:22-25 | middle selection on a sorted list, for even and odd lengths, lies between its first and last element |
| Numeric.MedianBounds | src/App.js:19-34 | min <= median <= max |
| Numeric.SumBounds | src/App.js:20 | n * lo <= sum <= n * hi when every value lies in [lo, hi] |
| Numeric.MeanBetween | src/App.js:20-21 | the mean of values in [lo, hi] is in [lo, hi] |
| Numeric.MeanBounds | src/App.js:20-34 | min <= mean <= max |
| Numeric.MeanOfConstant | src/App.js:20-26 | a constant list has that constant as mean and variance 0 |
| Numeric.SumSquaredDeviationsNonNegative | src/App.js:26 | the sum of squared deviations is never negative |
| Numeric.ZeroDeviationsMeansConstant | src/App.js:26 | a zero sum of squared deviations from m means every value equals m |
| Numeric.VarianceNonNegative | src/App.js:26 | the population variance (divided by n) is >= 0 |
| Numeric.VarianceZeroIffAllEqual | src/App.js:26 | the variance is 0 iff all numeric values are equal |
| Numeric.SingleValue | src/App.js:19-34 | a one-element list [v] has mean, median, min and max v and variance 0 |
| Numeric.TotalSortSeq | src/App.js:19-26 | sums over the sorted copy equal sums over the original |
| Numeric.StatisticsIgnoreOrder | src/App.js:19-34 | lists with equal multisets have equal sum, mean, median, min, max and variance |
| Text.Distinct | src/App.js:38 | `[...new Set(values)]`: no repeats, exactly the values of the column, no longer than it |
| Text.DistinctStep | src/App.js:38 | a value already seen adds nothing to the distinct values; a new one is appended |
| Text.DistinctInFirstOccurrenceOrder | src/App.js:38 | the distinct values are listed in the order of their first occurrence |
| Text.UniqueCount | src/App.js:38-42 | the number of distinct values is the size of the column's value set, at most the number of values |
| Text.Sample | src/App.js:43 | `slice(0, 5)`: a prefix of the distinct values of length min(5, unique), with no repeats |
| Upload.EndsWith | src/App.js:69 | definition without a contract of its own: case-sensitive suffix test; exercised by `FileChecks` |
| Upload.ErrorMessage | src/App.js:70-103 | definition without a contract of its own: the exact text passed to `setError` for each rejection, including the source's spelling "Maximun" |
| Upload.CheckFile | src/App.js:69-77 | a name not ending in ".csv" is rejected first; otherwise a size above 10 * 1024 * 1024 is rejected; otherwise the file passes (both directions) |
| Upload.HandleFileUpload | src/App.js:64-106 | no file: nothing happens; wrong extension or oversize: rejected; parse error or zero rows: rejected; otherwise analysed, keeping the rows and headers, with one summary per header (every case in both directions) |
| Category.Truthy | src/App.js:294 | definition without a contract of its own: JavaScript truthiness of a cell (0, NaN, "", false, null and undefined are falsy) |
| Category.Tally | src/App.js:292-298 | the number of rows whose truthy cell has the key, at most the number of rows; it is the count `CategoryCounts` and `AsWrittenCountsOrdinaryKeys` promise |
| Category.SlotAfter | src/App.js:292-298 | definition without a contract of its own: the accumulator's own property for a key after the rows, built from `Bump`; its meaning is stated by `AsWrittenCountsOrdinaryKeys` and `AsWrittenGarblesInheritedKeys` |
| Category.TextColumnHasNoNumbers | src/App.js:290-291 | the column the pie chart picks (summarised as text) holds no number in any row |
| Category.PropertyKey | src/App.js:295 | definition without a contract of its own: the text a non-number cell is stored under (`String(value)`); `TrueMergedUnderOneKey` shows two different cells sharing a key |
| Category.CategoryCounts | src/App.js:292-298 | intended reducer: a key is present iff some row's truthy cell has that key, and its count is the number of such rows |
| Category.Bump | src/App.js:295 | one increment of the accumulator never creates a `__proto__` property and always creates or updates any other |
| Category.AsWrittenCountsOrdinaryKeys | src/App.js:292-298 | for a key not inherited from `Object.prototype` the reducer as written counts correctly |
| Category.AsWrittenGarblesInheritedKeys | src/App.js:292-298 | for an inherited name the reducer as written stores a string instead of a count, and never stores `__proto__` |
| Category.ConstructorCategoryMiscounted | src/App.js:292-298 | one row with category "constructor": intended count 1, stored value not a count |
| Category.CategoryCountsAsWritten | src/App.js:292-298 | the reducer on the object literal `{}` creates exactly the properties `SlotAfter` describes, with those values |
| Scenarios.AgeColumn | src/App.js:16-35 | the column [10, 20, "N/A", 30, null] is numeric with count 3, mean 20, median 20, min 10, max 30 and variance 200/3 |
| Scenarios.CityColumn | src/App.js:16-44 | the column [NYC, LA, NYC, SF, LA, NYC] is text with count 6, unique 3 and sample [NYC, LA, SF] |
| Scenarios.BooleansAreNotStrings | src/App.js:38 | the values [true, "true", true] have two distinct values, since the set does not convert to strings |
| Scenarios.TrueMergedUnderOneKey | src/App.js:292-298 | the boolean `true` and the string "true" are counted together under the key "true" (count 2), while the text summary of the same column has two distinct values |
| Scenarios.FileChecks | src/App.js:69-77 | exactly 10 MiB passes, one byte more is too large, and ".CSV" is rejected because the check is case-sensitive |

## Left out

- The standard deviation `Math.sqrt(variance)` is not computed. The
  numeric summary carries the variance it is the square root of, and the
  properties are stated about the variance.
- `toFixed(2)`: the displayed strings are not modelled. Statistics are exact
  reals, not IEEE doubles: there is no rounding, no overflow to Infinity,
  and no `-0`. `NaN` is a cell tag that fails the valid-number test.
- CSV parsing (`Papa.parse` with header, dynamic typing and skipped empty
  lines) is a library call and is not part of this model. Its result (rows
  and header fields, or an error message) is an input of
  `HandleFileUpload`.
- Upload.HandleFileUpload: the parse completes asynchronously, in a
  callback. The model treats one upload as one step from the file to its
  outcome. When a second file is chosen before the first parse completes,
  the two callbacks may run in either order and the later one decides what
  is shown. That interleaving is not modelled.
- Cells: with dynamic typing on, the parser can also deliver `Date`
  objects for ISO-like date text. `new Set` compares objects by identity,
  so two equal dates count as two distinct values. The model has no date
  cell, and a date column is modelled only as text cells.
- Analyzer.CalculateStats: headers that name properties every object
  inherits from `Object.prototype` (`toString`, `constructor`, `__proto__`,
  ...) are treated as ordinary keys. `CellAt` reads such a header as
  undefined in a row that lacks it, where `row[header]` reads the inherited
  function, which JavaScript would collect as a text value. In the
  statistics map a header `__proto__` gets an entry, where
  `statistics["__proto__"] = {...}` replaces the object's prototype and
  adds no key. `HandleFileUpload` inherits both simplifications.
- React state (`setFile`, `setData`, `setHeaders`, `setStats`, `setError`),
  `handleClearData`, the reset of the file input, `console.log`, JSX and the
  charts are presentation and are left out. `HandleFileUpload` returns an
  outcome instead. `ErrorMessage` gives the text of each rejection. It does
  not capture that a later rejection leaves the previous table on screen.
- The key order of the statistics object is not modelled: `Object.keys`
  lists integer-like keys (a header such as "2020") first in ascending
  order and the others in insertion order. Which text column the pie chart
  picks (the first text column in that order) is therefore not modelled
  either; the statistics are a map and the category lemmas hold for any
  column.
- Category.CategoryCounts: requires that the column holds no number. This
  is the case for every text column (`TextColumnHasNoNumbers`). The
  conversion of a number to its property-key string is not modelled.
- `Math.min(...values)` and `Math.max(...values)` spread the whole list as
  arguments and can exceed the engine's argument limit on very large
  columns. The model has no such limit.
- The pie-chart code after the reducer (`Object.keys(categoryData).map(...)`)
  is presentation and is left out.
- Nothing is left out in the text branch's deduplication, but it differs
  from a reading in which text values are compared as strings. `new Set`
  compares the raw scalars, so `true` and `"true"` are two values, and all
  NaN cells are one. The model follows the code.

## Findings

| source | as written | input that shows it | evidently intended | confidence | as-written member | corrected member |
|---|---|---|---|---|---|---|
| src/App.js:292-298 | `acc` is the object literal `{}`, so `acc[value]` reads names inherited from `Object.prototype`; for "constructor", "toString", "valueOf" and the like the inherited function is truthy, so the increment concatenates its text with "1", and for "__proto__" the assignment is ignored | a text column whose only value is "constructor" | each category's count is the number of rows holding it (count 1 here) | high, by reading; not executed | Category.CategoryCountsAsWritten, Category.ConstructorCategoryMiscounted | Category.CategoryCounts |
