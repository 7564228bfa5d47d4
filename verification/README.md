# Tabular transformation and aggregation engine — a Dafny model

This project models the data engine of a spreadsheet-automation web service.
The engine is a block of helper functions in `index.js` plus the loop that applies a user's operation list to a parsed table.
A table is a sequence of rows; a row maps column names to cells; a cell is a string, an integer, a boolean, `null` or `undefined` (the value of a column the row lacks).

What is modelled:

- **Row operators** (`removeDuplicates`, `trimSpaces`, `changeCase`, `findReplace`, `filterData`, `sortData`).
  - Each one takes a table and gives a table.
  - `removeDuplicates` is a method with the source's mutable `seen` set.
  - `sortData` sorts an `array` in place.
  - The copying operators and the filter are functions.
- **The operation loop** of the process route: a method that folds the operations over the table in list order. A ghost trace records every intermediate table.
- **Aggregations**:
  - `generateSummary`, as functions;
  - `generatePivotTable` and `groupByAnalysis`, as methods. Each fills its buckets in one pass, then replaces each bucket by its aggregate.
- **The JavaScript coercions they rely on**, each written once in `Cells` and `JsText` (with the uniqueness of decimal text in `DecimalText`):
  - `Number()`, with `Number(x) || 0`;
  - `String()`;
  - how `join('|')` writes `null` and `undefined`;
  - loose `==` against a string;
  - the relational `>` and `<`;
  - `trim()`, `includes()` and the case mappings.

Aggregation results are `JsNumber`s (`Finite`, `NaN`, `PosInfinity`, `NegInfinity`), because `0 / 0`, `Math.min()` and `Math.max()` of an empty bucket are not finite.

`groupByAnalysis` can be read as grouping by the raw cell value. The code, however, uses the value as a property key of a plain object, so the group name is `String(value)`: the number `1` and the string `"1"` share a group, as do `null` and `"null"`. The model follows the code.

A pivot with one row field, no column field and one value field agrees with `groupByAnalysis` on that column (`Agreement.PivotMatchesGroupBy`), for every aggregation both know, when the group column holds no `null` and no missing cell. On such a cell the two differ: the pivot's key comes from `join('|')` and is `""`, while groupBy's key is `"null"` or `"undefined"` (`Agreement.MissingGroupCellDiverges`). The model follows the code on both sides.

Proof structure:

- The order-dependent operators (`removeDuplicates`, pivot, groupBy) are specified by a fold over the rows. Each fold is then proved equal to an independent reference definition:
  - for `removeDuplicates`, the rows that no earlier row shares a key with, in index order (`Dedupe.DedupeIsFirstOccurrences`);
  - for groupBy and the pivot, the values of exactly the rows with a key, in row order.
- Totals over dictionaries use a map sum whose value does not depend on key order (`Counting.MapSumRemove`).

## Model

| member | source | states |
|---|---|---|
| JsText.TrimStart | index.js:358 | the result is the suffix of the input that starts at its first non-white-space character |
| JsText.IsSpace | index.js:358 | definition of the characters `trim()` removes: the ECMAScript white space and line terminators |
| JsText.TrimEnd | index.js:358 | the result is the prefix of the input that ends at its last non-white-space character |
| JsText.Trim | index.js:358 | `trim()` gives a slice of the input, cut only at white space, with no white space left at either end |
| JsText.TrimIdempotent | index.js:358 | trimming a trimmed string changes nothing |
| JsText.ToUpper | index.js:370 | `toUpperCase()` keeps the length, leaves no lower-case letter and changes nothing but letters |
| JsText.ToLower | index.js:370 | `toLowerCase()` keeps the length, leaves no upper-case letter and changes nothing but letters |
| JsText.ToUpperIdempotent | index.js:370 | upper-casing twice is upper-casing once |
| JsText.ToLowerIdempotent | index.js:370 | lower-casing twice is lower-casing once |
| JsText.OccursInTail | index.js:394 | the occurrences of a pattern in `s[1..]` are those in `s` shifted by one, when it does not occur at 0 |
| JsText.Includes | index.js:394 | `includes()` holds exactly when the pattern occurs at some offset |
| JsText.ReplaceAll | index.js:381 | a global replace leaves a string without the pattern unchanged |
| JsText.ReplaceAllBySelf | index.js:381 | replacing a non-empty pattern by itself gives back the input |
| JsText.StrLess | index.js:411-413 | definition of string `<` and `>`: lexicographic order by character code, a proper prefix first |
| JsText.StrLessIrreflexive | index.js:411 | no string is less than itself under JavaScript's string `<` |
| JsText.StrLessTransitive | index.js:411 | string `<` is transitive |
| JsText.StrLessTotal | index.js:411 | any two different strings are ordered one way or the other |
| JsText.StrLessAsymmetric | index.js:411 | string `<` never holds both ways |
| JsText.StrNotLessTransitive | index.js:411-413 | "not greater" on strings is transitive, so a string column sorts consistently |
| JsText.Join | index.js:344 | `join` of one part is that part; `join` of empty parts is just the separators |
| JsText.DigitChar | index.js:394 | a digit value becomes the digit character with that value |
| JsText.NatToString | index.js:394 | the decimal text of a natural number: digits that read back as that number, with no leading zero except in "0" |
| JsText.IntToString | index.js:394 | `String()` of an integer: a '-' exactly for negatives, then digits that read back as its magnitude |
| DecimalText.IntToStringCanonical | index.js:394 | the digits of a non-negative integer's text have no superfluous leading zero, and a '-' is followed by a non-zero digit (never "-0") |
| DecimalText.LeadingDigitPositive | index.js:394 | digit text that starts with a non-zero digit has a non-zero value |
| DecimalText.CanonicalIsNatToString | index.js:394 | digit text without a superfluous leading zero is unique: any such text is exactly what NatToString writes for its value, so the contracts above fix `String(n)` |
| Cells.FindChar | index.js:396 | the index of the first occurrence of a character, or the length when there is none |
| Cells.ParseUnsigned | index.js:396 | an unsigned decimal literal is non-negative, and a string of digits reads as its digit value |
| Cells.ParseNumber | index.js:396 | `Number()` of a blank string is 0 |
| Cells.Get | index.js:344 | definition of `row[col]`: the row's cell, or `undefined` when the row lacks the column |
| Cells.IsMissing | index.js:425 | definition of the summary's missing test: null, undefined or "" |
| Cells.ToNumber | index.js:396 | definition of `Number(cell)`: strings by their decimal text, booleans as 1 and 0, `null` as 0, `undefined` as NaN |
| Cells.NumberOrZero | index.js:496 | definition of `Number(cell) \|\| 0`: NaN becomes 0 |
| Cells.JsString | index.js:394 | definition of `String(cell)`, with "null" and "undefined" for the two empty values |
| Cells.JoinPart | index.js:344 | definition of how `join` writes one element: `null` and `undefined` as "" |
| Cells.LooseEquals | index.js:392 | definition of `cell == value` for a string `value`: text equality for strings, numeric equality for numbers and booleans, false for `null` and `undefined` |
| Cells.Greater | index.js:411-413 | definition of `x > y`: two strings compare as text, anything else through `Number()`, and NaN makes it false |
| Cells.Key | index.js:344 | definition of `columns.map(col => row[col]).join('\|')` |
| Cells.NoSpaceTrimmed | index.js:358 | a string with no white space at its ends is its own trim |
| Cells.NegativeTextParses | index.js:394 | `Number()` reads the text of a negative integer back as that integer |
| Cells.NonNegativeTextParses | index.js:394 | `Number()` reads the text of a non-negative integer back as that integer |
| Cells.NumberTextRoundTrip | index.js:394-396 | `Number(String(n))` is `Number(n)` for every integer cell |
| Cells.LooseEqualsOwnText | index.js:392 | an integer cell is loosely equal to its own decimal text, so "equals" finds it |
| Cells.GreaterAsymmetric | index.js:411-413 | the relational `>` on cells never holds both ways |
| Cells.NotGreaterTransitive | index.js:411-413 | "not greater" is transitive on two strings or two non-string numeric cells |
| Cells.KeyParts | index.js:344 | each part of a composite key is its cell as `join` writes it |
| Cells.KeyOfNoColumns | index.js:344 | with no key columns every row's key is "" |
| Cells.KeyMissingIsEmpty | index.js:344 | a missing cell, a `null` and `""` give the same key |
| Cells.KeyCollision | index.js:344 | cells `"a\|b","c"` and `"a","b\|c"` give the same key `a\|b\|c` |
| Seqs.SubsequenceBounds | index.js:343 | a filtered table is no longer than its input and has no row more often |
| Transforms.RewriteRow | index.js:354-362 | definition of the per-row copy: each named column holding a string is rewritten, every other cell copied |
| Transforms.CaseFunction | index.js:370 | definition of the case choice: "upper" upper-cases, anything else lower-cases |
| Transforms.RewriteTable | index.js:354-362 | same rows, same order and same columns; a string cell of a named column holds the rewritten text, and every other cell is unchanged |
| Transforms.TrimSpaces | index.js:353-363 | `trimSpaces` only trims the string cells of the named columns, and changes nothing else |
| Transforms.ChangeCase | index.js:365-375 | `changeCase` only re-cases the string cells of the named columns, and changes nothing else |
| Transforms.FindReplace | index.js:377-385 | `findReplace` only rewrites the string cells of the one column, and changes nothing else |
| Transforms.RewriteTwice | index.js:354-362 | rewriting twice with an idempotent text function is rewriting once |
| Transforms.TrimSpacesIdempotent | index.js:353-363 | `trimSpaces` is idempotent |
| Transforms.ChangeCaseIdempotent | index.js:365-375 | `changeCase` is idempotent for every case type |
| Transforms.ChangeCaseOtherIsLower | index.js:370 | any case type other than "upper" lower-cases |
| Transforms.FindReplaceNoMatch | index.js:377-385 | when no cell of the column contains the pattern, the table is unchanged |
| Transforms.FilterData | index.js:387-403 | `filterData` gives an order-preserving subsequence whose rows all match; each matching row keeps its multiplicity and every other row is gone |
| Transforms.Matches | index.js:390-401 | definition of the filter's switch: loose equality, `String(cell).includes`, numeric `>` and `<`, and `true` for any other operator |
| Transforms.FilterUnknownOperatorKeepsAll | index.js:399-400 | an unknown operator keeps every row |
| Transforms.FilterDropsNaN | index.js:395-398 | under "greater" and "less", no kept row has a cell that `Number()` reads as NaN |
| Transforms.FilterShrinks | index.js:388 | filtering never adds rows |
| Dedupe.KeysOf | index.js:344 | the key set contains exactly the keys of the rows |
| Dedupe.KeysOfSnoc | index.js:348 | appending a row adds its key to the seen set |
| Dedupe.KeepFirst | index.js:341-351 | the kept rows form a subsequence with distinct keys, none of them already seen |
| Dedupe.Dedupe | index.js:341-351 | definition of the selection `removeDuplicates` returns: the pass with the `\|`-joined key, starting with no key seen |
| Dedupe.FirstWithKey | index.js:345-349 | the first row with a given key has that key and comes from the table |
| Dedupe.RemoveDuplicates | index.js:341-351 | `removeDuplicates` with the `\|`-joined key gives the reference selection: an order-preserving subsequence in which no two rows share a key |
| Dedupe.KeepFirstPass | index.js:342-350 | the one pass over the rows with a growing set of seen keys gives the first-row-per-key selection, for any key function |
| Dedupe.KeepFirstStep | index.js:345-350 | a row is kept exactly when its key has not been seen |
| Dedupe.KeepFirstKeys | index.js:341-351 | every key of the input still has a row in the output |
| Dedupe.KeepFirstIsFirst | index.js:341-351 | each kept row is the first input row with its key |
| Dedupe.KeepFirstOfDistinct | index.js:341-351 | a table whose keys are already distinct passes through unchanged |
| Dedupe.DedupeIdempotent | index.js:341-351 | `removeDuplicates` twice is `removeDuplicates` once |
| Dedupe.DistinctKeysCount | index.js:341-351 | a table with distinct keys has as many keys as rows |
| Dedupe.DedupeOneRowPerKey | index.js:341-351 | exactly one row per input key is kept, and it is the first with that key |
| Dedupe.NothingNewKept | index.js:345-347 | rows whose keys were all seen are all dropped |
| Dedupe.DedupeNoColumns | index.js:344 | with no key columns at most the first row is kept |
| Dedupe.FirstOccurrences | index.js:341-351 | reference definition, by index: the rows no earlier row shares a key with, in index order |
| Dedupe.FirstOccurrencesStep | index.js:345-350 | with the seen set holding exactly the keys of the earlier rows, a row is selected exactly when its key is not in it, and adding its key keeps the set exact for the next row |
| Dedupe.KeepFirstIsFirstOccurrences | index.js:342-350 | from any row on, the pass with the keys seen so far selects exactly the first occurrences |
| Dedupe.DedupeIsFirstOccurrences | index.js:341-351 | `removeDuplicates` keeps exactly the rows no earlier row shares a key with, in input order |
| Sorting.OutOfOrder | index.js:406-415 | definition of the comparator answering 1: for "asc" the first cell is greater, otherwise it is less |
| Sorting.OutOfOrderAsymmetric | index.js:406-415 | the comparator never answers 1 for both (a, b) and (b, a) |
| Sorting.InOrderTransitive | index.js:406-415 | on a comparable column "in order" is transitive |
| Sorting.Swap | index.js:406 | swapping two entries permutes the array |
| Sorting.TransitivePermutation | index.js:406 | rearranging rows keeps the comparator consistent on them |
| Sorting.SwapStep | index.js:406 | one swap of the inserted row keeps the insertion invariant |
| Sorting.InsertDone | index.js:406 | the insertion ends with a sorted prefix when the comparator is consistent |
| Sorting.InsertLast | index.js:406 | inserting one row permutes the array, extends the sorted prefix by one and leaves the rows after it untouched |
| Sorting.SortInPlace | index.js:406 | `Array.prototype.sort` with a comparator: always a permutation, and sorted when the comparator is consistent on the rows |
| Sorting.SortData | index.js:405-416 | `sortData` permutes the array in place, which is all JavaScript promises; on a comparable column a sort that acts only on the comparator's sign, as Node's does, leaves it ascending for "asc" and descending otherwise |
| Pipeline.ApplyOperation | index.js:215-234 | one pass of the switch gives what the matching operator gives; an unrecognised type changes nothing |
| Pipeline.Recognised | index.js:215-234 | definition of the operation types the switch handles; any other type leaves the data as it is |
| Pipeline.Applied | index.js:215-234 | definition of what one pass of the switch may give: each operator's result, any permutation that is sorted on a comparable column for "sortData", and the table itself for an unrecognised type |
| Pipeline.ProcessOperations | index.js:214-235 | the operations run in list order, each on the previous one's output, from the input table to the result; the result never has more rows than the input, and a list of unrecognised operations returns the input unchanged |
| Pipeline.AppliedShrinks | index.js:215-234 | no operation adds rows |
| Pipeline.AppliedKeepsCount | index.js:218-229 | every operation except `removeDuplicates` and `filterData` keeps the row count |
| Pipeline.RunShrinks | index.js:214-235 | the processed table never has more rows than the input |
| Pipeline.RunKeepsCount | index.js:214-235 | without `removeDuplicates` and `filterData` the row count is unchanged |
| Pipeline.UnrecognisedIsIdentity | index.js:215-234 | an operation with an unrecognised type leaves the table unchanged |
| Pipeline.UnrecognisedRunIsIdentity | index.js:214-235 | a list of unrecognised operations leaves the table unchanged |
| Aggregates.Min | index.js:476 | `Math.min` of a non-empty list is one of its values and at most each of them |
| Aggregates.Sum | index.js:467 | definition of `vals.reduce((a, b) => a + b, 0)`, summing left to right |
| Aggregates.Max | index.js:479 | `Math.max` of a non-empty list is one of its values and at least each of them |
| Aggregates.SumAtLeast | index.js:467 | a sum is at least the length times a lower bound |
| Aggregates.SumAtMost | index.js:467 | a sum is at most the length times an upper bound |
| Aggregates.DivideBounds | index.js:470 | dividing bounds by a positive length bounds the quotient |
| Aggregates.AverageBetween | index.js:470 | the average of a non-empty list lies between its min and its max |
| Aggregates.Average | index.js:470 | definition of the sum divided by the length, for a non-empty list |
| Aggregates.AverageTimesLength | index.js:470 | the average times the length is the sum |
| Aggregates.KnownAggregation | index.js:502-518 | definition of the operations both analyses handle: "sum", "avg", "count", "min", "max" (the pivot's switch at index.js:465-483 counts for any other) |
| Aggregates.Aggregate | index.js:502-518 | a value exactly for the five known operations; count is the length; avg is NaN exactly for no values; min and max bound every value |
| Aggregates.AverageTimesCountIsSum | index.js:504-507 | the "avg" result times the length is the "sum" result |
| Aggregates.AverageWithinMinMax | index.js:506-516 | the "avg" result lies between the "min" and "max" results |
| Counting.MapSumRemove | index.js:500 | a dictionary's total does not depend on the order of its keys |
| Counting.MapSumUpdate | index.js:496 | updating one entry changes the total by the difference |
| GroupBy.GroupBy | index.js:490-522 | an unknown operation gives an empty result; a known one gives one entry per group |
| GroupBy.GroupKey | index.js:494 | definition of the group name: the cell as a property key, `String(row[groupColumn])` |
| GroupBy.GroupValue | index.js:496 | definition of the pushed value: `Number(row[aggregateColumn]) \|\| 0` |
| GroupBy.Groups | index.js:493-497 | definition of the grouping pass with dictionary semantics: each row's value appended to the list of `String(row[groupColumn])` |
| GroupBy.GroupsAreRowsWithKey | index.js:493-497 | a group exists exactly for each key that occurs, and holds exactly the values of the rows with that key, in row order |
| GroupBy.ValuesWithoutKey | index.js:493-497 | a key no row has collects no values |
| GroupBy.GroupSizesSumToRows | index.js:493-497 | the group sizes add up to the number of rows |
| GroupBy.GroupCountsSumToRows | index.js:509-510 | under "count" the group results add up to the number of rows (results read as reals through `FiniteValues`, where every "count" result is finite) |
| GroupBy.FillGroups | index.js:493-497 | the grouping pass builds the groups of the fold over the rows |
| GroupBy.ReduceGroups | index.js:499-519 | the reducing pass gives each group's aggregate, and nothing for an unknown operation |
| GroupBy.GroupByAnalysis | index.js:490-522 | `groupByAnalysis` (with dictionary semantics for the groups) gives GroupBy |
| GroupBy.GroupsAsWritten | index.js:493-497 | definition of the grouping pass on a plain object in a fresh process: a new key that is an inherited name fails with a TypeError |
| GroupBy.GroupByAsWritten | index.js:490-522 | definition of the analysis as written: it fails when grouping fails, and otherwise reduces each group |
| GroupBy.GroupsAsWrittenFailsOnInheritedKeys | index.js:494-496 | the grouping pass, run on a plain object, throws exactly when some key is an inherited property name; otherwise it agrees with the groups |
| GroupBy.GroupByAsWrittenAgrees | index.js:490-522 | the analysis as written fails exactly on inherited names, and otherwise agrees with GroupBy |
| GroupBy.InheritedKeyCounterexample | index.js:494-496 | one row whose group is "constructor": the code as written throws, while the intended result is a count of 1 |
| Pivot.RowNumbers | index.js:456-458 | definition of the numbers one row pushes: `Number(row[val]) \|\| 0` for each name in `values`, in order |
| Pivot.Layout | index.js:450-457 | the row key and column key are the joined cells; each row contributes `\|values\|` numbers |
| Pivot.AddToBucket | index.js:453-458 | definition of one row's step: create the row and the bucket when absent, then append the row's numbers |
| Pivot.FillAll | index.js:449-459 | definition of the first pass: each row's numbers appended to its (row key, column key) bucket, in row order |
| Pivot.BucketOfAbsent | index.js:449-459 | a key pair no row has collects nothing |
| Pivot.FillAllRowKeys | index.js:449-453 | there is a pivot row for exactly the row keys that occur |
| Pivot.FillAllColKeys | index.js:450-454 | within a pivot row there is a bucket for exactly the column keys that occur with its row key |
| Pivot.FillAllBuckets | index.js:456-458 | each bucket holds exactly the numbers of the rows with its keys, in row order |
| Pivot.FillAllIsBucketOf | index.js:449-459 | there is a pivot row for exactly the row keys and a bucket for exactly the key pairs that occur; each bucket holds exactly those rows' numbers, in order |
| Pivot.RowTotals | index.js:462-463 | per row key, the total bucket size under the same keys |
| Pivot.AddToBucketTotal | index.js:453-458 | pushing n numbers into one bucket adds n to the total |
| Pivot.ProductStep | index.js:456 | one more row adds one more width to the product |
| Pivot.BucketSizesSum | index.js:449-459 | the buckets hold rows times `\|values\|` numbers in all |
| Pivot.PivotAggregate | index.js:465-483 | the known aggregations behave as in groupBy; an unknown one falls back to the count |
| Pivot.AggregateRow | index.js:463-484 | aggregating a pivot row keeps its column keys |
| Pivot.AggregateAll | index.js:462-485 | aggregating the pivot keeps its row keys |
| Pivot.PivotCountsSumToCells | index.js:472-482 | under "count" or an unknown aggregation, the cells add up to rows times `\|values\|` |
| Pivot.PivotCells | index.js:449-459 | the result has an entry for exactly the row keys and key pairs of the input rows |
| Pivot.PivotCellValues | index.js:462-485 | each result cell aggregates exactly the numbers of the rows with its keys |
| Pivot.AddRow | index.js:453-458 | one row creates its pivot row and bucket when missing, then appends its numbers |
| Pivot.FillBuckets | index.js:449-459 | the first pass builds the buckets of the fold over the rows |
| Pivot.AggregateBuckets | index.js:463-484 | one pivot row's buckets are replaced by their aggregates |
| Pivot.AggregatePivot | index.js:462-485 | every bucket is replaced by its aggregate |
| Pivot.GeneratePivotTable | index.js:445-488 | `generatePivotTable` gives the aggregate of each bucket of the fold |
| Pivot.PivotTable | index.js:445-488 | definition of the result: the buckets of the first pass, each replaced by its aggregate |
| Agreement.RowKeyIsGroupKey | index.js:494 | on a present, non-null cell the pivot's one-field row key is groupBy's key |
| Agreement.OneFieldLayout | index.js:450-457 | with one row field and no column field, a row's keys are its group key and "", and it pushes its groupBy value |
| Agreement.AddToGroupBucket | index.js:453-458 | pushing a value into bucket (k, "") is appending it to group k |
| Agreement.BucketsAreGroups | index.js:449-459 | the one-field pivot buckets are exactly groupBy's groups, each under the column key "" |
| Agreement.AggregateSingleRow | index.js:462-485 | a pivot row with the single column key "" aggregates to that bucket's aggregate |
| Agreement.AggregateAsPivotRows | index.js:462-485 | aggregating groups laid out as pivot rows gives the aggregated groups laid out the same way |
| Agreement.PivotMatchesGroupBy | index.js:445-488 | a pivot with one row field, no column field and one value field equals groupByAnalysis on those columns, for every known aggregation, when the group column has no null or missing cell |
| Agreement.MissingGroupCellDiverges | index.js:450 | a row without the group column sits under "" in the pivot and under "undefined" in groupBy |
| Summary.Column | index.js:425 | definition of `data.map(row => row[col])`, with a missing column read as `undefined` |
| Summary.Present | index.js:425 | the present cells are exactly the cells that are not null, undefined or "" |
| Summary.PresentIsFilter | index.js:425 | the present cells are a subsequence of the column that holds each present value exactly as often as the column does, and no missing value, which fixes the filter's result |
| Summary.Numbers | index.js:426 | the number list is empty exactly when no cell is numeric, and it holds each numeric cell's value |
| Summary.NumbersOnlyFromCells | index.js:426 | every entry of the number list is `Number()` of some cell, so it holds nothing else |
| Summary.NumericValues | index.js:425-426 | definition of `numericValues` in one pass: the numbers of the cells that are present and numeric, in column order |
| Summary.NumbersOfPresentAreNumericValues | index.js:425-426 | filtering out the missing cells and then the NaNs gives exactly the numbers of the present numeric cells, in column order |
| Summary.NumericValueFromCell | index.js:426 | every number in that list is the number of some present numeric cell |
| Summary.SummarizeColumn | index.js:425-439 | definition of one column's summary: count and distinct count of the present cells, the missing count, and min, max, average and sum when some present cell is a number |
| Summary.GenerateSummary | index.js:418-443 | an empty table gives an empty summary; otherwise one entry per column of the first row |
| Summary.PresentPlusMissing | index.js:425-431 | the present and the missing cells together are all the rows |
| Summary.DistinctAtMostLength | index.js:430 | a list has no more distinct values than entries |
| Summary.DistinctAtLeastOne | index.js:430 | a non-empty list has a distinct value |
| Summary.SummaryCounts | index.js:428-432 | nullCount is the number of missing cells; count + nullCount is the row count; unique is at most count and at least 1 when count is not 0 |
| Summary.SummaryEntry | index.js:424-440 | the entry for a column of the first row is that column's summary |
| Summary.NumbersOfPresent | index.js:425-426 | some present cell is numeric exactly when the number list is non-empty |
| Summary.SummaryStatsPresent | index.js:434-439 | min/max/avg/sum are present exactly when some present cell of the column is a number |
| Summary.SummaryStatsBounds | index.js:435-436 | min and max bound every number in the column |
| Summary.SummaryMinMaxAttained | index.js:435-436 | min and max are each the number of some present numeric cell of the column |
| Summary.SummarySumAndAverage | index.js:437-438 | sum adds up the numbers of the present numeric cells in column order, and avg is that sum divided by how many there are |
| Summary.SummaryAverageBetween | index.js:435-437 | the average lies between min and max |

## Left out

- The Express routes and all other server plumbing are not part of this model:
  - JWT middleware, bcrypt, SQLite templates, uploads, export and download;
  - the analytics route's dispatch and its `catch` that turns an exception into a 500 response;
  - the process route's response (the first 100 rows and the row count).
- CSV and XLSX parsing and writing are foreign libraries. The model takes the parsed table as input.
- public/app.js (the browser client) is not part of this model.
- Cells are strings, integers, booleans, `null` and `undefined`. Fractional numbers, dates and nested values from a spreadsheet are not modelled.
- Number printing: `String()` of an integer is its full decimal text. The exponent form JavaScript uses from 10^21 upwards is not modelled.
- `Number()` of a string accepts an optionally signed decimal literal with an optional fraction, after trimming. Exponents, hexadecimal, octal and binary prefixes and "Infinity" are read as NaN here.
- Floating point: sums, averages and comparisons are exact real arithmetic. Rounding is not modelled.
- Transforms.FindReplace: `find` is a literal string, not a regular expression.
  - Metacharacters, `$` patterns in the replacement and the exception an invalid pattern throws are not modelled.
  - An empty `find` inserts the replacement around every character, as an empty global regex does.
- JsText.ToUpper: case mapping covers the ASCII letters only. Unicode case mapping, including length-changing mappings such as "ß" to "SS", is not modelled.
- JsText.ToLower: case mapping covers the ASCII letters only. Unicode lower-casing, such as "Σ" to "σ", is not modelled.
- JsText.StrLess: strings compare by Unicode code point, while JavaScript compares UTF-16 code units. The two orders differ only when characters outside the Basic Multilingual Plane are compared with characters from U+E000 to U+FFFF.
- Sorting.SortData: sortedness is promised only on a comparable column (all strings, or all non-string values that `Number()` reads as numbers).
  - The comparator never returns 0, not even for (a, a). ECMAScript therefore calls it inconsistent on every column and leaves the resulting order to the engine, so a permutation is all JavaScript guarantees.
  - The sortedness clause describes a sort that acts only on the sign of the comparator and never swaps a pair it reports in order, as Node's does; it is not a guarantee of the language.
  - Nothing is claimed about rows with equal keys (no stability).
  - The model sorts by insertion; the engine's own algorithm is not modelled.
- Pivot.GeneratePivotTable: buckets live in a dictionary. A row key or column key that is an Object.prototype property name ("constructor", "__proto__", "toString", ...) is not modelled.
  - In the source such a key reads an inherited value, so the `!pivot[rowKey]` tests pass without creating anything. The push then throws or lands in a shared object, and the affected rows are missing from the result.
  - Row key "__proto__" makes index.js:454 run `Object.prototype[colKey] = []`. From then on every plain object in the process inherits that key, in this request and in later ones.
  - After that, pivot buckets with that column key push into the one shared array and are lost.
  - A groupByAnalysis group with that name then no longer throws: it is silently dropped.
  - `row[colKey]` on a row that lacks the column reads the shared array.
  - No state across requests is modelled.
- GroupBy.GroupsAsWritten: failing exactly on the twelve inherited names holds for a process whose Object.prototype has not been changed, as above.
- Inherited column names: Cells.Get reads a column the row lacks as `undefined`. In the source `row[col]` (index.js:344, 389, 407, 425, 450, 494) reads an inherited Object.prototype member when the column is named "constructor", "toString", "valueOf" and so on. This happens, for instance, for an XLSX row that omits a blank cell.
  - removeDuplicates then keys the cell by the function's source text.
  - "contains" with "native" matches it.
  - generateSummary counts it as present.
  - A "__proto__" header never becomes an own key of a row at all.
  - None of this is modelled.
- Aggregates.Min: never fails. In the source, `Math.min(...vals)` (index.js:435, 476, 513) passes the whole list as call arguments. A long enough list throws a RangeError in Node, which the route turns into a 500 response. That limit is not modelled.
- Aggregates.Max: never fails. `Math.max(...vals)` (index.js:436, 479, 516) spreads the list the same way and can throw the same RangeError. That limit is not modelled.
- Key order: dictionaries are Dafny maps, so the order of `Object.keys` (integer-like keys first, then insertion order) is not modelled, and neither are JSON encoding, NaN or the infinities written as `null`.
- Malformed operations are not modelled: every operation carries all its fields, each a string or a list of strings. A missing field that makes the source throw, and a non-string `value` that `filterData` would compare numerically, fall outside the model.
- `generateSummary` counts distinct values with `new Set`, and SameValueZero coincides with cell equality for the modelled cells.

## Findings

| source | as written | input that shows it | evidently intended | confidence | as-written member | corrected member |
|---|---|---|---|---|---|---|
| index.js:494-496 | groups live in a plain object `{}`. A group key that is an inherited property name reads as truthy, so no list is created, `push` is not a function and the analysis throws (a 500 response) | one row whose group column holds "constructor" (GroupBy.InheritedKeyCounterexample); likewise "toString", "__proto__", "valueOf", ... | every distinct key gets its own group (dictionary semantics, e.g. `Object.create(null)` or a `Map`), so the row is counted | high (not executed) | GroupBy.GroupByAsWritten | GroupBy.GroupByAnalysis |
