# Data transformer of a classifier-inspection tool, in Dafny

This project models `src/DataTransformer.js`, the module that turns a labelled
(and optionally predicted) tabular dataset into the structures that the
visualisation draws.

- **`getMetadata(dataset, splitType)`** describes each feature column:
  - *categorical*: five distinct values or fewer, listed in default sort order;
  - *quantitative*: the bins low/medium/high, the numeric extent, and two
    thresholds. The thresholds come from equal intervals or from the 1/3 and
    2/3 quantiles;
  - *temporal*.

  It also returns the label values, the feature names and whether the
  dataset has predictions.
- **`getData(metadata, selectedFeatures, dataset)`** builds the partition
  tree. Each node counts its rows per label and, when predictions exist,
  per prediction and per correct/incorrect outcome. Inner nodes split their
  rows along the next selected feature:
  - a quantitative feature is split with `d3.bin`;
  - a categorical feature is split with `d3.groups`.

  Leaves store their row count.

Modules:

- `Sorting`: a stable insertion sort by a total preorder.
- `Seqs`: helpers shared by the other modules:
  - first-seen de-duplication, as `Array.from(new Set(xs))`;
  - flattening;
  - sums.
- `JsValues`: cell values (string, number, Date, `undefined`), their
  `String()` rendering, and `Array.prototype.sort()` with no comparator.
- `D3`: the parts of d3-array the module relies on:
  - `groups`, `rollup`, `extent`, `quantile`, `bisectRight`;
  - `bin` with a domain and explicit thresholds.
- `FeatureMetadata`: `getMetadata`, `equalIntervalThresholds`,
  `quantileThresholds`.
- `Partition`: `getData` and `splitData`.

The source is written as pure functions (map, reduce, recursion), so the
model is made of datatypes, functions and lemmas.

Modelling choices:

- **Cells and rows.** A row is a `map<string, Value>`, and a missing column
  reads as `Undefined`. JavaScript's type probes (`isNaN`, `instanceof Date`)
  become constructor tests. Columns are classified with the intended type
  test (see "## Findings").
- **`null` results.** A `null` result of `getMetadata` or `getData` is
  `None`.
- **Object keys.** The `label` key of the metadata object is the field
  `labelColumn`, because `label` is a Dafny keyword.
- **Maps as sequences.** The JavaScript `Map`s produced by `d3.rollup` are
  sequences of `Tally(key, count)` in insertion order. The `[key, rows]`
  pairs produced by `d3.groups` are sequences of `Group(key, rows)`.
- **Positional labels, as written.** Child `i` of a split is labelled
  `nextFeature.values[i]`, or `undefined` past the end.
  - For a categorical feature the children come in first-seen order, but
    `values` is in sorted order. The label therefore need not describe the
    child's rows.
  - `Partition.CategoricalLabelIff` states exactly when the label does
    describe the rows.
  - `Partition.LabelMismatchWitness` gives a two-row dataset where it does
    not: metadata is computed from that same dataset, and the child holding
    the `"b"` row is labelled `"a"`.

## Model

| member | source | states |
|---|---|---|
| Sorting.SortBySorted | src/DataTransformer.js:26 | insertion sorting by a total preorder yields a sequence ordered by it |
| JsValues.SortLeTotalPreorder | src/DataTransformer.js:26 | comparing by `String(v)`, with `undefined` after everything, is a total preorder, so the default sort is well defined |
| JsValues.DefaultSort | src/DataTransformer.js:26 | `.sort()` returns a permutation of its input, ascending by string rendering with `undefined` last |
| JsValues.NatToDecimalRoundTrip | src/DataTransformer.js:26 | the rendering of a whole number, which the default sort compares, reads back as that number |
| Seqs.Distinct | src/DataTransformer.js:16 | `Array.from(new Set(xs))` has no duplicates and has exactly the elements of `xs` |
| Seqs.DistinctFirstSeen | src/DataTransformer.js:16 | the Set keeps first-seen order: an earlier entry first occurs earlier in `xs` |
| Seqs.NoDupPermutation | src/DataTransformer.js:26 | sorting the distinct values keeps them distinct |
| Seqs.SumSizes | src/DataTransformer.js:125-127 | the sizes of the parts of a split add up to the size of their concatenation |
| D3.Groups | src/DataTransformer.js:121 | `d3.groups` yields at most one group per row, and no group is empty |
| D3.GroupsKeys | src/DataTransformer.js:121 | `d3.groups` has one group per distinct key, in first-seen order |
| D3.GroupsRows | src/DataTransformer.js:121-122 | each group holds exactly the rows with its key, in row order |
| D3.GroupsPartition | src/DataTransformer.js:121-122 | the groups together hold every row exactly once |
| D3.RollupCount | src/DataTransformer.js:88 | a counting rollup has at most one entry per row, and every count is positive |
| D3.RollupCountKeys | src/DataTransformer.js:88 | a counting rollup has one entry per distinct key, in first-seen order, whose count is that key's number of rows |
| D3.RollupCountSum | src/DataTransformer.js:88 | the counts of a rollup add up to the number of rows |
| D3.RollupCountLookup | src/DataTransformer.js:88 | looking up any key in a counting rollup gives its number of rows, 0 when absent |
| D3.ExtentOf | src/DataTransformer.js:38 | the extent's ends are numbers of the column, and every number lies between them |
| D3.SortNumbers | src/DataTransformer.js:76 | the numbers `d3.quantile` sorts come out ascending and as a permutation of its input |
| D3.Quantile | src/DataTransformer.js:76 | a quantile lies between the least and the greatest of the numbers |
| D3.LerpBetween | src/DataTransformer.js:76 | interpolating between two neighbouring numbers, in either order, stays between them |
| D3.Interpolate | src/DataTransformer.js:76 | the quantile's linear interpolation stays between its ends and grows with the fraction |
| D3.QuantileBounds | src/DataTransformer.js:76 | a quantile lies between the smallest and the largest number and grows with p |
| D3.BisectRight | src/DataTransformer.js:115-119 | the bin index of x is the number of leading thresholds at most x, and the next threshold exceeds x |
| D3.Bin | src/DataTransformer.js:115-119 | `d3.bin` yields between one and (thresholds + 1) bins, and every binned row has a number inside the domain |
| D3.BinMembers | src/DataTransformer.js:115-119 | every row in bin i has a number inside the domain whose bisection is i |
| D3.BinPartition | src/DataTransformer.js:115-119 | the bins together hold every in-domain row exactly once, and no other row |
| D3.AllInDomain | src/DataTransformer.js:115-119 | when every row's value lies in the domain, binning drops none |
| FeatureMetadata.FeatureNamesFilter | src/DataTransformer.js:18 | the feature names are exactly the columns other than `label` and `prediction`, each as often as among the columns, in column order |
| FeatureMetadata.TemporalUnreachableAsWritten | src/DataTransformer.js:34-48 | as written, a valid Date first value passes the numeric test and is typed quantitative; no cell the model represents is typed temporal (only an Invalid Date would be) |
| FeatureMetadata.Probe | src/DataTransformer.js:34-52 | the intended type test: quantitative exactly for a number, temporal exactly for a Date |
| FeatureMetadata.ProbeDiffersOnDatesOnly | src/DataTransformer.js:34-48 | the written and the intended type tests differ exactly on Dates |
| FeatureMetadata.Classify | src/DataTransformer.js:25-54 | each descriptor is named after its column |
| FeatureMetadata.CategoricalValues | src/DataTransformer.js:31-33 | a column with at most five distinct values is categorical, with each of its values listed once in default sort order |
| FeatureMetadata.CategoricalValuesAreDistinct | src/DataTransformer.js:26 | the sorted unique values are exactly the column's values, each once |
| FeatureMetadata.FallbackCategorical | src/DataTransformer.js:49-51 | a wider column whose first value is neither a number nor a Date is categorical, with its sorted distinct values |
| FeatureMetadata.TemporalColumn | src/DataTransformer.js:46-48 | with the corrected test, a wider column whose first value is a Date is temporal |
| FeatureMetadata.QuantitativeColumn | src/DataTransformer.js:34-45 | a wider column whose first value is a number is quantitative: low/medium/high, extent from its least to its greatest number, two ascending thresholds inside the extent; the `interval` strategy gives the equal-interval thresholds of the extent, any other gives the quantile thresholds of the column's numbers |
| FeatureMetadata.EqualIntervalThresholds | src/DataTransformer.js:67-72 | two thresholds cutting the extent into three intervals of equal width, inside the extent when it is ordered |
| FeatureMetadata.QuantileThresholds | src/DataTransformer.js:74-77 | two ascending thresholds between the least and the greatest number |
| FeatureMetadata.FoldFeatures | src/DataTransformer.js:24-57 | the reduce's keys are the starting keys plus the feature names |
| FeatureMetadata.FoldFeaturesContents | src/DataTransformer.js:24-57 | the reduce adds one descriptor per feature name, classified from that name's column, and keeps the other entries |
| FeatureMetadata.GetMetadata | src/DataTransformer.js:8-65 | null exactly without a dataset or its columns; label column `label`; predictions exactly when a `prediction` column exists |
| FeatureMetadata.GetMetadataFeatures | src/DataTransformer.js:18-57 | every feature name, and nothing else, has exactly one descriptor, named after its key and classified from its column |
| FeatureMetadata.GetMetadataLabelValues | src/DataTransformer.js:16 | the label values are the values of the `label` column, each once, in first-seen order |
| Partition.GetData | src/DataTransformer.js:80-85 | null exactly without metadata; otherwise a root with empty split feature and label |
| Partition.SplitData | src/DataTransformer.js:87-133 | a node carries the split feature and label it was given; its label counts add up to its rows; it is a leaf exactly at the last depth, where its value is its row count; it has prediction statistics exactly when the dataset has predictions |
| Partition.Predictions | src/DataTransformer.js:92-107 | the prediction counts add up to the rows; each prediction's outcome counts add up to that prediction's count |
| Partition.Splits | src/DataTransformer.js:112-123 | a categorical split has one nonempty part per distinct value; a quantitative split has at most thresholds + 1 parts holding only rows inside the extent |
| Partition.NodeCounts | src/DataTransformer.js:87-130 | a node's label counts list each label of its rows once, in first-seen order, with its number of rows; they sum to the node's row count; a node is a leaf exactly at the last depth, and a leaf's value is its row count |
| Partition.CorrectAmongPredicted | src/DataTransformer.js:95-103 | among the rows predicting p, `correct` counts those whose label is p |
| Partition.OutcomesSplit | src/DataTransformer.js:96-102 | every row is either correct or incorrect |
| Partition.PredictionsCorrect | src/DataTransformer.js:92-107 | one prediction entry per distinct prediction with its row count; correct plus incorrect equals that count; correct counts the rows whose label equals the prediction |
| Partition.SplitsPartition | src/DataTransformer.js:114-123 | the splits hold every row (categorical) or every in-extent row (quantitative) exactly once |
| Partition.ChildrenPartitionRows | src/DataTransformer.js:109-127 | the children's row counts add up to the node's rows that the split places |
| Partition.CategoricalChildren | src/DataTransformer.js:120-126 | a categorical split has one child per distinct value, in first-seen order, holding exactly the rows with that value, labelled by position |
| Partition.CategoricalLabelIff | src/DataTransformer.js:120-126 | a categorical child's label describes its rows if and only if the value at that position in first-seen order equals the one in sorted order |
| Partition.LabelMismatchWitness | src/DataTransformer.js:126 | with metadata from the same dataset, the child holding the `"b"` row is labelled `"a"` |
| Partition.QuantitativeChildren | src/DataTransformer.js:114-126 | with thresholds strictly inside the extent, a quantitative split has three children holding the rows in [min, t1), [t1, t2) and [t2, max] |
| Partition.SplitDataShaped | src/DataTransformer.js:109-130 | leaves lie exactly at depth equal to the number of selected features, and children at depth k are split along the k-th feature |
| Partition.SplitDataConsistent | src/DataTransformer.js:87-133 | at every node the prediction statistics agree with the label counts, and a leaf's value is the sum of its counts |
| Partition.LeavesCoverRows | src/DataTransformer.js:109-130 | when no row falls outside a quantitative split, the leaves' values add up to the number of rows |
| Partition.QuantitativeExtentCovers | src/DataTransformer.js:38-39 | a quantitative descriptor's extent contains every number of its column |
| Partition.GetDataCoversDataset | src/DataTransformer.js:80-133 | with metadata from the same dataset and numeric quantitative columns, the root counts every row and the leaves' values add up to the number of rows |

## Left out

- `src/stores.js`: the application state store. It is not part of this model.
- Floating point: numbers are exact reals. The threshold computations and the quantile interpolation ignore rounding.
- JsValues.NumberText: renders integers exactly and fractions with up to 20 decimal digits. It does not reproduce JavaScript's shortest round-trip formatting, exponent notation, `NaN` or `Infinity`. This affects only the default-sort order of numeric category values.
- JsValues.TextLe: compares Unicode scalar values where JavaScript compares UTF-16 code units. The two differ only for characters outside the Basic Multilingual Plane.
- JsValues.DefaultSort: sorting is modelled by a stable insertion sort. Stability itself is not stated.
- FeatureMetadata.Classify: uses the corrected type test `Probe`, not the written one. A column with more than five distinct values whose first value is a Date is temporal in the model, and `getData` cannot split on it. The source types it quantitative (`isNaN` of a valid Date is false), and its extent is the earliest and the latest Date. With the quantile strategy the thresholds are time values (`d3.quantile` converts each Date to a number). With the interval strategy each threshold is a Date plus a number, which JavaScript turns into a string; every comparison between a Date and such a string is false, so d3.bin keeps them and a split on the column puts all rows into a single bin.
- Invalid Dates (time value NaN) are not represented. The source types a wide column starting with one temporal, because `isNaN` is true for it and it is still `instanceof Date`.
- `isNaN` on numeric strings, `null` and booleans is not modelled. Cells are strings, numbers, Dates or `undefined`; a string counts as not a number.
- Date identity: `new Set` and `===` compare Date objects by reference. The model compares them by value.
- D3.ExtentOf, D3.Quantile and D3.Bin: non-number cells are ignored. d3 would coerce strings and Dates with `valueOf` and compare them.
- D3.BisectRight: modelled as a linear scan. Only its result is modelled, not the binary search.
- D3.Bin: when d3.bin's thresholds fall outside the domain, it trims them. It also places the domain's upper end in the last bin. Both behaviours are modelled. Its `x0`/`x1` bin bounds are not modelled, because `splitData` does not read them.
- Partition.SplitData: requires every selected feature to have a categorical or quantitative descriptor. For a missing or temporal descriptor the source throws a TypeError (`splits` is undefined, or `nextFeature` is), but only when the recursion reaches that depth. Deeper features are never looked up below a categorical split of an empty node, which has no children. The source then returns a tree that the model does not cover.
- The `.filter(d => d !== undefined)` on the children removes nothing, because `splitData` always returns a node. The model omits it.
- The descriptor map is a `map` and not a plain object, so inherited prototype keys such as `toString` are not modelled.
- `getData` with `metadata === undefined` throws in the source. The model has only `None` (null) and `Some`.

## Findings

| source | as written | input that shows it | evidently intended | confidence | as-written member | corrected member |
|---|---|---|---|---|---|---|
| src/DataTransformer.js:34-48 | the numeric test (`isNaN` negated) runs before the Date test. `isNaN` of a valid Date is false, so a valid Date first value is typed quantitative; the temporal branch is reached only for an Invalid Date | a column with more than five distinct values whose first value is a Date | such a column is typed temporal (`T`) | high, not executed | FeatureMetadata.TemporalUnreachableAsWritten | FeatureMetadata.Probe |
