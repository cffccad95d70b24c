# Options-chain transform: a Dafny model

This project models the data transform at the heart of `process_options.py`, an
options-analysis script. The script downloads a CSV of option quotes, cleans and
converts its columns, and groups the quotes by contract: Symbol, underlying price
(`Price~`), Type, Strike and expiration date (`Exp Date`). For each contract it
sums the traded volume and the open interest. It also splits the volume-weighted
delta into a positive and a negative bucket by clipping each row's
`Volume*Delta` at zero before summing. It then keeps only the contracts with a
total volume of at least 1000 and a positive difference between the two buckets.

The model is made of pure functions over sequences of rows, with lemmas about
them. This matches the source, which is vectorised pandas code with no loops.

- `Wrappers` (wrappers.dfy): `Option` and `Result`.
- `IvText` (iv_text.dfy): cleaning of the implied-volatility text.
- `OptionsData` (options_data.dfy): raw and converted rows, the group key, and
  `KeyOf`, which is `None` when a key field is null.
- `Normalizer` (normalizer.dfy): the column conversions. Text-to-number and
  text-to-date parsing are parameters (`Parsers`). A strict column (IV, Bid,
  Ask, Last, Volume, Open Int) aborts the run on a present cell that is not a
  number. Strike, Price~ and Exp Date become null instead. An empty cell is
  null (NaN) in every column.
- `KeyOrder` (key_order.dfy): the ascending key order in which `groupby` emits
  groups. Its default `sort=True` sorts lexicographically, and strings compare
  by code point.
- `Aggregator` (aggregator.dfy): the grouping and the four sums.
  - The specification is `GroupRows` (a group's rows, in input order) and
    `SumOf`.
  - The computation is `Accumulate`, a single pass into per-key running
    totals, emitted in the order of `SortedKeys`.
  - NaN operands are skipped by the sums, as pandas does, so they add zero.
- `ThresholdFilter` (threshold_filter.dfy): the volume/exposure filter.
- `Pipeline` (pipeline.dfy): the whole transform and two worked examples.

Volume, Open Int and Delta are Dafny `real` values: exact rational arithmetic
instead of IEEE doubles.

Two consequences of the code are worth stating:

- `groupby` at process_options.py:56 uses the pandas default `dropna=True`.
  So a row whose Symbol, Price~, Type, Strike or Exp Date is null (for
  example an unparseable Strike) is in no group, and its volume counts
  nowhere. `UnparseableStrikeDropsRow` and `GroupMembership` state this.
- The error value is the first failing column in conversion order: IV
  (line 44), then Bid, Ask, Last, Volume, Open Int (line 45).

## Model

| member | source | states |
|---|---|---|
| IvText.RemoveChar | process_options.py:44 | the removed character no longer occurs, every other character of the input still occurs, and the result is no longer than the input |
| IvText.RemoveCharCounts | process_options.py:44 | every character other than the removed one keeps its number of occurrences |
| IvText.RemoveCharAppend | process_options.py:44 | removal distributes over concatenation, so the kept characters stay in their original order |
| IvText.RemoveCharUnchanged | process_options.py:44 | removing a character leaves the text unchanged exactly when the character does not occur in it |
| IvText.CleanIVContents | process_options.py:44 | the cleaned IV text contains no '%' and no ','; every other character keeps its number of occurrences |
| IvText.CleanIVKeepsOthersInOrder | process_options.py:44 | the two replace passes equal a one-pass filter that drops exactly '%' and ',' and keeps everything else in order |
| IvText.CleanIVIdempotent | process_options.py:44 | cleaning already cleaned text changes nothing |
| IvText.CleanIVPercentExample | process_options.py:44 | "45.2%" cleans to "45.2" |
| IvText.CleanIVThousandsExample | process_options.py:44 | "1,234%" cleans to "1234" |
| OptionsData.KeyOf | process_options.py:46-56 | a row has a group key exactly when Symbol, Price~, Type, Strike and Exp Date are all present, and the key is made of exactly those five values |
| Normalizer.FirstFailingColumn | process_options.py:44-45 | reports no column exactly when no strict column holds a malformed cell; otherwise it reports a failing column, and every column converted before it is clean |
| Normalizer.Normalize | process_options.py:44-48 | succeeds exactly when no strict cell is malformed; on failure reports the first malformed column in conversion order; on success keeps one row per input row; a strict value is present exactly when its cell was, and it is the parse of the cell text (the cleaned text for IV); Strike, Price~ and Exp Date are the lenient parse of their cell, null exactly when the cell is empty or does not parse; Symbol, Type and Delta pass through |
| KeyOrder.KeyLessIrreflexive | process_options.py:56 | no group key sorts before itself |
| KeyOrder.KeyLessTransitive | process_options.py:56 | the lexicographic key order is transitive |
| KeyOrder.KeyLessTotal | process_options.py:56 | any two different keys are ordered one way or the other |
| KeyOrder.StrLessTotal | process_options.py:56 | any two different strings are ordered by the code-point order |
| KeyOrder.InsertKey | process_options.py:56 | inserting a key into a strictly ascending key list gives a strictly ascending list holding exactly the old keys and the new one |
| Aggregator.GroupRows | process_options.py:56 | a group holds only rows with exactly that key, and it holds every input row with that key |
| Aggregator.SortedKeys | process_options.py:56 | the group keys are strictly ascending (so pairwise distinct), and a key is present exactly when some row has all key fields present and that key |
| Aggregator.SumOf | process_options.py:59-60 | the sums of the clipped positive and negative products are never negative |
| Aggregator.GroupRowsCounts | process_options.py:56 | a group holds each row with its key exactly as many times as the input does, and no other row |
| Aggregator.AccumulateKeys | process_options.py:56-60 | the one-pass running totals have an entry for exactly the keys some row has |
| Aggregator.AccumulateMatchesGroups | process_options.py:56-60 | the one-pass running totals of every key equal the specification's sums of Volume, Open Int and the two clipped products over exactly that key's rows |
| Aggregator.Aggregate | process_options.py:56-64 | output groups are in strictly ascending key order; there is a group for a key exactly when some row has that key; each group's total volume, total open interest and two clipped sums are the sums over exactly its rows; the difference is positive minus negative; the output is empty exactly when no row has all key fields present |
| Aggregator.SignedSplitIsExact | process_options.py:59-64 | the positive clipped sum minus the negative clipped sum equals the unclipped sum of Volume*Delta over the same rows |
| Aggregator.AggregateDeltaSplit | process_options.py:59-64 | in every output group both clipped sums are non-negative, and the difference equals the sum of Volume*Delta over the group's rows |
| Aggregator.GroupMembership | process_options.py:46-56 | a row is in a group exactly when its key is that group's key; a row with every key field present is in exactly one group; a row with a null Strike, Price~, Exp Date, Symbol or Type is in none |
| Aggregator.GroupsTotalConserves | process_options.py:56-60 | summed group by group over distinct keys that cover every keyed row, each keyed row is counted exactly once |
| Aggregator.AggregateConservesTotals | process_options.py:56-60 | each column total of the grouped table (volume, open interest, both clipped sums) equals the sum over the input rows whose key fields are all present |
| ThresholdFilter.FilterGroups | process_options.py:70-72 | a group is in the output exactly when it is in the input with total volume at least 1000 and a positive difference; each kept group occurs as often as in the input, every dropped group not at all |
| ThresholdFilter.FilterIsSubsequence | process_options.py:70-72 | the filter output is an order-preserving subsequence of its input |
| ThresholdFilter.FilterIdempotent | process_options.py:70-72 | filtering a filtered table again returns it unchanged |
| ThresholdFilter.FilterKeepsKeyOrder | process_options.py:70-72 | filtering groups sorted by key keeps them sorted by key |
| ThresholdFilter.KeepBoundaries | process_options.py:70-72 | volume 1000 with a positive difference passes; a zero difference fails; volume 999 with difference 5 fails; volume 1500 with difference -10 fails |
| Pipeline.Process | process_options.py:44-72 | fails exactly when some strict cell is malformed, naming the first such column in conversion order; otherwise returns exactly the aggregated groups that pass the filter, in ascending key order, each holding its group's sums |
| Pipeline.ExampleGroupSums | process_options.py:56-60 | two rows of one contract with volumes 600 and 500 and deltas 0.5 and -0.5 give total volume 1100 and clipped sums 300 and 250, while clipping the net product would give 50 |
| Pipeline.MixedDeltaGroupExample | process_options.py:56-72 | those two rows form a single group with total 1100, sums 300 and 250 and difference 50, and the filter keeps it |
| Pipeline.UnparseableStrikeDropsRow | process_options.py:46-56 | a row whose Strike does not parse keeps its volume of 1500 but gets a null Strike, so the grouping drops it and the run yields no groups |

## Left out

- Credentials, environment lookup, Drive file search, the CSV download, the CSV write and the Telegram delivery (process_options.py:17-41, 75-83): I/O and remote services.
- Text-to-number (`astype(float)`, `pd.to_numeric`) and text-to-date (`pd.to_datetime`) parsing: these are pandas/Python internals. They are parameters of the model (`Parsers`), not definitions.
- A missing input column (KeyError at lines 44-60) is not modelled: every `RawRow` has every column.
- How the CSV reader infers column types: every cell is taken as text, or as empty. Delta, which the script never converts, is taken as the number the reader produced.
- The `.str` accessor error raised when the CSV reader has already read the whole IV column as numbers (line 44).
- Normalizer.Normalize: the error value names only the failing column. pandas' own message quotes the offending value, and its exact column order inside the single `astype` call of line 45 is a pandas implementation detail.
- `Days_to_Expiration`, `Strike_Price_Diff` and `Strike_Price_Diff_%` (lines 51-53 and 65-67): these depend on the wall clock, on `.round(2)` float rounding, and on IEEE inf/NaN when Price~ is 0. They feed neither the aggregation nor the filter.
- Floating-point semantics: sums and products are exact rationals. Rounding, overflow, infinities, and NaN produced by arithmetic rather than by an empty cell are not modelled. A NaN operand is modelled only as the skipped term of a sum.
- Dates are opaque day numbers (`Date(day)`). Only their equality and order are used, as the grouping key.
