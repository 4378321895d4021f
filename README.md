# aggregate.py: interaction rows to weighted edge lists

`aggregate.py` reads a CSV of pairwise interactions. Each row has a `Pair`
cell naming two characters and an integer weight. The script turns these
rows into undirected, weighted edge lists and writes three files: all pairs,
the pairs that mention the dominant entity `Popeye`, and the pairs that do
not. This project models that pipeline in Dafny and proves what each stage
promises.

- **Row normalisation** (`Normalize`). A blank `Pair` cell is skipped.
  `'Mr '` becomes `'Mr'`, so the honorific sticks to the surname. The text is
  then split on whitespace and must give exactly two names; any other count
  aborts the run. The two names are put in order with Python's string
  comparison, and the row becomes `Item(x, y, i)`. `NormalizeRows` is the
  loop. `Normalized` is its specification: a fold in which the first
  malformed row wins.
- **Python text primitives** (`Text`, `StrOrder`). `Text.IsSpace` is
  `str.isspace`, as the set of code points Python treats as whitespace.
  `Text.Strip` is `strip()` (line 53), and `Text.Split` is `split()` with
  no separator (line 58). `Text.ReplaceMr` is `replace('Mr ', 'Mr')`
  (line 58), which finds occurrences left to right and never overlaps
  them. `StrOrder.Less` is Python's `<` on `str` (the `x > y` test of line
  63): code points are compared in order, and a proper prefix sorts first.
  Each is defined once, and the lemmas the other modules need are proved
  about it.
- **`aggregate`** (`Aggregation`). `Aggregate` keeps the source's imperative
  form: a loop adds each weight into a map (the `defaultdict`), then
  `SortEntries` sorts the entries. Its contract is `IsAggregate`: the result
  is strictly sorted by `(x, y)`, has exactly the input's keys, and each
  entry carries the sum of that key's weights. A second, independent
  definition, `Aggregated`, inserts items one at a time into a sorted list.
  The two are proved equal. A result meeting `IsAggregate` is unique, which
  gives invariance under permutation of the input.
- **`scale`** (`Scaling`). A pure linear map of the weights from
  `[min, max]` onto `[imin, imax]` over exact `real` arithmetic. When the
  input is non-empty and every weight is equal, the source divides by zero.
  The model returns `Failure(ZeroDivision)` there and never a made-up width.
- **Filters** (`Filters`). `DOM in it` on an `Item` named tuple compares
  `DOM` with all three fields. The integer field can never equal a string,
  so the test is endpoint membership.
- **`write_output`** (`Output`). Aggregate, scale onto `[0.5, 5.0]`, and skip
  rows of width zero. The model returns the rows instead of writing a file.
- **The script** (`Pipeline`). `Run` chains these stages. It returns the
  three files' rows, or the first error the script would raise.

## Model

| member | source | states |
|---|---|---|
| StrOrder.LessTrichotomy | aggregate.py:63-64 | `StrOrder.Less`, which models Python's string `<`, is total: two names are less, equal or greater, so the swap always leaves them in order |
| StrOrder.LessTransitive | aggregate.py:63-64 | string `<` is transitive |
| StrOrder.LessIrreflexive | aggregate.py:63 | no string is less than itself |
| StrOrder.PairLessTrichotomy | aggregate.py:16 | the tuple order used by `sorted` is total on `(x, y)` keys |
| StrOrder.PairLessTransitive | aggregate.py:16 | the tuple order on keys is transitive |
| Text.StripEmpty | aggregate.py:53 | `Text.Strip`, which models `s.strip()`, is empty exactly when every character of `s` is whitespace |
| Text.Split | aggregate.py:58 | every token of `split()` is non-empty and holds no whitespace |
| Text.SplitConcat | aggregate.py:58 | `split()` loses exactly the whitespace: its tokens, joined, give the non-space characters in order |
| Text.SplitEmpty | aggregate.py:58 | `split()` gives no token exactly when the text is blank |
| Text.SplitLeadingBlank | aggregate.py:58 | leading whitespace does not change what `split()` returns |
| Text.SplitToken | aggregate.py:58 | a whitespace-free word followed by whitespace is the first token, and the rest is split on its own |
| Text.ReplaceMrNoOccurrence | aggregate.py:58 | text without `'Mr '` is unchanged by the replacement |
| Text.ReplaceMrOccurrence | aggregate.py:58 | in `Text.ReplaceMr`, which models `replace('Mr ', 'Mr')`, every `'Mr '` becomes `'Mr'`; the text on either side is rewritten independently |
| Text.ReplaceMrNonSpace | aggregate.py:58 | the replacement removes only spaces: the non-space characters are the same before and after |
| Normalize.NormalizeRow | aggregate.py:53-66 | a blank cell gives no item; otherwise the row fails exactly when the tokens are not two, with the raw cell and count in the error; a produced item has `x <= y`, holds the two tokens as a multiset, and keeps the weight |
| Normalize.NormalizeRows | aggregate.py:49-66 | the loop computes the fold `Normalized`, and every item it appends is in order |
| Normalize.NormalizedSucceeds | aggregate.py:57-61 | the loop completes exactly when every row is blank or has two tokens |
| Normalize.NormalizedItems | aggregate.py:53-66 | the items correspond one-to-one and in order to the non-blank rows, each built from its row |
| Normalize.NormalizedFirstError | aggregate.py:57-61 | the error raised names the first malformed row and its token count |
| Normalize.FailureSticks | aggregate.py:61 | once a row raises, later rows do not change the outcome |
| Normalize.TokensOfTwo | aggregate.py:58 | `'a b'` splits into `a` and `b` |
| Normalize.TokensOfHonorific | aggregate.py:58 | `'a Mr b'` splits into `a` and `'Mr' + b` |
| Normalize.TokensOfThree | aggregate.py:58 | `'a b c'` splits into three tokens |
| Normalize.TwoNames | aggregate.py:58-66 | a two-name cell gives one item with the names in order and the row's weight |
| Normalize.HonorificName | aggregate.py:58-66 | in `'a Mr b'` the honorific joins the surname, and the names are ordered |
| Normalize.ThreeNames | aggregate.py:57-61 | a three-name cell raises, carrying the cell and the count 3 |
| Aggregation.Aggregate | aggregate.py:12-16 | the result is strictly sorted by key, has one item per distinct input key carrying that key's weight sum, and equals the reference fold `Aggregated` |
| Aggregation.SortEntries | aggregate.py:16 | sorting the map's entries gives a strictly sorted list with exactly the map's keys and values |
| Aggregation.AddStep | aggregate.py:14-15 | one `result[(x, y)] += i` step keeps the map equal to the per-key sums of the prefix read so far |
| Aggregation.AggregatedIsAggregate | aggregate.py:12-16 | the reference fold is sorted and keeps exactly the keys and per-key sums |
| Aggregation.AggregateUnique | aggregate.py:16 | two sorted results with the same keys and sums are equal |
| Aggregation.AggregatePermutation | aggregate.py:16 | inputs that are permutations of each other aggregate to the same list |
| Aggregation.AggregateConserves | aggregate.py:13-15 | the total weight of the output equals that of the input |
| Aggregation.AggregateSize | aggregate.py:13-16 | the output has as many items as the input has distinct keys |
| Aggregation.AggregateCanonical | aggregate.py:16 | items with their names in order aggregate to items with their names in order |
| Aggregation.SumForPermutation | aggregate.py:13-15 | a key's weight sum does not depend on input order |
| Aggregation.InsertSorted | aggregate.py:16 | inserting into a sorted list keeps it strictly sorted |
| Aggregation.SortedSumFor | aggregate.py:16 | in a sorted result the entry for a key holds all of that key's weight |
| Scaling.MinWeight | aggregate.py:22 | `min` is a lower bound that some item attains |
| Scaling.MaxWeight | aggregate.py:23 | `max` is an upper bound that some item attains |
| Scaling.Scale | aggregate.py:18-27 | empty input is returned unchanged; otherwise the call fails with a division by zero exactly when every weight is equal; on success the length, the order and every `x` and `y` are kept |
| Scaling.ScaleBounds | aggregate.py:22-25 | every scaled weight lies in `[imin, imax]` |
| Scaling.ScaleEndpoints | aggregate.py:22-25 | the lightest item maps to `imin` and the heaviest to `imax` |
| Scaling.ScaleMonotone | aggregate.py:25 | scaling keeps the order of the weights |
| Scaling.ScaleStrict | aggregate.py:25 | with `imin < imax`, distinct weights get distinct widths in the same order |
| Scaling.LerpBounds | aggregate.py:25 | the linear map sends `[smin, smax]` into `[imin, imax]` |
| Scaling.EqualWeightsExample | aggregate.py:22-25 | two items of weight 5 make `scale` raise |
| Filters.ContainsEndpoint | aggregate.py:70-71 | `DOM in it` holds exactly when `DOM` is `x` or `y`; the weight never matches |
| Filters.Select | aggregate.py:70-71 | a view keeps only input items that pass its test |
| Filters.SelectAppend | aggregate.py:70-71 | filtering keeps relative order: it distributes over concatenation |
| Filters.SelectCount | aggregate.py:70-71 | each occurrence of a passing item is kept, and each failing one dropped |
| Filters.Partition | aggregate.py:70-71 | the present and absent views together hold every item exactly as often as the input |
| Output.Emitted | aggregate.py:36-44 | every row written has a non-zero width, colour `Black`, and there are no more rows than edges |
| Output.EmittedSingle | aggregate.py:36-44 | one edge is written as one `Black` row with its endpoints and width, unless its width is zero, when nothing is written |
| Output.EmittedAppend | aggregate.py:35-44 | edges are written one at a time and in order: the rows for `a + b` are the rows for `a` followed by those for `b` |
| Output.EmittedAll | aggregate.py:35-44 | when no width is zero every edge is written, in order |
| Output.EmitRows | aggregate.py:35-44 | the write loop produces `Emitted` of the scaled edges |
| Output.WriteOutput | aggregate.py:29-44 | `write_output` produces `Written`: the rows of the scaled aggregate, or the division error |
| Output.WrittenRows | aggregate.py:35-37 | with `IMIN = 0.5` the zero-width test never fires: one row per distinct pair, in key order, each width in `[0.5, 5.0]` |
| Output.WrittenFails | aggregate.py:22-25 | `write_output` raises exactly when there is at least one pair and all pairs have the same total, one pair alone included |
| Output.AggregateAllEqual | aggregate.py:22-25 | the aggregate has equal weights exactly when all pairs have equal totals |
| Pipeline.Run | aggregate.py:46-71 | the script's result is `Outcome`: the first error raised, or the three files' rows |
| Pipeline.OutcomeErrors | aggregate.py:57-71 | a run fails on a malformed cell exactly when some row is malformed, and with a division by zero exactly when every row is well formed and the all, present or absent items have at least one pair with all pair totals equal |
| Pipeline.OutcomeRows | aggregate.py:63-71 | on success every pair in each of the three files is in order, the all-pairs file has one row per distinct pair, the present file holds only pairs with `Popeye`, and the absent file only pairs without |
| Pipeline.ViewTotals | aggregate.py:70-71 | a view's per-pair totals are the full totals on the pairs it keeps and zero on the others |
| Pipeline.ViewKeys | aggregate.py:70-71 | a view's pairs are exactly the full pairs that do, or do not, mention the entity |

## Left out

- CSV reading and writing, the header row and `open`: the model takes rows as values and returns the rows each file would hold.
- `sys.argv` and the file names built from it: I/O plumbing.
- `int(...)` on the weight cell and the `Proximity`/`Interaction` fallback: a row carries its weight as an integer. A non-numeric or missing weight, which would raise in the source, is not modelled.
- A missing `Pair` cell: `DictReader` gives `None`, and `.strip()` then raises `AttributeError`. The model's `Pair` is always a string.
- The `print` of the malformed cell before the error is re-raised: diagnostic output only. The error value carries the cell instead.
- IEEE floating-point rounding in `scale`: weights are scaled in exact `real` arithmetic.
- Files written before an error: the source opens and writes each file in turn, so a division by zero in a later view leaves the earlier files and a header-only file on disk. `Run` returns only the error.
- Python's `sorted` is modelled by insertion into a sorted list. Keys are unique, so any correct sort gives the same list (`AggregateUnique`) and the algorithm does not matter.
- Equal names: two equal names (`'A A'`) give an item with `x == y`, exactly as the source's `x > y` swap allows. The model does not require the two endpoints to differ.
- Session grouping, per-entity locations and a guard for equal weights are not part of `aggregate.py`. The model follows the code: plain endpoint filters, and a division error when all weights are equal.
