# TMDb movies: cleaning and aggregation, in Dafny

`Investigate_a_Dataset.py` is a notebook exported as a script. It loads the TMDb
movie table into one pandas DataFrame and changes that frame in place, in this order:
1. It drops eleven non-descriptive columns.
2. It removes duplicate rows.
3. It treats every zero as missing and drops each row with a missing cell.
4. It converts budget and revenue to integers.
5. It inserts a `profit` column (revenue minus budget) at position 3.

It then asks the cleaned table questions:
- the ten most profitable movies;
- the movies with the largest and smallest budget and revenue;
- the total profit per release year;
- how often each genre, director and cast member occurs in the `|`-separated text columns.

This project models that pipeline and proves what each step promises.

- `wrappers.dfy` (`Wrappers`): `Option`, `Result` and `Outcome`. pandas raising an
  exception is a `Failure`/`Fail` whose error names the exception's cause.
- `seqs.dfy` (`Seqs`): the generic sequence algorithms pandas performs here:
  - keep-first de-duplication (`Unique`, proved equal to `s[~duplicated(s)]`);
  - filtering;
  - a descending sort by an integer key;
  - per-group sums.
- `data.dfy` (`Data`): the data model.
  - A cell is an integer, a float, a text or NaN (`Missing`).
  - A row maps column names to cells.
  - A `Table` is the column order plus the rows.
  - A `Series` is an index with integer values.
  - `Error` lists the exceptions the calls can raise.
- `cleaning.dfy` (`Cleaning`): each cleaning call as a function from a table to a
  table (or an error), with its contract and the lemmas about it.
- `frame.dfy` (`Frame`): the notebook's `df` as a class, `DataFrame`. Its fields are the
  column order and the rows. One method per in-place pandas call; each method's
  contract gives the new state as the `Cleaning` function of the old state. A call
  that raises leaves the frame unchanged.
- `wrangling.dfy` (`Wrangling`): the whole cleaning sequence, as a function (`Wrangle`)
  and as a method on the frame (`Run`), proved to agree. Also the lemmas about what a
  cleaned table looks like.
- `queries.dfy` (`Queries`): top-n by a column, idxmax/idxmin, and groupby-sum.
- `tokens.dfy` (`Tokens`): `str.cat(sep='|')`, `str.split('|')` and
  `value_counts(ascending=False)`.

Row positions stand in for pandas' index labels. Nothing in the pipeline reorders or
relabels rows before a query, so `df.loc[df[c].idxmax()]` is the row at the position
`IdxMax` returns.

Lines 127-135 remove only the rows that hold a zero or NaN. A negative budget or
revenue survives them, so the model proves "non-zero" (`Wrangling.WrangledIntegerMoney`).
That lemma also needs the loaded money columns to hold integers. Zeros are replaced
before `astype(int)`, so a float budget such as 0.5 would pass the zero test and then
truncate to 0.

## Model

| member | source | states |
|---|---|---|
| Cleaning.FirstAbsent | Investigate_a_Dataset.py:98 | finds a listed name that is not a column, and nothing exactly when every listed name is a column |
| Cleaning.DropColumns | Investigate_a_Dataset.py:95-98 | succeeds exactly when every listed name is a column, otherwise raises KeyError for a missing one; the result's columns are the table's columns outside the list, filtered in their order, and each row has lost the dropped keys with the other cells unchanged; well-formedness is kept |
| Frame.DataFrame.Drop | Investigate_a_Dataset.py:98 | in place: the new frame is the dropped table, or the old frame when the call raises; afterwards no listed name is a column |
| Seqs.Unique | Investigate_a_Dataset.py:108 | keeps each row once: no repeats, nothing new, nothing lost |
| Seqs.UniqueIsUnflagged | Investigate_a_Dataset.py:108 | keep-first de-duplication equals keeping the rows that `duplicated()` does not flag |
| Seqs.DistinctHasNoDuplicated | Investigate_a_Dataset.py:111 | `duplicated()` flags nothing in a sequence without repeats |
| Seqs.Duplicated | Investigate_a_Dataset.py:111 | `duplicated()` gives one flag per row, and the first row is never flagged |
| Seqs.CountTrue | Investigate_a_Dataset.py:111 | `sum` over the flags is at most their number, is the number of `True` flags, and is 0 exactly when no flag is set |
| Seqs.DuplicatedIsEarlierOccurrence | Investigate_a_Dataset.py:111 | a row is flagged exactly when an earlier row equals it |
| Seqs.UniqueOfDistinct | Investigate_a_Dataset.py:108 | de-duplicating a sequence without repeats changes nothing |
| Cleaning.DropDuplicates | Investigate_a_Dataset.py:108-111 | same columns; rows are the unflagged ones, without repeats, with the same set of rows; `sum(df.duplicated())` is then 0 |
| Cleaning.DropDuplicatesIsIdempotent | Investigate_a_Dataset.py:108 | dropping duplicates twice is the same as once |
| Frame.DataFrame.DropDuplicates | Investigate_a_Dataset.py:108 | in place: the new frame is the de-duplicated table, and its rows have no repeats |
| Cleaning.ReplaceZeros | Investigate_a_Dataset.py:127 | same shape; a cell becomes NaN exactly when it was zero or NaN, no zero is left, and every non-zero cell keeps its value |
| Data.IsZero | Investigate_a_Dataset.py:127 | `replace(0, ...)` matches a cell exactly when it is a number equal to zero (integer 0 or float 0.0), never text or NaN; a matched cell converts to the integer 0 |
| Frame.DataFrame.ReplaceZeros | Investigate_a_Dataset.py:127 | in place: the new frame is the table with zeros replaced |
| Seqs.Filter | Investigate_a_Dataset.py:135 | keeps exactly the elements satisfying the condition, as a sub-multiset of the input |
| Seqs.FilterAppend | Investigate_a_Dataset.py:135 | filtering a concatenation filters each part and keeps the parts in order |
| Seqs.FilterOfOne | Investigate_a_Dataset.py:135 | a single element is kept exactly when it satisfies the condition; with FilterAppend this fixes order and multiplicity |
| Seqs.FilterCounts | Investigate_a_Dataset.py:135 | every occurrence of an element satisfying the condition is kept, and none of one that does not |
| Seqs.FilterKeepsDistinct | Investigate_a_Dataset.py:135 | filtering keeps rows free of repeats |
| Seqs.FilterOfAll | Investigate_a_Dataset.py:135 | filtering on a condition every element meets changes nothing |
| Cleaning.DropNa | Investigate_a_Dataset.py:135 | same columns; the rows are the original rows without a NaN, filtered in their order |
| Cleaning.HasNoMissing | Investigate_a_Dataset.py:135 | dropna keeps a row exactly when every cell holds a number or a text; every row without zero and NaN is kept |
| Cleaning.DropNaCounts | Investigate_a_Dataset.py:135 | every occurrence of a row without NaN is kept, and no row with one |
| Frame.DataFrame.DropNa | Investigate_a_Dataset.py:135 | in place: the new frame is the table without rows holding NaN |
| Cleaning.ReplaceZerosInCompleteRow | Investigate_a_Dataset.py:127-135 | a row with no zero and no NaN passes through zero replacement unchanged |
| Cleaning.ZeroCleaningOfRows | Investigate_a_Dataset.py:127-135 | zero replacement then NaN removal keeps exactly the rows with no zero and no NaN, unchanged and in order |
| Cleaning.ZeroCleaningKeepsCompleteRows | Investigate_a_Dataset.py:127-135 | `df.replace(0, NaN).dropna()` equals the table filtered to its complete rows |
| Cleaning.ZeroCleanedRowsAreComplete | Investigate_a_Dataset.py:127-135 | every row left is an original row with no zero and no NaN |
| Cleaning.NullCount | Investigate_a_Dataset.py:143 | `isnull().sum()` of a column is at most the row count, and 0 exactly when no row has NaN there |
| Cleaning.NullCountOfCompleteRows | Investigate_a_Dataset.py:143 | `isnull().sum()` of a column is 0 over complete rows |
| Cleaning.ZeroCleaningLeavesNoGaps | Investigate_a_Dataset.py:127-143 | after cleaning every row is complete, every column's null count is 0, and rows stay free of repeats |
| Cleaning.ZeroCleaningIsIdempotent | Investigate_a_Dataset.py:127-135 | a second round of zero replacement and NaN removal changes nothing |
| Data.AsInt | Investigate_a_Dataset.py:167-168 | `astype(int)` of a cell succeeds exactly for numbers: integers stay, floats truncate toward zero; NaN and text fail (numeric text is under Left out) |
| Data.Truncate | Investigate_a_Dataset.py:167-168 | float to int conversion truncates toward zero: the result is the integer between the value and zero at distance under 1 |
| Cleaning.CoerceToInt | Investigate_a_Dataset.py:167-168 | raises AttributeError when the column is absent (`df.budget` is attribute access) and a conversion error when a cell is NaN or text; otherwise the column is integral, floats truncated, integers kept, every other cell and the row count unchanged |
| Cleaning.CoerceIsIdentityOnIntegers | Investigate_a_Dataset.py:167-168 | converting a column that is already integral gives back the same table |
| Frame.DataFrame.CoerceToInt | Investigate_a_Dataset.py:167-168 | in place: the new frame is the converted table, or the old frame when the call raises; on success the column is integral |
| Data.Minus | Investigate_a_Dataset.py:202 | element-wise `a - b`: raises on text, NaN when either side is NaN, an integer for two integers, otherwise the real difference |
| Cleaning.InsertError | Investigate_a_Dataset.py:202 | the error pandas raises first: KeyError for the first operand (`revenue` at line 202) when it is absent, else KeyError for the second (`budget`) when that is absent; then BadOperands exactly when both are present and a subtraction meets text; once the subtraction succeeds, AlreadyExists exactly when the name is already a column and BadPosition otherwise |
| Cleaning.InsertDifference | Investigate_a_Dataset.py:202 | fails with the exception pandas raises first (missing operand, text operand, existing name, bad position); otherwise the new column sits at the given position with the other columns in order, and each row gains exactly that cell, holding `a - b`, with the other cells unchanged |
| Cleaning.InsertAt | Investigate_a_Dataset.py:202 | the new column order has the name at the position, the old columns before and after it in order, and no repeats when the name was new |
| Cleaning.RowsWithDifference | Investigate_a_Dataset.py:202 | each row gains exactly the new cell, holding `a - b`, with its other cells unchanged |
| Frame.DataFrame.Insert | Investigate_a_Dataset.py:202 | in place: the new frame is the table with the column inserted, or the old frame when the call raises |
| Wrangling.Wrangle | Investigate_a_Dataset.py:95-202 | the cleaning cells in order, stopping at the first that raises; on success no rows are added and well-formedness is kept |
| Wrangling.Reached | Investigate_a_Dataset.py:95-202 | the table `df` holds after the cells: the result when none raises, the loaded table when the drop raises, otherwise the table of the last cell that succeeded; well-formed when the loaded table is |
| Wrangling.Run | Investigate_a_Dataset.py:95-202 | running the cleaning calls on the frame leaves it holding `Reached` of the old frame in every case, equal to the pipeline's result when that succeeds, and reports the pipeline's error when it fails |
| Wrangling.WrangleSteps | Investigate_a_Dataset.py:95-202 | names the intermediate tables of a successful run |
| Wrangling.InsertedColumns | Investigate_a_Dataset.py:202 | the columns after the insert are the old ones plus the new name |
| Wrangling.ProfitIsNotDropped | Investigate_a_Dataset.py:95 | `profit` is not one of the dropped names |
| Wrangling.WrangledRowsFromCleaned | Investigate_a_Dataset.py:127-202 | each final row has integer budget and revenue, profit equal to their difference, no NaN, and no zero outside the money columns |
| Wrangling.WrangledRowFrom | Investigate_a_Dataset.py:167-202 | one complete row through both conversions and the insert is a cleaned row |
| Wrangling.WrangledColumns | Investigate_a_Dataset.py:95-202 | after the drop and the insert, no dropped label is a column, profit is column 3, and budget and revenue are columns |
| Wrangling.WrangledTable | Investigate_a_Dataset.py:95-202 | after a successful run no dropped column remains, `profit` is the column at position 3, budget and revenue are columns, and every row is a cleaned row as above |
| Wrangling.DroppedMoneyIsIntegral | Investigate_a_Dataset.py:98 | dropping columns keeps budget and revenue integers or NaN |
| Wrangling.CleanedMoneyIsIntegral | Investigate_a_Dataset.py:108-135 | after de-duplication and zero cleaning, rows whose money was integer or NaN are complete and integral |
| Wrangling.ComesFromIntegral | Investigate_a_Dataset.py:108-135 | rows drawn from rows whose budget and revenue are integers or NaN have the same property |
| Wrangling.MoneyRowStaysNonZero | Investigate_a_Dataset.py:127-168 | a complete row with integral money keeps a non-zero budget and revenue through both conversions |
| Wrangling.MoneyOfInserted | Investigate_a_Dataset.py:202 | inserting profit keeps non-zero budget and revenue |
| Wrangling.WrangledIntegerMoney | Investigate_a_Dataset.py:127-202 | when every loaded budget and revenue is an integer or NaN, every final row has a non-zero budget and a non-zero revenue |
| Seqs.InsertDesc | Investigate_a_Dataset.py:212 | inserting into a descending sequence keeps it descending and adds exactly the one element |
| Seqs.SortDesc | Investigate_a_Dataset.py:212 | sorting descending gives a permutation along which the key never increases |
| Seqs.SortedPrefix | Investigate_a_Dataset.py:212 | the head of a descending sequence and its tail make up the whole, and nothing in the tail beats the last kept |
| Seqs.PermutationKeepsDistinct | Investigate_a_Dataset.py:299 | reordering a sequence without repeats leaves it without repeats |
| Queries.CheckIntColumn | Investigate_a_Dataset.py:212-299 | a query passes its checks exactly when the column exists and holds integers; an absent column raises KeyError, and a present one that is not integral reports NotIntegral |
| Queries.TopOfSorted | Investigate_a_Dataset.py:212 | the first min(n, count) rows of the rows sorted on a column are a top n |
| Queries.TopBy | Investigate_a_Dataset.py:212 | `sort_values(c, ascending=False).head(n)` raises for an absent or non-integer column; otherwise it gives min(n, count) of the rows, in non-increasing order, and no row left out beats the last one returned |
| Queries.TopTenByProfit | Investigate_a_Dataset.py:212 | succeeds exactly when profit is an integer column, and then gives at most ten rows forming a top ten by profit |
| Queries.TopHeadIsMax | Investigate_a_Dataset.py:212 | no row of the table has a larger value than the head of a top-n list |
| Queries.TopStartsAtMax | Investigate_a_Dataset.py:212-223 | the first row of a top-n list holds the value found by idxmax |
| Queries.TopOfAllIsSorting | Investigate_a_Dataset.py:212 | asking for at least as many rows as there are returns every row |
| Queries.ArgMax | Investigate_a_Dataset.py:223 | the position of the first largest value |
| Queries.ArgMin | Investigate_a_Dataset.py:230 | the position of the first smallest value |
| Queries.IdxMax | Investigate_a_Dataset.py:223-241 | raises for an absent or non-integer column or no rows; otherwise the first row whose value is at least every row's |
| Queries.IdxMin | Investigate_a_Dataset.py:230-248 | raises for an absent or non-integer column or no rows; otherwise the first row whose value is at most every row's |
| Queries.ArgMinIsArgMaxOfNegation | Investigate_a_Dataset.py:223-248 | idxmin of a column is idxmax of its negation |
| Queries.WrangledTableIsQueryable | Investigate_a_Dataset.py:202-248 | after a successful cleaning run the top-ten-by-profit query succeeds, and idxmax/idxmin of budget and revenue succeed exactly when rows remain |
| Queries.SortedKeys | Investigate_a_Dataset.py:299 | a groupby's index: each distinct key once, in strictly ascending order |
| Seqs.TotalsSum | Investigate_a_Dataset.py:299 | per-group sums over groups covering each key once add up to the grand total |
| Queries.GroupSum | Investigate_a_Dataset.py:299 | `groupby(g)[v].sum()` raises for absent or non-integer columns; otherwise it has one entry per distinct key in ascending order, each the sum of v over that key's rows, and the entries add up to the column's total |
| Tokens.Split | Investigate_a_Dataset.py:390 | `split('\|')` returns at least one piece and no piece holds the separator |
| Tokens.SplitAppend | Investigate_a_Dataset.py:390 | splitting at a separator splits the two sides independently |
| Tokens.JoinSplit | Investigate_a_Dataset.py:390 | joining the pieces of a split gives back the text |
| Tokens.SplitJoin | Investigate_a_Dataset.py:390 | splitting joined texts gives each text's pieces in turn |
| Tokens.SplitPlain | Investigate_a_Dataset.py:390 | a text without the separator is one piece |
| Tokens.SplitJoinPlain | Investigate_a_Dataset.py:390 | texts without the separator come back unchanged from a join and split |
| Tokens.Texts | Investigate_a_Dataset.py:390 | `str.cat` takes at most one text per row; over a column with no NaN it takes every row's text, in order |
| Tokens.TextOf | Investigate_a_Dataset.py:390 | one row gives `str.cat` at most one text: its cell in the column when that is a text, and nothing when it is NaN or absent |
| Tokens.ColumnTokens | Investigate_a_Dataset.py:390 | the tokens of a column: at least one, none holding the separator, and with at least one text the pieces of each movie's text, movie by movie |
| Seqs.SumWhereOfOnes | Investigate_a_Dataset.py:391 | summing ones over the occurrences of a token counts the token |
| Tokens.CountsAreTotals | Investigate_a_Dataset.py:391 | the counts of distinct tokens covering all tokens add up to the number of tokens |
| Tokens.IndexOfSorted | Investigate_a_Dataset.py:391 | the index of a value count holds each token once, most frequent first |
| Tokens.CountsOfIndex | Investigate_a_Dataset.py:391 | counting along such an index is a value count |
| Tokens.ValueCounts | Investigate_a_Dataset.py:391 | `value_counts(ascending=False)`: each distinct token once with its number of occurrences, all positive, non-increasing, and adding up to the number of tokens |
| Tokens.CountTokens | Investigate_a_Dataset.py:389-392 | `count_genre` and its copies at 424-427 and 446-449 raise for an absent or non-text column; otherwise they count the tokens of the column's joined texts |
| Tokens.TokensHaveNoSeparator | Investigate_a_Dataset.py:389-392 | no counted token contains `\|` |
| Tokens.ValueCountsOfOne | Investigate_a_Dataset.py:391 | a single token is counted once |
| Tokens.EmptyColumnCounts | Investigate_a_Dataset.py:389-392 | a column with no text yields the empty token once |
| Queries.ProfitByYear | Investigate_a_Dataset.py:299 | one entry per release year, ascending, the entries adding up to the total profit |
| Tokens.Join | Investigate_a_Dataset.py:390 | `str.cat(sep='\|')` of no texts is empty, and otherwise the texts' lengths plus one separator between each pair |
| Tokens.TextsAppend | Investigate_a_Dataset.py:390 | the texts of two runs of rows are the texts of each, in order |
| Tokens.TextsOfRow | Investigate_a_Dataset.py:390 | one row gives its text, or nothing when its cell is NaN; with TextsAppend this fixes the order and the NaN-skipping |

## Left out

- Reading `tmdb-movies.csv` (line 43) is I/O. The constructor `Frame.DataFrame.constructor` takes the loaded table as a parameter.
- Displays (`head`, `info`, `describe`, `shape`), histograms, scatter plots and every `plt` call are output only, so they are not modelled.
- `pd.to_datetime` of `release_date` (line 159) is not modelled. The cell keeps its value, and no query reads that column.
- `correlation_coeff` (lines 278 and 340) and the runtime statistics are floating-point statistics, which are left out.
- Index labels are not modelled. Positions stand in for them, which is exact here because no query follows a reordering.
- `Data.AsInt`: converting text that spells a number (`"12"`) is not modelled, because Python's `int()` parsing rules (sign, whitespace, underscores) are outside this model. Any text cell counts as not convertible, and so does NaN.
- `Cleaning.CoerceToInt`: inherits that gap from `Data.AsInt`, so a column holding numeric text raises in the model where pandas converts it.
- `Cleaning.ReplaceZeros`: when an integer column holds a zero, `df.replace(0, np.NAN)` makes the whole column float. The model keeps integer cells as integers. Only the cell type differs, and `astype(int)` turns n.0 back into n, so the integer columns that reach the queries hold the same values.
- `Cleaning.InsertDifference` and `Queries.GroupSum`: pandas computes `revenue - budget` and the per-year sums in 64-bit integers. The model's integers are unbounded, so int64 overflow is not modelled.
- `Cleaning.InsertDifference`: subtracting a float from an integer is exact real arithmetic. IEEE rounding is not modelled.
- `Queries.TopBy`, `Queries.IdxMax`, `Queries.IdxMin` and `Queries.GroupSum` work on integer-valued columns only. On any other column they report `NotIntegral`. Float and text sort keys are not modelled.
- `Queries.TopBy`: among rows with equal values the order is not stated, though pandas' default quicksort fixes one.
- `Tokens.ValueCounts`: among tokens with equal counts the order is not stated.
- `Tokens.TextColumn`: pandas decides `.str` support from the column's dtype. The model accepts any column whose cells are all text or NaN, so an all-NaN float column is accepted here but raises in pandas.
- Frame: pandas may copy data on `df = df.replace(...)` and `df = df.dropna()`. The model treats every step as an update of the one frame, which has the same observable effect.
