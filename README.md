# Postal-office data cleaning and counting, in Dafny

This project models the data core of a small script that analyses a
spreadsheet of Indian post-office records (`deepseek.py`). The script loads the
sheet, cleans it, prints summary figures, draws five charts and writes the
cleaned sheet back. The model covers the logic between the read and the
drawing:

- **Cleaning** (`load_and_clean_data`). It drops every row with a missing cell
  in any column, then exact-duplicate rows (the first copy is kept). It strips
  and lowercases the column names, strips every string cell, and checks that
  `statename`, `district`, `officetype`, `regionname` and `delivery` are all
  present. Any failure gives no table.
- **Summary figures** (`generate_summary_stats`): the row count, the number of
  distinct states and districts, and the distinct office types.
- **Chart data** (`create_visualizations`): region and office-type frequency
  counts, the state × delivery count table, and the top-10 states and
  districts.

Files:

- `tables.dfy`: module `Tables`, the table (header plus rows of cells) and
  column selection.
- `text.dfy`: module `Text`, ASCII `strip()` and `lower()`.
- `seqs.dfy`: module `Seqs`, occurrence counts, first-occurrence
  deduplication, tallies, and ordering by count.
- `cleaning.dfy`: module `Cleaning`, the cleaning pipeline.
  - `Cleaned` is the function that specifies it.
  - `LoadAndClean` is the step-by-step method, proved equal to `Cleaned`.
  - `VerifyRequiredColumns` is the required-column loop, proved against
    `FirstMissing`.
- `aggregates.dfy`: module `Aggregates`, `nunique`, `unique`, `value_counts`,
  `head(10)`, the grouped state × delivery counts, and the summary and chart
  data built from them.

The spreadsheet read is an input: `None` stands for a read that raised.

Duplicates are removed before cells are trimmed (`deepseek.py` line 23, then
line 27). So two rows that differ only in surrounding whitespace both survive
and end up equal. `Cleaning.TrimmedRepeatsSurvive` proves this. Only the rows
before trimming are proved distinct (`Cleaning.PreTrimRowsSpec`).

## Model

| member | source | states |
|---|---|---|
| `Cleaning.Cleaned` | deepseek.py:10-39 | No contract of its own; the model of `load_and_clean_data`, specified by `Cleaning.CleanedFailsIff`, `Cleaning.CleanedHeader`, `Cleaning.CleanedRows` and `Cleaning.CleanedWellFormed`. |
| `Cleaning.PreTrimRows` | deepseek.py:20-23 | No contract of its own; `dropna()` then `drop_duplicates()`, specified by `Cleaning.PreTrimRowsSpec`. |
| `Cleaning.NormalizeHeader` | deepseek.py:26 | No contract of its own; each column name normalised in place, specified by `Cleaning.CleanedHeader`. |
| `Text.NormalizeName` | deepseek.py:26 | No contract of its own; `name.strip().lower()`, specified by `Text.NormalizeNameSpec` and `Text.NormalizeNameIdempotent`. |
| `Text.Strip` | deepseek.py:26-27 | No contract of its own; `strip()`, specified by `Text.StripRemovesSurroundingSpace` and `Text.StripIdempotent`. |
| `Text.Lower` | deepseek.py:26 | No contract of its own; ASCII `lower()`, specified by `Text.LowerSpec`. |
| `Cleaning.StripCells` | deepseek.py:27 | No contract of its own; the `applymap` that strips string cells, specified by `Cleaning.StripCellsSpec`. |
| `Aggregates.TopCounts` | deepseek.py:86-107 | No contract of its own; `value_counts().head(n)`, specified by `Aggregates.TopCountsShape` and `Aggregates.TopCountsCutoff`. |
| `Aggregates.DeliveryCounts` | deepseek.py:74 | No contract of its own; the unstacked state × delivery counts, specified by `Aggregates.DeliveryCountsSpec`. |
| `Aggregates.Summarize` | deepseek.py:44-47 | No contract of its own; the printed summary figures, specified by `Aggregates.SummarySpec`. |
| `Aggregates.ChartData` | deepseek.py:54-107 | No contract of its own; the counts handed to the five charts, specified by `Aggregates.ChartBarTotals`, `Aggregates.DeliverySegmentsMatchStates` and `Aggregates.TopTenLengths`. |
| `Cleaning.LoadAndClean` | deepseek.py:10-39 | The step-by-step cleaning (drop incomplete rows, drop repeats, normalise header, strip cells, check columns, `None` on any failure) gives exactly `Cleaned(read)`. |
| `Cleaning.VerifyRequiredColumns` | deepseek.py:30-33 | The loop over the five required columns stops at the first one absent from the header and reports its position, or reports none when all are present. |
| `Cleaning.FirstMissing` | deepseek.py:30-33 | The result is `None` exactly when every required column is in the header; otherwise it is a position whose column is absent while every earlier column is present. |
| `Cleaning.CleanedFailsIff` | deepseek.py:30-39 | Cleaning yields no table exactly when the read failed or some required column is absent from the normalised header; a returned table has all five required columns. |
| `Cleaning.DropMissing` | deepseek.py:20 | No kept row has a missing cell, and every kept row is a row of the input. |
| `Cleaning.DropMissingKeepsComplete` | deepseek.py:20 | Every row without a missing cell survives with all of its copies. |
| `Cleaning.DropMissingConcat` | deepseek.py:20 | Dropping works row by row and commutes with concatenation, so the kept rows stay in input order. |
| `Cleaning.DropMissingKeepsOrder` | deepseek.py:20 | Kept rows appear in the order of their first occurrence in the input. |
| `Seqs.Dedup` | deepseek.py:23 | The deduplicated rows have no repeats, every one comes from the input, and there are no more of them than input rows. |
| `Seqs.DedupMembers` | deepseek.py:23 | Deduplication neither drops a value nor adds one. |
| `Seqs.DedupKeepsFirstOccurrences` | deepseek.py:23 | Deduplicated values are ordered by where each first occurs in the input, so each copy kept is the first one (`keep='first'`). |
| `Cleaning.PreTrimRowsSpec` | deepseek.py:20-23 | Before trimming, the kept rows are exactly the distinct complete rows of the input. Each appears once and none has a missing cell. They are in the order of their first occurrence in the input. |
| `Text.StripLeading` | deepseek.py:27 | The result is a suffix of the input; everything removed is whitespace; the result does not start with whitespace. |
| `Text.StripTrailing` | deepseek.py:27 | The result is a prefix of the input; everything removed is whitespace; the result does not end with whitespace. |
| `Text.StripRemovesSurroundingSpace` | deepseek.py:27 | `strip()` removes exactly a whitespace prefix and a whitespace suffix, and leaves no whitespace at either end. |
| `Text.StripIdempotent` | deepseek.py:27 | Stripping a stripped string changes nothing. |
| `Text.LowerSpec` | deepseek.py:26 | `lower()` keeps the length, leaves no upper-case letter, shifts each upper-case letter to its lower-case form, and leaves every other character (whitespace included) as it was. |
| `Text.NormalizeNameSpec` | deepseek.py:26 | A normalised column name is the lowercase of the name with a whitespace prefix and suffix removed; it has no surrounding whitespace and no upper-case letter. |
| `Text.NormalizeNameIdempotent` | deepseek.py:26 | Normalising a normalised column name changes nothing. |
| `Text.NormalizeNameExample` | deepseek.py:26 | The header `" StateName "` becomes `"statename"`. |
| `Cleaning.StripCellsSpec` | deepseek.py:27 | Trimming keeps the number of rows and of cells per row. Each string cell becomes its stripped value, with no surrounding whitespace. Every other cell is unchanged. |
| `Cleaning.CleanedHeader` | deepseek.py:26 | The cleaned header has one name per input column, in the same order. Each name is the input name stripped and then lowercased, with no surrounding whitespace and no upper-case letter. |
| `Cleaning.CleanedRows` | deepseek.py:20-27 | The cleaned rows are the pre-trim rows, one for one, with string cells stripped. No cell of any row is missing, and every string cell has no surrounding whitespace. |
| `Cleaning.CleanedWellFormed` | deepseek.py:17-27 | When every input row has one cell per column, so does every cleaned row. |
| `Cleaning.TrimmedRepeatsSurvive` | deepseek.py:23-27 | Two distinct complete rows that differ only in surrounding whitespace both survive cleaning and are equal afterwards. |
| `Tables.Column` | deepseek.py:45 | `df[name]` has one value per row: the cell under the first column of that name. |
| `Aggregates.NonMissing` | deepseek.py:54 | The values `value_counts` and `nunique` count: no missing value, every other value with its number of occurrences unchanged, and the whole column when nothing is missing. |
| `Aggregates.NUnique` | deepseek.py:45-46 | `nunique()` is the number of distinct non-missing values of the column. |
| `Aggregates.ValueCounts` | deepseek.py:54 | Value counts are listed by non-increasing count. |
| `Aggregates.ValueCountsEntries` | deepseek.py:64 | An entry `(v, n)` is in the value counts exactly when `v` is a non-missing value of the column and `n` is its number of occurrences. |
| `Aggregates.ValueCountsOnePerValue` | deepseek.py:54 | No two entries of the value counts share a value. |
| `Aggregates.ValueCountsSize` | deepseek.py:44-46 | There are `nunique` entries. Their counts add up to the number of non-missing values, which is the column length when nothing is missing. |
| `Seqs.SortByCount` | deepseek.py:54 | Sorting the tally is a permutation, orders it by non-increasing count, and keeps the sum of counts. |
| `Seqs.TotalOfTally` | deepseek.py:54 | Counting a sequence against distinct keys that cover all of its elements accounts for every element exactly once. |
| `Aggregates.TopCountsShape` | deepseek.py:86 | `value_counts().head(n)` has `min(n, nunique)` entries, each a value with its exact count, in non-increasing order. |
| `Aggregates.TopCountsCutoff` | deepseek.py:107 | Every non-missing value left out of the top `n` occurs no more often than any value kept. |
| `Seqs.PrefixCutoff` | deepseek.py:86 | In a list sorted by non-increasing count, an entry outside the first `k` counts no more than any of the first `k`. |
| `Aggregates.Kept` | deepseek.py:74 | The grouping keys of the rows `groupby` keeps are the whole column when neither key column has a missing value. |
| `Aggregates.DeliveriesOf` | deepseek.py:74 | The deliveries grouped under a state are all non-missing deliveries of kept rows. |
| `Aggregates.DeliveriesOfCounts` | deepseek.py:74 | Among the deliveries grouped under state `s`, delivery `d` occurs once per row with state `s` and delivery `d`. |
| `Aggregates.DeliveriesOfLength` | deepseek.py:74 | When no delivery is missing, a state has as many grouped deliveries as it has rows. |
| `Aggregates.DeliveryCountsSpec` | deepseek.py:74 | On columns with no missing value: one row per distinct state and one column per distinct delivery. Each cell counts the rows with that state and that delivery, 0 when there are none. A state's cells add up to that state's row count. |
| `Aggregates.ColumnOfComplete` | deepseek.py:20 | A column of a table with no missing cell has no missing value. |
| `Aggregates.CleanedComplete` | deepseek.py:20-35 | A cleaned table from a well-formed input is well-formed, has the five required columns, and has no missing cell. |
| `Aggregates.SummarySpec` | deepseek.py:44-47 | The printed total equals the sum of the state value counts and of the district value counts. The unique-state and unique-district figures equal the number of bars those counts give. The office types printed are the distinct office types, each once, none missing. |
| `Aggregates.ChartBarTotals` | deepseek.py:54-64 | On a cleaned table, the region bars add up to the number of rows, and so do the office-type bars. |
| `Aggregates.DeliverySegmentsMatchStates` | deepseek.py:74 | On a cleaned table, each state's stacked delivery segments add up to that state's bar in the state value counts. |
| `Aggregates.TopTenLengths` | deepseek.py:86-107 | On a cleaned table the top-10 state and district charts have `min(10, nunique)` bars. |

## Left out

- Reading the spreadsheet (`pd.read_excel`) and writing the cleaned one (`to_excel`) are file I/O with a fixed path. A failed read is the input `None`.
- Console output is not modelled: the error message and the summary lines are printed side effects. The exact text of exception messages is left out too; only which column fails first is kept.
- Chart rendering (matplotlib/seaborn figures, styling, labels, saving, the annotation loop over bars) is not modelled; only the counts handed to the plotting calls are.
- `main` (the orchestration, its messages and the fixed input path) is not modelled.
- Python's Unicode whitespace and case mapping are not modelled. Whitespace is Python's ASCII whitespace (code points 9-13 and 28-32), and lowercasing maps only `A`-`Z`.
- pandas' NaN detection is not modelled: a missing value is the explicit `Missing` cell. Every non-string value is abstracted as `Other(int)`.
- Column names are assumed to be strings. Headers holding non-string names are not modelled: when no name is a string, the `.str` accessor raises and cleaning yields `None`; when strings and other values are mixed, each non-string name becomes NaN and cleaning goes on, returning a table if the five required names are among the string ones.
- `Tables.Column`: when two normalised column names coincide, pandas returns a frame rather than a series; the model takes the first column of that name.
- `Aggregates.ValueCounts`: the order among values with equal counts is an implementation detail of pandas. The model keeps first-appearance order, and the lemmas claim only non-increasing counts.
- `Aggregates.DeliveryCountsSpec`: pandas' `groupby` sorts the state and delivery keys, but the model lists them in first-appearance order. The order this lemma states is the model's, not pandas'. What each key and cell counts does not depend on that order.
- When some state/delivery combination is absent, `unstack()` fills its cell with NaN, which makes the counts floating-point, and `fillna(0)` keeps that type; with no absent combination they stay integers. The model keeps every count as a natural number.
