# Netflix dashboard core, modelled in Dafny

This project models the data logic of the Netflix Streamlit dashboard (`app.py`).
The model is pure: functions over immutable values, with lemmas about them. It covers:

- **The column normaliser** `coerce_numeric_columns`. It returns a copy of the
  data frame that gains `release_year_num`, an integer parse of `release_year`,
  and `duration_num`, the first run of decimal digits in the text of `duration`.
  Each derived column is added only when its source column exists, and a cell
  that does not parse becomes the missing marker.
- **The content-type view** (`df_view`). The rows of the chosen type, when the
  filter is "Movie" or "TV Show" and the frame has a `type` column.
- **The year counter** `count_by_year`. It applies the optional type filter,
  drops missing years and counts each year, in ascending order of year.
- **The year-range KPI**. The least and the greatest present year, or "N/D".
- **The bounded pairplot sample**. The selected columns with incomplete rows
  dropped, then at most `cap` rows drawn without replacement.

A data frame is a list of column names plus a sequence of rows. Each row maps a
column name to a cell: `Missing` (pandas' NaN/None), `Text(s)` or `Num(n)`.
`Frames.Valid` says the column names are distinct and every row has exactly
those keys.

A pandas exception is an `Err` value of a `Result`:

- a `KeyError` on an absent column is `MissingColumn(name)`;
- a failed integer conversion is `NotNumeric(column)`.

The random number generator behind `DataFrame.sample` becomes a parameter:
`draw`, a sequence of choices, each of which picks one of the rows not yet taken.
Every sample without replacement is the outcome of some `draw`
(`Sampling.DrawCovers`). A fixed seed corresponds to a fixed `draw`, so the
sample is deterministic for given inputs.

The modules follow the structure of the program:

- `Frames`: the data model and column assignment.
- `Numeric`: integer text and the digit-run scan.
- `Normalise`: the normaliser.
- `Histogram`: `value_counts().sort_index()`.
- `Sampling`: drawing without replacement.
- `Aggregate`: the view, the counter, the KPI and the sample.

The normaliser turns unparseable cells into missing values rather than raising.
The aggregations return an error in three cases:

- `count_by_year` is given a content type and the frame has no `type` column.
  It reads `q["type"]` and raises `KeyError` (`MissingColumn`). The
  dashboard's own column mapping can reach this case. The model follows the
  code, and "## Findings" records the discrepancy together with a corrected
  counter.
- The pairplot sample selects a column the frame does not have (`MissingColumn`).
- A text cell sits in `release_year_num` when years are counted or ranged
  (`NotNumeric`). This can only happen when the input file already has that
  column; see "## Left out".

## Model

| member | source | states |
|---|---|---|
| Frames.WithColumn | app.py:25 | Assigning a column to a copy keeps an existing column in place or appends a new one after the existing columns. The row count is kept, every row gets exactly the given cell in that column, every other cell is unchanged, and a well-formed frame stays well-formed. |
| Frames.WithColumnUnchanged | app.py:25 | Assigning a column the cells it already holds gives back the same frame. |
| Numeric.NatToString | app.py:28 | Python's `str` of a non-negative integer: a non-empty digit string with no leading zero, which reads back as the integer (`Numeric.NatToStringValue`). |
| Numeric.IntToString | app.py:28 | Python's `str` of an integer, specified by `Numeric.ParseIntRoundTrip` and `Numeric.FirstDigitRunOfInt`: it parses back to the integer and extracts to its magnitude. |
| Numeric.NatToStringValue | app.py:28 | The decimal text that `str` gives a non-negative integer reads back as that integer. |
| Numeric.ParseIntRoundTrip | app.py:25 | Parsing the decimal text of any integer, negative ones included, gives that integer. |
| Numeric.ParseInt | app.py:25 | The integer parse behind `to_numeric`, specified by `Numeric.ParseIntRoundTrip`, `Numeric.ParseIntRejects` and `Normalise.YearTextExamples`: the text of every integer parses back to it, and a text with a character that is neither a digit nor a leading sign does not parse. |
| Numeric.ParseIntRejects | app.py:25 | A text holding a character that is neither a digit nor a leading sign does not parse. This covers words, decimals and blanks. |
| Numeric.RunLength | app.py:28 | The length of the leading digit run: every character before it is a digit, and the character after it is not. |
| Numeric.FirstDigitIndex | app.py:28 | The position of the first digit: there is no digit before it, and it is a digit or the end of the text. |
| Numeric.FirstDigitRun | app.py:28-29 | The digit-run extraction, specified by `Numeric.FirstDigitRunNone`, `Numeric.FirstDigitRunAt` and `Numeric.FirstDigitRunFirstRun`: nothing exactly when the text has no digit, otherwise the value of the first maximal digit run. |
| Numeric.FirstDigitRunNone | app.py:28-29 | The digit-run extraction yields nothing exactly when the text contains no digit. |
| Numeric.FirstDigitRunAt | app.py:28-29 | A text made of a digit-free prefix, then a maximal digit run, then anything, extracts to the base-10 value of that run. |
| Numeric.FirstRun | app.py:28 | The first maximal digit run of a text consists of digits only. |
| Numeric.FirstDigitRunFirstRun | app.py:28-29 | A text with a digit extracts to the value of its first maximal digit run. |
| Numeric.FirstDigitRunOfInt | app.py:28-29 | The text of an integer extracts to its magnitude, so a negative number loses its sign. |
| Normalise.ParseYear | app.py:25 | `to_numeric(..., errors="coerce")` on one year cell, specified by `Normalise.YearColumnMissingExactly` and `Normalise.YearTextExamples`: missing exactly when the cell is missing or a text that does not parse. |
| Normalise.ToText | app.py:28 | `astype(str)` on one cell, specified through `Normalise.ExtractDuration` and `Numeric.FirstDigitRunOfInt`: a missing cell prints as "nan" and extracts to nothing, and a number's text extracts to its magnitude. |
| Normalise.ExtractDuration | app.py:28-29 | For one duration cell: a missing cell, which prints as "nan", gives missing. A number gives its magnitude. A text gives missing exactly when it has no digit, and otherwise the value of its first maximal digit run. |
| Normalise.AddYearColumn | app.py:24-25 | The year step adds `release_year_num` only when `release_year` exists and fills it with the parse of each row's year cell. It changes no other column and keeps the row count and well-formedness. |
| Normalise.AddDurationColumn | app.py:27-29 | The duration step adds `duration_num` only when `duration` exists and fills it with each row's extracted duration. It changes no other column and keeps the row count and well-formedness. |
| Normalise.CoerceNumericColumns | app.py:21-30 | The normalised copy has the input's row count and is well-formed when the input is. Every cell outside the two derived columns is unchanged. Each derived column holds, row by row, the parse of its source cell when the source column exists. |
| Normalise.CoerceColumns | app.py:24-29 | The output columns are the input columns in order, then `release_year_num` if it is new and `release_year` exists, then `duration_num` if it is new and `duration` exists. So a column is present if and only if it was in the input or is a derived column whose source column is in the input. |
| Normalise.YearColumnMissingExactly | app.py:25 | A derived year cell is missing exactly when its source is missing or is a text that does not parse. A bad year never raises. |
| Normalise.CoerceIdempotent | app.py:21-30 | Normalising an already-normalised frame changes nothing. |
| Normalise.DurationExamples | app.py:26-29 | "90 min" gives 90 and "3 Seasons" gives 3. |
| Normalise.DurationFirstRunExample | app.py:28-29 | "Season 3: 10 Episodes" gives 3: only the first digit run counts. |
| Normalise.DurationMissingExamples | app.py:28-29 | "abc" and a missing cell give missing rather than 0. |
| Normalise.YearTextExamples | app.py:25 | "2018" and "2020" parse as those years; "bad" and the empty text give missing. |
| Histogram.Insert | app.py:38 | Counting one more year yields a non-empty histogram whose first entry is that year or the previous first entry. |
| Histogram.InsertSorted | app.py:38 | Counting one more year keeps the histogram strictly ascending with positive counts. |
| Histogram.InsertCounts | app.py:38 | Counting one more year adds one to that year's count and to the total, and to nothing else. |
| Histogram.CountCorrect | app.py:38 | The histogram of a list of years is strictly ascending by year with positive counts. Each year's count is its number of occurrences, and the counts add up to the list's length. |
| Histogram.Count | app.py:38 | `value_counts().sort_index()`, specified by `Histogram.CountCorrect`, `Histogram.CountEntries` and `Histogram.SortedUnique`: the one strictly ascending histogram with positive counts that counts each year as often as it occurs. |
| Histogram.CountOfEntry | app.py:38 | In an ascending histogram, an entry's count is the count of its year. |
| Histogram.CountOfAbsent | app.py:38 | A year below every entry has count zero. |
| Histogram.CountEntries | app.py:38 | A year has an entry exactly when it occurs in the input, and each entry's count is its year's number of occurrences. |
| Histogram.CountOfPositive | app.py:38 | A year with a positive count has an entry. |
| Histogram.NoCountsEmpty | app.py:38 | A sorted histogram that counts nothing is empty. |
| Histogram.SortedUnique | app.py:38 | Two sorted histograms that agree on every year's count are equal, so the counter's result is the only sorted histogram of its input. |
| Sampling.Draw | app.py:158 | A draw of `k` elements yields `k` of them, or all of them when there are fewer. |
| Sampling.WithoutMultiset | app.py:158 | Taking one element out removes exactly one occurrence of it. |
| Sampling.DrawSubMultiset | app.py:158 | A draw takes each element at most as often as it occurs: it samples without replacement. |
| Sampling.IndexOf | app.py:158 | The position found holds the element sought. |
| Sampling.TakeOne | app.py:158 | After one element is taken, the remaining picks of a selection without replacement are still available. |
| Sampling.DrawCovers | app.py:158 | Every selection without replacement, in any order, is the outcome of some draw. |
| Aggregate.RowsOfType | app.py:35 | The boolean mask `q[q["type"] == t]`, specified by `Aggregate.KeptRows`, `Aggregate.RowsOfTypeAppend` and `Aggregate.RowsOfTypeIdempotent`: the matching rows with their multiplicities, in their original order. |
| Aggregate.Kept | app.py:34-35 | The optional type filter, specified by `Aggregate.KeptRows`: only "Movie" and "TV Show" filter, any other choice keeps every row. |
| Aggregate.KeptRows | app.py:34-35 | The type filter keeps every row whose type cell equals the chosen type, with its multiplicity, and drops every other row. Any choice other than "Movie" or "TV Show", including none, keeps all rows. |
| Aggregate.RowsOfTypeAppend | app.py:35 | The type filter keeps row order: filtering a concatenation concatenates the filtered parts. |
| Aggregate.RowsOfTypeIdempotent | app.py:35 | Filtering twice by the same type is filtering once. |
| Aggregate.ContentView | app.py:92-95 | The view keeps the columns. With an active filter and a `type` column, it holds exactly the matching rows with their multiplicities; otherwise it is the whole frame. |
| Aggregate.YearsOf | app.py:38 | `dropna().astype(int)` on the year column, specified by `Aggregate.YearsOfKept`, `Aggregate.YearsOfMembers` and `Aggregate.YearsOfErrors`: one integer per row with an integer year, an error only on a text year. |
| Aggregate.YearsOfKept | app.py:34-38 | Extracting the years of the kept rows fails exactly when a kept row has a text year. Otherwise it yields one year per kept row with an integer year, and each year as often as such rows hold it. |
| Aggregate.CountByYear | app.py:32-38 | An active filter on a frame without a `type` column is a missing-column error. Otherwise a frame without `release_year_num` gives the empty result. Every successful result is strictly ascending by year with positive counts. |
| Aggregate.CountByYearCorrect | app.py:34-38 | With both columns present, the counter fails exactly when a kept row has a text year. Otherwise the counts add up to the number of kept rows with a non-missing year, and each year's count is the number of kept rows holding it. |
| Aggregate.NormalisedYearsNoText | app.py:25 | Rows whose year cell is never text have no text year to fail on. |
| Aggregate.CountAfterCoerce | app.py:90 | After normalisation, with a `release_year` column and a usable filter, the count succeeds and totals the kept rows that have a year. |
| Aggregate.CountByYearOnView | app.py:132 | For every frame and filter, counting the content view with the same filter gives the same result as counting the whole frame. |
| Aggregate.TrendTabRaisesWithoutTypeColumn | app.py:34-35 | As written, choosing "Movie" or "TV Show" on a frame without a `type` column makes the trend tab's count raise. |
| Aggregate.CountByYearGuarded | app.py:92-95 | The corrected counter applies the filter only when the `type` column exists. It fails only on a text year. It agrees with the original wherever a `type` column exists, and without one it counts every row, as the original does with no filter. It equals the original applied to the content view with the filter that view used. |
| Aggregate.CountGuardedAfterCoerce | app.py:90 | With a `release_year` column, the corrected count of the normalised frame succeeds for every filter and totals the kept rows that have a year; without a `type` column every row is kept. |
| Aggregate.CountByYearErrors | app.py:34-38 | Apart from the missing `type` column, the only error of the counter is a text year. |
| Aggregate.YearsOfErrors | app.py:38 | The year extraction can only fail on a text year. |
| Aggregate.Min | app.py:108 | The minimum of a non-empty list of years is one of them and is at most each of them. |
| Aggregate.Max | app.py:108 | The maximum of a non-empty list of years is one of them and is at least each of them. |
| Aggregate.YearRange | app.py:105-112 | The year-range metric, specified by `Aggregate.YearRangeCorrect`: "N/D" exactly when no row has a year, otherwise the least and greatest year present. |
| Aggregate.YearsOfMembers | app.py:106 | The years extracted are exactly the integers in the year column. |
| Aggregate.YearRangeCorrect | app.py:105-112 | The range is "N/D" exactly when no row has a year. Otherwise both ends are years of some row, the first is at most the last, and every row's year lies between them. |
| Aggregate.NoTextWhenOk | app.py:106 | When extraction succeeds, no row holds a text year. |
| Aggregate.CompleteRows | app.py:156 | `df[sel].dropna()`, specified by `Aggregate.CompleteRowsCorrect`, `Aggregate.CompleteRowsCounts` and `Aggregate.CompleteRowsAppend`: the projections of the complete rows, each as often as complete rows project to it, in order. |
| Aggregate.CompleteRowsCounts | app.py:156 | Each projected row occurs in the result exactly as often as complete rows project to it. |
| Aggregate.CompleteRowsAppend | app.py:156 | `dropna` keeps row order: applied to a concatenation it concatenates the results. |
| Aggregate.CompleteRowsCorrect | app.py:156 | `dropna` on the selected columns yields as many projected rows as there are complete rows. Each projected row occurs exactly as often as complete rows project to it, so there is nothing else. Each output row has exactly the selected columns and no missing value, and each complete row's projection is among them. |
| Aggregate.FirstMissing | app.py:156 | No column is reported exactly when every selected column exists; a reported column is selected and absent. |
| Aggregate.BoundedSample | app.py:156-158 | Selecting an absent column is an error. Otherwise the sample has exactly the selected columns and at most `cap` rows. Each row is complete and taken from the complete rows without replacement. With at most `cap` complete rows, the sample is all of them in order; with more, it has exactly `cap`. |
| Aggregate.BoundedSampleCovers | app.py:157-158 | With more complete rows than the cap, any `cap` of them, in any order, is a possible sample. |
| Aggregate.CountByYearExample | app.py:32-38 | The release years "2018", "2018", "2020" and "bad", normalised and counted, give 2018 twice and 2020 once. |
| Aggregate.CoerceExample | app.py:25 | Those years normalise to 2018, 2018, 2020 and missing. |
| Aggregate.YearsExample | app.py:38 | `dropna` on those years keeps 2018, 2018 and 2020 in order. |
| Aggregate.CountExample | app.py:38 | The histogram of 2018, 2018 and 2020 has the entries (2018, 2) and (2020, 1). |

## Left out

- The Streamlit user interface (sidebar, tabs, metrics, upload, column mapping) and all plotting. These are presentation code and foreign library calls.
- `load_csv` and its cache. These are file I/O and a library cache.
- The correlation matrix and the median KPI, which are floating-point computations inside pandas and numpy.
- The random number generator of `DataFrame.sample`. It is a parameter, `draw`, and the model states what every draw yields.
- The selection of numeric columns with `select_dtypes`. The sample takes the selected column names as given.
- pandas' float and dtype semantics.
  - Cells are missing, text or integers only.
  - `pd.to_numeric` accepts an optionally signed ASCII digit string; decimals, exponents and surrounding blanks count as unparseable.
  - 64-bit integer width is not modelled.
- Python's `\d` also matches non-ASCII Unicode digits. Only '0'-'9' are digits here.
- Aggregate.CountByYear: a text cell in `release_year_num`, which arises only when the input file itself has that column, is modelled as a `NotNumeric` error. The exact pandas behaviour of `astype(int)` on such a cell is not modelled.
- Aggregate.YearRange: the same simplification applies. The year range is also a `NotNumeric` error on such a cell, where pandas would compare the cell as text.
- Normalise.ExtractDuration: a numeric duration cell yields its magnitude, as its printed digits do, so a negative number loses its sign. Floating-point duration cells are not modelled.

## Findings

| source | as written | input that shows it | evidently intended | confidence | as-written member | corrected member |
|---|---|---|---|---|---|---|
| app.py:34-35 | `count_by_year` filters with `q["type"] == content_type` whenever the type is "Movie" or "TV Show", even when the frame has no `type` column. The trend tab (app.py:132) passes the type unconditionally, so pandas raises `KeyError`. | A file with columns `release_year` only and the filter set to "Movie" | Apply the filter only when `type` exists, as the content view does at app.py:92, and count the unfiltered view | medium, not executed | Aggregate.TrendTabRaisesWithoutTypeColumn | Aggregate.CountByYearGuarded |
