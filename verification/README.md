# Tweet dashboard data pipeline, modelled in Dafny

The dashboard script `app.py` loads a table of tweets and derives per-row
features from it: year, month name and hour of `created_at`, text length,
sentiment polarity and `@` mentions. A sidebar selection (year, source and an
inclusive hour range) then filters the table. The aggregates this model covers
are counts, means and top-10 lists over the filtered rows, except the source
distribution, which is taken over the whole, unfiltered table.

This project models that pipeline as pure functions over `seq<Record>`:

- `Records`: the row types and per-row feature derivation. The datetime parser
  and the polarity scorer are function parameters.
- `Scanner`: the two regular-expression scans `@(\w+)` and `#\w+`, with an
  independent index-based reference definition that the scan is proved equal to.
- `Filtering`: the sidebar filter, characterised as the order-preserving
  subsequence of the matching rows.
- `Counting`, `Tables`, `Sorting`: occurrence counts, pandas' `value_counts`
  (a count table: distinct keys, exact counts, total = number of values),
  `head(n)`, and `nlargest` as a stable descending sort followed by a prefix.
- `Columns`: column extraction with nulls dropped, and `explode` of list columns.
- `Aggregates`: the metric row, the month and hour histograms, the text-length
  distribution, the top-10 hashtags and mentions, the top-10 rows by likes and
  by engagement, the sentiment buckets and the source distribution.
- `HourMonthGrid`: the hour by month count matrix behind the heatmap.

Word characters (`\w`) are modelled as ASCII `[A-Za-z0-9_]`. Averages are exact
rationals (`real`), not floats.

Two places where the code's behaviour differs from a natural reading of it:

- Hashtag tokens keep their leading `#`, because `findall(r'#\w+')` has no
  group. A text `"hello #a #b @c"` yields hashtags `["#a", "#b"]` and mentions
  `["c"]`.
- The heatmap's columns are month-name strings, so pandas orders them
  alphabetically (April, August, December, ...) rather than by calendar.

## Model

| member | source | states |
|---|---|---|
| Records.Derive | app.py:20-26 | The preprocessed row keeps the raw fields and the parse result. Year, month name and hour are all null exactly when the parse failed, and otherwise agree with the timestamp. Text length is the text's length, mentions are the text's mentions, sentiment is the scorer's value. |
| Records.Enrich | app.py:20-26 | Preprocessing keeps every row, in order, including unparsable ones. The i-th output row is the derivation of the i-th raw row, so it is well formed and carries that row's id, text, source, retweet and like counts, parse result and sentiment. |
| Records.ParseFailureNullsTimeColumns | app.py:20-23 | A row's year, month and hour are null if and only if its timestamp failed to parse. A parsed row has an hour in 0..23 and a calendar month name. |
| Scanner.Scan | app.py:26 | Every token found is a non-empty run of word characters. |
| Scanner.ScanFindsEveryRun | app.py:26 | For a sigil that is not a word character, the left-to-right scan equals the reference definition. That definition lists, at every position holding the sigil followed by a word character, the maximal run of word characters after it. |
| Scanner.Mentions | app.py:26 | Mentions are exactly the maximal word-character runs after each `@`, left to right, duplicates kept, without the `@`. |
| Scanner.Hashtags | app.py:55 | Hashtags correspond one to one and in order with the maximal word-character runs after each `#`, each keeping its leading `#`. |
| Scanner.ExampleTokens | app.py:26 | On `"hello #a #b @c"` the hashtags are `["#a", "#b"]` and the mentions are `["c"]`. |
| Filtering.Filter | app.py:40-44 | A row is kept if and only if it is in the table and has the selected year and source and an hour within the inclusive range. A null year or hour never matches. |
| Filtering.FilterKeepsMultiplicity | app.py:40-44 | A matching row is kept as many times as it occurs in the table; a non-matching row never. |
| Filtering.FilterSuffixAtIndices | app.py:40-44 | Filtering the suffix from any position yields, element by element, the rows at the increasing matching positions from there. |
| Filtering.FilterIsMatchingSubsequence | app.py:40-44 | The filtered set is the order-preserving subsequence of exactly the matching rows. Its k-th row is the row at the k-th matching position, and the positions are strictly increasing. |
| Filtering.FilterKeepsMatchingTable | app.py:40-44 | A table whose rows all match passes through the filter unchanged. |
| Filtering.FilterIdempotent | app.py:40-44 | Filtering a filtered set again with the same selection changes nothing. |
| Filtering.FilteredRowsAreParsed | app.py:20-23 | Every filtered row of a preprocessed table has a parsed timestamp, the selected year and source, an hour in range and a month. |
| Filtering.UnparsedRowNeverFiltered | app.py:40-44 | A raw row whose timestamp does not parse stays in the preprocessed table but is in no filtered set. |
| Columns.Defined | app.py:66 | Dropping nulls keeps exactly the non-null values. The result is no longer than the column, and of equal length when no value is null. |
| Columns.CountDefined | app.py:66 | Dropping nulls preserves every value's occurrence count. |
| Tables.Tally | app.py:80 | The tally is a count table: distinct keys, each with its exact occurrence count, keyed by exactly the values that occur. |
| Tables.CountTableTotal | app.py:80 | The counts of a count table sum to the number of values counted. |
| Tables.ValueCounts | app.py:80 | `value_counts` is a count table with non-increasing counts. |
| Tables.CountsByKey | app.py:74 | `value_counts().sort_index()` is a count table with strictly ascending keys. |
| Tables.TopCounts | app.py:81 | `head(n)` returns at most n rows and no more than there are values. Keys are distinct and come from the values, each with its exact count, counts non-increasing. Fewer than n rows come back only when every value is listed, and no value left out occurs more often than the last one listed. |
| Sorting.Sort | app.py:102 | The sort is a permutation of its input, ordered by descending rank. |
| Sorting.SortIsStable | app.py:102 | Equally ranked elements keep their input order through the sort: each rank class of the sorted sequence is that class of the input. |
| Sorting.LargestKeepsFirst | app.py:102 | `nlargest` keeps the first occurrences (`keep='first'`): of each rank, the elements returned are the earliest of that rank in the input, in input order. |
| Sorting.Largest | app.py:102 | `nlargest(n)` returns min(n, size) elements drawn from the input, in descending rank. No element left out outranks the last one returned. |
| Aggregates.Mean | app.py:52-53 | The mean times the number of values is their sum. |
| Aggregates.MeanWithinBounds | app.py:52-53 | The mean lies between any lower and upper bound of the values. |
| Aggregates.TopHashtag | app.py:54-57 | "N/A" for an empty set. Otherwise there is no answer exactly when no row has a hashtag, and else a hashtag that occurs and is at least as frequent as every other. |
| Aggregates.Summarize | app.py:51-57 | The count is the number of rows. On an empty set both averages are 0 and the top hashtag is "N/A". Otherwise the averages are the means of retweets and of likes. |
| Aggregates.MonthHistogram | app.py:66-69 | Exactly 12 entries in January..December order, each the number of rows with that month. |
| Aggregates.MonthHistogramTotal | app.py:66-69 | Over preprocessed rows the 12 entries sum to the number of rows that have a month. |
| Aggregates.MonthHistogramOfFiltered | app.py:66-69 | On a filtered set the 12 entries sum to the filtered count. |
| Aggregates.HourHistogram | app.py:74 | The hours that occur, strictly ascending, each with its positive exact count. The counts sum to the number of rows with an hour. |
| Aggregates.HourHistogramOfFiltered | app.py:74 | On a filtered set every hour shown lies in the selected range, and the counts sum to the filtered count. |
| Aggregates.TextLengthHistogram | app.py:126 | Every text length that occurs, strictly ascending, with its exact count. The counts sum to the number of rows. |
| Aggregates.TopHashtags | app.py:80-81 | At most 10 hashtags, each with its exact count, in non-increasing order. Fewer than 10 only when all are shown. No hashtag left out occurs more often than the last one shown. |
| Aggregates.TopMentions | app.py:130 | The same as for hashtags, over the exploded mention lists. |
| Aggregates.TopByLikes | app.py:102 | min(10, rows) rows drawn from the set, by non-increasing likes. No row left out has more likes than the last one shown. |
| Aggregates.TopByLikesKeepsFirst | app.py:102 | Among rows with equal likes, the ones shown are the earliest in the set, in set order. |
| Aggregates.TopEngaged | app.py:157 | min(10, rows) rows drawn from the set, ordered lexicographically by (retweets, likes) descending. No row left out comes before the last one shown in that order. |
| Aggregates.TopEngagedKeepsFirst | app.py:157 | Among rows with equal retweets and equal likes, the ones shown are the earliest in the set, in set order. |
| Aggregates.SentimentPartition | app.py:116 | The Positive, Negative and Neutral buckets count exactly the rows of polarity > 0, < 0 and = 0, and together count every row once. |
| Aggregates.SentimentCounts | app.py:116 | The sentiment counts form a count table of at most 3 buckets, in non-increasing order, summing to the number of rows. |
| Aggregates.SourceDistribution | app.py:107 | Every source of the whole, unfiltered table with its exact count, in non-increasing order, summing to the number of rows. |
| HourMonthGrid.StrLessTransitive | app.py:135 | String order, by which pandas sorts the month column labels, is transitive. |
| HourMonthGrid.AlphabeticalMonthsSorted | app.py:135 | The twelve month names listed April, August, ..., September are in string order. |
| HourMonthGrid.PresentKeepsOrder | app.py:135 | Keeping the group labels that occur keeps them in the universe's order. |
| HourMonthGrid.HourMonthMatrix | app.py:135 | One row per hour label and one column per month label. Each cell is the number of rows with that (hour, month); missing combinations are 0. |
| HourMonthGrid.MatrixLabels | app.py:135 | Row labels are the hours of the day that occur, strictly ascending. Column labels are the month names that occur, in string order. |
| HourMonthGrid.MatrixLabelsOfPreprocessed | app.py:135 | Over preprocessed rows the row labels are exactly the hours that occur and the column labels exactly the month names that occur. |
| HourMonthGrid.GridRowsSum | app.py:135 | With distinct labels, the cells sum to the number of (hour, month) keys that fall on a cell. |
| HourMonthGrid.PairsOfDatedRows | app.py:135 | Among preprocessed rows, exactly those whose timestamp parsed have an (hour, month) key. |
| HourMonthGrid.GridTotal | app.py:135 | Over preprocessed rows the matrix cells sum to the number of rows whose timestamp parsed. |
| HourMonthGrid.GridTotalOfFiltered | app.py:135 | On a filtered set the matrix cells sum to the filtered count. |

## Left out

- Loading the CSV over the network and the result cache (app.py:11-17): I/O.
- The datetime parser and the TextBlob polarity scorer (app.py:20, 25): foreign library code. Both are parameters of `Records.Derive`/`Records.Enrich`; a failed parse is `None`.
- Python's Unicode `\w`: word characters are ASCII letters, digits and `_` only.
- Float arithmetic and `round(..., 2)` of the averages (app.py:52-53, 61-62): means are exact rationals.
- Aggregates.Summarize: states the averages as `Mean` of each column rather than as a product identity. `Mean`'s own contract carries the identity, because Z3's nonlinear real arithmetic does not scale to stating it here.
- The order among equally frequent values in `value_counts`: pandas does not promise one, so no contract names a winner among equals.
- HourMonthGrid.MatrixLabels: labels are drawn from the hours 0..23 and the twelve month names, so a row with an hour or month outside those would have no cell, where pandas would add a label. Preprocessing never produces such a row, which `MatrixLabelsOfPreprocessed` states.
- Missing retweet or like counts (NaN in those columns): every row is assumed to have both numbers.
- The selectbox option lists (app.py:29-30) and the slider bounds: the selection is the `FilterSpec` parameter.
- The per-timestamp sum series (app.py:146) and the per-date word-frequency table (app.py:151-153): they rest on pandas grouping behaviour beyond this model.
- All rendering: metrics, charts, the scatter plot, the word cloud, the heatmap drawing and the timeline.
