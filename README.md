# Auto-renew disable report: aggregation model

A Dafny model of the aggregation layer of `hostinger_streamlit.py`, a report script over one flat table of subscription rows. The script cleans two columns, runs a set of DuckDB `GROUP BY` queries and pandas filters, and turns the table into labelled counts:

- the auto-renew ON/OFF split;
- the duration splits;
- early disable against active until the end;
- the month, day and calendar-month histograms of when auto-renew was disabled;
- the first-week and last-week windows and their zero-filled dictionaries;
- the product sub-group and payment gateway summaries (`create_summary`);
- the billing-amount curve and its 0–8 EUR zoom.

How the model is built:

- A timestamp is an integer count of seconds, and SQL NULL is `Option.None`.
- DuckDB's `DATE_DIFF('day', a, b)` counts day boundaries: `b / 86400 - a / 86400`, with floor division.
- pandas' `(a - b).dt.days` is the floor of `(a - b) / 86400`.
- A `GROUP BY ... ORDER BY key` result is a sequence of `(key, count)` buckets, ascending, with NULLs last (DuckDB's default).
- A `GROUP BY` without `ORDER BY` is a map from label to count.
- `value_counts()` is a list of `(value, count)` rows in descending count order, NULLs dropped.
- The calendar month of a timestamp is a parameter `monthOf`, a function into 1..12.

Modules, one per file, following the script's sections. The functions named here define the queries; the lemmas in the table below state their properties.

- `Wrappers`: `Option`.
- `Groups`: filter, projection, occurrence count and group-by count, with their laws.
- `Records`: the record types, the default fill, and the two day differences.
- `Histogram`: the ordered group-by result (`Build`), the zero-filled dictionary (`ZeroFilled`, computed by the loop `ZeroFill`), sums and maxima.
- `ValueCounts`: pandas' `value_counts` (`Counts`, stated by `CountsRows`).
- `StatusQueries`: the four "Basic Facts" queries:
  - `StatusCounts` (`status_df`), stated by `StatusPartition`;
  - `DurationOnCounts` (`duration_on_df`), stated by `DurationOnLabels` and `DurationTableCounts`;
  - `DisabledStatusCounts` (`disabled_status_df`), stated by `DisabledStatusPartition` and `MissingTimestampIgnored`;
  - `DurationDisabledCounts` (`duration_disabled_df`), stated by `DurationDisabledWithinOn`.
- `TimingQueries`: the month, day, window and calendar-month queries:
  - `CancelMonthCounts` (`cancel_month_df`), stated by `CancelMonthHistogram`;
  - `CancelDayCounts` (`cancel_day_df`), stated by `CancelDayHistogram`;
  - `FirstCounts` (`first_counts`), stated by `FirstWeekZeroFill`;
  - `LastCounts` (`last_counts`), stated by `LastWeekZeroFill`;
  - `DisableMonthCounts` (`disable_month_df`), stated by `DisableMonthHistogram`.
- `CohortSummary`: `create_summary` and the two post-filters:
  - the two cohorts `BaseFilter` and `EarlyDisableFilter`, stated by `EarlyWithinTotal` and `EarlyGroupsInTotal`;
  - the outer union `Combined`, stated by `CombinedCounts`, `CombinedGroups`, `CombinedDistinct` and `CombinedSumTotal`;
  - the returned table `CohortSummaryTable`, stated by `CohortSummaryOrdered` and `PercentagesSumTo100`.
- `Billing`: the billing filter, the per-amount counts and the zoom:
  - the kept rows `KeptForBilling`, stated by `KeptMeansNotEarly`;
  - `BillingCounts` (`billing_counts`), stated by `BillingHistogram`;
  - `Zoom` (`billing_zoom`), stated by `ZoomCount` and `ZoomedBilling`.

The three parts of the script that update state step by step are methods:

- the default fill (`FillDefaults`, which writes an array);
- the zero-fill dictionaries (`ZeroFill`, two loops over a map);
- the percentage columns of `create_summary` (`AddPercentages`, two loops).

Each is proved equal to a specification function, and the lemmas are about those functions.

Where the code and its documented intent differ, the model follows the code:

- **Percentages.** A percentage over a column whose sum is 0 is NaN (`None` here), not 0.
- **Gateway default.** The gateway default `"unknown"` applies only to missing values.
- **Billing filter direction.** The billing filter keeps rows with `ar_valid_to >= ended_at`, because it subtracts `ended_at` from `ar_valid_to`. `Billing.KeptMeansNotEarly` proves a kept row is never an early disable.
- **Missing `started_at`.** The month and day queries do not test `started_at`. `LEAST` skips a NULL argument, so such a row falls into month bucket 12. In the day histogram it forms a NULL group, sorted last.
- **No lower clamp.** The month bucket is clamped only at 12. A negative day offset gives a bucket ≤ 0.
- **Division.** `FLOOR(d / 30)` uses true division, so it is floor division.

## Model

| member | source | states |
|---|---|---|
| Records.Clean | hostinger_streamlit.py:12-17 | a missing `is_auto_renew` becomes false and only `true` stays true; a missing gateway becomes "unknown"; every other field passes through unchanged; restoring the cleaned row gives the raw row exactly when neither field was missing |
| Records.FillDefaults | hostinger_streamlit.py:12-17 | the cleaned table is a new array with one row per raw row, each the cleaned raw row |
| Records.DateDiffDays | hostinger_streamlit.py:176 | the DuckDB day difference is non-negative when `a <= b`, non-positive when `b <= a`, and zero exactly when both fall on the same day |
| Records.SqlDateDiff | hostinger_streamlit.py:176 | the SQL day difference is NULL exactly when an argument is NULL |
| Records.TimedeltaDays | hostinger_streamlit.py:432 | `.dt.days` is the floor of the difference in days, non-negative exactly when `a >= b` |
| Groups.GroupCount | hostinger_streamlit.py:46-52 | a group-by count has exactly the observed keys, each with its number of occurrences |
| Groups.OccPartition | hostinger_streamlit.py:46-52 | when every label is one of two, the two counts add up to the number of rows |
| Groups.OccProject | hostinger_streamlit.py:46-52 | the count of a label is the number of rows whose label it is |
| Groups.FilterFilter | hostinger_streamlit.py:80-90 | filtering twice is filtering by the conjunction |
| Groups.OccMono | hostinger_streamlit.py:100-112 | a stronger WHERE clause gives a smaller count for every label and no more rows |
| StatusQueries.StatusLabel | hostinger_streamlit.py:48 | the status is "Auto-Renew ON" exactly when auto-renew is on, otherwise "Auto-Renew OFF" |
| StatusQueries.StatusPartition | hostinger_streamlit.py:46-52 | only the two status labels occur; ON counts the ON rows; ON plus OFF is the table size |
| StatusQueries.EarlyLabel | hostinger_streamlit.py:82-85 | with both timestamps present, "Disabled Early" exactly when `ar_valid_to < ended_at`, "Active Until End" exactly otherwise (equality included) |
| StatusQueries.DisabledStatusPartition | hostinger_streamlit.py:80-90 | only the two labels occur; "Disabled Early" counts the early-disabled ON rows; the two counts add up to the ON rows with both timestamps |
| StatusQueries.MissingTimestampIgnored | hostinger_streamlit.py:88 | a row missing either timestamp changes no count |
| StatusQueries.DurationLabel | hostinger_streamlit.py:64 | the label is "12-Month" exactly for 12-month rows, else "1-Month" |
| StatusQueries.DurationTable | hostinger_streamlit.py:62-70 | the rows are in descending label order (so "12-Month" first) with positive counts |
| StatusQueries.DurationTableCounts | hostinger_streamlit.py:62-70 | each label's count is its number of rows, and the counts add up to the filtered rows |
| StatusQueries.DurationOnLabels | hostinger_streamlit.py:62-70 | "12-Month" counts the ON 12-month rows, "1-Month" the ON 1-month rows, and the total is the rows with period 1 or 12 |
| StatusQueries.DurationDisabledWithinOn | hostinger_streamlit.py:100-112 | each early-disabled duration count is at most the ON count of that label, and their total is at most the "Disabled Early" count |
| TimingQueries.SqlLeast | hostinger_streamlit.py:139 | `LEAST` is NULL only when both arguments are, is no larger than a present argument, and is one of them |
| TimingQueries.MonthIndex | hostinger_streamlit.py:139 | `FLOOR(d / 30) + 1` is the 30-day bucket that contains `d` |
| TimingQueries.CancelMonth | hostinger_streamlit.py:139 | the bucket is never NULL and at most 12; a missing day offset gives 12; it is at least 1 exactly when the offset is not negative; below 12 it is the offset's 30-day bucket; it is 12 exactly from day 330 on |
| TimingQueries.CancelMonthHistogram | hostinger_streamlit.py:137-149 | ascending by bucket, every bucket at most 12, each count the rows in that bucket, counts adding up to the rows passing the WHERE clause |
| TimingQueries.CancelDayHistogram | hostinger_streamlit.py:174-186 | ascending by raw day offset, counts adding up to the filtered rows, the NULL group counting exactly the rows without `started_at`, and sorting last |
| Histogram.Build | hostinger_streamlit.py:147-148 | the ordered group-by result is ascending, holds each key's number of occurrences, has positive counts, and adds up to the number of rows |
| Histogram.ZeroFill | hostinger_streamlit.py:245-246 | the dictionary filled with zeros over the range and then updated with the query rows equals its specification |
| Histogram.ZeroFilledHistogram | hostinger_streamlit.py:245-246 | when every key lies in the range, the zero-filled dictionary has exactly the range's keys, each day's value is its number of rows (0 if absent), and the values add up to the rows |
| TimingQueries.FirstWeekZeroFill | hostinger_streamlit.py:230-246 | `first_counts` has exactly the keys 0..6, each the query's count for that day or 0, summing to the rows disabled on days 0 to 6 |
| TimingQueries.LastWeekZeroFill | hostinger_streamlit.py:249-265 | `last_counts` has exactly the keys 1..7, each the query's count or 0, summing to the rows disabled 1 to 7 days before the end |
| TimingQueries.WeekCounts | hostinger_streamlit.py:245-246 | the two dictionaries built by the loops are `first_counts` and `last_counts`, over keys 0..6 and 1..7 |
| TimingQueries.MaxY | hostinger_streamlit.py:268 | `max_y` is at least every value of both dictionaries and is one of them |
| TimingQueries.LastWeekSeries | hostinger_streamlit.py:292-294 | seven values, the j-th being the count for day 7 - j |
| TimingQueries.LastWeekSeriesTotal | hostinger_streamlit.py:292-294 | the reversed series adds up to the rows disabled in the last week |
| TimingQueries.DisableMonthHistogram | hostinger_streamlit.py:316-329 | only observed months, each 1..12, ascending, positive counts, adding up to the early-disabled 12-month ON rows |
| ValueCounts.CountsRows | hostinger_streamlit.py:383 | `value_counts` is in descending count order; each row counts the occurrences of its value; values are distinct; exactly the non-NULL values appear; the counts add up to the non-NULL rows |
| ValueCounts.InsertDesc | hostinger_streamlit.py:383 | inserting a row keeps the list descending, is a permutation with the row added, and adds its count to the sum |
| CohortSummary.EarlyWithinTotal | hostinger_streamlit.py:366-379 | every group value is at most as frequent in the early cohort as in the base cohort, and the early cohort is no larger |
| CohortSummary.EarlyGroupsInTotal | hostinger_streamlit.py:366-379 | every group value of the early cohort occurs in the base cohort |
| CohortSummary.EarlyOnlyRows | hostinger_streamlit.py:385 | the early-only rows are exactly the early groups with no total row, with their early counts |
| CohortSummary.CombinedCounts | hostinger_streamlit.py:383-387 | each row of the outer union holds its group's occurrences on both sides, 0 for a missing side |
| CohortSummary.CombinedGroups | hostinger_streamlit.py:383-385 | the outer union has a row for exactly the non-NULL groups seen on either side |
| CohortSummary.CombinedDistinct | hostinger_streamlit.py:385 | the outer union has exactly one row per group: no two rows are for the same group |
| CohortSummary.CombinedSumTotal | hostinger_streamlit.py:385-388 | the total column of the outer union sums to the number of non-NULL total values, the denominator of `% of Total` |
| CohortSummary.CohortNoEarlyOnly | hostinger_streamlit.py:366-385 | for the two cohorts no early group lacks a total row, so the outer union adds no early-only rows |
| CohortSummary.CohortCombined | hostinger_streamlit.py:366-387 | for the two cohorts, the table is exactly the total value counts with their early counts, one row per group, ordered by descending total, every total at least 1, no early count above its total |
| CohortSummary.Percent | hostinger_streamlit.py:388-389 | a percentage is NaN exactly when the column sums to 0 |
| CohortSummary.PercentShare | hostinger_streamlit.py:388-389 | a percentage times the column sum is the count times 100, and it lies between 0 and 100 when the count is at most the sum |
| CohortSummary.SummaryTable | hostinger_streamlit.py:388-390 | one summary row per combined row, with its group, both counts and both percentages over the column sums |
| CohortSummary.AddPercentages | hostinger_streamlit.py:388-389 | the two loops that sum the columns and assign the percentages compute the summary table |
| CohortSummary.CreateSummary | hostinger_streamlit.py:382-390 | `create_summary` returns the summary table of the cohort column |
| CohortSummary.PercentagesSumTo100 | hostinger_streamlit.py:388-389 | each percentage column adds up to 100 when its count column does not sum to 0; when the early column sums to 0 every early percentage is NaN |
| CohortSummary.Head | hostinger_streamlit.py:393 | `head(n)` keeps the first n rows, or all when there are fewer |
| CohortSummary.HeadIsTop | hostinger_streamlit.py:393 | of a table ordered by total, no row left out by `head` has a larger total than a kept row |
| CohortSummary.AtLeastMinTotalRows | hostinger_streamlit.py:395 | the gateway filter keeps exactly the rows with total at least 100, unchanged, and keeps an order by total |
| CohortSummary.CohortSummaryOrdered | hostinger_streamlit.py:382-390 | the cohort summary is ordered by descending total, with totals at least 1 and early counts no larger than totals |
| CohortSummary.Summaries | hostinger_streamlit.py:393-395 | the product summary is the first five rows and the gateway summary the rows with total at least 100 |
| CohortSummary.SummariesAreTop | hostinger_streamlit.py:393-395 | no product sub-group left out has more rows than one shown, and the gateway rows stay ordered by total |
| Billing.KeptMeansNotEarly | hostinger_streamlit.py:424-433 | a row is kept exactly when it passes the billing filter and `ar_valid_to >= ended_at`; a kept row is never an early disable |
| Billing.BillingHistogram | hostinger_streamlit.py:434-437 | the billing counts are ascending by amount, hold each amount's number of kept rows, have no NULL amount, and add up to the kept rows |
| Billing.ZoomCount | hostinger_streamlit.py:456 | the zoom holds each amount's count for amounts 0 to 8 and nothing for any other amount |
| Billing.ZoomedBilling | hostinger_streamlit.py:456 | the zoom stays ascending, has only amounts 0 to 8, and for each holds the number of kept rows with that amount |

## Left out

- Page layout, markdown and HTML panels, and every Plotly figure and axis: presentation only.
- Loading the CSV and registering the table with DuckDB: I/O. The model starts from a sequence of raw rows.
- `pd.to_datetime` and `pd.to_numeric` with `errors='coerce'`: library parsing. Their results are the `Option` fields of a raw row.
- `astype(bool)` on non-boolean raw values: a raw `is_auto_renew` is already a nullable boolean.
- Records.FillDefaults: builds a new array of cleaned rows instead of overwriting the columns of the table in place.
- CohortSummary.Percent: exact real division, without the rounding to 2 decimals.
- Billing.BillingBinOf: the billing amount is taken as already rounded to an integer. NumPy's round-half-even `.round(0)` is not modelled.
- TimingQueries.MonthKey: the calendar behind `STRFTIME(ar_valid_to, '%m')` is the parameter `monthOf`. The `month_name` column is left out; it is determined by the month number.
- ValueCounts.SortDesc: pandas leaves the order of equal counts unspecified. The model uses a stable sort, so rows with equal counts appear in the order of each value's last occurrence in the column.
- CohortSummary.Combined: the outer union lists the total side's groups first, then the groups seen only on the early side. For the two cohorts the second part is empty (`CohortSummary.CohortNoEarlyOnly`).
