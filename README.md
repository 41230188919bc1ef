# SRAG daily indicators: a Dafny model

This project models the numeric core of a healthcare reporting agent for
SRAG, the Brazilian surveillance system for severe acute respiratory
syndrome. The core has three stages:

- **Daily aggregation** (`src/preprocessing/generate_aux_df.py`). It reads
  the per-case rows and writes a case count `NU_CASOS` onto every row. It
  labels each case as vaccinated or not from `CLASSI_FIN`, `VACINA` and
  `VACINA_COV`, but only for cases notified in the last 30 days. It then
  builds the daily table: one row per notification date, with the counts
  of cases, deaths (`EVOLUCAO == 2`), ICU admissions (`UTI == 1`) and
  vaccinated cases.
- **Indicators** (`src/metrics/calc_metrics.py`). The first indicator is the
  percentage variation of cases between the last two periods of
  `period_days` days. The second is the percentage of one column over
  another in the last `period_days` days.
- **Chart series** (`src/charts/create_charts.py`, the data-selection lines
  only):
  - the last `daily_period` days of the table;
  - the last `monthly_period` calendar months, summed per calendar month;
  - the check whether the last month is partial;
  - the month labels and the bar colours.

Modules:

- `Wrappers`: `Option` and `Result`.
- `Seqs`: the boolean-mask selection `Filter`, and `Distinct`, which is
  `drop_duplicates`.
- `Calendar`: proleptic Gregorian dates and day ordinals, and
  `DateOffset(months=n)`.
- `DailyTable`: the daily table, column sums, date masks, and a reference
  sum over a day interval called `DaySum`.
- `Aggregation`, `Metrics` and `Charts`: the three source files.

A pandas `NaN` is `None`. A `sum` skips `NaN`, so an absent joined count adds
nothing. Percentages are exact fractions.

Code that changes data step by step is modelled as methods:

- `GenerateDailyInfo` adds `NU_CASOS` to the caller's table, which is an
  array, and returns the daily table. It does this through `AddCaseCounts`,
  which writes the array row by row, and `CountCasesOn`, the loop that
  counts the cases of one date.
- `MonthLabels` and `BarColours` overwrite the last label and the last
  colour.
- `ChartSeries` runs the data selection of `generate_and_store_plots` step by
  step and returns early when the monthly part fails.

The rest of the code computes values and is modelled as functions.

Where the documentation and the code disagree, the model follows the code:

- `classify_row` never returns `None`. The docstring of
  `label_vaccination_status` says that missing or ignored answers give
  `None`.
- `is_last_partial` only compares the month and year of the last bar with
  `last_date`. The last bar is always the month of `last_date`, so on a
  non-empty table with `monthly_period` from 0 up to the month index of
  `last_date` (the default 12 included) the flag is always true. It never checks whether
  `last_date` is the last day of its month (`Charts.LastMonthAlwaysPartial`).
- The docstring of `calc_case_var_rate_by_period` says a zero previous
  period gives `inf` or an error. The code divides with numpy. The model
  returns `PlusInfinity` when the current period has cases and
  `NotANumber` when it has none, and puts no precondition on the inputs.

## Model

| member | source | states |
|---|---|---|
| Aggregation.ClassifyRow | src/preprocessing/generate_aux_df.py:185-209 | The label is always 0 or 1. For influenza (`CLASSI_FIN == 1`) it is 1 iff `VACINA == 1`. For COVID-19 (`== 5`) it is 1 iff `VACINA_COV == 1`. For any other or null classification it is 1 iff both are 1. |
| Aggregation.ClassifyRowReadsOnlyCodes | src/preprocessing/generate_aux_df.py:185-188 | The label depends only on `CLASSI_FIN`, `VACINA` and `VACINA_COV`. |
| Aggregation.LabelVaccinationStatus | src/preprocessing/generate_aux_df.py:180-183 | There is one output row per input row. Each row gets `VACINADO` = its `classify_row` label, and every other column is unchanged. |
| Aggregation.FilterForVaccLabel | src/preprocessing/generate_aux_df.py:130-142 | It keeps exactly the rows dated in the 30 days that end at the latest notification date, that is from `VaccinationWindowStart` on. An empty table stays empty. |
| Aggregation.LatestRowsAreLabelled | src/preprocessing/generate_aux_df.py:132-140 | Rows of the latest date are always kept for labelling. |
| Aggregation.GroupCount | src/preprocessing/generate_aux_df.py:59-65 | `groupby(...).count()` has a group exactly for the dates that have rows, and each group holds the number of rows of its date. |
| Aggregation.WithCaseCounts | src/preprocessing/generate_aux_df.py:47-50 | There is one row per input row. Each row's `NU_CASOS` is the number of rows of its date that have a notification id, and every other column is unchanged. |
| Aggregation.CountCasesOn | src/preprocessing/generate_aux_df.py:47-50 | The counting loop returns the number of rows of the date that have a non-null `NU_NOTIFIC`. |
| Aggregation.AddCaseCounts | src/preprocessing/generate_aux_df.py:47-50 | After the call, the caller's table holds the `NU_CASOS` column and nothing else has changed. |
| Aggregation.BaseTable | src/preprocessing/generate_aux_df.py:53-56 | `drop_duplicates` keeps each distinct (date, cases) pair exactly once. |
| Aggregation.LeftMerge | src/preprocessing/generate_aux_df.py:97-109 | A left merge keeps the rows and their order. The new column holds the group count of the row's date, or `None` when that date has no group. The other columns are unchanged. |
| Aggregation.GenerateDailyInfo | src/preprocessing/generate_aux_df.py:25-111 | It adds `NU_CASOS` to the caller's table in place and returns the daily table of the original rows (`DailyInfo`, which is `DailyFrom` applied to the rows with their case counts). |
| Aggregation.WithCaseCountsIdempotent | src/preprocessing/generate_aux_df.py:47-50 | Writing `NU_CASOS` onto a table that already has it changes nothing. |
| Aggregation.WithCaseCountsKeepsDailyInfo | src/preprocessing/generate_aux_df.py:25-111 | Building the daily table from the caller's table after its `NU_CASOS` column was written gives the same daily table as before. |
| Aggregation.BaseTableOfCounts | src/preprocessing/generate_aux_df.py:47-56 | The base table holds only `NU_CASOS` and has one row per distinct notification date. |
| Aggregation.MergesKeepRows | src/preprocessing/generate_aux_df.py:97-109 | The three merges add no rows and drop none. They keep the dates and the case counts. |
| Aggregation.DailyInfoOneRowPerDate | src/preprocessing/generate_aux_df.py:53-56 | The daily table has exactly one row per date of the input, and no more rows than the input. |
| Aggregation.VaccinatedGroup | src/preprocessing/generate_aux_df.py:80-94 | The vaccinated count of a date is the number of vaccinated cases of that date when the date is inside the 30-day window, and 0 otherwise. |
| Aggregation.MergedRow | src/preprocessing/generate_aux_df.py:97-109 | Each daily row is the base row plus the three looked-up group counts. |
| Aggregation.BaseRowCases | src/preprocessing/generate_aux_df.py:47-56 | A base row's cases are the cases of its date. |
| Aggregation.GroupCountOf | src/preprocessing/generate_aux_df.py:59-74 | The deaths and ICU groups count the raw rows of the date, and are absent when that count is 0. |
| Aggregation.DailyRowColumns | src/preprocessing/generate_aux_df.py:47-109 | Every daily row summarises its date: its cases, its deaths, its ICU admissions, and its vaccinated cases inside the window. Each of the last three is absent when it is 0. |
| Aggregation.DailyInfoColumns | src/preprocessing/generate_aux_df.py:47-109 | Every row of the daily table summarises its date, as in `DailyRowColumns`. |
| Aggregation.VaccinatedOnlyInWindow | src/preprocessing/generate_aux_df.py:80-94 | `NU_VACINADOS` is absent for every date more than 29 days before the latest date. |
| Aggregation.SummaryBounded | src/preprocessing/generate_aux_df.py:47-94 | When every row has an id, the deaths, ICU and vaccinated counts of a date are each at most its cases. |
| Aggregation.JoinedCountsAtMostCases | src/preprocessing/generate_aux_df.py:47-94 | When every row has an id, in every daily row `NU_OBITOS`, `NU_UTI` and `NU_VACINADOS` are each at most `NU_CASOS`. |
| Aggregation.DailyCasesTotal | src/preprocessing/generate_aux_df.py:47-56 | The `NU_CASOS` column of the daily table adds up to the number of input rows that have an id. |
| Aggregation.DailyCasesTotalAllIds | src/preprocessing/generate_aux_df.py:47-56 | When every row has an id, the daily cases add up to the input row count. |
| Seqs.Distinct | src/preprocessing/generate_aux_df.py:54 | `drop_duplicates` keeps every value once, without duplicates, in no more rows. |
| DailyTable.LastDate | src/charts/create_charts.py:44 | `max()` of the dates is the date of some row and is not before any row. |
| DailyTable.LastDay | src/metrics/calc_metrics.py:36 | The latest day is the day of some row. |
| DailyTable.LastDayBound | src/metrics/calc_metrics.py:36 | No row is after the latest day. |
| DailyTable.SameLastDay | src/metrics/calc_metrics.py:36 | Two tables with the same rows have the same latest day. |
| DailyTable.Since | src/metrics/calc_metrics.py:102 | It keeps exactly the rows dated on or after the start. |
| DailyTable.TotalPermutation | src/metrics/calc_metrics.py:46 | A column sum (`Total`, which skips `NaN`) does not depend on the row order. |
| DailyTable.SinceNone | src/metrics/calc_metrics.py:42 | A start after every row selects no rows. |
| DailyTable.SinceByDays | src/metrics/calc_metrics.py:99-105 | The sum from `last - (p - 1)` on is the sum over the `p` days ending at `last`. |
| Calendar.MaxDate | src/preprocessing/generate_aux_df.py:132 | It returns a date of the column that is not before any other. |
| Calendar.MinDate | src/charts/create_charts.py:100 | It returns a date of the column that is not after any other. |
| Calendar.OrdinalOrderIsCalendarOrder | src/metrics/calc_metrics.py:42 | Comparing day ordinals is comparing dates in calendar order. |
| Calendar.MonthEnd | src/charts/create_charts.py:100 | The `ME` label of a month is the last day of that month. |
| Calendar.MonthsBefore | src/charts/create_charts.py:93 | `DateOffset(months=n)` goes back exactly `n` calendar months and clamps the day to the month's length. It fails only before year 1. |
| Calendar.MonthsBeforeIsEarlier | src/charts/create_charts.py:93 | Going back a non-negative number of months never moves forward. |
| Calendar.LeapDayYearBefore | src/charts/create_charts.py:93 | 2024-02-29 minus 12 months is 2023-02-28. |
| Calendar.EndOfMarchMonthBefore | src/charts/create_charts.py:93 | 2024-03-31 minus 1 month is 2024-02-29. |
| Metrics.PreviousPeriodUpTo | src/metrics/calc_metrics.py:39-46 | `df_prev_period` is exactly the rows dated from the window start (`WindowStart`, `2p - 1` days before the latest day) to `p - 1` days after it. |
| Metrics.CurrentPeriodUpTo | src/metrics/calc_metrics.py:39-50 | `df_curr_period` is exactly the rows of the window dated more than `p - 1` days after its start. |
| Metrics.VariationOf | src/metrics/calc_metrics.py:53 | With a positive previous sum the result is a percentage. It is positive iff cases grew, zero iff they are equal, and never below -100. A zero previous sum gives `inf` when there are current cases and `nan` when there are none. |
| Metrics.VariationRecoversCurrent | src/metrics/calc_metrics.py:53 | The percentage is exactly `(curr - prev) / prev * 100`: the previous sum grown by it is the current sum. |
| Metrics.CaseVariation | src/metrics/calc_metrics.py:36-56 | On an empty table the variation is `nan`. |
| Metrics.DoublingIsHundredPercent | src/metrics/calc_metrics.py:53 | 70 previous cases and 140 current cases give a variation of +100%. |
| Metrics.NonPositivePeriodIsNaN | src/metrics/calc_metrics.py:36-53 | With `period_days <= 0` both periods are empty, and the variation is `nan`. |
| Metrics.PreviousPeriodByDays | src/metrics/calc_metrics.py:39-46 | The previous sum is the sum over the days `[L - 2p + 1, L - p]`, where L is the latest day. |
| Metrics.CurrentPeriodByDays | src/metrics/calc_metrics.py:39-50 | The current sum is the sum over the days `[L - p + 1, L]`. |
| Metrics.CurrentPeriodIsInterval | src/metrics/calc_metrics.py:39-50 | When no row is after the latest day, `df_curr_period` holds exactly the rows of the days `[L - p + 1, L]`. |
| Metrics.CaseVariationByDays | src/metrics/calc_metrics.py:36-53 | For a given latest day (`CaseVariationUpTo`), the variation compares those two `p`-day sums. |
| Metrics.CaseVariationOfTable | src/metrics/calc_metrics.py:36-56 | On a non-empty table with `p >= 0`, the variation compares the case sums over `[L - 2p + 1, L - p]` and `[L - p + 1, L]`, where L is the table's latest day. |
| Metrics.PeriodsPartitionWindow | src/metrics/calc_metrics.py:42-50 | The two periods split the `2p`-day window: their sums add up to the window's sum. |
| Metrics.WindowByDays | src/metrics/calc_metrics.py:39-42 | `df_window` sums the `2p` days ending at the latest day. |
| Metrics.PreviousTotalIgnoresOrder | src/metrics/calc_metrics.py:44-46 | The previous sum does not depend on the row order. |
| Metrics.CurrentTotalIgnoresOrder | src/metrics/calc_metrics.py:48-50 | The current sum does not depend on the row order. |
| Metrics.CaseVariationUpToIgnoresOrder | src/metrics/calc_metrics.py:44-53 | For a fixed latest day, the variation does not depend on the row order. |
| Metrics.CaseVariationIgnoresOrder | src/metrics/calc_metrics.py:36-53 | The variation does not depend on the row order, so the order `drop_duplicates` leaves does not matter. |
| Metrics.PreviousTotalIgnoresOlderRows | src/metrics/calc_metrics.py:42-46 | Rows dated before the window start add nothing to the previous sum. |
| Metrics.CurrentTotalIgnoresOlderRows | src/metrics/calc_metrics.py:42-50 | Rows dated before the window start add nothing to the current sum. |
| Metrics.CaseVariationUpToIgnoresOlderRows | src/metrics/calc_metrics.py:42-53 | For a fixed latest day, rows before the window do not change the variation. |
| Metrics.LastDayIgnoresEarlier | src/metrics/calc_metrics.py:36 | Rows before the window do not change the latest day. |
| Metrics.CaseVariationIgnoresOlderRows | src/metrics/calc_metrics.py:36-53 | Rows before the window do not change the variation. |
| Metrics.RateWindowUpTo | src/metrics/calc_metrics.py:99-102 | `df_period` is exactly the rows of the `p` days ending at the latest day. |
| Metrics.CalcRateUpTo | src/metrics/calc_metrics.py:105-113 | The result is `None` iff the denominator sum is 0. Otherwise it is a non-negative percentage, at most 100 when the numerator sum is at most the denominator sum. |
| Metrics.CalcRate | src/metrics/calc_metrics.py:96-116 | On an empty table the rate is `None`. |
| Metrics.FiveDeathsInHundredCases | src/metrics/calc_metrics.py:96-113 | One day with 100 cases and 5 deaths gives a mortality rate of 5%, for every period of at least one day. |
| Metrics.EmptyRateWindow | src/metrics/calc_metrics.py:99-113 | With `period_days <= 0` and no row after the latest day, the window is empty and the rate is `None`. |
| Metrics.NonPositivePeriodRateIsNone | src/metrics/calc_metrics.py:96-116 | With `period_days <= 0` the rate of any table is `None`. |
| Metrics.RateWindowByDays | src/metrics/calc_metrics.py:99-105 | A column sum over `df_period` is the sum over the days `[L - p + 1, L]`. |
| Metrics.CalcRateByDays | src/metrics/calc_metrics.py:96-113 | The rate is `100 * num / den` over those `p` days, and `None` when `den` is 0. |
| Metrics.CalcRateOfTable | src/metrics/calc_metrics.py:96-116 | On a non-empty table, the rate is `100 * num / den` with the two column sums over the days `[L - p + 1, L]`, where L is the table's latest day, and `None` when `den` is 0. |
| Metrics.RateTotalIgnoresOrder | src/metrics/calc_metrics.py:102-106 | The window sums do not depend on the row order. |
| Metrics.CalcRateUpToIgnoresOrder | src/metrics/calc_metrics.py:102-113 | For a fixed latest day, the rate does not depend on the row order. |
| Metrics.CalcRateIgnoresOrder | src/metrics/calc_metrics.py:96-113 | The rate does not depend on the row order. |
| Metrics.DailyRatesArePercentages | src/metrics/calc_metrics.py:105-113 | On the daily table built from rows that all have ids, deaths, ICU or vaccinated over cases is a percentage between 0 and 100. |
| Charts.DailySlice | src/charts/create_charts.py:44-50 | It keeps exactly the rows of the last `daily_period` days. An empty table gives an empty slice. |
| Charts.DailySliceKeepsLatest | src/charts/create_charts.py:44-50 | For a positive period, the slice holds a row of the latest date and is no longer than the table. |
| Charts.MonthlyStart | src/charts/create_charts.py:93 | `start_month` is `monthly_period` calendar months before `last_date`. It is absent only when that falls before year 1. |
| Charts.MonthlySlice | src/charts/create_charts.py:93-94 | It keeps exactly the rows on or after `start_month`. It fails only when `start_month` is out of range, and an empty table gives an empty slice. |
| Charts.Buckets | src/charts/create_charts.py:97-101 | There is one bin per month from the first to the last. Each bin is labelled with its month's end and holds the `NU_CASOS` sum of its month's rows (`MonthTotal`). |
| Charts.Resample | src/charts/create_charts.py:96-103 | The resample has no bins iff the slice is empty. Bin `i` holds the `NU_CASOS` sum of the rows of the `i`-th month after the first row's month. |
| Charts.ResampleIsBuckets | src/charts/create_charts.py:96-103 | A non-empty slice is binned from the month of its earliest row to the month of its latest. |
| Charts.BucketsEndAt | src/charts/create_charts.py:97-103 | The bins up to month `last` end with the bin of month `last`. |
| Charts.MonthRange | src/charts/create_charts.py:100 | Every row falls between the first and the last month of the slice. |
| Charts.MonthTotalByDays | src/charts/create_charts.py:100-101 | A bin (`MonthTotal`) sums the cases of the days of its calendar month. |
| Charts.EmptyMonthIsZero | src/charts/create_charts.py:100-101 | A month without rows gets a bin of 0 cases, not a gap. |
| Charts.BucketsByDays | src/charts/create_charts.py:97-103 | Consecutive bins sum the days from the start of the first month to the end of the last. |
| Charts.BucketsKeepTotal | src/charts/create_charts.py:97-103 | Bins that cover every row's month add up to the case total. |
| Charts.ResampleKeepsTotal | src/charts/create_charts.py:96-103 | The bars add up to the `NU_CASOS` total of the monthly slice. |
| Charts.LastBucket | src/charts/create_charts.py:97-103 | The last bin is the month of the latest row. |
| Charts.ResampleConsecutive | src/charts/create_charts.py:97-103 | The bins run from the first month to the last, one calendar month apart, with no gap. |
| Charts.MonthlySliceEndsOnLastDate | src/charts/create_charts.py:93-94 | A non-empty monthly slice contains the month of `last_date` as its last month. |
| Charts.LatestRowIsMax | src/charts/create_charts.py:44 | A row no earlier than any other carries the latest date. |
| Charts.SliceNonEmpty | src/charts/create_charts.py:93-94 | On a non-empty table with `0 <= monthly_period` no larger than the month index of `last_date`, the monthly slice succeeds and holds rows. |
| Charts.LastBarPartial | src/charts/create_charts.py:109-110 | Whenever the monthly slice has rows, `is_last_partial` (`IsLastPartial`: the last bar has the month and year of `last_date`) holds. |
| Charts.LastMonthAlwaysPartial | src/charts/create_charts.py:93-110 | On a non-empty table with `0 <= monthly_period` no larger than the month index of `last_date`, the monthly slice has bars and `is_last_partial` holds. |
| Charts.AtMostMonthsPlusOne | src/charts/create_charts.py:93-103 | A non-negative `monthly_period` gives at most `monthly_period + 1` bars. |
| Charts.NegativeMonthsEmptySlice | src/charts/create_charts.py:93-94 | A negative `monthly_period` gives an empty monthly slice. |
| Charts.TwoDigits | src/charts/create_charts.py:106 | A `%m`, `%y` or `%d` field is two decimal digits that read back as the number. |
| Charts.MonthLabel | src/charts/create_charts.py:106 | A `%m/%y` label has five characters: two digits that read as the month, a `/`, and two digits that read as the year modulo 100. |
| Charts.UntilSuffix | src/charts/create_charts.py:114 | The suffix has 14 characters: `" (until "`, two digits that read as the day, a `/`, two digits that read as the month, and `)`. |
| Charts.MonthLabelsDistinct | src/charts/create_charts.py:106 | Months at most twelve apart get different `%m/%y` labels. |
| Charts.LabelsDistinct | src/charts/create_charts.py:106-114 | Up to 13 consecutive months, the last one with the suffix, have pairwise distinct labels. |
| Charts.SliceLabelsDistinct | src/charts/create_charts.py:93-114 | With `0 <= monthly_period <= 12` (`DefaultMonthlyPeriod`, the period the chart is drawn with), the bar labels are pairwise distinct. |
| Charts.MonthLabels | src/charts/create_charts.py:106-114 | There is one `%m/%y` label per bar. The last label gets the suffix iff the last month is partial. |
| Charts.BarColours | src/charts/create_charts.py:117-120 | Every colour is royal blue or orange, and a bar is orange iff the month is partial and the bar is the last. |
| Charts.ChartSeries | src/charts/create_charts.py:44-120 | It fails iff the monthly slice fails or is empty (`iloc[-1]` of an empty resample). Otherwise it returns the daily slice and the monthly bars. All labels and colours are plain except the last: the last label has the suffix and the last bar is orange. With `0 <= monthly_period <= 12` the labels are pairwise distinct. On a non-empty table with `0 <= monthly_period` no larger than the month index of `last_date` it always succeeds. |

## Left out

- Plotting, saving PNG files and creating directories in `create_charts.py` are not modelled. Nor are the rest of the repository: news search, embeddings, LLM calls, PDF output and the console agent.
- `pd.to_datetime` on `DT_NOTIFIC` (`create_charts.py:39`) is not modelled. Dates are already calendar dates here, so the in-place conversion changes nothing.
- `round(x, 2)` on binary floats is not modelled. Rates and variations are exact fractions (`Metrics.Ratio`), and numpy's `inf`/`nan` are the constructors of `Metrics.Variation`.
- Null `DT_NOTIFIC` values are not modelled. Every row has a valid date.
- pandas timestamps are bounded to the years 1677 to 2262. Dates here start at year 1. `DateOffset` before year 1 is `Failure(OutOfRange)` (`Charts.MonthlySlice`), and pandas would fail earlier.
- The daily slice is not zero-filled, and neither is the source: days without rows stay missing.
- Aggregation.JoinedCountsAtMostCases: the bound needs every `NU_NOTIFIC` to be non-null. `NU_CASOS` counts ids, while the other columns count rows.
- Metrics.CurrentPeriodByDays, Metrics.CaseVariationIgnoresOlderRows and the other period lemmas require `period_days >= 0` (or `>= 1`). With `period_days <= 0` the window starts after the latest date, so every period is empty. That case is stated separately: the variation is `nan` (`Metrics.NonPositivePeriodIsNaN`) and the rate is `None` (`Metrics.NonPositivePeriodRateIsNone`).
- Charts.DailySlice: its contract gives membership only. The relation of its sum to `DaySum` is stated for the metric windows (`DailyTable.SinceByDays`), not for the chart slice.
- Charts.ChartSeries: in the source the daily plot is drawn and saved before the monthly part can raise. The model returns only the error in that case.
- Charts.SliceLabelsDistinct: distinct labels are proved only for `monthly_period` from 0 to 12, the range the chart is drawn with. `%m/%y` labels repeat only for bars a multiple of 100 years apart, and longer ranges are not covered.
- Charts.MonthLabels: the bold font of the last tick label is not modelled.
