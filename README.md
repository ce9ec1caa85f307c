# Weather pipeline and gradebook statistics, modelled in Dafny

This project models the data-shaping core of two scripts.

The weather pipeline is `lab4/weather_analysis.py`. It has three stages:

- **Preprocessing** (`preprocess`). It parses the date column, drops the rows whose date does not parse, and sorts by date. It then fills the gaps of every numeric column: first it carries the last present value forward, then it puts the column's mean into the gaps still left at the top.
- **Daily resampling and summary statistics** (`compute_stats`). It buckets the records by calendar day with `resample('D')` and aggregates each bucket. It also summarises every numeric column with `describe()`.
- **Seasonal grouping** (`grouping_aggregation`). It maps each record's month to a season label and groups the records by label.

The grade-book script is `gradebook.py`. It computes the average and median mark, finds the first student with the highest and with the lowest mark, and assigns letter grades. It also counts the grades and splits the students into passed and failed at 40.

The modules are:

- `Wrappers`: Option and Result.
- `Stats`: sum, mean, min, max, median, sample variance and `describe()`.
- `Calendar`: timestamps, calendar days and months.
- `Frame`: cells, dtypes, tables and columns.
- `Cleaning`: `preprocess`. It is imperative: an insertion sort on an array of rows, then an in-place fill of each numeric column.
- `Resample`: `compute_stats`.
- `Seasons`: `grouping_aggregation`.
- `Gradebook`: `gradebook.py`.

A frame is a value of type `Table`: column names, one dtype per column (numeric, datetime or other, as pandas inferred it when the file was read) and rows of cells. Each cell is missing, a number, a text or a timestamp. Because a frame is a value, `preprocess` and `grouping_aggregation` both work on a copy, and the caller's frame never changes.

Modelling choices:

- Timestamps are nanoseconds since 1970-01-01, like pandas' `datetime64[ns]`.
- A day is the timestamp divided by the nanoseconds in a day, rounded down.
- The month comes from a proleptic Gregorian walk over years and months.
- Numbers are reals.
- The grade book's dictionary is the sequence of its `(name, mark)` entries in insertion order, with distinct names. That order decides ties in `max`/`min` and the order of the passed and failed lists.
- Where the scripts raise, the model returns a `Failure`, or `None` in the grade book.

Behaviours of the code that the model keeps:

- **The fill mean.** The mean that fills leading gaps is the mean of the values present before the forward fill, because `df[c].mean()` is evaluated on the unfilled column. `Cleaning.MeanIsTakenBeforeForwardFill` shows this on `[NaN, 1, NaN, 4]`: the leading gap gets 2.5 (the mean of 1 and 4), not 2.
- **Sort stability.** `sort_values` is called with its default algorithm, which is not stable, so the model promises nothing about the order of rows with equal dates.
- **Empty days.** `resample('D')` makes a bucket for every day from the first record's day to the last one's, including days without records. Such a day has every statistic undefined.
- **Group order.** `groupby('season')` orders the groups by label, so the default seasons come as Autumn, Spring, Summer, Winter.
- **All-missing columns.** A numeric column with no value at all stays missing after the fill, because its mean is NaN. `Cleaning.NoGapsWhenSomePresent` states when no gap is left.
- **Date conversion.** `preprocess` converts dates with `errors='coerce'`, so an unreadable date only drops its row. `grouping_aggregation` converts without it, so an unreadable present date raises `ValueError` (`UnreadableDate`). In both, a missing date is NaT: it is dropped by `preprocess` and gets no season.
- **Error kinds.** A missing date column raises `KeyError` (`MissingColumn`). Resampling a date column that is not datetime raises `TypeError` (`NotDatetime`).

## Model

| member | source | states |
|---|---|---|
| Frame.IndexOf | lab4/weather_analysis.py:29 | The date column is found exactly when its name is among the columns (`date_col in df.columns`). When it is found, the result is its first position. |
| Frame.NumericColumns | lab4/weather_analysis.py:37 | `num_cols` holds exactly the columns whose dtype is numeric, in column order. |
| Frame.Column | lab4/weather_analysis.py:39-40 | Reading `df[c]` gives one cell per row, and cell i is row i's cell in column c. |
| Frame.SetColumn | lab4/weather_analysis.py:40 | Assigning `df[c]` replaces cell c of every row by the new column's cell and keeps the row count. |
| Frame.ColumnsAfterSet | lab4/weather_analysis.py:40 | Assigning column c changes column c to the new column and leaves every other column as it was. |
| Frame.Positions | lab4/weather_analysis.py:46 | The records of a key (a day, a label) are exactly the positions holding that key, in increasing order. |
| Frame.PositionsSingle | lab4/weather_analysis.py:46 | A key held by one record only has that record as its one position. |
| Frame.Cells | lab4/weather_analysis.py:46 | `df.loc[idx, c]` gives, for each selected position in turn, that row's cell in column c. |
| Cleaning.ToDatetime | lab4/weather_analysis.py:29 | A missing cell never converts (NaN becomes NaT, later dropped), and a timestamp converts to itself. |
| Cleaning.KeptIndices | lab4/weather_analysis.py:29-30 | A row survives `to_datetime(errors='coerce')` and `dropna` exactly when its date converts, so a row with a missing date is always dropped. Survivors keep their order. The output has at most as many rows as the input, and as many when every date converts. |
| Cleaning.Kept | lab4/weather_analysis.py:29-30 | The kept rows are the surviving rows, in order, with the converted timestamp in the date column. Every kept row has a defined date, and there are at most as many as the input rows. |
| Cleaning.SortByDate | lab4/weather_analysis.py:32 | Sorting in place leaves the rows in non-decreasing date order and as a permutation of the rows before. The order of rows with equal dates is not promised. |
| Cleaning.InsertDown | lab4/weather_analysis.py:32 | One pass of the sort: when the first i rows are in date order, moving row i up past the later-dated rows puts the first i + 1 rows in date order, as a permutation. |
| Cleaning.SinkStep | lab4/weather_analysis.py:32 | Swapping the rising row with a later-dated row above it keeps the other rows in order and keeps the same rows. |
| Cleaning.SinkDone | lab4/weather_analysis.py:32 | Once the rising row is no earlier than the row above it, the first i + 1 rows are in date order. |
| Cleaning.ForwardFilled | lab4/weather_analysis.py:40 | `ffill` keeps every present cell, and turns a gap into a number or leaves it a gap (which number: `LastPresentIsNearest`). |
| Cleaning.PresentValues | lab4/weather_analysis.py:40 | A column never has more present numbers than cells. |
| Cleaning.PresentValuesMembers | lab4/weather_analysis.py:40 | The present numbers are exactly the values of the cells holding a number. |
| Cleaning.PresentValuesCount | lab4/weather_analysis.py:40 | There are exactly as many present numbers as cells holding a number. |
| Cleaning.ColumnMean | lab4/weather_analysis.py:40 | `df[c].mean()` is defined exactly when the column has a present number. It is the mean of the present numbers, so it lies between their minimum and maximum. |
| Cleaning.FilledCell | lab4/weather_analysis.py:40 | After `.fillna(method='ffill').fillna(mean)` a present cell is unchanged, a cell that is still a gap had no mean to take, and with a mean every gap becomes a number. |
| Cleaning.FilledColumn | lab4/weather_analysis.py:40 | The fill keeps the column's length and never changes a cell that is not missing. |
| Cleaning.FillColumn | lab4/weather_analysis.py:40 | Assigning the filled column makes column c of every row its filled value and leaves every other cell and the row widths as they were. |
| Cleaning.FillColumnInPlace | lab4/weather_analysis.py:38-40 | The in-place loops (sum and count, forward scan carrying the last number, mean fill) leave the rows equal to the rows with column c replaced by its filled column. |
| Cleaning.SumAndCount | lab4/weather_analysis.py:40 | The scan behind `df[c].mean()` returns the sum and the count of the numbers present in the column. |
| Cleaning.ForwardFillInPlace | lab4/weather_analysis.py:40 | `fillna(method='ffill')` in place makes cell c of every row its forward-filled value and changes nothing else in any row. |
| Cleaning.MeanFillInPlace | lab4/weather_analysis.py:40 | `.fillna(mean)` in place puts the mean into every missing cell of column c when there is a mean, and changes nothing else. |
| Cleaning.LastPresentIsNearest | lab4/weather_analysis.py:40 | The value the forward fill carries to position i is the nearest number above i. |
| Cleaning.LastPresentNone | lab4/weather_analysis.py:40 | With no number above position i, the forward fill has nothing to carry there. |
| Cleaning.FilledFromNearestEarlier | lab4/weather_analysis.py:40 | A missing cell with a number above it becomes the nearest earlier number in sorted order. |
| Cleaning.LeadingGapTakesMean | lab4/weather_analysis.py:40 | A missing cell with no number above it becomes the column's mean. It stays missing when the column has no number at all. |
| Cleaning.NoGapsWhenSomePresent | lab4/weather_analysis.py:40 | A numeric column with at least one present value has no missing cell after the fill. |
| Cleaning.FilledStaysNumeric | lab4/weather_analysis.py:40 | The fill keeps a numeric column numeric. |
| Cleaning.FilledWithoutGaps | lab4/weather_analysis.py:39-40 | A column without gaps is left exactly as it was. |
| Cleaning.MeanIsTakenBeforeForwardFill | lab4/weather_analysis.py:40 | On `[NaN, 1, NaN, 4]` the fill gives `[2.5, 1, 1, 4]`: the mean is of the values present before the forward fill. |
| Cleaning.FillNumeric | lab4/weather_analysis.py:37-40 | The loop over the numeric columns keeps the row count and the row width. |
| Cleaning.FillStep | lab4/weather_analysis.py:38-40 | One iteration of the loop keeps the row count and the row width. |
| Cleaning.FillStepColumn | lab4/weather_analysis.py:38-40 | One iteration changes column c only, and only when it is numeric, into its filled column (a column without gaps stays as it was). |
| Cleaning.FillNumericColumn | lab4/weather_analysis.py:37-40 | After the loop, every numeric column is its own filled column. Every non-numeric column, including the date column, is untouched. |
| Cleaning.FilledColumnFits | lab4/weather_analysis.py:37-40 | After the loop, every cell of a column still fits that column's dtype. |
| Cleaning.FilledFrameFits | lab4/weather_analysis.py:37-42 | The filled frame is well formed and still sorted by date. |
| Cleaning.FillNumericInPlace | lab4/weather_analysis.py:37-40 | The in-place loop over the columns, filling only the numeric columns that have a gap, leaves the rows equal to `FillNumeric` over all the columns. |
| Cleaning.FillIfGap | lab4/weather_analysis.py:38-40 | One iteration in place: column c is filled when it is numeric and has a missing cell, and the rows are left unchanged otherwise. |
| Cleaning.Preprocess | lab4/weather_analysis.py:26-42 | It fails with `MissingColumn` exactly when the date column is absent. Otherwise it returns a well-formed frame with the same columns and the date column now datetime. Its rows are a date-sorted permutation of the rows whose date converts, with every numeric column filled. |
| Calendar.DayOf | lab4/weather_analysis.py:46 | The day of a timestamp is the day whose span of nanoseconds contains it, rounded towards the past also before 1970. |
| Calendar.DayOfMonotone | lab4/weather_analysis.py:46 | A later timestamp never falls on an earlier day. |
| Calendar.MonthOf | lab4/weather_analysis.py:109 | `.dt.month` is always between 1 and 12 (which month it is: `MonthOfDate`). |
| Calendar.DayOfUnique | lab4/weather_analysis.py:46 | A timestamp falls on exactly one day: the one whose span holds it. |
| Calendar.YearStartStep | lab4/weather_analysis.py:109 | Each year starts where the previous one ends, 365 or 366 days later. |
| Calendar.YearStartOrder | lab4/weather_analysis.py:109 | A year ends no later than any later year begins. |
| Calendar.SameYear | lab4/weather_analysis.py:109 | A day number has only one reading as (year, day of that year). |
| Calendar.YearAndDay | lab4/weather_analysis.py:109 | The day n days after January 1 of year y is read as a year and a day within that year that name the same day. |
| Calendar.MonthsFillYear | lab4/weather_analysis.py:109 | Each month starts where the previous one ends, and December ends where the year ends. |
| Calendar.MonthOrder | lab4/weather_analysis.py:109 | A month ends no later than any later month of the same year begins. |
| Calendar.MonthFrom | lab4/weather_analysis.py:109 | The month found starts no later than the given day and, unless it is December, ends after it. |
| Calendar.MonthOfDay | lab4/weather_analysis.py:109 | The month of a day number is between 1 and 12. |
| Calendar.MonthOfCivilDay | lab4/weather_analysis.py:109 | Every day y-m-d of the proleptic Gregorian calendar is read back as month m. |
| Calendar.MonthOfDate | lab4/weather_analysis.py:109 | Every instant of the date y-m-d has month m. |
| Calendar.MonthExamples | lab4/weather_analysis.py:109 | Day 0 is in January, day 181 (1970-07-01) in July, and day -1 (1969-12-31) in December. |
| Resample.Days | lab4/weather_analysis.py:45-46 | Each record's bucket key is its timestamp truncated to the day. |
| Resample.FirstDay | lab4/weather_analysis.py:46 | The day resampling starts from is the day of one of the records, and no record lies on an earlier day. |
| Resample.LastDay | lab4/weather_analysis.py:46 | The day resampling ends at is the day of one of the records, and no record lies on a later day. |
| Resample.DailyBuckets | lab4/weather_analysis.py:46 | There are no buckets for no records. Otherwise the buckets are consecutive ascending days from the first record's day to the last one's, empty days included. Each bucket holds exactly the records of its day. |
| Resample.EachRecordInOneBucket | lab4/weather_analysis.py:46 | Every record is in a bucket, and only in the bucket of its own day. |
| Resample.BucketDays | lab4/weather_analysis.py:46 | There is one bucket per day from the first to the last, and bucket j holds day first + j. |
| Resample.BucketMembersInOrder | lab4/weather_analysis.py:46 | Each bucket lists the records of its day in strictly increasing row order. |
| Resample.OneRecordPerDay | lab4/weather_analysis.py:46 | Records on three consecutive days give three buckets of one record each. |
| Resample.Aggregate | lab4/weather_analysis.py:46 | A bucket's mean, min and max are undefined exactly when it holds no number. Otherwise they are `Stats.Mean`, `Stats.Min` and `Stats.Max` of its numbers, with min ≤ mean ≤ max. Std is `Stats.Variance`, undefined for fewer than two values. |
| Resample.DayRowOf | lab4/weather_analysis.py:46 | A daily row carries its bucket's day and one aggregation per numeric column. |
| Resample.Daily | lab4/weather_analysis.py:46 | The daily frame has one row per bucket, in day order, each with its bucket's day and one aggregation per numeric column. |
| Resample.Summaries | lab4/weather_analysis.py:48 | `describe()` gives one summary per numeric column. |
| Resample.ComputeStats | lab4/weather_analysis.py:44-49 | It fails with `MissingColumn` when the date column is absent and with `NotDatetime` when that column is not datetime, and succeeds otherwise. On success every date is a timestamp, and the report is the daily frame of the buckets and the summaries of the numeric columns. |
| Resample.DailyRowBounds | lab4/weather_analysis.py:46 | In every daily row, a defined mean lies between the day's min and max. A day with at most one record has an undefined std. |
| Resample.DayCellBounds | lab4/weather_analysis.py:46 | The same bounds hold for every cell of the daily frame of any dated records. |
| Resample.BucketNumbers | lab4/weather_analysis.py:46 | Cell (j, c) of the daily frame aggregates exactly the numbers that the records of day j hold in that numeric column. |
| Resample.DayCellValues | lab4/weather_analysis.py:46 | Cell (j, c) of the daily frame is defined exactly when a record of day j has a number in the column. Its min and max are then the least and the greatest of those numbers. |
| Resample.SummaryValues | lab4/weather_analysis.py:48 | `describe()` of a numeric column counts the records with a number there. It is defined exactly when one exists, and its min and max are the least and the greatest of those numbers. |
| Resample.FreqIgnored | lab4/weather_analysis.py:44-46 | The `freq` argument has no effect on the result. |
| Seasons.DefaultSeasonMapTotal | lab4/weather_analysis.py:111-114 | The default table maps exactly the months 1 to 12: 12, 1 and 2 to Winter, 3-5 to Spring, 6-8 to Summer and 9-11 to Autumn. |
| Seasons.MonthOfCell | lab4/weather_analysis.py:109 | A missing date has no month. A timestamp has its own month, always between 1 and 12. |
| Seasons.DefaultSeasonOfDate | lab4/weather_analysis.py:109-115 | Under the default table, every instant of a date in December, January or February is Winter, in March to May Spring, in June to August Summer, and in September to November Autumn. |
| Seasons.SeasonOf | lab4/weather_analysis.py:110-116 | A caller's table replaces the default table wholesale. A month gets a label exactly when the table in force maps it, and the label is the one that table gives. |
| Seasons.Labels | lab4/weather_analysis.py:109-116 | `df['season']` holds each record's label in row order. |
| Seasons.StrLessIrreflexive | lab4/weather_analysis.py:117 | No label sorts before itself. |
| Seasons.StrLessTransitive | lab4/weather_analysis.py:117 | The order of labels is transitive. |
| Seasons.StrLessTotal | lab4/weather_analysis.py:117 | Of two different labels, one sorts before the other. |
| Seasons.StrLessAsymmetric | lab4/weather_analysis.py:117 | Two labels never sort before each other. |
| Seasons.InsertLabel | lab4/weather_analysis.py:117 | Adding a label to an ascending list of labels gives an ascending list of the old labels and the new one. |
| Seasons.SortedLabels | lab4/weather_analysis.py:117 | The group keys are exactly the labels that occur, in strictly ascending order. Unlabelled records give no key. |
| Seasons.AscendingUnique | lab4/weather_analysis.py:117 | The sorted key list is determined by the set of labels alone. |
| Seasons.DefaultSeasonOrder | lab4/weather_analysis.py:111-117 | With all four default seasons present, the groups come as Autumn, Spring, Summer, Winter. |
| Seasons.SeasonGroups | lab4/weather_analysis.py:117 | There is one group per label that occurs, in strictly ascending label order. Each group holds exactly the records with its label. |
| Seasons.RecordInOneGroup | lab4/weather_analysis.py:116-117 | A labelled record is in exactly one group, the one of its label. A record without a label (a missing date, or a month the table does not map) is in no group. |
| Seasons.GroupMembersInOrder | lab4/weather_analysis.py:117 | Each group lists the records of its label in strictly increasing row order. |
| Seasons.AggregateGroup | lab4/weather_analysis.py:117 | A group's mean and median are undefined exactly when it holds no number. Otherwise they are `Stats.Mean` and `Stats.Median` of its numbers and lie between their min and max. Std is `Stats.Variance`, undefined for fewer than two values. |
| Seasons.SeasonRowOf | lab4/weather_analysis.py:117 | A result row carries its group's label and one aggregation per numeric column. |
| Seasons.SeasonRows | lab4/weather_analysis.py:117 | The grouped frame has one row per group, in label order, each with its group's label and one aggregation per numeric column. |
| Seasons.MemberNumbers | lab4/weather_analysis.py:116-117 | The numbers present among a group's members in a column are exactly the numbers that the records bearing its label hold there. |
| Seasons.SeasonNumbers | lab4/weather_analysis.py:117 | Cell (j, c) of the grouped frame is the aggregation of exactly the numbers that the records of season j hold in that numeric column. |
| Seasons.AggregateWithin | lab4/weather_analysis.py:117 | Such a cell is defined exactly when a record of the season has a number there. Its mean and median then lie between two of those numbers. |
| Seasons.GroupingAggregation | lab4/weather_analysis.py:107-118 | It fails with `MissingColumn` when the date column is absent. Otherwise it fails with `UnreadableDate` exactly when a present date cannot be converted. On success it returns the grouped frame of the records' labels. |
| Stats.Min | lab4/weather_analysis.py:46 | The minimum is one of the values and is no greater than any of them. |
| Stats.Max | lab4/weather_analysis.py:46 | The maximum is one of the values and is no less than any of them. |
| Stats.SumBounds | gradebook.py:6 | If every value lies in [lo, hi], the sum of n values lies in [n·lo, n·hi]. |
| Stats.MeanBetween | gradebook.py:6 | The mean of a non-empty sequence lies between its minimum and maximum. |
| Stats.MeanWithin | gradebook.py:6 | If every value lies in [lo, hi], so does the mean. |
| Stats.Insert | gradebook.py:9 | Inserting into an ascending sequence keeps it ascending and adds exactly the new value. |
| Stats.SortReals | gradebook.py:9 | `sorted()` returns an ascending permutation of the values. |
| Stats.Median | gradebook.py:8-14 | The median lies between the minimum and maximum, and for an odd count it is one of the values. |
| Stats.Middle | gradebook.py:10-14 | For a sorted sequence, the middle value (the mean of the two middle ones for an even count) lies between the two middle entries. |
| Stats.SortedUnique | gradebook.py:9 | Two ascending sequences with the same values are equal, so the sorted marks are determined by the marks. |
| Stats.MedianOfPermutation | gradebook.py:8-14 | The median depends only on the values, not on their order. |
| Stats.SquaredDeviations | lab4/weather_analysis.py:46 | The sum of squared deviations is never negative. |
| Stats.Variance | lab4/weather_analysis.py:46 | Std (here its square) is undefined exactly for fewer than two values, and never negative otherwise. |
| Stats.Describe | lab4/weather_analysis.py:48 | `describe()` counts the values. Mean, median (50%), min and max are undefined exactly when there is no value, and otherwise are `Mean`, `Median`, `Min` and `Max` of the values, with min ≤ mean ≤ max and min ≤ median ≤ max. Std is `Variance`, undefined for fewer than two values. |
| Gradebook.Average | gradebook.py:5-6 | The average is undefined (division by zero) for an empty table, and otherwise lies between the lowest and highest mark. |
| Gradebook.Median | gradebook.py:8-14 | The median is undefined (index error) for an empty table. Otherwise it lies between the lowest and highest mark, and for an odd count it is one of the marks. |
| Gradebook.MedianIgnoresOrder | gradebook.py:8-14 | Entering the same marks in another order gives the same median. |
| Gradebook.FirstMaxIndex | gradebook.py:17 | `max(..., key=marks.get)` stops at a highest mark, and every earlier entry has a strictly lower mark. |
| Gradebook.FirstMinIndex | gradebook.py:21 | `min(..., key=marks.get)` stops at a lowest mark, and every earlier entry has a strictly higher mark. |
| Gradebook.FindMaxScore | gradebook.py:16-18 | The result is undefined for an empty table. Otherwise it is an entry of the table whose mark is ≥ every mark, the first such in insertion order. |
| Gradebook.FindMinScore | gradebook.py:20-22 | The result is undefined for an empty table. Otherwise it is an entry of the table whose mark is ≤ every mark, the first such in insertion order. |
| Gradebook.ExtremesBoundStatistics | gradebook.py:5-22 | The marks found are the maximum and minimum of the marks, and the average and the median lie between them. |
| Gradebook.GradeOf | gradebook.py:27-36 | A from 90, B in [80, 90), C in [70, 80), D in [60, 70), F below 60, each as an if-and-only-if. |
| Gradebook.GradeMonotone | gradebook.py:27-36 | A higher mark never gets a worse letter. |
| Gradebook.AssignGrades | gradebook.py:24-37 | The loop grades every student of the table, in table order, with the letter for their mark. |
| Gradebook.GradesKeepNames | gradebook.py:24-37 | The graded table names exactly the students of the marks table, in the same order. |
| Gradebook.CountOf | gradebook.py:39-43 | A grade's count is at most the number of students, and positive exactly when some student has that grade. |
| Gradebook.CountGrades | gradebook.py:39-43 | The keys are exactly the grades that occur, and each count is the number of students with that grade. |
| Gradebook.CountsAddUp | gradebook.py:39-43 | The counts of the five grades add up to the number of students. |
| Gradebook.Where | gradebook.py:84-85 | The passing (or failing) positions are exactly those whose mark is ≥ 40 (or < 40), in increasing order. |
| Gradebook.NamesAt | gradebook.py:84-85 | The list comprehension gives the names at those positions, in the same order. |
| Gradebook.Passed | gradebook.py:84 | A name is in the passed list exactly when its mark is ≥ 40. The list follows the table order: entry p is the name at the p-th passing position. |
| Gradebook.Failed | gradebook.py:85 | A name is in the failed list exactly when its mark is < 40. The list follows the table order: entry p is the name at the p-th failing position. |
| Gradebook.PassFailPartition | gradebook.py:84-85 | Passed and failed split the students: every name is in exactly one of the two lists, and together they are as long as the table. |
| Gradebook.WhereSplits | gradebook.py:84-85 | The passing and the failing positions together cover every entry once. |

## Left out

- Plotting (`plot_*`, `combined_plots_example`): matplotlib rendering, not data logic. Its `month` column added to the caller's frame is not modelled either, although with `--save-plots` it ends up in the exported cleaned file.
- File and command-line handling (`ensure_outdir`, `load_data`, `export_cleaned`, `main`, argparse). This is I/O only.
- The interactive loop, the `float()` input parsing and the table printing of `gradebook.py`. This is I/O only.
- Date-string parsing by `pd.to_datetime` is a foreign library. It is the parameter `parse`, which gives a timestamp or None for a cell that is neither missing nor already a timestamp (`Cleaning.ToDatetime`).
- Floating-point rounding. Marks and observations are reals.
- Stats.Variance: std is modelled as the sample variance, without the square root, because reals in the model have no square root. Its defined/undefined cases are exactly pandas'.
- Stats.Describe: the 25% and 75% quartiles of `describe()` are not modelled, since percentile interpolation is floating-point detail. The count, mean, median (50%), min, max and std are.
- Stats.Describe: `describe()` of a frame with no numeric column (which describes the text columns instead) is not modelled.
- Resample.ComputeStats: the aggregation of non-numeric columns is not modelled, only the numeric columns. pandas' treatment of text columns under `agg(['mean', ...])` depends on the pandas version.
- Seasons.GroupingAggregation: only the frame's numeric columns are aggregated. The helper `month` column and the date column, which `groupby(...).agg` would also aggregate, are not.
- Seasons.GroupingAggregation: the labels of a caller's season table are strings in the model.
- Gradebook.CountGrades: the dictionary's key order (first occurrence) only affects printing and is not modelled; the result is a map.
- Cleaning.Preprocess: `reset_index(drop=True)` is implicit, because rows are a sequence indexed from 0.
