# SCADA aggregation engine, modelled in Dafny

This project models the aggregation core of `scada_analysis.py`, a tool that reads the
SCADA_Data table of an electricity database and summarises its readings. It makes three
group-by summaries of the readings. Each summary has one row per bucket, and each row holds
`RecordCount`, `AvgValue`, `MinValue`, `MaxValue` and `TotalValue`:

- `daily_summary` groups by the calendar date of `SETTLEMENTDATE`;
- `duid_summary` groups by the device id `DUID`, then sorts the rows by `AvgValue`, highest first;
- `hourly_summary` groups by the hour of day of `SETTLEMENTDATE`, merging readings of different days.

The ranking page and the printed summary show `duid_stats.head(10)`, the first ten rows of the
sorted device table.

Layout, one module per file:

- `readings.dfy` (`Readings`): a reading with its fields already decoded (`ID`, `SETTLEMENTDATE`
  as date, hour, minute and second, `DUID`, `SCADAVALUE` as a real). Also the tagged bucket key
  (`DayKey`, `DeviceKey`, `HourKey`), the key of a reading in each table, and the order a
  group-by lists keys in: dates chronologically, DUIDs by code point, hours numerically. That
  order is proved to be a strict total order.
- `stats.dfy` (`Stats`): `sum`, `min`, `max` and `mean` over the values of one bucket.
- `grouping.dfy` (`Grouping`): the split step of `groupby`. Readings are added one at a time to
  a key-sorted list of groups. `Bucket` is a separate reference definition: the values of the
  readings with a given key, in input order. Each group is proved to hold exactly its key's bucket.
- `summaries.dfy` (`Summaries`): the `agg(...)` step, the generic `Summary`, and the daily and
  hourly tables with their properties.
- `ranking.dfy` (`Ranking`): `sort_values(by='AvgValue', ascending=False)` as an insertion sort,
  `duid_summary`, `head(n)` and the top-ten table.
- `scenario.dfy` (`Scenario`): three readings worked through all the tables.

Values are `real`, so `AvgValue` is exactly `TotalValue / RecordCount`. There is no
floating-point rounding.

## Model

| member | source | states |
|---|---|---|
| `Readings.KeyLessTotal` | scada_analysis.py:85 | two different bucket keys are always ordered one way or the other, so the order of the group-by's sorted keys is defined (irreflexivity and transitivity are proved beside it) |
| `Stats.Min` | scada_analysis.py:87 | `min` of a non-empty bucket is one of its values and no value is below it |
| `Stats.Max` | scada_analysis.py:87 | `max` of a non-empty bucket is one of its values and no value is above it |
| `Stats.SumBounds` | scada_analysis.py:87 | values that all lie between lo and hi have a `sum` between lo·n and hi·n |
| `Stats.Mean` | scada_analysis.py:87 | `mean` times the number of values is the `sum`, and the mean lies between `min` and `max` |
| `Grouping.BucketSize` | scada_analysis.py:86 | a bucket holds one value for each reading whose key is the bucket's key |
| `Grouping.BucketMembers` | scada_analysis.py:85-87 | a value is in a bucket exactly when some reading with that key has that SCADAVALUE |
| `Grouping.GroupByProperties` | scada_analysis.py:85 | the groups are strictly ascending by key, none is empty, their keys are exactly the keys that occur in the readings, together they hold one value per reading, and the group of each key holds exactly that key's bucket |
| `Summaries.Aggregate` | scada_analysis.py:85-91 | a row has its group's key, RecordCount = the group's size (> 0), AvgValue · RecordCount = TotalValue, MinValue ≤ AvgValue ≤ MaxValue, MinValue and MaxValue are values of the group, and every value lies between them |
| `Summaries.Summary` | scada_analysis.py:85-88 | one row per key, strictly ascending by key, all keys of the table's kind, no row with RecordCount 0, and no rows exactly when there are no readings |
| `Summaries.SummaryRecordCount` | scada_analysis.py:85-88 | the RecordCounts of a table add up to the number of readings |
| `Summaries.SummaryKeys` | scada_analysis.py:85-88 | a table has a row for a key exactly when some reading has that key, and no key has two rows |
| `Summaries.SummaryRowIsBucketAggregate` | scada_analysis.py:85-88 | each row is the aggregate of its key's bucket, which is not empty |
| `Summaries.SummaryRowStatistics` | scada_analysis.py:85-91 | RecordCount is the number of readings with the row's key and TotalValue, MinValue and MaxValue are the sum, minimum and maximum of their values; AvgValue = TotalValue / RecordCount; MinValue ≤ AvgValue ≤ MaxValue; every reading of the bucket lies between MinValue and MaxValue |
| `Summaries.ReadingInExactlyOneRow` | scada_analysis.py:85-88 | every reading falls into exactly one row of each table, the row of its key |
| `Summaries.SharedKeySharesRow` | scada_analysis.py:85 | two readings with the same key are counted in the same row, which has RecordCount ≥ 2 |
| `Summaries.DailySummary` | scada_analysis.py:76-93 | the daily rows are keyed by date and strictly ascending by date |
| `Summaries.SameDateSharesDailyRow` | scada_analysis.py:82-85 | two readings of the same date are in one daily row, whatever their time of day |
| `Summaries.HourlySummary` | scada_analysis.py:111-125 | the hourly rows are keyed by an hour in 0..23 and strictly ascending by hour, so there are at most 24 of them |
| `Summaries.HourAtLeastIndex` | scada_analysis.py:117-120 | in strictly ascending hourly rows, the hour at position p is at least p |
| `Summaries.SameHourSharesHourlyRow` | scada_analysis.py:114-117 | two readings of the same hour of day are in one hourly row, even when their dates differ |
| `Ranking.InsertRanked` | scada_analysis.py:107 | inserting a row into the sorted table adds exactly that row (as a multiset) and its RecordCount |
| `Ranking.InsertRankedKeepsRanked` | scada_analysis.py:107 | inserting into a ranked table gives a ranked table |
| `Ranking.RankByAverage` | scada_analysis.py:107 | sorting is a permutation of the rows and keeps the total RecordCount |
| `Ranking.RankByAverageIsRanked` | scada_analysis.py:107 | a sorted table never lists a row after a row it ranks before, and keeps distinct keys distinct |
| `Ranking.RankByAverageOrder` | scada_analysis.py:107 | a sorted table of device rows with distinct keys has non-increasing AvgValue, with equal AvgValues in ascending DUID order |
| `Ranking.DeviceTableKeys` | scada_analysis.py:98-101 | the device group-by has one row per DUID, each keyed by a DUID |
| `Ranking.DuidSummary` | scada_analysis.py:95-109 | the device table holds the same rows as the device group-by, as a multiset; AvgValue is non-increasing down the table; equal AvgValues appear in ascending DUID order |
| `Ranking.DuidSummaryRecordCount` | scada_analysis.py:98-107 | after sorting, the device RecordCounts still add up to the number of readings |
| `Ranking.Head` | scada_analysis.py:172 | `head(n)` has min(n, length) rows and is the prefix of that length, rows unchanged and in order |
| `Ranking.TopDevices` | scada_analysis.py:172 | the top table has at most ten rows |
| `Ranking.TopDevicesHaveHighestAverages` | scada_analysis.py:250 | the top table is the first min(10, n) rows of the device table, and no device left out has a higher AvgValue than one in it |
| `Scenario.ExampleDaily` | scada_analysis.py:76-93 | for three sample readings, the daily table is 2024-01-01 (2 readings, avg 20, min 10, max 30, total 40) followed by 2024-01-02 (1 reading of 20) |
| `Scenario.ExampleHourly` | scada_analysis.py:111-125 | for the same readings, the hourly table is hours 0, 5 and 13, one reading each |
| `Scenario.ExampleDeviceGroups` | scada_analysis.py:98-104 | for the same readings, the device group-by is G1 (2 readings, avg 20) then G2 (1 reading, avg 20) |
| `Scenario.ExampleDevices` | scada_analysis.py:107 | the two devices tie on average, G1 is listed first, and both are in the top table |

## Left out

- Database connection and fetch (scada_analysis.py:42-74) and the connection settings (scada_analysis.py:33-36): network I/O. The model starts from a finite sequence of decoded readings.
- Parsing of `SETTLEMENTDATE` by `pd.to_datetime` (scada_analysis.py:79), and its error on text that does not parse: a reading's timestamp is already a date, hour, minute and second. Sub-second parts of the timestamp are not modelled; no summary uses them.
- The columns `LASTCHANGED` and `IMPORT_TIMESTAMP`: no summary reads them.
- The in-place changes to the data frame: the converted `SETTLEMENTDATE` column and the added `DATE` and `Hour` columns (scada_analysis.py:79, 82, 114). Bucket keys are pure functions of a reading, so the model does not capture that `hourly_summary` depends on `daily_summary` having converted `SETTLEMENTDATE` first.
- Missing values: a null date or DUID (pandas' `groupby` drops such readings by default), a null `ID` (left out of `count`), and NaN in `SCADAVALUE` (skipped by `mean`, `min`, `max` and `sum`). Every field of a modelled reading is present.
- Floating point: values are exact reals. The model does not capture IEEE-754 rounding in `sum` and `mean`, or NaN.
- `Ranking.DuidSummary`: sorts equal averages by ascending DUID. `sort_values` uses quicksort by default, which fixes no order among equal averages. The model's order is one of the orders the source may produce, and only the non-increasing order of AvgValue is the source's own promise.
- `Ranking.Head`: takes a natural number of rows. Pandas' `head` with a negative argument (all rows but the last few) is never used by the source and is not modelled.
- Chart drawing and PDF output (scada_analysis.py:127-205), CSV export (scada_analysis.py:207-224) with its timestamped file names, `main` with its printing, exception handling and connection closing (scada_analysis.py:226-275), and the plot style and output directory setup (scada_analysis.py:26-40): rendering and file I/O.
