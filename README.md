# PurpleAir Wi-Fi data processing, modelled in Dafny

The application takes CSV exports from PurpleAir Wi-Fi air-quality sensors and runs each
uploaded file through four steps:

1. Convert `time_stamp` to US Eastern time. Stamps that carry a UTC offset are
   converted; stamps without one make `tz_convert` raise.
2. Add the corrected PM2.5 channel, `pm2.5_corr = 0.524 * pm2.5_atm - 0.0862 * humidity + 5.75`.
3. Lay the readings on a continuous hourly range from the earliest stamp to the latest.
   Empty hours are filled with nulls and only hours from 2024 on are kept. A repeated
   stamp makes `reindex` raise, so there is never a repeat left for the dedup to drop.
4. Average each column over every Eastern calendar day, giving one row per consecutive
   day.

This project models those four functions and the part of the upload loop that
chains them. It proves what each step does to the table.

## Modules

- `Wrappers` (`wrappers.dfy`): `Option`, `Result` (usable with `:-`) and `Outcome`.
- `Clock` (`clock.dfy`): covers three things:
  - instants, as whole seconds since the Unix epoch;
  - time zones (no offset, UTC, Eastern);
  - the local calendar day of an instant, local midnights, Gregorian year starts and
    the 2024 cutoff instant.
- `Tables` (`tables.dfy`): the data frame as a value. It holds its payload column
  names and its rows. Each row has an instant and one nullable `real` cell per column.
  The frame also records its zone and whether `time_stamp` has become the index. This
  module also defines the errors the library calls raise.
- `Timezone` (`timezone.dfy`): the conversion of step 1 and the lenient `utc=True`
  conversion that opens step 3.
- `Correction` (`correction.dfy`): step 2.
- `Grid` (`grid.dfy`): the table operations both resampling steps use: `date_range`,
  `reindex` by exact instant, and `~index.duplicated(keep='first')`.
- `Hourly` (`hourly.dfy`): step 3.
- `Daily` (`daily.dfy`): step 4: day buckets, null-skipping means and `resample('D')`.
- `Pipeline` (`pipeline.dfy`): the four steps composed as a pure function, with what
  that composition guarantees.
- `Frames` (`frame.dfy`): the mutable frame. The source mutates it in place at
  lines 7, 10, 16, 22, 23 and 40. `Frame` is a class whose methods update its fields
  and which build new frames for the hourly and daily results. Every method is tied
  to the pure function of its step, and `ProcessFile` is tied to `Pipeline.Process`.

## Behaviour as the code has it

The model follows the code. These are the places where what the code does might not
be what a reader expects:

- The hourly range starts at the earliest stamp itself, not at the hour below it. It
  ends at the last hour step that does not pass the latest stamp.
  - `reindex` matches exact instants. A reading that is not a whole number of hours
    after the earliest stamp is therefore dropped, not moved to its hour
    (`Hourly.HourlyKeepsExactly`).
- Two readings with the same stamp do not collapse to the first one. `reindex` raises
  on a repeated label before the dedup at line 30 runs, so the model returns
  `Err(DuplicateLabels)` (`Pipeline.ProcessFails`).
  - Because of this, the dedup at line 30 never removes a row (`Hourly.AlignedIsSpaced`).
  - The dedup at line 50 never removes a row either, and neither does the daily
    reindex (`Daily.DailyIsResample`).
- An empty file does not give an empty output; it fails at step 1. `pd.to_datetime`
  of an empty column gives stamps without an offset, so `tz_convert` raises. A frame
  read from a file with no rows is therefore modelled with no offset, and the model
  returns `Err(NaiveTimestamps)` (`Pipeline.ProcessFails`).
  - `Err(EmptyTable)` is what the hourly and daily functions raise on a frame with no
    rows, because `date_range` between the NaT bounds of an empty index raises
    (`Hourly.HourlyRows`, `Daily.DailyRows`). In the upload loop it arises only when
    every hour of the range falls before 2024, so that the daily step receives an empty
    table (`Pipeline.ProcessSucceedsIff`).
- A file without a `time_stamp` column is modelled as a frame whose `time_stamp` is
  already the index (`keyed`). Either way `df['time_stamp']` raises a KeyError at
  step 1, `Err(MissingColumn("time_stamp"))` (`Pipeline.ProcessFails`).
- The daily step averages each column over the day and skips nulls
  (`resample('D').mean()`). A day whose column is all null gets a null mean
  (`Daily.Mean`, `Daily.DayRowMean`).
- Stamps without an offset: step 1's `tz_convert` raises on them (`Err(NaiveTimestamps)`).
  Step 3's `to_datetime(..., utc=True)` reads them as UTC.
- After step 3 has keyed the caller's frame in place, that frame no longer has a
  `time_stamp` column. This happens even when step 3 then raises
  (`Frames.Frame.ContinuousHourlyStep`, `Frames.UploadAfter`).

## Model

| member | source | states |
|---|---|---|
| Clock.DayStartIsMidnight | streamlit_app.py:43 | the label of a local day falls on that day, exactly at local midnight |
| Clock.DayStartStep | streamlit_app.py:46 | daily labels `k` days apart are exactly `k` times 86400 seconds apart |
| Clock.DayStartBounds | streamlit_app.py:43 | what `LocalDay`, the local calendar day that lines 34 and 43 read, means: every instant lies in the 24 hours that start at its own day's midnight |
| Clock.LocalDayMonotone | streamlit_app.py:43 | a later instant never falls on an earlier local day |
| Clock.LocalDayIff | streamlit_app.py:43 | an instant is binned into day `d` exactly when it lies in `d`'s 24 hours |
| Clock.YearLength | streamlit_app.py:34 | the proleptic Gregorian years are 365 days long, 366 in leap years |
| Clock.CutoffInstant | streamlit_app.py:34 | the cutoff instant 1704085200 is Eastern midnight of 1 January 2024, day 19723 |
| Clock.AfterCutoffYearIff | streamlit_app.py:34 | the Eastern year is later than 2023 exactly when the instant is at or after the cutoff |
| Tables.MinTime | streamlit_app.py:26 | `index.min()` is a stamp of the table and no stamp is smaller |
| Tables.MaxTime | streamlit_app.py:26 | `index.max()` is a stamp of the table and no stamp is larger |
| Tables.Find | streamlit_app.py:29 | the position found holds the stamp, no earlier row holds it, and none means no row at all holds it |
| Tables.FindDistinct | streamlit_app.py:29 | without repeated stamps, searching a row's stamp finds that row |
| Tables.SpacedIncreasing | streamlit_app.py:26 | stamps a positive step apart are strictly increasing and distinct |
| Tables.IncreasingEnds | streamlit_app.py:26 | in increasing rows the first stamp is the minimum and the last the maximum |
| Timezone.ConvertToEastern | streamlit_app.py:5-12 | fails exactly on a keyed frame (KeyError) or stamps without offset; otherwise only the zone label changes |
| Timezone.CoerceToEastern | streamlit_app.py:22 | fails exactly on a keyed frame; stamps without offset are read as UTC |
| Timezone.CoerceExtendsConvert | streamlit_app.py:10 | where step 1's conversion succeeds, step 3's gives the same table |
| Timezone.ConvertIdempotent | streamlit_app.py:10 | converting the converted frame changes nothing |
| Timezone.ConvertKeepsInstants | streamlit_app.py:10 | conversion keeps every instant, and with them order and distinctness, both ways |
| Correction.IndexOf | streamlit_app.py:16 | the position found names the column; there is none exactly when the column is absent |
| Correction.IndexOfDistinct | streamlit_app.py:16 | with distinct names, a name's position is its own index |
| Correction.IndexOfAppend | streamlit_app.py:16 | appending pm2.5_corr leaves every existing column's position unchanged |
| Correction.Corrected | streamlit_app.py:16 | the corrected value exists exactly when both inputs are non-null |
| Correction.CorrectedExample | streamlit_app.py:16 | 10 at 50 % humidity corrects to 6.68; a null humidity gives null |
| Correction.CorrectedSlope | streamlit_app.py:16 | raising pm2.5_atm by `d` raises pm2.5_corr by 0.524 * d |
| Correction.Correct | streamlit_app.py:14-18 | KeyError exactly when an input column is missing, pm2.5_atm first; otherwise pm2.5_corr is the formula per row, other cells, stamps, zone and key untouched, and the column is appended only if absent |
| Correction.CorrectInPlace | streamlit_app.py:16 | an existing pm2.5_corr column is overwritten where it stands and nothing else changes |
| Correction.CorrectAppended | streamlit_app.py:16 | a missing pm2.5_corr column is appended last and nothing else changes |
| Grid.DateRange | streamlit_app.py:26 | `(hi - lo) / step + 1` points from `lo` exactly `step` apart, the last not past `hi` and within one step of it |
| Grid.GridMembers | streamlit_app.py:26 | an instant is a grid point exactly when it is in range and a whole number of steps after the start |
| Grid.GridIndex | streamlit_app.py:26 | the grid has a `k`-th point exactly when `lo + k * step` does not pass `hi` |
| Grid.GridTail | streamlit_app.py:26-34 | any tail of a table laid on a grid stays in range, on the grid and evenly spaced |
| Grid.Slot | streamlit_app.py:29 | a slot carries its grid instant and one cell per column |
| Grid.Reindex | streamlit_app.py:29 | one slot per grid instant, in grid order, each as wide as the table |
| Grid.ReindexMatched | streamlit_app.py:29 | a slot whose instant an input row has carries that row |
| Grid.ReindexUnmatched | streamlit_app.py:29 | a slot whose instant no input row has is all nulls |
| Grid.ReindexOwnGrid | streamlit_app.py:46-47 | evenly spaced rows reindexed on the range of their own stamps and step come back unchanged |
| Grid.DropDuplicates | streamlit_app.py:30 | dedup never adds rows; what it keeps is stated by `Grid.DropDuplicatesKeepsFirst` |
| Grid.DropDuplicatesKeepsFirst | streamlit_app.py:30 | dedup output has no repeated stamp, each kept row is the first with its stamp, every first occurrence is kept, and a table without repeats is unchanged |
| Grid.DropDuplicatesDistinct | streamlit_app.py:50 | dedup of a table without repeated stamps changes nothing |
| Grid.DropDuplicatesOrder | streamlit_app.py:30 | dedup keeps rows in their original order |
| Grid.SubsequenceMembers | streamlit_app.py:30 | rows kept in order are rows of the original |
| Hourly.KeepAfterCutoff | streamlit_app.py:34 | the year mask never adds rows; what it keeps is stated by `Hourly.KeepAfterCutoffExactly` |
| Hourly.KeepAfterCutoffExactly | streamlit_app.py:34 | the year mask keeps every row from 2024 on and only such rows |
| Hourly.KeepAfterCutoffCount | streamlit_app.py:34 | the year mask keeps every copy of a row from 2024 on and drops every copy of an earlier one |
| Hourly.KeepAfterCutoffOrder | streamlit_app.py:34 | the year mask only removes rows and keeps their order |
| Hourly.KeepAfterCutoffAll | streamlit_app.py:34 | rows all from 2024 on pass the mask unchanged |
| Hourly.KeepAfterCutoffTail | streamlit_app.py:34 | on increasing stamps the mask keeps a tail of the table |
| Hourly.KeepAfterCutoffNone | streamlit_app.py:34 | rows all before 2024 are masked away entirely |
| Hourly.HourlyRows | streamlit_app.py:26-34 | fails exactly on an empty table (NaT bounds) or a repeated stamp (reindex), with those errors; the output has the table's width |
| Hourly.ContinuousHourly | streamlit_app.py:20-36 | fails exactly on a keyed, empty or repeated-stamp frame; the output keeps the columns, is Eastern and has time_stamp as a column |
| Hourly.AlignedIsSpaced | streamlit_app.py:29-30 | the reindexed table is exactly one hour apart and increasing, so the line-30 dedup removes nothing |
| Hourly.HourlyIsMasked | streamlit_app.py:29-34 | the hourly rows are the year mask applied to the reindexed grid |
| Hourly.HourlyIsGridTail | streamlit_app.py:29-34 | the hourly rows are a tail of the reindexed grid |
| Hourly.HourlyOnGrid | streamlit_app.py:26 | every output stamp lies between the earliest and latest input stamp, a whole number of hours after the earliest |
| Hourly.HourlySpaced | streamlit_app.py:26-34 | output stamps are exactly one hour apart, strictly increasing, none repeated |
| Hourly.HourlyAfterCutoff | streamlit_app.py:34 | every output row is from Eastern year 2024 or later |
| Hourly.HourlyPayload | streamlit_app.py:29 | each output row is the input row with exactly its stamp, or nulls if none has it |
| Hourly.HourlyKeeps | streamlit_app.py:29-34 | an input row on an hour of the grid from 2024 on reaches the output |
| Hourly.HourlySlot | streamlit_app.py:26-34 | each output stamp is an hour of the grid from 2024 on |
| Hourly.HourlyKeepsExactly | streamlit_app.py:26-34 | an input row survives if and only if its stamp is a grid hour from 2024 on; an off-grid stamp is absent from the output |
| Hourly.HourlyComplete | streamlit_app.py:26-34 | every grid hour from 2024 on has an output row |
| Hourly.HourlyEmptyIff | streamlit_app.py:34 | the output is empty exactly when the last grid hour is before 2024 |
| Hourly.HourlyFixpoint | streamlit_app.py:20-36 | hourly-spaced rows from 2024 on come through the hourly rows unchanged |
| Hourly.HourlyIdempotent | streamlit_app.py:20-36 | the hourly step on its own non-empty output gives it back; on an empty output it raises EmptyTable |
| Daily.Bucket | streamlit_app.py:43 | a day's bucket never has more rows than the table; its content is stated by the lemmas below |
| Daily.BucketMembers | streamlit_app.py:43 | a row is in day `d`'s bucket exactly when it is a row of the table whose local day is `d` |
| Daily.BucketCount | streamlit_app.py:43 | the bucket keeps the table's order and holds each row exactly as many times as the table holds it on day `d` |
| Daily.BucketSubsequence | streamlit_app.py:43 | the bucket is the table with some rows removed, the rest in order |
| Daily.DayPositionsStep | streamlit_app.py:43 | counting a row's occurrences on day `d` is counting them in all but the last row, plus one if the last row is it |
| Daily.Values | streamlit_app.py:43 | a column never yields more values than there are rows |
| Daily.ValuesMembers | streamlit_app.py:43 | a value is averaged exactly when some row of the bucket holds it; there are none exactly when the column is all null |
| Daily.ValuesCount | streamlit_app.py:43 | the values of a column hold each value exactly as many times as rows hold it there |
| Daily.ValuePositionsStep | streamlit_app.py:43 | counting a value's occurrences in a column adds one for the last row only if it holds the value |
| Daily.DayValuesCount | streamlit_app.py:43 | the values averaged for day `d` in column `j` hold each value exactly as many times as that day's rows hold it there |
| Daily.DayValuesStep | streamlit_app.py:43 | a new row adds its value to day `d`'s values exactly when it is stamped on day `d` and holds a value in that column |
| Daily.DayValuePositionsStep | streamlit_app.py:43 | counting a value's occurrences on day `d` adds one for the last row only if it is on day `d` and holds the value |
| Daily.Mean | streamlit_app.py:43 | null exactly on no values; otherwise the mean times the count is the sum |
| Daily.SumBounds | streamlit_app.py:43 | a sum of `n` values within bounds lies within `n` times the bounds |
| Daily.MeanBounds | streamlit_app.py:43 | the mean lies between any lower and upper bound of the values |
| Daily.SumRemove | streamlit_app.py:43 | removing one value from a list takes exactly that value off its sum |
| Daily.SumPermutation | streamlit_app.py:43 | lists holding the same values equally often have the same sum and the same mean |
| Daily.MeanSingle | streamlit_app.py:43 | the mean of one value is that value |
| Daily.ColumnMeans | streamlit_app.py:43 | one mean per column |
| Daily.LastDay | streamlit_app.py:43 | the last day is not before the first |
| Daily.DayRow | streamlit_app.py:43 | the row for day `d` is labelled with `d`'s local midnight and has one cell per column |
| Daily.Resample | streamlit_app.py:43 | one row per local day from the first stamp's day to the last's, each that day's row, all as wide as the table |
| Daily.DayRows | streamlit_app.py:43 | helper of `Daily.Resample`, which calls it with the first day and the day count: `n` rows, the `k`-th being day `d0 + k`'s row |
| Daily.ResampleSpaced | streamlit_app.py:43 | resampled rows are exactly one day apart |
| Daily.ResampleDays | streamlit_app.py:43 | resampled rows cover every local day from first to last, each day once, labelled at local midnight, spaced a day and increasing |
| Daily.DayRowMeans | streamlit_app.py:43 | each cell of a day's row is the mean of that column's non-null values on that day, or null |
| Daily.ResampleMeans | streamlit_app.py:43 | each resampled cell is the mean of its day's non-null values in its column, or null |
| Daily.DayRowMean | streamlit_app.py:43 | a day's cell in column `j` is the mean of any list holding each value as many times as that day's rows hold it in `j`, null when they hold none |
| Daily.ResampleMean | streamlit_app.py:43 | each resampled cell is the mean of its day's values in its column counted with their repeats, whatever their order |
| Daily.ResampleCovers | streamlit_app.py:43 | every input row's local day is one of the output days |
| Daily.ResampleEnds | streamlit_app.py:43 | the first and last output days each hold input rows: the range is not padded |
| Daily.BucketNonEmpty | streamlit_app.py:43 | the bucket of a row's own day is not empty |
| Daily.DailyRows | streamlit_app.py:43-50 | fails exactly on an empty table, with the NaT-bounds error |
| Daily.DailyIsResample | streamlit_app.py:46-50 | reindexing on the daily range and the dedup leave the resampled table unchanged |
| Daily.ContinuousDaily | streamlit_app.py:38-55 | fails exactly on a keyed or empty frame; the output keeps columns and zone and has time_stamp as a column |
| Daily.BucketsOfDays | streamlit_app.py:43 | on rows one per consecutive day, each day's bucket is that day's row alone |
| Daily.BucketEmpty | streamlit_app.py:43 | a day no row falls on has an empty bucket |
| Daily.ColumnMeansSingle | streamlit_app.py:43 | averaging a single row gives back its cells |
| Daily.DayRowOfDays | streamlit_app.py:43 | on rows one per consecutive midnight, resampling day `d0 + k` gives row `k` |
| Daily.MidnightsOnDays | streamlit_app.py:46 | rows a day apart from a local midnight are the midnights of consecutive days |
| Daily.DaysSpan | streamlit_app.py:43 | increasing rows on consecutive days run from their first day to their last |
| Daily.DayRowsOfDays | streamlit_app.py:43 | rows one per consecutive midnight resample to themselves |
| Daily.ResampleFixpoint | streamlit_app.py:43-50 | a table of consecutive local midnights resamples to itself |
| Daily.DailyIdempotent | streamlit_app.py:38-55 | the daily step on its own output gives that output again |
| Pipeline.Process | streamlit_app.py:74-86 | a processed file is Eastern, has time_stamp as a column, is well formed, and ends with pm2.5_corr added once |
| Pipeline.HourlyInput | streamlit_app.py:74-82 | the frame step 3 receives is well formed, Eastern, unkeyed, with the input's stamps |
| Pipeline.ProcessFails | streamlit_app.py:74-86 | which error a file fails with, in step order: keyed, no offset, missing pm2.5_atm, missing humidity, empty, repeated stamp |
| Pipeline.ProcessSucceedsIff | streamlit_app.py:74-86 | a file that passes those checks succeeds if and only if its last grid hour reaches 2024, and otherwise fails with EmptyTable |
| Pipeline.SameTimes | streamlit_app.py:74-78 | tables with the same stamps share their size, earliest and latest stamp |
| Pipeline.ProcessRows | streamlit_app.py:82-86 | a processed file's rows are the resampled days of its non-empty hourly rows |
| Pipeline.ResampleFromCutoff | streamlit_app.py:43-46 | resampling rows from 2024 on gives consecutive Eastern midnights from 2024 on |
| Pipeline.DaysOfHourly | streamlit_app.py:82-86 | the daily step on a file's hourly rows gives consecutive Eastern midnights from 2024 on |
| Pipeline.ProcessDays | streamlit_app.py:74-86 | a processed file has one row per consecutive Eastern day, each at local midnight, none before 1 January 2024 |
| Frames.UploadAfter | streamlit_app.py:7-23 | the uploaded frame after processing keeps its stamps and stays well formed; it is Eastern once step 1 passes, keyed exactly when it already was or step 2 passes, and has at most pm2.5_corr added |
| Frames.Frame.constructor | streamlit_app.py:69 | a new frame holds exactly the table read |
| Frames.Frame.UtcToEst | streamlit_app.py:5-12 | the frame becomes the conversion of its old contents, or stays as it was and reports that conversion's error |
| Frames.Frame.Pm25Correction | streamlit_app.py:14-18 | the frame becomes the correction of its old contents, or stays as it was and reports that correction's error |
| Frames.Frame.ContinuousHourlyStep | streamlit_app.py:20-36 | an unkeyed frame is relabelled Eastern and keyed in place even when the step then fails; the fresh frame returned is the hourly table of the old contents, or the error is the hourly step's |
| Frames.Frame.ContinuousDailyStep | streamlit_app.py:38-55 | an unkeyed frame is keyed in place; the fresh frame returned is the daily table of the old contents, or the error is the daily step's |
| Frames.ProcessFile | streamlit_app.py:74-86 | running the four steps on a frame gives `Process` of its old contents, and leaves the uploaded frame in the state `UploadAfter` says |

## Left out

- The Streamlit interface: the title, the file uploader, the loop over uploaded files,
  the file names and the download button (lines 62-72 and 88-97). This is I/O around
  the processing.
- `pd.read_csv` and `to_csv`: a frame enters the model already parsed, and leaves it
  as a value. Only the payload columns a numeric mean applies to are modelled.
  Non-numeric columns, which `mean()` would reject or drop, are not modelled.
- `pd.to_datetime` string parsing: the stamps are already instants. Whether they
  carried an offset is recorded in the frame's zone.
- America/New_York is modelled at its standard offset, UTC-5 (EST, as the comments at
  lines 9, 21 and 25 call it), all year. Daylight saving time and the tz database are
  not modelled. The real zone is UTC-4 from March to November. On every day of that
  season, the day bins and labels of line 43 are one hour off in the model:
  - a day is labelled 05:00Z instead of 04:00Z;
  - a stamp between 00:00 and 01:00 EDT falls on the previous day;
  - the 23- and 25-hour days of the changes are 24 hours here.

  The hourly range of line 26 steps absolute hours either way. The year mask of line 34
  is unaffected, because 1 January always falls in EST.
- Time stamps are whole seconds; pandas keeps nanoseconds. Sub-second stamps, and the
  exact-instant match of line 29 between them, are not modelled.
- Floating point: cells are `real`. Rounding in the correction formula and in the
  means is not modelled.
- The commented-out date-range filter (lines 57-60 and 88-91) does nothing in the
  source and is not modelled.
- The bare expression at line 35 has no effect and is not modelled.
