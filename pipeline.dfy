/**
 * The processing of one uploaded file: convert the stamps to Eastern, add the corrected
 * PM2.5 column, lay the rows on a continuous hourly range from 2024 on, and average the
 * hours of each Eastern day.
 */
module Pipeline {
  import opened Wrappers
  import opened Clock
  import opened Tables
  import opened Timezone
  import opened Correction
  import opened Grid
  import opened Hourly
  import opened Daily

  /** The four steps in the order the upload loop applies them; the first failure ends it. */
  function Process(t: Table): (r: Result<Table, Failure>)
    requires WellFormed(t)
    ensures r.Ok? ==> r.value.zone == Eastern && !r.value.keyed && WellFormed(r.value)
    ensures r.Ok? ==> r.value.columns == CorrectedColumns(t.columns)
  {
    var eastern :- ConvertToEastern(t);
    var corrected :- Correct(eastern);
    var hourly :- ContinuousHourly(corrected);
    ContinuousDaily(hourly)
  }

  /** The payload columns after the correction step. */
  function CorrectedColumns(names: seq<string>): seq<string> {
    if Pm25Corr in names then names else names + [Pm25Corr]
  }

  /** The hourly step of the pipeline sees the corrected table with its stamps in Eastern. */
  function HourlyInput(t: Table): (u: Table)
    requires WellFormed(t) && !t.keyed && t.zone != Naive
    requires Pm25Atm in t.columns && Humidity in t.columns
    ensures WellFormed(u) && u.zone == Eastern && !u.keyed && Times(u.rows) == Times(t.rows)
  {
    Correct(ConvertToEastern(t).value).value
  }

  /**
   * Why a file fails, checked in the order the steps run: a keyed frame has no time_stamp
   * column, stamps without an offset cannot be converted, the correction needs both of
   * its input columns, an empty frame or a repeated stamp stops the hourly step, and an
   * hourly range that ends before 2024 leaves the daily step nothing to resample.
   */
  lemma ProcessFails(t: Table)
    requires WellFormed(t)
    ensures t.keyed ==> Process(t) == Err(MissingColumn(TimeStamp))
    ensures !t.keyed && t.zone == Naive ==> Process(t) == Err(NaiveTimestamps)
    ensures !t.keyed && t.zone != Naive && Pm25Atm !in t.columns ==> Process(t) == Err(MissingColumn(Pm25Atm))
    ensures !t.keyed && t.zone != Naive && Pm25Atm in t.columns && Humidity !in t.columns ==>
      Process(t) == Err(MissingColumn(Humidity))
    ensures !t.keyed && t.zone != Naive && Pm25Atm in t.columns && Humidity in t.columns ==>
      && (|t.rows| == 0 ==> Process(t) == Err(EmptyTable))
      && (|t.rows| > 0 && !DistinctTimes(t.rows) ==> Process(t) == Err(DuplicateLabels))
  {
    if !t.keyed && t.zone != Naive && Pm25Atm in t.columns && Humidity in t.columns {
      var u := HourlyInput(t);
      assert |u.rows| == |Times(u.rows)|;
      if |t.rows| > 0 && !DistinctTimes(t.rows) {
        assert !DistinctTimes(u.rows) by {
          var i, j :| 0 <= i < j < |t.rows| && t.rows[i].time == t.rows[j].time;
          assert Times(u.rows)[i] == Times(u.rows)[j];
        }
      }
    }
  }

  /**
   * A file that passes the first three checks succeeds exactly when its hourly range
   * reaches 2024; otherwise the daily step finds no rows.
   */
  lemma ProcessSucceedsIff(t: Table)
    requires WellFormed(t) && !t.keyed && t.zone != Naive
    requires Pm25Atm in t.columns && Humidity in t.columns
    requires |t.rows| > 0 && DistinctTimes(t.rows)
    ensures var g := HourGrid(t.rows);
      && (Process(t).Ok? <==> g[|g| - 1] >= Cutoff)
      && (Process(t).Err? ==> Process(t).error == EmptyTable)
  {
    var u := HourlyInput(t);
    SameTimes(t.rows, u.rows);
    HourlyEmptyIff(u.rows, |u.columns|);
    assert DistinctTimes(u.rows) by {
      forall i, j | 0 <= i < j < |u.rows|
        ensures u.rows[i].time != u.rows[j].time
      {
        assert Times(u.rows)[i] == Times(t.rows)[i] && Times(u.rows)[j] == Times(t.rows)[j];
      }
    }
  }

  /** Two tables with the same stamps have the same earliest and latest stamp. */
  lemma SameTimes(a: seq<Row>, b: seq<Row>)
    requires Times(a) == Times(b) && |a| > 0
    ensures |b| == |a| && MinTime(a) == MinTime(b) && MaxTime(a) == MaxTime(b)
  {
    assert |a| == |Times(a)| && |b| == |Times(b)|;
    var i :| 0 <= i < |a| && a[i].time == MinTime(a);
    var j :| 0 <= j < |b| && b[j].time == MinTime(b);
    var p :| 0 <= p < |a| && a[p].time == MaxTime(a);
    var q :| 0 <= q < |b| && b[q].time == MaxTime(b);
    assert a[i].time == Times(a)[i] == b[i].time && a[j].time == Times(a)[j] == b[j].time;
    assert a[p].time == Times(a)[p] == b[p].time && a[q].time == Times(a)[q] == b[q].time;
  }

  /** The rows of a processed file are the resampled days of its hourly rows. */
  lemma ProcessRows(t: Table)
    requires WellFormed(t) && Process(t).Ok?
    ensures !t.keyed && t.zone != Naive && Pm25Atm in t.columns && Humidity in t.columns
    ensures var u := HourlyInput(t);
      && HourlyRows(u.rows, |u.columns|).Ok?
      && |HourlyRows(u.rows, |u.columns|).value| > 0
      && Process(t).value.rows == Resample(Eastern, HourlyRows(u.rows, |u.columns|).value, |u.columns|)
  {
    var u := HourlyInput(t);
    var h := HourlyRows(u.rows, |u.columns|).value;
    assert ContinuousHourly(u).value.rows == h;
    DailyIsResample(Eastern, h, |u.columns|);
  }

  /**
   * At least one row; rows one day apart, each at an Eastern local midnight, none of
   * them before 1 January 2024.
   */
  predicate DaysFromCutoff(out: seq<Row>) {
    && |out| > 0 && Spaced(out, Day)
    && (forall k :: 0 <= k < |out| ==> out[k].time == DayStart(Eastern, LocalDay(Eastern, out[k].time)))
    && (forall k :: 0 <= k < |out| ==> out[k].time >= Cutoff)
  }

  /** Resampling rows stamped from 2024 on gives midnights of consecutive days from 2024 on. */
  lemma ResampleFromCutoff(rows: seq<Row>, width: nat)
    requires Rectangular(rows, width) && |rows| > 0
    requires forall k :: 0 <= k < |rows| ==> rows[k].time >= Cutoff
    ensures DaysFromCutoff(Resample(Eastern, rows, width))
  {
    var out := Resample(Eastern, rows, width);
    ResampleDays(Eastern, rows, width);
    var i :| 0 <= i < |rows| && rows[i].time == MinTime(rows);
    LocalDayMonotone(Eastern, Cutoff, MinTime(rows));
    CutoffInstant();
    forall k | 0 <= k < |out|
      ensures out[k].time >= Cutoff
    {
      DayStartMonotone(Eastern, LocalDay(Eastern, Cutoff), LocalDay(Eastern, out[k].time));
    }
  }

  /** The daily step applied to the hourly rows of a file gives days from 2024 on. */
  lemma DaysOfHourly(t: Table)
    requires WellFormed(t) && !t.keyed && t.zone != Naive
    requires Pm25Atm in t.columns && Humidity in t.columns
    requires HourlyRows(HourlyInput(t).rows, |HourlyInput(t).columns|).Ok?
    requires |HourlyRows(HourlyInput(t).rows, |HourlyInput(t).columns|).value| > 0
    ensures DaysFromCutoff(Resample(Eastern, HourlyRows(HourlyInput(t).rows, |HourlyInput(t).columns|).value,
      |HourlyInput(t).columns|))
  {
    var u := HourlyInput(t);
    HourlyAfterCutoff(u.rows, |u.columns|);
    ResampleFromCutoff(HourlyRows(u.rows, |u.columns|).value, |u.columns|);
  }

  /**
   * A processed file has one row per consecutive Eastern day, each stamped at local
   * midnight, and none of them before 1 January 2024.
   */
  lemma ProcessDays(t: Table)
    requires WellFormed(t) && Process(t).Ok?
    ensures DaysFromCutoff(Process(t).value.rows)
  {
    ProcessRows(t);
    DaysOfHourly(t);
  }
}
