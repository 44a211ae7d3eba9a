/**
 * The data frame as the upload loop handles it: one object whose columns each step
 * overwrites in place, whose time_stamp column `set_index(..., inplace=True)` turns into
 * the index, and from which the hourly and the daily step build new frames.
 */
module Frames {
  import opened Wrappers
  import opened Clock
  import opened Tables
  import opened Timezone
  import opened Correction
  import opened Hourly
  import opened Daily
  import opened Pipeline

  class Frame {
    var columns: seq<string>
    var rows: seq<Row>
    var zone: Zone
    var keyed: bool

    /** The frame's current contents as a value. */
    function Snapshot(): Table
      reads this
    {
      Table(columns, rows, zone, keyed)
    }

    ghost predicate Valid()
      reads this
    {
      WellFormed(Snapshot())
    }

    /** A frame as `pd.read_csv` leaves it, with time_stamp an ordinary column. */
    constructor (t: Table)
      requires WellFormed(t)
      ensures Valid() && Snapshot() == t
    {
      columns := t.columns;
      rows := t.rows;
      zone := t.zone;
      keyed := t.keyed;
    }

    /**
     * `utc_to_est_bulk`: overwrites time_stamp with its Eastern reading. It fails, leaving
     * the frame as it was, when time_stamp is the index or carries no offset.
     */
    method UtcToEst() returns (r: Outcome<Failure>)
      requires Valid()
      modifies this
      ensures Valid()
      ensures r.Pass? <==> ConvertToEastern(old(Snapshot())).Ok?
      ensures r.Pass? ==> Snapshot() == ConvertToEastern(old(Snapshot())).value
      ensures r.Fail? ==> r.error == ConvertToEastern(old(Snapshot())).error && Snapshot() == old(Snapshot())
    {
      if keyed {
        return Fail(MissingColumn(TimeStamp));
      }
      if zone == Naive {
        return Fail(NaiveTimestamps);
      }
      zone := Eastern;
      return Pass;
    }

    /**
     * `bulk_pm25_correction`: adds or overwrites the pm2.5_corr column. A missing input
     * column fails before anything is written.
     */
    method Pm25Correction() returns (r: Outcome<Failure>)
      requires Valid()
      modifies this
      ensures Valid()
      ensures r.Pass? <==> Correct(old(Snapshot())).Ok?
      ensures r.Pass? ==> Snapshot() == Correct(old(Snapshot())).value
      ensures r.Fail? ==> r.error == Correct(old(Snapshot())).error && Snapshot() == old(Snapshot())
    {
      var t := Snapshot();
      match Correct(t)
      case Err(e) =>
        return Fail(e);
      case Ok(u) =>
        columns, rows := u.columns, u.rows;
        return Pass;
    }

    /**
     * `continuous_range_hourly_wifi_bulk`: relabels this frame's stamps as Eastern and
     * makes them its index, in place, before it builds the hourly frame it returns; so
     * even when the grid or the reindex raises, this frame is left keyed.
     */
    method ContinuousHourlyStep() returns (r: Result<Frame, Failure>)
      requires Valid()
      modifies this
      ensures Valid()
      ensures old(keyed) ==> r == Err(MissingColumn(TimeStamp)) && Snapshot() == old(Snapshot())
      ensures !old(keyed) ==> Snapshot() == old(Snapshot()).(zone := Eastern, keyed := true)
      ensures r.Ok? <==> ContinuousHourly(old(Snapshot())).Ok?
      ensures r.Ok? ==> fresh(r.value) && r.value.Valid()
      ensures r.Ok? ==> r.value.Snapshot() == ContinuousHourly(old(Snapshot())).value
      ensures r.Err? ==> r.error == ContinuousHourly(old(Snapshot())).error
    {
      if keyed {
        return Err(MissingColumn(TimeStamp));
      }
      zone := Eastern;
      keyed := true;
      match HourlyRows(rows, |columns|)
      case Err(e) =>
        return Err(e);
      case Ok(rs) =>
        var h := new Frame(Table(columns, rs, Eastern, false));
        return Ok(h);
    }

    /**
     * `continuous_range_days_wifi_bulk`: makes this frame's stamps its index in place, then
     * builds and returns the daily frame, whose index `reset_index` turns back into the
     * time_stamp column.
     */
    method ContinuousDailyStep() returns (r: Result<Frame, Failure>)
      requires Valid()
      modifies this
      ensures Valid()
      ensures old(keyed) ==> r == Err(MissingColumn(TimeStamp)) && Snapshot() == old(Snapshot())
      ensures !old(keyed) ==> Snapshot() == old(Snapshot()).(keyed := true)
      ensures r.Ok? <==> ContinuousDaily(old(Snapshot())).Ok?
      ensures r.Ok? ==> fresh(r.value) && r.value.Valid()
      ensures r.Ok? ==> r.value.Snapshot() == ContinuousDaily(old(Snapshot())).value
      ensures r.Err? ==> r.error == ContinuousDaily(old(Snapshot())).error
    {
      if keyed {
        return Err(MissingColumn(TimeStamp));
      }
      keyed := true;
      match DailyRows(zone, rows, |columns|)
      case Err(e) =>
        return Err(e);
      case Ok(rs) =>
        DailyIsResample(zone, rows, |columns|);
        var d := new Frame(Table(columns, rs, zone, false));
        return Ok(d);
    }
  }

  /** What processing leaves in the uploaded frame itself, given where it stopped. */
  function UploadAfter(t: Table): (r: Table)
    requires WellFormed(t)
    ensures WellFormed(r) && Times(r.rows) == Times(t.rows)
    ensures r.zone == if !t.keyed && t.zone != Naive then Eastern else t.zone
    ensures r.keyed <==> t.keyed || (t.zone != Naive && Pm25Atm in t.columns && Humidity in t.columns)
    ensures r.columns == t.columns || r.columns == t.columns + [Pm25Corr]
  {
    match ConvertToEastern(t)
    case Err(_) => t
    case Ok(e) =>
      match Correct(e)
      case Err(_) => e
      case Ok(c) => c.(keyed := true)
  }

  /**
   * The body of the upload loop for one file: the four steps in order, each on the
   * frame the previous one returned. The result is the frame offered for download.
   */
  method ProcessFile(f: Frame) returns (r: Result<Frame, Failure>)
    requires f.Valid()
    modifies f
    ensures f.Valid() && f.Snapshot() == UploadAfter(old(f.Snapshot()))
    ensures r.Ok? <==> Process(old(f.Snapshot())).Ok?
    ensures r.Ok? ==> fresh(r.value) && r.value.Valid() && r.value.Snapshot() == Process(old(f.Snapshot())).value
    ensures r.Err? ==> r.error == Process(old(f.Snapshot())).error
  {
    var s1 := f.UtcToEst();
    if s1.Fail? {
      return Err(s1.error);
    }
    var s2 := f.Pm25Correction();
    if s2.Fail? {
      return Err(s2.error);
    }
    var hourly :- f.ContinuousHourlyStep();
    var daily :- hourly.ContinuousDailyStep();
    return Ok(daily);
  }
}
