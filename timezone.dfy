/**
 * The two time zone conversions of the pipeline. Both relabel the time_stamp column
 * as US Eastern and leave every instant, and so the order of the rows and whether
 * two rows share a stamp, exactly as it was.
 */
module Timezone {
  import opened Wrappers
  import opened Clock
  import opened Tables

  /**
   * `utc_to_est_bulk`: parse time_stamp, then `tz_convert` it to America/New_York.
   * The conversion raises on time stamps that carry no offset, and selecting the
   * time_stamp column fails once it has become the index.
   */
  function ConvertToEastern(t: Table): (r: Result<Table, Failure>)
    ensures r.Err? <==> t.keyed || t.zone == Naive
    ensures r.Err? ==> r.error == if t.keyed then MissingColumn(TimeStamp) else NaiveTimestamps
    ensures r.Ok? ==> r.value == t.(zone := Eastern)
  {
    if t.keyed then Err(MissingColumn(TimeStamp))
    else if t.zone == Naive then Err(NaiveTimestamps)
    else Ok(t.(zone := Eastern))
  }

  /**
   * The first statement of the hourly step: `pd.to_datetime(..., utc=True)` reads stamps
   * without an offset as UTC, so the conversion to Eastern succeeds from every zone.
   */
  function CoerceToEastern(t: Table): (r: Result<Table, Failure>)
    ensures r.Err? <==> t.keyed
    ensures r.Err? ==> r.error == MissingColumn(TimeStamp)
    ensures r.Ok? ==> r.value == t.(zone := Eastern)
  {
    if t.keyed then Err(MissingColumn(TimeStamp)) else Ok(t.(zone := Eastern))
  }

  /** Where the strict conversion succeeds, the lenient one gives the same table. */
  lemma CoerceExtendsConvert(t: Table)
    requires ConvertToEastern(t).Ok?
    ensures CoerceToEastern(t) == ConvertToEastern(t)
  {
  }

  /** Converting twice is converting once. */
  lemma ConvertIdempotent(t: Table)
    requires ConvertToEastern(t).Ok?
    ensures ConvertToEastern(ConvertToEastern(t).value) == ConvertToEastern(t)
  {
  }

  /** A conversion keeps every instant, hence increasing order and distinct stamps. */
  lemma ConvertKeepsInstants(t: Table)
    requires ConvertToEastern(t).Ok?
    ensures WellFormed(t) ==> WellFormed(ConvertToEastern(t).value)
    ensures Times(ConvertToEastern(t).value.rows) == Times(t.rows)
    ensures Increasing(t.rows) <==> Increasing(ConvertToEastern(t).value.rows)
    ensures DistinctTimes(t.rows) <==> DistinctTimes(ConvertToEastern(t).value.rows)
  {
  }
}
