/**
 * Instants, the local calendar of a time zone, and the year cutoff of the hourly step.
 *
 * An instant is a whole number of seconds since 1970-01-01T00:00:00Z. Converting a
 * column between time zones changes how its instants are displayed, never the instants.
 * The America/New_York zone is modelled at its standard offset, UTC-5, all year.
 */
module Clock {

  const Hour: int := 3600
  const Day: int := 86400

  /** How the time_stamp column is labelled: without an offset, as UTC, or as US Eastern. */
  datatype Zone = Naive | Utc | Eastern

  /** Seconds to add to an instant to read the wall clock of zone `z`. */
  function Offset(z: Zone): int {
    if z == Eastern then -5 * Hour else 0
  }

  /** The local calendar day (days since 1970-01-01) on which instant `t` falls in zone `z`. */
  function LocalDay(z: Zone, t: int): int {
    (t + Offset(z)) / Day
  }

  /** The instant of local midnight that starts local day `d` in zone `z`. */
  function DayStart(z: Zone, d: int): int {
    d * Day - Offset(z)
  }

  /** Local midnight of day `d` falls on day `d`, exactly at the start of a local day. */
  lemma DayStartIsMidnight(z: Zone, d: int)
    ensures LocalDay(z, DayStart(z, d)) == d
    ensures (DayStart(z, d) + Offset(z)) % Day == 0
  {
    assert DayStart(z, d) + Offset(z) == d * Day;
  }

  /** Local midnights `k` days apart lie exactly `k` times 24 hours apart. */
  lemma DayStartStep(z: Zone, d: int, k: int)
    ensures DayStart(z, d + k) == DayStart(z, d) + k * Day
  {
    assert (d + k) * Day == d * Day + k * Day;
  }

  /** Later days start later. */
  lemma DayStartMonotone(z: Zone, d: int, e: int)
    requires d <= e
    ensures DayStart(z, d) <= DayStart(z, e)
  {
    DayStartStep(z, d, e - d);
  }

  /** Every instant lies in the 24 hours that start at the midnight of its own local day. */
  lemma DayStartBounds(z: Zone, t: int)
    ensures DayStart(z, LocalDay(z, t)) <= t < DayStart(z, LocalDay(z, t)) + Day
  {
    var x := t + Offset(z);
    assert x == (x / Day) * Day + x % Day;
  }

  /** Later instants never fall on earlier local days. */
  lemma LocalDayMonotone(z: Zone, a: int, b: int)
    requires a <= b
    ensures LocalDay(z, a) <= LocalDay(z, b)
  {
    DayStartBounds(z, a);
    DayStartBounds(z, b);
  }

  /** An instant falls on local day `d` exactly when it lies in that day's 24 hours. */
  lemma LocalDayIff(z: Zone, t: int, d: int)
    ensures LocalDay(z, t) == d <==> DayStart(z, d) <= t < DayStart(z, d) + Day
  {
    DayStartBounds(z, t);
  }

  predicate IsLeapYear(y: int) {
    y % 4 == 0 && (y % 100 != 0 || y % 400 == 0)
  }

  /** The day number of 1 January of year `y` in the proleptic Gregorian calendar. */
  function YearStartDay(y: int): int {
    365 * (y - 1) + (y - 1) / 4 - (y - 1) / 100 + (y - 1) / 400 - 719162
  }

  /** Consecutive years start 365 days apart, or 366 after a leap year. */
  lemma YearLength(y: int)
    ensures YearStartDay(y + 1) - YearStartDay(y) == if IsLeapYear(y) then 366 else 365
  {
    assert y / 4 - (y - 1) / 4 == if y % 4 == 0 then 1 else 0;
    assert y / 100 - (y - 1) / 100 == if y % 100 == 0 then 1 else 0;
    assert y / 400 - (y - 1) / 400 == if y % 400 == 0 then 1 else 0;
  }

  /** Instant `t`, read on the wall clock of zone `z`, lies in a calendar year later than `y`. */
  predicate LocalYearAfter(z: Zone, t: int, y: int) {
    LocalDay(z, t) >= YearStartDay(y + 1)
  }

  /** Hourly output keeps only rows whose Eastern year is later than this one. */
  const CutoffYear: int := 2023

  /** The first instant of the first year the hourly step keeps: 2024-01-01T05:00:00Z. */
  const Cutoff: int := 1704085200

  /** The cutoff is local midnight of 1 January 2024 in Eastern standard time. */
  lemma CutoffInstant()
    ensures Cutoff == DayStart(Eastern, YearStartDay(CutoffYear + 1))
    ensures LocalDay(Eastern, Cutoff) == YearStartDay(CutoffYear + 1) == 19723
  {
  }

  /** The year test of the hourly step is a comparison with the cutoff instant. */
  lemma AfterCutoffYearIff(t: int)
    ensures LocalYearAfter(Eastern, t, CutoffYear) <==> t >= Cutoff
  {
    var d := YearStartDay(CutoffYear + 1);
    CutoffInstant();
    DayStartBounds(Eastern, t);
    if t >= Cutoff {
      LocalDayMonotone(Eastern, Cutoff, t);
    } else {
      LocalDayMonotone(Eastern, t, Cutoff - 1);
      LocalDayIff(Eastern, Cutoff - 1, d - 1);
    }
  }
}
