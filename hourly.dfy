/**
 * `continuous_range_hourly_wifi_bulk`: relabel the stamps as Eastern, lay the rows on
 * an hourly grid from the earliest to the latest stamp, fill the empty hours with nulls,
 * drop repeated stamps and keep only the hours of 2024 and later.
 */
module Hourly {
  import opened Wrappers
  import opened Clock
  import opened Tables
  import opened Timezone
  import opened Grid

  predicate InKeptYears(t: int) {
    LocalYearAfter(Eastern, t, CutoffYear)
  }

  /** The boolean mask `df[df['time_stamp'].dt.year > 2023]`. */
  function KeepAfterCutoff(rows: seq<Row>): (r: seq<Row>)
    ensures |r| <= |rows|
    decreases |rows|
  {
    if |rows| == 0 then []
    else
      var init := KeepAfterCutoff(rows[..|rows| - 1]);
      if InKeptYears(rows[|rows| - 1].time) then init + [rows[|rows| - 1]] else init
  }

  /** The mask keeps exactly the rows of 2024 and later. */
  lemma {:induction false} KeepAfterCutoffExactly(rows: seq<Row>)
    ensures var r := KeepAfterCutoff(rows);
      && |r| <= |rows|
      && (forall k :: 0 <= k < |r| ==> InKeptYears(r[k].time))
      && (forall x :: x in r ==> x in rows)
      && (forall i :: 0 <= i < |rows| && InKeptYears(rows[i].time) ==> rows[i] in r)
    decreases |rows|
  {
    if |rows| > 0 {
      var p := rows[..|rows| - 1];
      KeepAfterCutoffExactly(p);
      assert rows == p + [rows[|rows| - 1]];
    }
  }

  /** The mask keeps the rows it keeps in their original order. */
  lemma {:induction false} KeepAfterCutoffOrder(rows: seq<Row>)
    ensures Subsequence(KeepAfterCutoff(rows), rows)
    decreases |rows|
  {
    if |rows| > 0 {
      var p := rows[..|rows| - 1];
      KeepAfterCutoffOrder(p);
      var r := KeepAfterCutoff(rows);
      if InKeptYears(rows[|rows| - 1].time) {
        assert r[..|r| - 1] == KeepAfterCutoff(p);
      }
    }
  }

  /** The mask keeps every copy of a row from 2024 on and no copy of an earlier one. */
  lemma {:induction false} KeepAfterCutoffCount(rows: seq<Row>)
    ensures forall x :: multiset(KeepAfterCutoff(rows))[x] == if InKeptYears(x.time) then multiset(rows)[x] else 0
    decreases |rows|
  {
    if |rows| > 0 {
      var n := |rows|;
      var p := rows[..n - 1];
      forall x
        ensures multiset(KeepAfterCutoff(rows))[x] == if InKeptYears(x.time) then multiset(rows)[x] else 0
      {
        KeepAfterCutoffCount(p);
        assert rows == p + [rows[n - 1]];
      }
    }
  }

  /** A table where every row is from 2024 on passes the mask unchanged. */
  lemma {:induction false} KeepAfterCutoffAll(rows: seq<Row>)
    requires forall i :: 0 <= i < |rows| ==> InKeptYears(rows[i].time)
    ensures KeepAfterCutoff(rows) == rows
    decreases |rows|
  {
    if |rows| > 0 {
      KeepAfterCutoffAll(rows[..|rows| - 1]);
      assert rows == rows[..|rows| - 1] + [rows[|rows| - 1]];
    }
  }

  /** On increasing stamps the mask keeps a tail: everything from the first 2024 row on. */
  lemma {:induction false} KeepAfterCutoffTail(rows: seq<Row>)
    requires Increasing(rows)
    ensures KeepAfterCutoff(rows) == rows[|rows| - |KeepAfterCutoff(rows)|..]
    decreases |rows|
  {
    if |rows| > 0 {
      var n := |rows|;
      var p := rows[..n - 1];
      var last := rows[n - 1];
      var init := KeepAfterCutoff(p);
      assert Increasing(p);
      KeepAfterCutoffTail(p);
      if InKeptYears(last.time) {
        assert init + [last] == rows[n - |init| - 1..];
      } else {
        AfterCutoffYearIff(last.time);
        forall i | 0 <= i < n - 1
          ensures !InKeptYears(p[i].time)
        {
          AfterCutoffYearIff(p[i].time);
        }
        KeepAfterCutoffNone(p);
      }
    }
  }

  /** A table with no row from 2024 on is masked away entirely. */
  lemma {:induction false} KeepAfterCutoffNone(rows: seq<Row>)
    requires forall i :: 0 <= i < |rows| ==> !InKeptYears(rows[i].time)
    ensures KeepAfterCutoff(rows) == []
    decreases |rows|
  {
    if |rows| > 0 {
      KeepAfterCutoffNone(rows[..|rows| - 1]);
    }
  }

  /**
   * The rows the hourly step returns, in grid order. An empty frame has NaT bounds, on
   * which date_range raises; a repeated stamp makes reindex raise.
   */
  function HourlyRows(rows: seq<Row>, width: nat): (r: Result<seq<Row>, Failure>)
    requires Rectangular(rows, width)
    ensures r.Err? <==> |rows| == 0 || !DistinctTimes(rows)
    ensures r.Err? ==> r.error == if |rows| == 0 then EmptyTable else DuplicateLabels
    ensures r.Ok? ==> Rectangular(r.value, width)
  {
    if |rows| == 0 then Err(EmptyTable)
    else
      var grid := DateRange(MinTime(rows), MaxTime(rows), Hour);
      if !DistinctTimes(rows) then Err(DuplicateLabels)
      else
        var aligned := Reindex(rows, grid, width);
        var unique := DropDuplicates(aligned);
        var kept := KeepAfterCutoff(unique);
        AlignedIsSpaced(rows, width);
        KeepAfterCutoffExactly(unique);
        RectangularMembers(kept, aligned, width);
        Ok(kept)
  }

  /** The hourly step on a whole frame; the result has time_stamp as a column again. */
  function ContinuousHourly(t: Table): (r: Result<Table, Failure>)
    requires WellFormed(t)
    ensures r.Err? <==> t.keyed || |t.rows| == 0 || !DistinctTimes(t.rows)
    ensures r.Ok? ==> WellFormed(r.value) && r.value.columns == t.columns
    ensures r.Ok? ==> r.value.zone == Eastern && !r.value.keyed
  {
    match CoerceToEastern(t)
    case Err(e) => Err(e)
    case Ok(u) =>
      match HourlyRows(u.rows, |u.columns|)
      case Err(e) => Err(e)
      case Ok(rs) => Ok(Table(u.columns, rs, Eastern, false))
  }

  /** The hourly grid of a table: from its earliest stamp to its latest. */
  function HourGrid(rows: seq<Row>): (g: seq<int>)
    requires |rows| > 0
  {
    DateRange(MinTime(rows), MaxTime(rows), Hour)
  }

  /** The aligned grid has one row per hour and so nothing for dedup to drop. */
  lemma AlignedIsSpaced(rows: seq<Row>, width: nat)
    requires Rectangular(rows, width) && |rows| > 0
    ensures var a := Reindex(rows, HourGrid(rows), width);
      Spaced(a, Hour) && Increasing(a) && DropDuplicates(a) == a
  {
    var a := Reindex(rows, HourGrid(rows), width);
    SpacedIncreasing(a, Hour);
    DropDuplicatesDistinct(a);
  }

  /** Dedup changes nothing on the grid, so the output is the masked grid. */
  lemma HourlyIsMasked(rows: seq<Row>, width: nat)
    requires Rectangular(rows, width) && HourlyRows(rows, width).Ok?
    ensures HourlyRows(rows, width).value == KeepAfterCutoff(Reindex(rows, HourGrid(rows), width))
  {
    AlignedIsSpaced(rows, width);
  }

  /** A matched row stamped in 2024 or later survives the mask over the grid. */
  lemma AlignedKeeps(rows: seq<Row>, g: seq<int>, width: nat, i: nat, k: nat)
    requires Rectangular(rows, width) && DistinctTimes(rows)
    requires i < |rows| && k < |g| && g[k] == rows[i].time && rows[i].time >= Cutoff
    ensures rows[i] in KeepAfterCutoff(Reindex(rows, g, width))
  {
    var a := Reindex(rows, g, width);
    ReindexMatched(rows, g, width, k, i);
    KeepAfterCutoffExactly(a);
    AfterCutoffYearIff(rows[i].time);
  }

  /** Payload of a run of grid slots: the matching input row, or nulls. */
  lemma SlotsPayload(rows: seq<Row>, g: seq<int>, width: nat, out: seq<Row>, s: nat)
    requires Rectangular(rows, width) && DistinctTimes(rows)
    requires s + |out| <= |g| && out == Reindex(rows, g, width)[s..s + |out|]
    ensures forall k, i :: 0 <= k < |out| && 0 <= i < |rows| && out[k].time == rows[i].time ==>
      out[k] == rows[i]
    ensures forall k :: 0 <= k < |out| && (forall i :: 0 <= i < |rows| ==> rows[i].time != out[k].time) ==>
      out[k].cells == NullCells(width)
  {
    var a := Reindex(rows, g, width);
    forall k, i | 0 <= k < |out| && 0 <= i < |rows| && out[k].time == rows[i].time
      ensures out[k] == rows[i]
    {
      assert out[k] == a[s + k];
      ReindexMatched(rows, g, width, s + k, i);
    }
    forall k | 0 <= k < |out| && (forall i :: 0 <= i < |rows| ==> rows[i].time != out[k].time)
      ensures out[k].cells == NullCells(width)
    {
      assert out[k] == a[s + k];
      ReindexUnmatched(rows, g, width, s + k);
    }
  }

  /** The output is the tail of the aligned grid that starts at the first hour of 2024. */
  lemma HourlyIsGridTail(rows: seq<Row>, width: nat)
    requires Rectangular(rows, width) && HourlyRows(rows, width).Ok?
    ensures var a := Reindex(rows, HourGrid(rows), width);
      var out := HourlyRows(rows, width).value;
      |out| <= |a| && out == a[|a| - |out|..]
  {
    var a := Reindex(rows, HourGrid(rows), width);
    AlignedIsSpaced(rows, width);
    KeepAfterCutoffTail(a);
  }

  /** Hourly stamps lie in the observed range, a whole number of hours after the earliest. */
  lemma HourlyOnGrid(rows: seq<Row>, width: nat)
    requires Rectangular(rows, width) && HourlyRows(rows, width).Ok?
    ensures var out := HourlyRows(rows, width).value;
      Within(out, MinTime(rows), MaxTime(rows)) && OnGrid(out, MinTime(rows), Hour)
  {
    var a := Reindex(rows, HourGrid(rows), width);
    var out := HourlyRows(rows, width).value;
    HourlyIsGridTail(rows, width);
    GridTail(a, out, MinTime(rows), MaxTime(rows), Hour);
  }

  /** Hourly stamps are strictly increasing and exactly one hour apart. */
  lemma HourlySpaced(rows: seq<Row>, width: nat)
    requires Rectangular(rows, width) && HourlyRows(rows, width).Ok?
    ensures var out := HourlyRows(rows, width).value;
      Spaced(out, Hour) && Increasing(out) && DistinctTimes(out)
  {
    var a := Reindex(rows, HourGrid(rows), width);
    var out := HourlyRows(rows, width).value;
    HourlyIsGridTail(rows, width);
    GridTail(a, out, MinTime(rows), MaxTime(rows), Hour);
    SpacedIncreasing(out, Hour);
  }

  /** Every hourly row is from 2024 or later, local Eastern time. */
  lemma HourlyAfterCutoff(rows: seq<Row>, width: nat)
    requires Rectangular(rows, width) && HourlyRows(rows, width).Ok?
    ensures var out := HourlyRows(rows, width).value;
      forall k :: 0 <= k < |out| ==> InKeptYears(out[k].time) && out[k].time >= Cutoff
  {
    var out := HourlyRows(rows, width).value;
    var a := Reindex(rows, HourGrid(rows), width);
    HourlyIsMasked(rows, width);
    KeepAfterCutoffExactly(a);
    forall k | 0 <= k < |out|
      ensures out[k].time >= Cutoff
    {
      AfterCutoffYearIff(out[k].time);
    }
  }

  /** Each hourly row is the input row with exactly its stamp, or nulls if there is none. */
  lemma HourlyPayload(rows: seq<Row>, width: nat)
    requires Rectangular(rows, width) && HourlyRows(rows, width).Ok?
    ensures var out := HourlyRows(rows, width).value;
      && (forall k, i :: 0 <= k < |out| && 0 <= i < |rows| && out[k].time == rows[i].time ==>
            out[k] == rows[i])
      && (forall k :: 0 <= k < |out| && (forall i :: 0 <= i < |rows| ==> rows[i].time != out[k].time) ==>
            out[k].cells == NullCells(width))
  {
    var out := HourlyRows(rows, width).value;
    var g := HourGrid(rows);
    var a := Reindex(rows, g, width);
    HourlyIsGridTail(rows, width);
    SlotsPayload(rows, g, width, out, |a| - |out|);
  }

  /** An input row whose stamp is an hour of the grid from 2024 on reaches the output. */
  lemma HourlyKeeps(rows: seq<Row>, width: nat, i: nat)
    requires Rectangular(rows, width) && HourlyRows(rows, width).Ok? && i < |rows|
    requires rows[i].time in HourGrid(rows) && rows[i].time >= Cutoff
    ensures rows[i] in HourlyRows(rows, width).value
  {
    var g := HourGrid(rows);
    HourlyIsMasked(rows, width);
    var k :| 0 <= k < |g| && g[k] == rows[i].time;
    AlignedKeeps(rows, g, width, i, k);
  }

  /** One hourly slot: an hour of the grid, from 2024 on. */
  lemma HourlySlot(rows: seq<Row>, width: nat, k: nat)
    requires Rectangular(rows, width) && HourlyRows(rows, width).Ok?
    requires k < |HourlyRows(rows, width).value|
    ensures var out := HourlyRows(rows, width).value;
      out[k].time in HourGrid(rows) && out[k].time >= Cutoff
  {
    var out := HourlyRows(rows, width).value;
    var a := Reindex(rows, HourGrid(rows), width);
    HourlyIsGridTail(rows, width);
    assert out[k] == a[|a| - |out| + k];
    HourlyAfterCutoff(rows, width);
  }

  /**
   * An input row survives exactly when its stamp is an hour of the grid (a whole number
   * of hours after the earliest stamp, see `Grid.GridMembers`) in 2024 or later; the
   * stamp of an off-grid row is absent from the output altogether.
   */
  lemma HourlyKeepsExactly(rows: seq<Row>, width: nat, i: nat)
    requires Rectangular(rows, width) && HourlyRows(rows, width).Ok? && i < |rows|
    ensures rows[i] in HourlyRows(rows, width).value
      <==> rows[i].time in HourGrid(rows) && rows[i].time >= Cutoff
    ensures rows[i].time !in HourGrid(rows) ==>
      forall k :: 0 <= k < |HourlyRows(rows, width).value| ==>
        HourlyRows(rows, width).value[k].time != rows[i].time
  {
    var out := HourlyRows(rows, width).value;
    if rows[i] in out {
      var k :| 0 <= k < |out| && out[k] == rows[i];
      HourlySlot(rows, width, k);
    }
    if rows[i].time in HourGrid(rows) && rows[i].time >= Cutoff {
      HourlyKeeps(rows, width, i);
    }
    forall k | 0 <= k < |out|
      ensures out[k].time in HourGrid(rows)
    {
      HourlySlot(rows, width, k);
    }
  }

  /** Every hour of the grid from 2024 on has its row, filled or null. */
  lemma HourlyComplete(rows: seq<Row>, width: nat, t: int)
    requires Rectangular(rows, width) && HourlyRows(rows, width).Ok?
    requires t in HourGrid(rows) && t >= Cutoff
    ensures exists k :: 0 <= k < |HourlyRows(rows, width).value| && HourlyRows(rows, width).value[k].time == t
  {
    var out := HourlyRows(rows, width).value;
    var g := HourGrid(rows);
    var a := Reindex(rows, g, width);
    HourlyIsMasked(rows, width);
    KeepAfterCutoffExactly(a);
    AfterCutoffYearIff(t);
    var k :| 0 <= k < |g| && g[k] == t;
    assert a[k] in out;
    var j :| 0 <= j < |out| && out[j] == a[k];
    assert out[j].time == t;
  }

  /** The output is empty exactly when the last hour of the grid falls before 2024. */
  lemma HourlyEmptyIff(rows: seq<Row>, width: nat)
    requires Rectangular(rows, width) && HourlyRows(rows, width).Ok?
    ensures var g := HourGrid(rows);
      |HourlyRows(rows, width).value| == 0 <==> g[|g| - 1] < Cutoff
  {
    var g := HourGrid(rows);
    var a := Reindex(rows, g, width);
    AlignedIsSpaced(rows, width);
    KeepAfterCutoffExactly(a);
    AfterCutoffYearIff(g[|g| - 1]);
    if g[|g| - 1] >= Cutoff {
      assert a[|a| - 1] in HourlyRows(rows, width).value;
    } else {
      forall j | 0 <= j < |a|
        ensures !InKeptYears(a[j].time)
      {
        AfterCutoffYearIff(a[j].time);
      }
      KeepAfterCutoffNone(a);
    }
  }

  /** A table that already is an hourly output is left as it is. */
  lemma HourlyFixpoint(rows: seq<Row>, width: nat)
    requires Rectangular(rows, width) && |rows| > 0 && Spaced(rows, Hour)
    requires forall k :: 0 <= k < |rows| ==> InKeptYears(rows[k].time)
    ensures HourlyRows(rows, width) == Ok(rows)
  {
    ReindexOwnGrid(rows, width, Hour);
    SpacedIncreasing(rows, Hour);
    DropDuplicatesDistinct(rows);
    KeepAfterCutoffAll(rows);
  }

  /**
   * Applying the hourly step to its own output gives that output again, unless the output
   * is empty: then the second application meets NaT bounds and raises.
   */
  lemma HourlyIdempotent(t: Table)
    requires WellFormed(t) && ContinuousHourly(t).Ok?
    ensures |ContinuousHourly(t).value.rows| > 0 ==>
      ContinuousHourly(ContinuousHourly(t).value) == ContinuousHourly(t)
    ensures |ContinuousHourly(t).value.rows| == 0 ==>
      ContinuousHourly(ContinuousHourly(t).value) == Err(EmptyTable)
  {
    if |ContinuousHourly(t).value.rows| > 0 {
      var u := t.(zone := Eastern);
      HourlySpaced(u.rows, |u.columns|);
      HourlyAfterCutoff(u.rows, |u.columns|);
      HourlyFixpoint(ContinuousHourly(t).value.rows, |t.columns|);
    }
  }
}
