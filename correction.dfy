/**
 * `bulk_pm25_correction`: the linear calibration of the PurpleAir PM2.5 channel,
 * stored in a pm2.5_corr column. A null in either input gives a null result.
 */
module Correction {
  import opened Wrappers
  import opened Tables

  const Pm25Atm: string := "pm2.5_atm"
  const Humidity: string := "humidity"
  const Pm25Corr: string := "pm2.5_corr"

  /** The position of column `n`, if the frame has one. */
  function IndexOf(names: seq<string>, n: string): (r: Option<nat>)
    ensures r.Some? ==> r.value < |names| && names[r.value] == n
    ensures r.None? <==> n !in names
  {
    if |names| == 0 then None
    else if names[0] == n then Some(0)
    else match IndexOf(names[1..], n)
      case None => None
      case Some(i) => Some(i + 1)
  }

  lemma IndexOfDistinct(names: seq<string>, j: nat)
    requires DistinctNames(names) && j < |names|
    ensures IndexOf(names, names[j]) == Some(j)
  {
    if j > 0 {
      assert names[1..][j - 1] == names[j];
      IndexOfDistinct(names[1..], j - 1);
    }
  }

  /** Appending a column leaves the position of every existing column as it was. */
  lemma {:induction false} IndexOfAppend(names: seq<string>, x: string, n: string)
    requires n in names
    ensures IndexOf(names + [x], n) == IndexOf(names, n)
  {
    if names[0] != n {
      assert (names + [x])[1..] == names[1..] + [x];
      IndexOfAppend(names[1..], x, n);
    }
  }

  /** The cell of row `i` in column `n`. */
  function Cell(t: Table, i: nat, n: string): Option<real>
    requires WellFormed(t) && i < |t.rows| && n in t.columns
  {
    t.rows[i].cells[IndexOf(t.columns, n).value]
  }

  /** pm2.5_corr = 0.524 * pm2.5_atm - 0.0862 * humidity + 5.75, null if either input is. */
  function Corrected(atm: Option<real>, humidity: Option<real>): (r: Option<real>)
    ensures r.Some? <==> atm.Some? && humidity.Some?
  {
    if atm.Some? && humidity.Some? then Some(0.524 * atm.value - 0.0862 * humidity.value + 5.75)
    else None
  }

  /** The worked example: a reading of 10 at 50 % humidity corrects to 6.68. */
  lemma CorrectedExample()
    ensures Corrected(Some(10.0), Some(50.0)) == Some(6.68)
    ensures Corrected(Some(10.0), None) == None
  {
  }

  /** Increasing the raw reading by `d` increases the corrected value by 0.524 * d. */
  lemma CorrectedSlope(atm: real, humidity: real, d: real)
    ensures Corrected(Some(atm + d), Some(humidity)).value
         == Corrected(Some(atm), Some(humidity)).value + 0.524 * d
  {
  }

  /**
   * The table after the correction: pm2.5_corr holds the formula on every row, and
   * every other column, the rows' instants and their order are unchanged. Reading a
   * missing input column is a KeyError, pm2.5_atm being read first.
   */
  function Correct(t: Table): (r: Result<Table, Failure>)
    requires WellFormed(t)
    ensures r.Err? <==> Pm25Atm !in t.columns || Humidity !in t.columns
    ensures r.Err? ==> r.error == MissingColumn(if Pm25Atm !in t.columns then Pm25Atm else Humidity)
    ensures r.Ok? ==> WellFormed(r.value)
    ensures r.Ok? ==> r.value.zone == t.zone && r.value.keyed == t.keyed
    ensures r.Ok? ==> r.value.columns == if Pm25Corr in t.columns then t.columns else t.columns + [Pm25Corr]
    ensures r.Ok? ==> Times(r.value.rows) == Times(t.rows)
    ensures r.Ok? ==> forall i :: 0 <= i < |t.rows| ==>
      Cell(r.value, i, Pm25Corr) == Corrected(Cell(t, i, Pm25Atm), Cell(t, i, Humidity))
    ensures r.Ok? ==> forall i, n :: 0 <= i < |t.rows| && n in t.columns && n != Pm25Corr ==>
      Cell(r.value, i, n) == Cell(t, i, n)
  {
    match (IndexOf(t.columns, Pm25Atm), IndexOf(t.columns, Humidity))
    case (None, _) => Err(MissingColumn(Pm25Atm))
    case (_, None) => Err(MissingColumn(Humidity))
    case (Some(a), Some(h)) =>
      var r := Ok(WithCorrection(t, a, h));
      if Pm25Corr in t.columns then
        CorrectInPlace(t, a, h);
        r
      else
        CorrectAppended(t, a, h);
        r
  }

  /** The corrected table, given the positions of the two input columns. */
  function WithCorrection(t: Table, a: nat, h: nat): (u: Table)
    requires WellFormed(t) && a < |t.columns| && h < |t.columns|
  {
    var corr := seq(|t.rows|, i requires 0 <= i < |t.rows| =>
      Corrected(t.rows[i].cells[a], t.rows[i].cells[h]));
    match IndexOf(t.columns, Pm25Corr)
    case Some(c) =>
      t.(rows := seq(|t.rows|, i requires 0 <= i < |t.rows| =>
        Row(t.rows[i].time, t.rows[i].cells[c := corr[i]])))
    case None =>
      t.(columns := t.columns + [Pm25Corr],
         rows := seq(|t.rows|, i requires 0 <= i < |t.rows| =>
           Row(t.rows[i].time, t.rows[i].cells + [corr[i]])))
  }

  /**
   * `u` is `t` with pm2.5_corr holding the formula on every row: the other columns, the
   * rows' instants and their order are as in `t`.
   */
  predicate CorrectionOf(t: Table, u: Table)
    requires WellFormed(t)
  {
    && WellFormed(u)
    && u.zone == t.zone && u.keyed == t.keyed
    && u.columns == (if Pm25Corr in t.columns then t.columns else t.columns + [Pm25Corr])
    && Times(u.rows) == Times(t.rows)
    && (forall i :: 0 <= i < |t.rows| && Pm25Atm in t.columns && Humidity in t.columns ==>
          Cell(u, i, Pm25Corr) == Corrected(Cell(t, i, Pm25Atm), Cell(t, i, Humidity)))
    && (forall i, n :: 0 <= i < |t.rows| && n in t.columns && n != Pm25Corr ==>
          Cell(u, i, n) == Cell(t, i, n))
  }

  /** An existing pm2.5_corr column is overwritten where it stands. */
  lemma CorrectInPlace(t: Table, a: nat, h: nat)
    requires WellFormed(t) && a < |t.columns| && h < |t.columns|
    requires t.columns[a] == Pm25Atm && t.columns[h] == Humidity
    requires Pm25Corr in t.columns
    ensures CorrectionOf(t, WithCorrection(t, a, h))
  {
    var u := WithCorrection(t, a, h);
    IndexOfDistinct(t.columns, a);
    IndexOfDistinct(t.columns, h);
    assert Times(u.rows) == Times(t.rows);
  }

  /** Without a pm2.5_corr column, one is appended after the others. */
  lemma CorrectAppended(t: Table, a: nat, h: nat)
    requires WellFormed(t) && a < |t.columns| && h < |t.columns|
    requires t.columns[a] == Pm25Atm && t.columns[h] == Humidity
    requires Pm25Corr !in t.columns
    ensures CorrectionOf(t, WithCorrection(t, a, h))
  {
    var u := WithCorrection(t, a, h);
    IndexOfDistinct(t.columns, a);
    IndexOfDistinct(t.columns, h);
    assert DistinctNames(u.columns);
    IndexOfDistinct(u.columns, |t.columns|);
    forall n | n in t.columns
      ensures IndexOf(u.columns, n) == IndexOf(t.columns, n)
    {
      IndexOfAppend(t.columns, Pm25Corr, n);
    }
    assert Times(u.rows) == Times(t.rows);
  }
}
