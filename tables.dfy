/**
 * The abstract table the pipeline transforms: a schema of payload columns and a
 * sequence of rows, each with its time_stamp instant and one nullable cell per column.
 */
module Tables {
  import opened Wrappers
  import opened Clock

  const TimeStamp: string := "time_stamp"

  /** One record: its time_stamp instant and one cell per payload column, None for null. */
  datatype Row = Row(time: int, cells: seq<Option<real>>)

  /**
   * A data frame. `columns` names the payload columns (time_stamp is not among them),
   * `zone` is the time zone its time_stamp values are labelled with, and `keyed` says
   * that time_stamp has been moved from the columns into the index by set_index.
   *
   * Two frames `pd.read_csv` can produce are represented through these fields. A file
   * without a time_stamp column is a frame with `keyed` set: `df['time_stamp']` raises
   * the same KeyError, MissingColumn(TimeStamp), in both. A file with no rows is a frame
   * with zone Naive, because `pd.to_datetime` of an empty column carries no offset.
   */
  datatype Table = Table(columns: seq<string>, rows: seq<Row>, zone: Zone, keyed: bool)

  /** The errors the library calls raise on the paths the pipeline takes. */
  datatype Failure =
    | MissingColumn(name: string)  // a KeyError: the frame has no such column
    | NaiveTimestamps              // tz_convert on time stamps that carry no offset
    | DuplicateLabels              // reindex of an index that holds a label twice
    | EmptyTable                   // date_range between the NaT bounds of an empty index

  predicate Rectangular(rows: seq<Row>, width: nat) {
    forall i :: 0 <= i < |rows| ==> |rows[i].cells| == width
  }

  lemma RectangularMembers(a: seq<Row>, b: seq<Row>, width: nat)
    requires Rectangular(b, width) && forall x :: x in a ==> x in b
    ensures Rectangular(a, width)
  {
    forall i | 0 <= i < |a|
      ensures |a[i].cells| == width
    {
      assert a[i] in b;
    }
  }

  predicate DistinctNames(names: seq<string>) {
    forall i, j :: 0 <= i < j < |names| ==> names[i] != names[j]
  }

  /** Column names are distinct, none is time_stamp, and every row has one cell per column. */
  predicate WellFormed(t: Table) {
    && DistinctNames(t.columns)
    && TimeStamp !in t.columns
    && Rectangular(t.rows, |t.columns|)
  }

  predicate DistinctTimes(rows: seq<Row>) {
    forall i, j :: 0 <= i < j < |rows| ==> rows[i].time != rows[j].time
  }

  predicate Increasing(rows: seq<Row>) {
    forall i, j :: 0 <= i < j < |rows| ==> rows[i].time < rows[j].time
  }

  /** The time stamps run from the first one in steps of exactly `step` seconds. */
  predicate Spaced(rows: seq<Row>, step: int) {
    forall k :: 0 <= k < |rows| ==> rows[k].time == rows[0].time + k * step
  }

  function Times(rows: seq<Row>): (ts: seq<int>)
    ensures |ts| == |rows|
    ensures forall k :: 0 <= k < |rows| ==> ts[k] == rows[k].time
  {
    seq(|rows|, k requires 0 <= k < |rows| => rows[k].time)
  }

  /** A row of nulls, what reindexing puts in a slot that no input row matches. */
  function NullCells(width: nat): (cs: seq<Option<real>>)
    ensures |cs| == width
    ensures forall j :: 0 <= j < width ==> cs[j].None?
  {
    seq(width, _ => None)
  }

  /** `a` is `b` with some of its elements removed, the rest in the same order. */
  predicate Subsequence(a: seq<Row>, b: seq<Row>)
    decreases |b|
  {
    if |a| == 0 then true
    else if |b| == 0 then false
    else
      || (a[|a| - 1] == b[|b| - 1] && Subsequence(a[..|a| - 1], b[..|b| - 1]))
      || Subsequence(a, b[..|b| - 1])
  }

  /** The earliest time stamp, `df.index.min()`. */
  function MinTime(rows: seq<Row>): (m: int)
    requires |rows| > 0
    ensures exists i :: 0 <= i < |rows| && rows[i].time == m
    ensures forall i :: 0 <= i < |rows| ==> m <= rows[i].time
  {
    if |rows| == 1 then rows[0].time
    else
      var rest := MinTime(rows[1..]);
      if rows[0].time <= rest then rows[0].time else rest
  }

  /** The latest time stamp, `df.index.max()`. */
  function MaxTime(rows: seq<Row>): (m: int)
    requires |rows| > 0
    ensures exists i :: 0 <= i < |rows| && rows[i].time == m
    ensures forall i :: 0 <= i < |rows| ==> rows[i].time <= m
  {
    if |rows| == 1 then rows[0].time
    else
      var rest := MaxTime(rows[1..]);
      if rows[0].time >= rest then rows[0].time else rest
  }

  /** The position of the first row stamped `t`, if there is one. */
  function Find(rows: seq<Row>, t: int): (r: Option<nat>)
    ensures r.Some? ==> r.value < |rows| && rows[r.value].time == t
    ensures r.Some? ==> forall i :: 0 <= i < r.value ==> rows[i].time != t
    ensures r.None? <==> forall i :: 0 <= i < |rows| ==> rows[i].time != t
  {
    if |rows| == 0 then None
    else if rows[0].time == t then Some(0)
    else match Find(rows[1..], t)
      case None => None
      case Some(i) => Some(i + 1)
  }

  /** In a table without repeated time stamps, the row stamped `t` is the one found. */
  lemma FindDistinct(rows: seq<Row>, i: nat)
    requires DistinctTimes(rows) && i < |rows|
    ensures Find(rows, rows[i].time) == Some(i)
  {
  }

  /** The ends of an increasing table are its minimum and maximum. */
  lemma IncreasingEnds(rows: seq<Row>)
    requires Increasing(rows) && |rows| > 0
    ensures MinTime(rows) == rows[0].time
    ensures MaxTime(rows) == rows[|rows| - 1].time
  {
  }

  /** An evenly spaced table with a positive step is increasing, hence has no repeated stamp. */
  lemma SpacedIncreasing(rows: seq<Row>, step: int)
    requires step > 0 && Spaced(rows, step)
    ensures Increasing(rows) && DistinctTimes(rows)
  {
    forall i, j | 0 <= i < j < |rows|
      ensures rows[i].time < rows[j].time
    {
      MulStrict(i, j, step);
    }
  }

  lemma MulStrict(i: int, j: int, step: int)
    requires i < j && step > 0
    ensures i * step < j * step
  {
    assert j * step - i * step == (j - i) * step;
  }
}
