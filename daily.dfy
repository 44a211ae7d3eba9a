/**
 * `continuous_range_days_wifi_bulk`: key the frame by its stamps, average every column
 * over each local calendar day from the first day to the last, lay the days on a daily
 * grid and drop repeated days.
 */
module Daily {
  import opened Wrappers
  import opened Clock
  import opened Tables
  import opened Grid

  /** The rows whose stamp falls on local day `d` of zone `z`, in table order. */
  function Bucket(z: Zone, rows: seq<Row>, d: int): (b: seq<Row>)
    ensures |b| <= |rows|
    decreases |rows|
  {
    if |rows| == 0 then []
    else
      var init := Bucket(z, rows[..|rows| - 1], d);
      if LocalDay(z, rows[|rows| - 1].time) == d then init + [rows[|rows| - 1]] else init
  }

  /** A row is in the bucket of day `d` exactly when it is a row of the table stamped on day `d`. */
  lemma {:induction false} BucketMembers(z: Zone, rows: seq<Row>, d: int)
    ensures forall x :: x in Bucket(z, rows, d) <==> x in rows && LocalDay(z, x.time) == d
    decreases |rows|
  {
    if |rows| > 0 {
      var p := rows[..|rows| - 1];
      BucketMembers(z, p, d);
      assert rows == p + [rows[|rows| - 1]];
    }
  }

  /** A bucket holds rows of the table and so has the table's width. */
  lemma BucketRectangular(z: Zone, rows: seq<Row>, d: int, width: nat)
    requires Rectangular(rows, width)
    ensures Rectangular(Bucket(z, rows, d), width)
  {
    BucketMembers(z, rows, d);
    RectangularMembers(Bucket(z, rows, d), rows, width);
  }

  /** The non-null values of column `j` of a bucket, in order: what `mean` skips over NaN. */
  function Values(rows: seq<Row>, width: nat, j: nat): (vs: seq<real>)
    requires Rectangular(rows, width) && j < width
    ensures |vs| <= |rows|
    decreases |rows|
  {
    if |rows| == 0 then []
    else
      var init := Values(rows[..|rows| - 1], width, j);
      match rows[|rows| - 1].cells[j]
      case None => init
      case Some(v) => init + [v]
  }

  /** A value is listed exactly when some row holds it in column `j`; no values means all nulls. */
  lemma {:induction false} ValuesMembers(rows: seq<Row>, width: nat, j: nat)
    requires Rectangular(rows, width) && j < width
    ensures forall v :: v in Values(rows, width, j) <==> exists i :: 0 <= i < |rows| && rows[i].cells[j] == Some(v)
    ensures |Values(rows, width, j)| == 0 <==> forall i :: 0 <= i < |rows| ==> rows[i].cells[j].None?
    decreases |rows|
  {
    if |rows| > 0 {
      var n := |rows|;
      var p := rows[..n - 1];
      ValuesMembers(p, width, j);
      assert forall i :: 0 <= i < n - 1 ==> p[i] == rows[i];
      if rows[n - 1].cells[j].None? {
        forall v | v in Values(rows, width, j)
          ensures exists i :: 0 <= i < n && rows[i].cells[j] == Some(v)
        {
          var i :| 0 <= i < n - 1 && p[i].cells[j] == Some(v);
          assert rows[i].cells[j] == Some(v);
        }
      }
    }
  }

  /** The positions of the rows equal to `x` whose stamp falls on local day `d`. */
  function DayPositions(z: Zone, rows: seq<Row>, d: int, x: Row): set<int> {
    set i | 0 <= i < |rows| && rows[i] == x && LocalDay(z, x.time) == d
  }

  /**
   * A bucket holds the rows of its day in table order, each row exactly as many times as
   * the table does: nothing is dropped or repeated.
   */
  lemma {:induction false} BucketCount(z: Zone, rows: seq<Row>, d: int)
    ensures Subsequence(Bucket(z, rows, d), rows)
    ensures forall x :: multiset(Bucket(z, rows, d))[x] == |DayPositions(z, rows, d, x)|
    decreases |rows|
  {
    BucketSubsequence(z, rows, d);
    if |rows| > 0 {
      var n := |rows|;
      forall x
        ensures multiset(Bucket(z, rows, d))[x] == |DayPositions(z, rows, d, x)|
      {
        BucketCount(z, rows[..n - 1], d);
        BucketStep(z, rows, d);
        DayPositionsStep(z, rows, d, x);
      }
    }
  }

  /** A bucket keeps the rows of its day in their order. */
  lemma {:induction false} BucketSubsequence(z: Zone, rows: seq<Row>, d: int)
    ensures Subsequence(Bucket(z, rows, d), rows)
    decreases |rows|
  {
    if |rows| > 0 {
      var p := rows[..|rows| - 1];
      BucketSubsequence(z, p, d);
      var b := Bucket(z, rows, d);
      if LocalDay(z, rows[|rows| - 1].time) == d {
        assert b[..|b| - 1] == Bucket(z, p, d);
      }
    }
  }

  /** Adding a row to the table adds it to the bucket of its own day and to no other. */
  lemma BucketStep(z: Zone, rows: seq<Row>, d: int)
    requires |rows| > 0
    ensures var n := |rows|;
      multiset(Bucket(z, rows, d)) == multiset(Bucket(z, rows[..n - 1], d))
        + if LocalDay(z, rows[n - 1].time) == d then multiset{rows[n - 1]} else multiset{}
  {
  }

  /** Counting a row's positions is counting them in all rows but the last, then the last. */
  lemma DayPositionsStep(z: Zone, rows: seq<Row>, d: int, x: Row)
    requires |rows| > 0
    ensures var n := |rows|;
      |DayPositions(z, rows, d, x)| == |DayPositions(z, rows[..n - 1], d, x)|
        + if rows[n - 1] == x && LocalDay(z, x.time) == d then 1 else 0
  {
    var n := |rows|;
    var p := rows[..n - 1];
    var r := DayPositions(z, rows, d, x);
    var q := DayPositions(z, p, d, x);
    var h := rows[n - 1] == x && LocalDay(z, x.time) == d;
    forall i
      ensures i in r <==> i in q || (h && i == n - 1)
    {
      if 0 <= i < n - 1 {
        assert p[i] == rows[i];
      }
    }
    if h {
      CardAddOne(r, q, n - 1);
    } else {
      CardSame(r, q);
    }
  }

  /** The positions of the rows whose column `j` holds `v`. */
  function ValuePositions(rows: seq<Row>, width: nat, j: nat, v: real): set<int>
    requires Rectangular(rows, width) && j < width
  {
    set i | 0 <= i < |rows| && rows[i].cells[j] == Some(v)
  }

  /** The values of a column hold each value exactly as many times as the column does. */
  lemma {:induction false} ValuesCount(rows: seq<Row>, width: nat, j: nat)
    requires Rectangular(rows, width) && j < width
    ensures forall v :: multiset(Values(rows, width, j))[v] == |ValuePositions(rows, width, j, v)|
    decreases |rows|
  {
    if |rows| > 0 {
      ValuesCount(rows[..|rows| - 1], width, j);
      forall v
        ensures multiset(Values(rows, width, j))[v] == |ValuePositions(rows, width, j, v)|
      {
        ValuePositionsStep(rows, width, j, v);
      }
    }
  }

  lemma ValuePositionsStep(rows: seq<Row>, width: nat, j: nat, v: real)
    requires Rectangular(rows, width) && j < width && |rows| > 0
    ensures var n := |rows|;
      |ValuePositions(rows, width, j, v)| == |ValuePositions(rows[..n - 1], width, j, v)|
        + if rows[n - 1].cells[j] == Some(v) then 1 else 0
  {
    var n := |rows|;
    var q := ValuePositions(rows[..n - 1], width, j, v);
    if rows[n - 1].cells[j] == Some(v) {
      assert ValuePositions(rows, width, j, v) == q + {n - 1};
    } else {
      assert ValuePositions(rows, width, j, v) == q;
    }
  }

  /** Row `r` falls on local day `d` and holds `v` in column `j`. */
  predicate HoldsOnDay(z: Zone, r: Row, d: int, j: nat, v: real) {
    LocalDay(z, r.time) == d && j < |r.cells| && r.cells[j] == Some(v)
  }

  /** The positions of the rows on local day `d` whose column `j` holds `v`. */
  function DayValuePositions(z: Zone, rows: seq<Row>, d: int, j: nat, v: real): set<int> {
    set i | 0 <= i < |rows| && HoldsOnDay(z, rows[i], d, j, v)
  }

  /**
   * The values averaged for day `d` in column `j` hold each value exactly as many times as
   * the rows of that day hold it there.
   */
  lemma {:induction false} DayValuesCount(z: Zone, rows: seq<Row>, width: nat, d: int, j: nat)
    requires Rectangular(rows, width) && j < width
    ensures Rectangular(Bucket(z, rows, d), width)
    ensures var vs := Values(Bucket(z, rows, d), width, j);
      forall v :: multiset(vs)[v] == |DayValuePositions(z, rows, d, j, v)|
    decreases |rows|
  {
    BucketRectangular(z, rows, d, width);
    if |rows| > 0 {
      var n := |rows|;
      forall v
        ensures multiset(Values(Bucket(z, rows, d), width, j))[v] == |DayValuePositions(z, rows, d, j, v)|
      {
        DayValuesCount(z, rows[..n - 1], width, d, j);
        DayValuesStep(z, rows, width, d, j);
        DayValuePositionsStep(z, rows, d, j, v);
      }
    }
  }

  /** Adding a row to the table adds its column-`j` value to the day's values when it falls on that day. */
  lemma DayValuesStep(z: Zone, rows: seq<Row>, width: nat, d: int, j: nat)
    requires Rectangular(rows, width) && j < width && |rows| > 0
    ensures Rectangular(Bucket(z, rows, d), width)
    ensures Rectangular(Bucket(z, rows[..|rows| - 1], d), width)
    ensures var vs := Values(Bucket(z, rows, d), width, j);
      var us := Values(Bucket(z, rows[..|rows| - 1], d), width, j);
      forall v :: multiset(vs)[v] == multiset(us)[v] + if HoldsOnDay(z, rows[|rows| - 1], d, j, v) then 1 else 0
  {
    var n := |rows|;
    var r := rows[n - 1];
    BucketRectangular(z, rows, d, width);
    BucketRectangular(z, rows[..n - 1], d, width);
    var b := Bucket(z, rows, d);
    var u := Bucket(z, rows[..n - 1], d);
    var us := Values(u, width, j);
    if LocalDay(z, r.time) == d {
      assert b == u + [r];
      assert b[..|b| - 1] == u;
      match r.cells[j]
      case None =>
        assert Values(b, width, j) == us;
      case Some(w) =>
        assert Values(b, width, j) == us + [w];
    } else {
      assert b == u;
    }
  }

  lemma DayValuePositionsStep(z: Zone, rows: seq<Row>, d: int, j: nat, v: real)
    requires |rows| > 0
    ensures var n := |rows|;
      |DayValuePositions(z, rows, d, j, v)| == |DayValuePositions(z, rows[..n - 1], d, j, v)|
        + if HoldsOnDay(z, rows[n - 1], d, j, v) then 1 else 0
  {
    var n := |rows|;
    var p := rows[..n - 1];
    var r := DayValuePositions(z, rows, d, j, v);
    var q := DayValuePositions(z, p, d, j, v);
    var h := HoldsOnDay(z, rows[n - 1], d, j, v);
    forall i
      ensures i in r <==> i in q || (h && i == n - 1)
    {
      if 0 <= i < n - 1 {
        assert p[i] == rows[i];
      }
    }
    if h {
      CardAddOne(r, q, n - 1);
    } else {
      CardSame(r, q);
    }
  }

  lemma CardAddOne(r: set<int>, q: set<int>, e: int)
    requires forall i :: i in r <==> i in q || i == e
    requires e !in q
    ensures |r| == |q| + 1
  {
    forall i | i in r ensures i in q + {e} { }
    forall i | i in q + {e} ensures i in r { }
    assert r == q + {e};
  }

  lemma CardSame(r: set<int>, q: set<int>)
    requires forall i :: i in r <==> i in q
    ensures |r| == |q|
  {
    forall i | i in r ensures i in q { }
    forall i | i in q ensures i in r { }
    assert r == q;
  }

  function Sum(xs: seq<real>): real
    decreases |xs|
  {
    if |xs| == 0 then 0.0 else Sum(xs[..|xs| - 1]) + xs[|xs| - 1]
  }

  /** The mean of the values, or null when there are none (pandas skips NaN). */
  function Mean(xs: seq<real>): (m: Option<real>)
    ensures m.None? <==> |xs| == 0
    ensures m.Some? ==> m.value * (|xs| as real) == Sum(xs)
  {
    if |xs| == 0 then None else Some(Sum(xs) / (|xs| as real))
  }

  /** A sum of values between `lo` and `hi` lies between n * lo and n * hi. */
  lemma {:induction false} SumBounds(xs: seq<real>, lo: real, hi: real)
    requires forall k :: 0 <= k < |xs| ==> lo <= xs[k] <= hi
    ensures (|xs| as real) * lo <= Sum(xs) <= (|xs| as real) * hi
    decreases |xs|
  {
    if |xs| > 0 {
      var n := |xs|;
      SumBounds(xs[..n - 1], lo, hi);
      assert (n as real) * lo == ((n - 1) as real) * lo + lo;
      assert (n as real) * hi == ((n - 1) as real) * hi + hi;
    }
  }

  /** The mean lies between the smallest and the largest value. */
  lemma MeanBounds(xs: seq<real>, lo: real, hi: real)
    requires |xs| > 0 && forall k :: 0 <= k < |xs| ==> lo <= xs[k] <= hi
    ensures lo <= Mean(xs).value <= hi
  {
    SumBounds(xs, lo, hi);
    var n := |xs| as real;
    var m := Mean(xs).value;
    NonNegativeFactor(m - lo, n);
    NonNegativeFactor(hi - m, n);
  }

  lemma NonNegativeFactor(a: real, n: real)
    requires n > 0.0 && a * n >= 0.0
    ensures a >= 0.0
  {
  }

  /** The mean of a single value is that value. */
  lemma MeanSingle(x: real)
    ensures Mean([x]) == Some(x)
  {
    assert [x][..0] == [];
    assert Sum([x]) == x;
  }

  /** Removing one value from a list takes exactly that value off its sum. */
  lemma {:induction false} SumRemove(ys: seq<real>, k: nat)
    requires k < |ys|
    ensures Sum(ys) == Sum(ys[..k] + ys[k + 1..]) + ys[k]
    decreases |ys|
  {
    var n := |ys|;
    if k < n - 1 {
      var p := ys[..n - 1];
      SumRemove(p, k);
      var q := ys[..k] + ys[k + 1..];
      assert q[..|q| - 1] == p[..k] + p[k + 1..];
      assert q[|q| - 1] == ys[n - 1];
    } else {
      assert ys[..k] + ys[k + 1..] == ys[..n - 1];
    }
  }

  /** Multisets that agree on every count are equal. */
  lemma MultisetsEqual(a: multiset<real>, b: multiset<real>)
    requires forall v :: a[v] == b[v]
    ensures a == b
  {
    forall v | v in a ensures a[v] <= b[v] { }
    forall v | v in b ensures b[v] <= a[v] { }
    assert a <= b && b <= a;
  }

  /** The sum, and so the mean, depends only on how often each value occurs. */
  lemma {:induction false} SumPermutation(xs: seq<real>, ys: seq<real>)
    requires multiset(xs) == multiset(ys)
    ensures Sum(xs) == Sum(ys) && Mean(xs) == Mean(ys)
    decreases |xs|
  {
    assert |xs| == |multiset(xs)| == |ys|;
    if |xs| > 0 {
      var n := |xs|;
      var x := xs[n - 1];
      assert x in multiset(xs);
      var k :| 0 <= k < |ys| && ys[k] == x;
      var rest := ys[..k] + ys[k + 1..];
      SumRemove(ys, k);
      assert ys == ys[..k] + [ys[k]] + ys[k + 1..];
      assert multiset(ys) == multiset(rest) + multiset{x};
      assert xs == xs[..n - 1] + [x];
      assert multiset(xs) == multiset(xs[..n - 1]) + multiset{x};
      forall v
        ensures multiset(xs[..n - 1])[v] == multiset(rest)[v]
      {
        assert multiset(xs)[v] == multiset(ys)[v];
      }
      MultisetsEqual(multiset(xs[..n - 1]), multiset(rest));
      SumPermutation(xs[..n - 1], rest);
    }
  }

  /** The mean of each column over one bucket. */
  function ColumnMeans(bucket: seq<Row>, width: nat): (cs: seq<Option<real>>)
    requires Rectangular(bucket, width)
    ensures |cs| == width
  {
    seq(width, j requires 0 <= j < width => Mean(Values(bucket, width, j)))
  }

  /** The local days of the earliest and the latest stamp. */
  function FirstDay(z: Zone, rows: seq<Row>): int
    requires |rows| > 0
  {
    LocalDay(z, MinTime(rows))
  }

  function LastDay(z: Zone, rows: seq<Row>): (d: int)
    requires |rows| > 0
    ensures d >= FirstDay(z, rows)
  {
    LocalDayMonotone(z, MinTime(rows), MaxTime(rows));
    LocalDay(z, MaxTime(rows))
  }

  /** The resampled row of local day `d`: its midnight and the column means of its rows. */
  function DayRow(z: Zone, rows: seq<Row>, width: nat, d: int): (r: Row)
    requires Rectangular(rows, width)
    ensures r.time == DayStart(z, d) && |r.cells| == width
  {
    BucketRectangular(z, rows, d, width);
    Row(DayStart(z, d), ColumnMeans(Bucket(z, rows, d), width))
  }

  /** `resample('D').mean()`: one row per local day from the first day to the last. */
  function Resample(z: Zone, rows: seq<Row>, width: nat): (r: seq<Row>)
    requires Rectangular(rows, width) && |rows| > 0
    ensures |r| == LastDay(z, rows) - FirstDay(z, rows) + 1 && Rectangular(r, width)
    ensures forall k :: 0 <= k < |r| ==> r[k] == DayRow(z, rows, width, FirstDay(z, rows) + k)
  {
    DayRows(z, rows, width, FirstDay(z, rows), LastDay(z, rows) - FirstDay(z, rows) + 1)
  }

  /** The resampled rows of the `n` local days from day `d0` on. */
  function DayRows(z: Zone, rows: seq<Row>, width: nat, d0: int, n: nat): (r: seq<Row>)
    requires Rectangular(rows, width)
    ensures |r| == n && Rectangular(r, width)
    ensures forall k :: 0 <= k < n ==> r[k] == DayRow(z, rows, width, d0 + k)
  {
    var r := seq(n, k requires 0 <= k < n => DayRow(z, rows, width, d0 + k));
    assert forall k :: 0 <= k < n ==> r[k] == DayRow(z, rows, width, d0 + k);
    r
  }

  /** Consecutive local midnights of a fixed-offset zone lie exactly one day apart. */
  lemma ResampleSpaced(z: Zone, rows: seq<Row>, width: nat)
    requires Rectangular(rows, width) && |rows| > 0
    ensures Spaced(Resample(z, rows, width), Day)
  {
    var r := Resample(z, rows, width);
    forall k | 0 <= k < |r|
      ensures r[k].time == r[0].time + k * Day
    {
      DayStartStep(z, FirstDay(z, rows), k);
    }
  }

  /**
   * The resampled days are consecutive, without gaps or repeats, from the day of the
   * earliest stamp to the day of the latest; each row is stamped at local midnight.
   */
  lemma ResampleDays(z: Zone, rows: seq<Row>, width: nat)
    requires Rectangular(rows, width) && |rows| > 0
    ensures var out := Resample(z, rows, width);
      && |out| == LocalDay(z, MaxTime(rows)) - LocalDay(z, MinTime(rows)) + 1
      && (forall k :: 0 <= k < |out| ==> LocalDay(z, out[k].time) == LocalDay(z, MinTime(rows)) + k)
      && (forall k :: 0 <= k < |out| ==> out[k].time == DayStart(z, LocalDay(z, out[k].time)))
      && Spaced(out, Day) && Increasing(out)
  {
    ResampleSpaced(z, rows, width);
    SpacedIncreasing(Resample(z, rows, width), Day);
  }

  /** Each cell of a day's row is the mean of that column's non-null values that day, or null. */
  lemma DayRowMeans(z: Zone, rows: seq<Row>, width: nat, d: int, j: nat)
    requires Rectangular(rows, width) && j < width
    ensures Rectangular(Bucket(z, rows, d), width)
    ensures DayRow(z, rows, width, d).cells[j] == Mean(Values(Bucket(z, rows, d), width, j))
  {
    BucketRectangular(z, rows, d, width);
  }

  /** Each resampled cell is a day's mean: see `DayRowMeans`. */
  lemma ResampleMeans(z: Zone, rows: seq<Row>, width: nat, k: nat, j: nat)
    requires Rectangular(rows, width) && |rows| > 0 && j < width
    requires k < |Resample(z, rows, width)|
    ensures var b := Bucket(z, rows, FirstDay(z, rows) + k);
      && Rectangular(b, width)
      && Resample(z, rows, width)[k].cells[j] == Mean(Values(b, width, j))
  {
    var d := FirstDay(z, rows) + k;
    assert Resample(z, rows, width)[k] == DayRow(z, rows, width, d);
    DayRowMeans(z, rows, width, d, j);
  }

  /**
   * The cell of day `d` in column `j` is the mean of any list that holds each value as
   * many times as the rows of that day hold it in column `j`: null when they hold none.
   */
  lemma DayRowMean(z: Zone, rows: seq<Row>, width: nat, d: int, j: nat, xs: seq<real>)
    requires Rectangular(rows, width) && j < width
    requires forall v :: multiset(xs)[v] == |DayValuePositions(z, rows, d, j, v)|
    ensures DayRow(z, rows, width, d).cells[j] == Mean(xs)
  {
    DayValuesCount(z, rows, width, d, j);
    DayRowMeans(z, rows, width, d, j);
    var vs := Values(Bucket(z, rows, d), width, j);
    MultisetsEqual(multiset(vs), multiset(xs));
    SumPermutation(vs, xs);
  }

  /** Resampled row `k` holds, in column `j`, the mean of its day's values counted with repeats. */
  lemma ResampleMean(z: Zone, rows: seq<Row>, width: nat, k: nat, j: nat, xs: seq<real>)
    requires Rectangular(rows, width) && |rows| > 0 && j < width
    requires k < |Resample(z, rows, width)|
    requires forall v :: multiset(xs)[v] == |DayValuePositions(z, rows, FirstDay(z, rows) + k, j, v)|
    ensures Resample(z, rows, width)[k].cells[j] == Mean(xs)
  {
    var d := FirstDay(z, rows) + k;
    assert Resample(z, rows, width)[k] == DayRow(z, rows, width, d);
    DayRowMean(z, rows, width, d, j, xs);
  }

  /** Every input row falls on one of the resampled days. */
  lemma ResampleCovers(z: Zone, rows: seq<Row>, width: nat, i: nat)
    requires Rectangular(rows, width) && i < |rows|
    ensures var out := Resample(z, rows, width);
      exists k :: 0 <= k < |out| && LocalDay(z, out[k].time) == LocalDay(z, rows[i].time)
  {
    var out := Resample(z, rows, width);
    ResampleDays(z, rows, width);
    LocalDayMonotone(z, MinTime(rows), rows[i].time);
    LocalDayMonotone(z, rows[i].time, MaxTime(rows));
    var k := LocalDay(z, rows[i].time) - LocalDay(z, MinTime(rows));
    assert LocalDay(z, out[k].time) == LocalDay(z, rows[i].time);
  }

  /** The first and the last resampled day hold rows of the table: the range is not padded. */
  lemma ResampleEnds(z: Zone, rows: seq<Row>, width: nat)
    requires Rectangular(rows, width) && |rows| > 0
    ensures var out := Resample(z, rows, width);
      |Bucket(z, rows, LocalDay(z, out[0].time))| > 0 && |Bucket(z, rows, LocalDay(z, out[|out| - 1].time))| > 0
  {
    var out := Resample(z, rows, width);
    ResampleDays(z, rows, width);
    var lo :| 0 <= lo < |rows| && rows[lo].time == MinTime(rows);
    var hi :| 0 <= hi < |rows| && rows[hi].time == MaxTime(rows);
    BucketNonEmpty(z, rows, lo, LocalDay(z, out[0].time));
    BucketNonEmpty(z, rows, hi, LocalDay(z, out[|out| - 1].time));
  }

  /** The bucket of a row's own day holds at least that row. */
  lemma BucketNonEmpty(z: Zone, rows: seq<Row>, i: nat, d: int)
    requires i < |rows| && LocalDay(z, rows[i].time) == d
    ensures |Bucket(z, rows, d)| > 0
  {
    BucketMembers(z, rows, d);
    assert rows[i] in Bucket(z, rows, d);
  }

  /**
   * The rows the daily step returns. An empty frame resamples to an empty one, whose NaT
   * bounds make date_range raise. Otherwise the resampled days are laid on the daily grid
   * from their first to their last stamp, and repeated days dropped.
   */
  function DailyRows(z: Zone, rows: seq<Row>, width: nat): (r: Result<seq<Row>, Failure>)
    requires Rectangular(rows, width)
    ensures r.Err? <==> |rows| == 0
    ensures r.Err? ==> r.error == EmptyTable
  {
    if |rows| == 0 then Err(EmptyTable)
    else
      var binned := Resample(z, rows, width);
      var grid := DateRange(MinTime(binned), MaxTime(binned), Day);
      Ok(DropDuplicates(Reindex(binned, grid, width)))
  }

  /** The daily grid and the dedup change nothing: the output is the resampled table. */
  lemma DailyIsResample(z: Zone, rows: seq<Row>, width: nat)
    requires Rectangular(rows, width) && |rows| > 0
    ensures DailyRows(z, rows, width) == Ok(Resample(z, rows, width))
  {
    var binned := Resample(z, rows, width);
    ResampleSpaced(z, rows, width);
    ReindexOwnGrid(binned, width, Day);
    SpacedIncreasing(binned, Day);
    DropDuplicatesDistinct(binned);
  }

  /** The daily step on a whole frame; time_stamp is a column again afterwards. */
  function ContinuousDaily(t: Table): (r: Result<Table, Failure>)
    requires WellFormed(t)
    ensures r.Err? <==> t.keyed || |t.rows| == 0
    ensures r.Err? ==> r.error == if t.keyed then MissingColumn(TimeStamp) else EmptyTable
    ensures r.Ok? ==> WellFormed(r.value) && r.value.columns == t.columns
    ensures r.Ok? ==> r.value.zone == t.zone && !r.value.keyed
  {
    if t.keyed then Err(MissingColumn(TimeStamp))
    else
      match DailyRows(t.zone, t.rows, |t.columns|)
      case Err(e) => Err(e)
      case Ok(rs) =>
        DailyIsResample(t.zone, t.rows, |t.columns|);
        Ok(Table(t.columns, rs, t.zone, false))
  }

  /** Rows on consecutive local days, one each, fall one to a bucket. */
  lemma {:induction false} BucketsOfDays(z: Zone, rows: seq<Row>, d0: int, k: nat)
    requires forall i :: 0 <= i < |rows| ==> LocalDay(z, rows[i].time) == d0 + i
    requires k < |rows|
    ensures Bucket(z, rows, d0 + k) == [rows[k]]
    decreases |rows|
  {
    var n := |rows|;
    var p := rows[..n - 1];
    if k < n - 1 {
      BucketsOfDays(z, p, d0, k);
    } else {
      BucketEmpty(z, p, d0 + k);
    }
  }

  /** A day on which no row falls has an empty bucket. */
  lemma {:induction false} BucketEmpty(z: Zone, rows: seq<Row>, d: int)
    requires forall i :: 0 <= i < |rows| ==> LocalDay(z, rows[i].time) != d
    ensures Bucket(z, rows, d) == []
    decreases |rows|
  {
    if |rows| > 0 {
      BucketEmpty(z, rows[..|rows| - 1], d);
    }
  }

  /** Averaging a single row gives back its cells. */
  lemma ColumnMeansSingle(r: Row, width: nat)
    requires |r.cells| == width
    ensures ColumnMeans([r], width) == r.cells
  {
    forall j | 0 <= j < width
      ensures ColumnMeans([r], width)[j] == r.cells[j]
    {
      assert [r][..0] == [];
      match r.cells[j]
      case None =>
      case Some(v) => MeanSingle(v);
    }
  }

  /** On rows one per consecutive day, the row resampled for a day is that day's row. */
  lemma DayRowOfDays(z: Zone, rows: seq<Row>, width: nat, d0: int, k: nat)
    requires Rectangular(rows, width) && k < |rows|
    requires forall i :: 0 <= i < |rows| ==> LocalDay(z, rows[i].time) == d0 + i
    requires rows[k].time == DayStart(z, d0 + k)
    ensures DayRow(z, rows, width, d0 + k) == rows[k]
  {
    BucketsOfDays(z, rows, d0, k);
    ColumnMeansSingle(rows[k], width);
  }

  /** Rows a day apart from a local midnight are the midnights of consecutive days. */
  lemma MidnightsOnDays(z: Zone, rows: seq<Row>, d0: int)
    requires Spaced(rows, Day) && |rows| > 0 && rows[0].time == DayStart(z, d0)
    ensures forall i :: 0 <= i < |rows| ==> rows[i].time == DayStart(z, d0 + i)
    ensures forall i :: 0 <= i < |rows| ==> LocalDay(z, rows[i].time) == d0 + i
  {
    forall i | 0 <= i < |rows|
      ensures rows[i].time == DayStart(z, d0 + i) && LocalDay(z, rows[i].time) == d0 + i
    {
      DayStartStep(z, d0, i);
      DayStartIsMidnight(z, d0 + i);
    }
  }

  /** Increasing rows on consecutive local days span exactly those days. */
  lemma DaysSpan(z: Zone, rows: seq<Row>, d0: int)
    requires Increasing(rows) && |rows| > 0
    requires forall i :: 0 <= i < |rows| ==> LocalDay(z, rows[i].time) == d0 + i
    ensures FirstDay(z, rows) == d0 && LastDay(z, rows) == d0 + |rows| - 1
  {
    IncreasingEnds(rows);
  }

  /** A table of local midnights, one per consecutive day, resamples to itself. */
  lemma ResampleFixpoint(z: Zone, rows: seq<Row>, width: nat)
    requires Rectangular(rows, width) && |rows| > 0 && Spaced(rows, Day)
    requires rows[0].time == DayStart(z, LocalDay(z, rows[0].time))
    ensures Resample(z, rows, width) == rows
  {
    var d0 := LocalDay(z, rows[0].time);
    SpacedIncreasing(rows, Day);
    MidnightsOnDays(z, rows, d0);
    DaysSpan(z, rows, d0);
    DayRowsOfDays(z, rows, width, d0);
  }

  /** Resampling the days of rows one per consecutive local midnight gives those rows. */
  lemma DayRowsOfDays(z: Zone, rows: seq<Row>, width: nat, d0: int)
    requires Rectangular(rows, width)
    requires forall i :: 0 <= i < |rows| ==> rows[i].time == DayStart(z, d0 + i)
    requires forall i :: 0 <= i < |rows| ==> LocalDay(z, rows[i].time) == d0 + i
    ensures DayRows(z, rows, width, d0, |rows|) == rows
  {
    var r := DayRows(z, rows, width, d0, |rows|);
    forall k | 0 <= k < |rows|
      ensures r[k] == rows[k]
    {
      DayRowOfDays(z, rows, width, d0, k);
    }
  }

  /** Applying the daily step to its own output gives that output again. */
  lemma DailyIdempotent(t: Table)
    requires WellFormed(t) && ContinuousDaily(t).Ok?
    ensures ContinuousDaily(ContinuousDaily(t).value) == ContinuousDaily(t)
  {
    var width := |t.columns|;
    var out := Resample(t.zone, t.rows, width);
    DailyIsResample(t.zone, t.rows, width);
    ResampleDays(t.zone, t.rows, width);
    ResampleFixpoint(t.zone, out, width);
    DailyIsResample(t.zone, out, width);
  }
}
