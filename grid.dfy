/**
 * The table operations both resampling steps are built from: `pd.date_range` over
 * the observed range, `reindex` onto it by exact instant, `~index.duplicated(keep='first')`,
 * and the search and order predicates these rest on. The 2024 mask is in `Hourly`.
 */
module Grid {
  import opened Wrappers
  import opened Clock
  import opened Tables

  lemma MulMono(a: int, b: int, s: int)
    requires a <= b && s > 0
    ensures a * s <= b * s
  {
    assert b * s - a * s == (b - a) * s;
  }

  lemma MulDivExact(k: int, s: int)
    requires s > 0
    ensures (k * s) / s == k && (k * s) % s == 0
  {
    var d, m := (k * s) / s, (k * s) % s;
    assert k * s == d * s + m && 0 <= m < s;
    assert (k - d) * s == m;
    if k - d >= 1 {
      MulMono(1, k - d, s);
    } else if k - d <= -1 {
      MulMono(k - d, -1, s);
    }
  }

  lemma StepsApart(t: int, lo: int, k: int, step: int)
    requires step > 0 && t == lo + k * step
    ensures (t - lo) % step == 0 && (t - lo) / step == k
  {
    MulDivExact(k, step);
  }

  /** Every stamp lies between `lo` and `hi`. */
  predicate Within(rows: seq<Row>, lo: int, hi: int) {
    forall k :: 0 <= k < |rows| ==> lo <= rows[k].time <= hi
  }

  /** Every stamp lies a whole number of steps after `lo`. */
  predicate OnGrid(rows: seq<Row>, lo: int, step: int)
    requires step > 0
  {
    forall k :: 0 <= k < |rows| ==> (rows[k].time - lo) % step == 0
  }

  /** A tail of rows laid on a grid lies in range, on the grid and evenly spaced. */
  lemma GridTail(rows: seq<Row>, out: seq<Row>, lo: int, hi: int, step: int)
    requires lo <= hi && step > 0
    requires |rows| == |DateRange(lo, hi, step)|
    requires forall j :: 0 <= j < |rows| ==> rows[j].time == DateRange(lo, hi, step)[j]
    requires |out| <= |rows| && out == rows[|rows| - |out|..]
    ensures Within(out, lo, hi) && OnGrid(out, lo, step) && Spaced(out, step)
  {
    var g := DateRange(lo, hi, step);
    var s := |rows| - |out|;
    forall k | 0 <= k < |out|
      ensures lo <= out[k].time <= hi
      ensures (out[k].time - lo) % step == 0
      ensures out[k].time == out[0].time + k * step
    {
      assert out[k] == rows[s + k] && out[0] == rows[s];
      MulMono(0, s + k, step);
      MulMono(s + k, |g| - 1, step);
      StepsApart(out[k].time, lo, s + k, step);
      assert (s + k) * step == s * step + k * step;
    }
  }

  /**
   * `pd.date_range(start=lo, end=hi, freq=step)`: instants from `lo` (not rounded)
   * in steps of `step` seconds, the last one not beyond `hi`.
   */
  function DateRange(lo: int, hi: int, step: int): (g: seq<int>)
    requires lo <= hi && step > 0
    ensures |g| == (hi - lo) / step + 1
    ensures forall k :: 0 <= k < |g| ==> g[k] == lo + k * step
    ensures g[0] == lo && g[|g| - 1] <= hi < g[|g| - 1] + step
  {
    seq((hi - lo) / step + 1, k requires 0 <= k <= (hi - lo) / step => lo + k * step)
  }

  /** An instant is a grid point exactly when it is in range and a whole number of steps after `lo`. */
  lemma GridMembers(lo: int, hi: int, step: int, t: int)
    requires lo <= hi && step > 0
    ensures t in DateRange(lo, hi, step) <==> lo <= t <= hi && (t - lo) % step == 0
  {
    var g := DateRange(lo, hi, step);
    var q := (hi - lo) / step;
    if t in g {
      var k :| 0 <= k < |g| && g[k] == t;
      MulMono(0, k, step);
      MulMono(k, q, step);
      MulDivExact(k, step);
    }
    if lo <= t <= hi && (t - lo) % step == 0 {
      var k := (t - lo) / step;
      assert t - lo == k * step;
      if k < 0 {
        MulMono(k, -1, step);
      }
      if k > q {
        MulMono(q + 1, k, step);
      }
      assert g[k] == t;
    }
  }

  /** The grid point that has `k` of them before it. */
  lemma GridIndex(lo: int, hi: int, step: int, k: int)
    requires lo <= hi && step > 0 && 0 <= k
    ensures k < |DateRange(lo, hi, step)| <==> lo + k * step <= hi
  {
    var q := (hi - lo) / step;
    if k <= q {
      MulMono(k, q, step);
    } else {
      MulMono(q + 1, k, step);
    }
  }

  /** The slot for instant `t`: the first row stamped `t`, or nulls if there is none. */
  function Slot(rows: seq<Row>, t: int, width: nat): (r: Row)
    requires Rectangular(rows, width)
    ensures r.time == t && |r.cells| == width
  {
    match Find(rows, t)
    case Some(i) => Row(t, rows[i].cells)
    case None => Row(t, NullCells(width))
  }

  /** `df.reindex(grid)`: one slot per grid instant, in grid order. */
  function Reindex(rows: seq<Row>, grid: seq<int>, width: nat): (r: seq<Row>)
    requires Rectangular(rows, width)
    ensures |r| == |grid| && Rectangular(r, width)
    ensures forall k :: 0 <= k < |grid| ==> r[k].time == grid[k]
  {
    seq(|grid|, k requires 0 <= k < |grid| => Slot(rows, grid[k], width))
  }

  /** A grid slot carries the input row with exactly its instant... */
  lemma ReindexMatched(rows: seq<Row>, grid: seq<int>, width: nat, k: nat, i: nat)
    requires Rectangular(rows, width) && DistinctTimes(rows)
    requires k < |grid| && i < |rows| && rows[i].time == grid[k]
    ensures Reindex(rows, grid, width)[k] == rows[i]
  {
    FindDistinct(rows, i);
  }

  /** ...or nulls when no input row has that instant. */
  lemma ReindexUnmatched(rows: seq<Row>, grid: seq<int>, width: nat, k: nat)
    requires Rectangular(rows, width) && k < |grid|
    requires forall i :: 0 <= i < |rows| ==> rows[i].time != grid[k]
    ensures Reindex(rows, grid, width)[k].cells == NullCells(width)
  {
  }

  /**
   * Evenly spaced rows, laid on the grid from their first to their last stamp with
   * their own step, come back unchanged.
   */
  lemma ReindexOwnGrid(rows: seq<Row>, width: nat, step: int)
    requires Rectangular(rows, width) && |rows| > 0 && step > 0 && Spaced(rows, step)
    ensures Reindex(rows, DateRange(MinTime(rows), MaxTime(rows), step), width) == rows
  {
    SpacedIncreasing(rows, step);
    IncreasingEnds(rows);
    var m := |rows|;
    var g := DateRange(MinTime(rows), MaxTime(rows), step);
    StepsApart(rows[m - 1].time, rows[0].time, m - 1, step);
    assert |g| == m;
    var a := Reindex(rows, g, width);
    forall k | 0 <= k < m
      ensures a[k] == rows[k]
    {
      ReindexMatched(rows, g, width, k, k);
    }
  }

  /** Row `i` is the first row with its stamp. */
  predicate FirstOf(rows: seq<Row>, i: nat)
    requires i < |rows|
  {
    Find(rows, rows[i].time) == Some(i)
  }

  /** Searching a table is searching its rows but the last, then the last. */
  lemma {:induction false} FindPrefix(rows: seq<Row>, t: int)
    requires |rows| > 0
    ensures Find(rows, t) == match Find(rows[..|rows| - 1], t)
      case Some(i) => Some(i)
      case None => if rows[|rows| - 1].time == t then Some(|rows| - 1) else None
  {
    var p := rows[..|rows| - 1];
    match Find(p, t)
    case Some(i) =>
    case None =>
  }

  /**
   * `df[~df.index.duplicated(keep='first')]`: the rows whose stamp has not occurred
   * before, in their original order.
   */
  function DropDuplicates(rows: seq<Row>): (r: seq<Row>)
    ensures |r| <= |rows|
    decreases |rows|
  {
    if |rows| == 0 then []
    else
      var p := rows[..|rows| - 1];
      var last := rows[|rows| - 1];
      if Find(p, last.time).Some? then DropDuplicates(p) else DropDuplicates(p) + [last]
  }

  /**
   * Dedup leaves no stamp twice, keeps every first occurrence, keeps nothing else, and
   * changes nothing in a table without repeated stamps.
   */
  lemma {:induction false} DropDuplicatesKeepsFirst(rows: seq<Row>)
    ensures DedupOf(DropDuplicates(rows), rows)
    decreases |rows|
  {
    if |rows| > 0 {
      var p := rows[..|rows| - 1];
      DropDuplicatesKeepsFirst(p);
      if Find(p, rows[|rows| - 1].time).Some? {
        DropRepeated(rows, DropDuplicates(p));
      } else {
        KeepFirst(rows, DropDuplicates(p));
      }
    }
  }

  /** A table whose stamps are all distinct passes dedup unchanged. */
  lemma DropDuplicatesDistinct(rows: seq<Row>)
    requires DistinctTimes(rows)
    ensures DropDuplicates(rows) == rows
  {
    DropDuplicatesKeepsFirst(rows);
  }

  /**
   * `init` is `p` deduplicated: no stamp twice, each kept row is the first row of `p`
   * with its stamp, every first occurrence is kept, and without repeats nothing changes.
   */
  predicate DedupOf(init: seq<Row>, p: seq<Row>) {
    && DistinctTimes(init)
    && (forall k :: 0 <= k < |init| ==>
          Find(p, init[k].time).Some? && p[Find(p, init[k].time).value] == init[k])
    && (forall i :: 0 <= i < |p| && FirstOf(p, i) ==> p[i] in init)
    && (DistinctTimes(p) ==> init == p)
  }

  lemma DropRepeated(rows: seq<Row>, init: seq<Row>)
    requires |rows| > 0 && DedupOf(init, rows[..|rows| - 1])
    requires Find(rows[..|rows| - 1], rows[|rows| - 1].time).Some?
    ensures DedupOf(init, rows)
  {
    var n := |rows|;
    var p := rows[..n - 1];
    var j := Find(p, rows[n - 1].time).value;
    FindPrefix(rows, rows[n - 1].time);
    assert rows[j].time == rows[n - 1].time;
    forall k | 0 <= k < |init|
      ensures Find(rows, init[k].time) == Find(p, init[k].time)
    {
      FindPrefix(rows, init[k].time);
    }
    forall i | 0 <= i < n && FirstOf(rows, i)
      ensures rows[i] in init
    {
      FindPrefix(rows, rows[i].time);
      assert i < n - 1 && FirstOf(p, i);
    }
  }

  lemma KeepFirst(rows: seq<Row>, init: seq<Row>)
    requires |rows| > 0 && DedupOf(init, rows[..|rows| - 1])
    requires Find(rows[..|rows| - 1], rows[|rows| - 1].time).None?
    ensures DedupOf(init + [rows[|rows| - 1]], rows)
  {
    var n := |rows|;
    var p := rows[..n - 1];
    var last := rows[n - 1];
    var r := init + [last];
    KeepFirstMatches(rows, init);
    KeepFirstKept(rows, init);
    if DistinctTimes(rows) {
      assert DistinctTimes(p);
      assert rows == p + [last];
    }
  }

  lemma KeepFirstMatches(rows: seq<Row>, init: seq<Row>)
    requires |rows| > 0 && DedupOf(init, rows[..|rows| - 1])
    requires Find(rows[..|rows| - 1], rows[|rows| - 1].time).None?
    ensures var r := init + [rows[|rows| - 1]];
      && DistinctTimes(r)
      && forall k :: 0 <= k < |r| ==>
           Find(rows, r[k].time).Some? && rows[Find(rows, r[k].time).value] == r[k]
  {
    var n := |rows|;
    var p := rows[..n - 1];
    var last := rows[n - 1];
    var r := init + [last];
    FindPrefix(rows, last.time);
    forall k | 0 <= k < |r|
      ensures Find(rows, r[k].time).Some? && rows[Find(rows, r[k].time).value] == r[k]
      ensures k < |init| ==> r[k].time != last.time
    {
      if k < |init| {
        FindPrefix(rows, init[k].time);
      }
    }
  }

  lemma KeepFirstKept(rows: seq<Row>, init: seq<Row>)
    requires |rows| > 0 && DedupOf(init, rows[..|rows| - 1])
    requires Find(rows[..|rows| - 1], rows[|rows| - 1].time).None?
    ensures forall i :: 0 <= i < |rows| && FirstOf(rows, i) ==> rows[i] in init + [rows[|rows| - 1]]
  {
    var n := |rows|;
    var p := rows[..n - 1];
    forall i | 0 <= i < n && FirstOf(rows, i)
      ensures rows[i] in init + [rows[n - 1]]
    {
      FindPrefix(rows, rows[i].time);
      if i < n - 1 {
        assert FirstOf(p, i) && p[i] == rows[i];
        assert rows[i] in init;
      }
    }
  }

  /** The rows dedup keeps stay in their original order. */
  lemma {:induction false} DropDuplicatesOrder(rows: seq<Row>)
    ensures Subsequence(DropDuplicates(rows), rows)
    decreases |rows|
  {
    if |rows| > 0 {
      var p := rows[..|rows| - 1];
      DropDuplicatesOrder(p);
      var r := DropDuplicates(rows);
      if Find(p, rows[|rows| - 1].time).None? {
        assert r[..|r| - 1] == DropDuplicates(p);
      }
    }
  }

  /** Every element of a subsequence is an element of the whole. */
  lemma SubsequenceMembers(a: seq<Row>, b: seq<Row>)
    requires Subsequence(a, b)
    ensures forall x :: x in a ==> x in b
    decreases |b|
  {
    if |a| > 0 && |b| > 0 {
      if a[|a| - 1] == b[|b| - 1] && Subsequence(a[..|a| - 1], b[..|b| - 1]) {
        SubsequenceMembers(a[..|a| - 1], b[..|b| - 1]);
        assert a == a[..|a| - 1] + [a[|a| - 1]];
        assert b == b[..|b| - 1] + [b[|b| - 1]];
      } else {
        SubsequenceMembers(a, b[..|b| - 1]);
        assert b == b[..|b| - 1] + [b[|b| - 1]];
      }
    }
  }
}
