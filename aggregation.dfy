/** The down-sampling pipeline of the data query: shift the time axis by a fixed epoch,
    sort by time, cut the rows into fixed-width windows aligned on that epoch, average
    every column of each non-empty window (the time column too), and keep the windows
    whose mean time is strictly greater than the newest one minus the lookback. */
module Aggregation {
  import opened Frames

  const NanosPerSecond: int := 1_000_000_000
  const NanosPerDay: int := 86_400 * NanosPerSecond

  /** What is added to a sample's time before windowing: the windows are aligned on an
      absolute origin a whole number of days before the samples' own origin. */
  const EpochShift: int := -719_526 * NanosPerDay

  /** Index of the window of width `w` that holds time `t`. */
  function Window(t: int, w: int): (k: int)
    requires w > 0
    ensures k * w <= t + EpochShift < k * w + w
  {
    (t + EpochShift) / w
  }

  /** Window starts are `w` apart: a later window starts at or after the end of an earlier one. */
  lemma WindowsApart(k1: int, k2: int, w: int)
    requires w > 0 && k1 < k2
    ensures k1 * w + w <= k2 * w
  {
    var d := k2 - k1 - 1;
    assert d * w >= 0;
    assert k2 * w == k1 * w + w + d * w;
  }

  /** The window of a time is the only `k` whose window holds it. */
  lemma WindowUnique(t: int, w: int, k: int)
    requires w > 0 && k * w <= t + EpochShift < k * w + w
    ensures Window(t, w) == k
  {
    var k0 := Window(t, w);
    if k0 < k {
      WindowsApart(k0, k, w);
    } else if k < k0 {
      WindowsApart(k, k0, w);
    }
  }

  /** A later time never falls in an earlier window. */
  lemma WindowMonotone(t1: int, t2: int, w: int)
    requires w > 0 && t1 <= t2
    ensures Window(t1, w) <= Window(t2, w)
  {
    var k1, k2 := Window(t1, w), Window(t2, w);
    if k1 > k2 {
      WindowsApart(k2, k1, w);
    }
  }

  predicate SortedByTime(rows: seq<Row>) {
    forall i, j :: 0 <= i < j < |rows| ==> rows[i].time <= rows[j].time
  }

  function InsertByTime(x: Row, sorted: seq<Row>): (r: seq<Row>)
    requires SortedByTime(sorted)
    ensures SortedByTime(r)
    ensures multiset(r) == multiset(sorted) + multiset{x}
    ensures r != [] && (r[0] == x || (sorted != [] && r[0] == sorted[0]))
  {
    if sorted == [] || x.time <= sorted[0].time then
      assert SortedByTime([x] + sorted) by { SortedCons(x, sorted); }
      [x] + sorted
    else
      var rest := InsertByTime(x, sorted[1..]);
      assert sorted == [sorted[0]] + sorted[1..];
      assert SortedByTime([sorted[0]] + rest) by { SortedCons(sorted[0], rest); }
      [sorted[0]] + rest
  }

  lemma SortedCons(x: Row, rows: seq<Row>)
    requires SortedByTime(rows) && (rows != [] ==> x.time <= rows[0].time)
    ensures SortedByTime([x] + rows)
  {
    var r := [x] + rows;
    forall i, j | 0 <= i < j < |r| ensures r[i].time <= r[j].time {
      if i == 0 && j > 1 {
        assert rows[0].time <= rows[j - 1].time;
      }
    }
  }

  /** The rows in time order: sorted, and the same rows with the same multiplicities. */
  function SortByTime(rows: seq<Row>): (r: seq<Row>)
    ensures SortedByTime(r)
    ensures multiset(r) == multiset(rows)
  {
    if rows == [] then []
    else
      assert rows == [rows[0]] + rows[1..];
      InsertByTime(rows[0], SortByTime(rows[1..]))
  }

  function Flatten(g: seq<seq<Row>>): seq<Row> {
    if g == [] then [] else g[0] + Flatten(g[1..])
  }

  /** The window of a run: that of its first row (a run is never empty). */
  function RunWindow(run: seq<Row>, w: int): int
    requires w > 0
  {
    if run == [] then 0 else Window(run[0].time, w)
  }

  /** `run` is non-empty and all its rows fall in one window. */
  predicate OneWindow(run: seq<Row>, w: int)
    requires w > 0
  {
    run != [] && forall j :: 0 <= j < |run| ==> Window(run[j].time, w) == RunWindow(run, w)
  }

  predicate WindowsIncrease(g: seq<seq<Row>>, w: int)
    requires w > 0
  {
    forall i, j :: 0 <= i < j < |g| ==> RunWindow(g[i], w) < RunWindow(g[j], w)
  }

  /** Cuts rows into maximal consecutive runs that share a window: concatenated again they
      give back the rows. */
  function Runs(rows: seq<Row>, w: int): (g: seq<seq<Row>>)
    requires w > 0
    ensures Flatten(g) == rows
    ensures |g| <= |rows|
    ensures forall i :: 0 <= i < |g| ==> OneWindow(g[i], w)
    ensures rows != [] ==> g != [] && RunWindow(g[0], w) == Window(rows[0].time, w)
  {
    if rows == [] then []
    else
      var rest := Runs(rows[1..], w);
      var k := Window(rows[0].time, w);
      assert rows == [rows[0]] + rows[1..];
      if rest != [] && RunWindow(rest[0], w) == k then
        var g := [[rows[0]] + rest[0]] + rest[1..];
        assert rest == [rest[0]] + rest[1..];
        assert forall i :: 1 <= i < |g| ==> g[i] == rest[i];
        g
      else
        var g := [[rows[0]]] + rest;
        assert forall i :: 1 <= i < |g| ==> g[i] == rest[i - 1];
        g
  }

  /** On time-ordered rows the runs' windows strictly increase, so no window is split over
      two runs. */
  lemma {:induction false} RunsIncrease(rows: seq<Row>, w: int)
    requires w > 0 && SortedByTime(rows)
    ensures WindowsIncrease(Runs(rows, w), w)
  {
    if rows != [] {
      var rest := Runs(rows[1..], w);
      var g := Runs(rows, w);
      var k := Window(rows[0].time, w);
      assert SortedByTime(rows[1..]);
      RunsIncrease(rows[1..], w);
      if rest != [] {
        assert rows[1..][0] == rows[1];
        WindowMonotone(rows[0].time, rows[1].time, w);
      }
      if rest != [] && RunWindow(rest[0], w) == k {
        assert forall i :: 1 <= i < |g| ==> g[i] == rest[i];
        assert RunWindow(g[0], w) == RunWindow(rest[0], w);
      } else {
        assert forall i :: 1 <= i < |g| ==> g[i] == rest[i - 1];
        forall j | 1 <= j < |g| ensures RunWindow(g[0], w) < RunWindow(g[j], w) {
          assert RunWindow(rest[0], w) <= RunWindow(rest[j - 1], w);
        }
      }
    }
  }

  datatype Bucket = Bucket(time: real, cells: seq<Option<real>>)

  function SumTimes(run: seq<Row>): int {
    if run == [] then 0 else run[0].time + SumTimes(run[1..])
  }

  /** The mean of the time column of a run, as an exact real (`MeanTimeBounds` places it). */
  function MeanTime(run: seq<Row>): real
    requires run != []
  {
    SumTimes(run) as real / |run| as real
  }

  lemma {:induction false} SumTimesBounds(run: seq<Row>, lo: int, hi: int)
    requires forall j :: 0 <= j < |run| ==> lo <= run[j].time < hi
    ensures |run| * lo <= SumTimes(run)
    ensures run != [] ==> SumTimes(run) < |run| * hi
  {
    if run != [] {
      SumTimesBounds(run[1..], lo, hi);
    }
  }

  lemma QuotientBounds(s: real, n: real, lo: real, hi: real)
    requires n > 0.0 && n * lo <= s <= n * hi
    ensures lo <= s / n <= hi
  {
  }

  lemma QuotientBelow(s: real, n: real, hi: real)
    requires n > 0.0 && s < n * hi
    ensures s / n < hi
  {
  }

  /** The mean time of rows that all lie in `[lo, hi)` lies in `[lo, hi)` too. */
  lemma MeanTimeBounds(run: seq<Row>, lo: int, hi: int)
    requires run != []
    requires forall j :: 0 <= j < |run| ==> lo <= run[j].time < hi
    ensures lo as real <= MeanTime(run) < hi as real
  {
    SumTimesBounds(run, lo, hi);
    var n := |run| as real;
    assert n * lo as real <= SumTimes(run) as real;
    assert SumTimes(run) as real < n * hi as real;
    QuotientBounds(SumTimes(run) as real, n, lo as real, hi as real);
    QuotientBelow(SumTimes(run) as real, n, hi as real);
  }

  /** Number of non-null values. */
  function Present(xs: seq<Option<real>>): nat {
    if xs == [] then 0 else (if xs[0].Some? then 1 else 0) + Present(xs[1..])
  }

  function SumPresent(xs: seq<Option<real>>): real {
    if xs == [] then 0.0 else (if xs[0].Some? then xs[0].value else 0.0) + SumPresent(xs[1..])
  }

  /** Mean of the non-null values; null exactly when every value is null. */
  function Mean(xs: seq<Option<real>>): (m: Option<real>)
    ensures m.None? <==> forall j :: 0 <= j < |xs| ==> xs[j].None?
  {
    PresentNone(xs);
    if Present(xs) == 0 then None else Some(SumPresent(xs) / Present(xs) as real)
  }

  lemma StepBounds(p: real, s: real, v: real, lo: real, hi: real)
    requires p * lo <= s <= p * hi && lo <= v <= hi
    ensures (p + 1.0) * lo <= s + v <= (p + 1.0) * hi
  {
  }

  lemma {:induction false} PresentNone(xs: seq<Option<real>>)
    ensures Present(xs) == 0 <==> forall j :: 0 <= j < |xs| ==> xs[j].None?
  {
    if xs != [] {
      PresentNone(xs[1..]);
      assert forall j :: 1 <= j < |xs| ==> xs[j] == xs[1..][j - 1];
    }
  }

  lemma {:induction false} PresentBounds(xs: seq<Option<real>>, lo: real, hi: real)
    requires forall j :: 0 <= j < |xs| && xs[j].Some? ==> lo <= xs[j].value <= hi
    ensures Present(xs) as real * lo <= SumPresent(xs) <= Present(xs) as real * hi
  {
    if xs != [] {
      assert forall j :: 1 <= j < |xs| ==> xs[j] == xs[1..][j - 1];
      PresentBounds(xs[1..], lo, hi);
      if xs[0].Some? {
        StepBounds(Present(xs[1..]) as real, SumPresent(xs[1..]), xs[0].value, lo, hi);
      }
    }
  }

  /** A column's mean ignores its null cells: it is null only when all cells are null, and
      otherwise lies between any bounds of the non-null cells. */
  lemma MeanOfPresent(xs: seq<Option<real>>, lo: real, hi: real)
    requires forall j :: 0 <= j < |xs| && xs[j].Some? ==> lo <= xs[j].value <= hi
    ensures Mean(xs).None? <==> forall j :: 0 <= j < |xs| ==> xs[j].None?
    ensures Mean(xs).Some? ==> lo <= Mean(xs).value <= hi
  {
    PresentNone(xs);
    PresentBounds(xs, lo, hi);
    if Present(xs) > 0 {
      QuotientBounds(SumPresent(xs), Present(xs) as real, lo, hi);
    }
  }

  /** Adding a null cell to a column does not change its mean. */
  lemma {:induction false} MeanSkipsNull(xs: seq<Option<real>>, ys: seq<Option<real>>)
    ensures Mean(xs + [None] + ys) == Mean(xs + ys)
  {
    PresentSkipsNull(xs, ys);
  }

  lemma {:induction false} PresentSkipsNull(xs: seq<Option<real>>, ys: seq<Option<real>>)
    ensures Present(xs + [None] + ys) == Present(xs + ys)
    ensures SumPresent(xs + [None] + ys) == SumPresent(xs + ys)
  {
    if xs == [] {
      assert xs + [None] + ys == [None] + ys && ([None] + ys)[1..] == ys;
      assert xs + ys == ys;
    } else {
      assert (xs + [None] + ys)[1..] == xs[1..] + [None] + ys;
      assert (xs + ys)[1..] == xs[1..] + ys;
      PresentSkipsNull(xs[1..], ys);
    }
  }

  /** The cells of column `j` of a run. */
  function ColumnCells(run: seq<Row>, j: nat): (xs: seq<Option<real>>)
    requires forall i :: 0 <= i < |run| ==> j < |run[i].cells|
    ensures |xs| == |run| && forall i :: 0 <= i < |run| ==> xs[i] == run[i].cells[j]
  {
    seq(|run|, i requires 0 <= i < |run| => run[i].cells[j])
  }

  /** One output row: the mean time and the mean of every channel column of a run. A
      column is null in it exactly when it is null in every row of the run. */
  function Summarise(run: seq<Row>, width: nat): (b: Bucket)
    requires run != [] && forall i :: 0 <= i < |run| ==> |run[i].cells| == width
    ensures |b.cells| == width
    ensures forall j :: 0 <= j < width ==> (b.cells[j].None? <==> forall i :: 0 <= i < |run| ==> run[i].cells[j].None?)
  {
    Bucket(MeanTime(run), seq(width, j requires 0 <= j < width => Mean(ColumnCells(run, j))))
  }

  function SummariseAll(g: seq<seq<Row>>, width: nat): (bs: seq<Bucket>)
    requires forall i :: 0 <= i < |g| ==> g[i] != [] && forall r :: r in g[i] ==> |r.cells| == width
    ensures |bs| == |g|
    ensures forall i :: 0 <= i < |g| ==> bs[i] == Summarise(g[i], width)
  {
    if g == [] then [] else [Summarise(g[0], width)] + SummariseAll(g[1..], width)
  }

  lemma {:induction false} FlattenMembers(g: seq<seq<Row>>, x: Row)
    ensures x in Flatten(g) <==> exists i :: 0 <= i < |g| && x in g[i]
  {
    if g != [] {
      FlattenMembers(g[1..], x);
      if x in Flatten(g[1..]) {
        var i :| 0 <= i < |g[1..]| && x in g[1..][i];
        assert x in g[i + 1];
      }
      if exists i :: 0 <= i < |g| && x in g[i] {
        var i :| 0 <= i < |g| && x in g[i];
        if i > 0 {
          assert x in g[1..][i - 1];
        }
      }
    }
  }

  /** The runs of a table's rows, in time order, for windows of width `w`: together they
      hold the rows with their multiplicities, each lies in one window, and the windows
      strictly increase, so no window is split over two runs. */
  function WindowRuns(rows: seq<Row>, w: int): (g: seq<seq<Row>>)
    requires w > 0
    ensures multiset(Flatten(g)) == multiset(rows)
    ensures forall i :: 0 <= i < |g| ==> OneWindow(g[i], w)
    ensures WindowsIncrease(g, w)
  {
    var sorted := SortByTime(rows);
    RunsIncrease(sorted, w);
    Runs(sorted, w)
  }

  lemma RunsWidth(f: Frame, w: int)
    requires WellFormed(f) && w > 0
    ensures var g := WindowRuns(f.rows, w);
      forall i :: 0 <= i < |g| ==> g[i] != [] && forall r :: r in g[i] ==> |r.cells| == |f.columns|
  {
    var g := WindowRuns(f.rows, w);
    forall i, r: Row | 0 <= i < |g| && r in g[i] ensures |r.cells| == |f.columns| {
      FlattenMembers(g, r);
      assert r in multiset(Flatten(g));
      assert r in multiset(f.rows);
    }
  }

  /** The windowed means of a table, one per non-empty window, in window order. */
  function Buckets(f: Frame, w: int): (bs: seq<Bucket>)
    requires WellFormed(f) && w > 0
    ensures |bs| == |WindowRuns(f.rows, w)| && |bs| <= |f.rows|
    ensures forall i :: 0 <= i < |bs| ==> |bs[i].cells| == |f.columns|
  {
    RunsWidth(f, w);
    assert |SortByTime(f.rows)| == |f.rows| by {
      assert |multiset(SortByTime(f.rows))| == |multiset(f.rows)|;
    }
    SummariseAll(WindowRuns(f.rows, w), |f.columns|)
  }

  /** When runs are a rearrangement of `rows`, each in one window and with strictly
      increasing windows, run `i` holds exactly the rows of its window. */
  lemma RunHoldsWindow(rows: seq<Row>, g: seq<seq<Row>>, w: int, i: nat, x: Row)
    requires w > 0 && i < |g|
    requires multiset(Flatten(g)) == multiset(rows)
    requires forall j :: 0 <= j < |g| ==> OneWindow(g[j], w)
    requires WindowsIncrease(g, w)
    ensures x in g[i] <==> x in rows && Window(x.time, w) == RunWindow(g[i], w)
  {
    FlattenMembers(g, x);
    assert x in rows <==> x in Flatten(g) by {
      assert x in rows <==> x in multiset(rows);
      assert x in Flatten(g) <==> x in multiset(Flatten(g));
    }
    if x in g[i] {
      RunMemberWindow(g[i], w, x);
      assert x in Flatten(g);
    }
    if x in rows && Window(x.time, w) == RunWindow(g[i], w) {
      var j :| 0 <= j < |g| && x in g[j];
      RunMemberWindow(g[j], w, x);
      WindowsInjective(g, w, i, j);
    }
  }

  /** A row that lies in no run but run `i` occurs in the flattened runs as often as in
      run `i`. */
  lemma {:induction false} FlattenCountOne(g: seq<seq<Row>>, i: nat, x: Row)
    requires i < |g| && forall j :: 0 <= j < |g| && j != i ==> x !in g[j]
    ensures multiset(Flatten(g))[x] == multiset(g[i])[x]
  {
    assert multiset(Flatten(g)) == multiset(g[0]) + multiset(Flatten(g[1..]));
    forall j | 0 <= j < |g[1..]| ensures g[1..][j] == g[j + 1] { }
    if i == 0 {
      FlattenCountNone(g[1..], x);
    } else {
      assert x !in multiset(g[0]);
      FlattenCountOne(g[1..], i - 1, x);
    }
  }

  /** A row that lies in no run does not occur in the flattened runs. */
  lemma {:induction false} FlattenCountNone(g: seq<seq<Row>>, x: Row)
    requires forall j :: 0 <= j < |g| ==> x !in g[j]
    ensures multiset(Flatten(g))[x] == 0
  {
    if g != [] {
      assert multiset(Flatten(g)) == multiset(g[0]) + multiset(Flatten(g[1..]));
      assert x !in multiset(g[0]);
      forall j | 0 <= j < |g[1..]| ensures x !in g[1..][j] {
        assert g[1..][j] == g[j + 1];
      }
      FlattenCountNone(g[1..], x);
    }
  }

  /** When runs are a rearrangement of `rows`, each in one window and with strictly
      increasing windows, run `i` holds every row of its window as many times as `rows`
      does, and no other row. */
  lemma RunCountsWindow(rows: seq<Row>, g: seq<seq<Row>>, w: int, i: nat, x: Row)
    requires w > 0 && i < |g|
    requires multiset(Flatten(g)) == multiset(rows)
    requires forall j :: 0 <= j < |g| ==> OneWindow(g[j], w)
    requires WindowsIncrease(g, w)
    ensures multiset(g[i])[x] == if Window(x.time, w) == RunWindow(g[i], w) then multiset(rows)[x] else 0
  {
    if Window(x.time, w) == RunWindow(g[i], w) {
      forall j | 0 <= j < |g| && j != i ensures x !in g[j] {
        if x in g[j] {
          RunMemberWindow(g[j], w, x);
        }
      }
      FlattenCountOne(g, i, x);
    } else if x in g[i] {
      RunMemberWindow(g[i], w, x);
    }
  }

  lemma WindowsInjective(g: seq<seq<Row>>, w: int, i: nat, j: nat)
    requires w > 0 && i < |g| && j < |g| && WindowsIncrease(g, w)
    ensures RunWindow(g[i], w) == RunWindow(g[j], w) ==> i == j
  {
  }

  lemma RunMemberWindow(run: seq<Row>, w: int, x: Row)
    requires w > 0 && OneWindow(run, w) && x in run
    ensures Window(x.time, w) == RunWindow(run, w)
  {
    var p :| 0 <= p < |run| && run[p] == x;
  }

  /** Run `i` of a table holds exactly the table's rows that fall in its window, each as
      many times as the table holds it, so duplicate samples weigh in its means. */
  lemma WindowRunExact(f: Frame, w: int, i: nat, x: Row)
    requires w > 0 && i < |WindowRuns(f.rows, w)|
    ensures var g := WindowRuns(f.rows, w);
      x in g[i] <==> x in f.rows && Window(x.time, w) == RunWindow(g[i], w)
    ensures var g := WindowRuns(f.rows, w);
      multiset(g[i])[x] == if Window(x.time, w) == RunWindow(g[i], w) then multiset(f.rows)[x] else 0
  {
    var sorted := SortByTime(f.rows);
    RunsIncrease(sorted, w);
    RunHoldsWindow(f.rows, Runs(sorted, w), w, i, x);
    RunCountsWindow(f.rows, Runs(sorted, w), w, i, x);
  }

  /** The mean time of bucket `i` lies inside the window of run `i`. */
  lemma BucketInWindow(f: Frame, w: int, i: nat)
    requires WellFormed(f) && w > 0 && i < |Buckets(f, w)|
    ensures var g := WindowRuns(f.rows, w); var k := RunWindow(g[i], w);
      (k * w - EpochShift) as real <= Buckets(f, w)[i].time < (k * w + w - EpochShift) as real
  {
    var g := WindowRuns(f.rows, w);
    RunsWidth(f, w);
    assert Buckets(f, w) == SummariseAll(g, |f.columns|);
    assert Buckets(f, w)[i].time == MeanTime(g[i]);
    var k := RunWindow(g[i], w);
    var lo, hi := k * w - EpochShift, k * w + w - EpochShift;
    assert OneWindow(g[i], w);
    forall j | 0 <= j < |g[i]| ensures lo <= g[i][j].time < hi {
      assert Window(g[i][j].time, w) == k;
    }
    MeanTimeBounds(g[i], lo, hi);
  }

  /** Bucket times strictly increase: windows are disjoint and visited in order. */
  lemma BucketsIncreasing(f: Frame, w: int, i: nat, j: nat)
    requires WellFormed(f) && w > 0 && i < j < |Buckets(f, w)|
    ensures Buckets(f, w)[i].time < Buckets(f, w)[j].time
  {
    var g := WindowRuns(f.rows, w);
    RunsIncrease(SortByTime(f.rows), w);
    BucketInWindow(f, w, i);
    BucketInWindow(f, w, j);
    WindowsApart(RunWindow(g[i], w), RunWindow(g[j], w), w);
  }

  /** Greatest time among the first `n` buckets, one of theirs. */
  function LatestUpTo(bs: seq<Bucket>, n: nat): (m: real)
    requires 0 < n <= |bs|
    ensures forall i :: 0 <= i < n ==> bs[i].time <= m
    ensures exists i :: 0 <= i < n && bs[i].time == m
  {
    if n == 1 then bs[0].time
    else
      var m := LatestUpTo(bs, n - 1);
      if bs[n - 1].time >= m then bs[n - 1].time else m
  }

  /** Greatest bucket time. */
  function Latest(bs: seq<Bucket>): (m: real)
    requires bs != []
    ensures forall i :: 0 <= i < |bs| ==> bs[i].time <= m
    ensures exists i :: 0 <= i < |bs| && bs[i].time == m
  {
    LatestUpTo(bs, |bs|)
  }

  /** The buckets among the first `n` whose time is strictly greater than `cutoff`, in order. */
  function NewerBucketsUpTo(bs: seq<Bucket>, cutoff: real, n: nat): (r: seq<Bucket>)
    requires n <= |bs|
    ensures |r| <= n
    ensures forall b {:trigger b in r} :: b in r <==> b in bs[..n] && b.time > cutoff
  {
    if n == 0 then []
    else
      var r := NewerBucketsUpTo(bs, cutoff, n - 1);
      assert bs[..n] == bs[..n - 1] + [bs[n - 1]];
      if bs[n - 1].time > cutoff then r + [bs[n - 1]] else r
  }

  /** The buckets whose time is strictly greater than `cutoff`, in order: a bucket is kept
      exactly when it is strictly newer than the cut-off. */
  function NewerBuckets(bs: seq<Bucket>, cutoff: real): (r: seq<Bucket>)
    ensures |r| <= |bs|
    ensures forall b {:trigger b in r} :: b in r <==> b in bs && b.time > cutoff
  {
    assert bs[..|bs|] == bs;
    NewerBucketsUpTo(bs, cutoff, |bs|)
  }

  predicate Increasing(bs: seq<Bucket>) {
    forall i, j :: 0 <= i < j < |bs| ==> bs[i].time < bs[j].time
  }

  lemma {:induction false} NewerBucketsUpToSuffix(bs: seq<Bucket>, cutoff: real, n: nat) returns (s: nat)
    requires n <= |bs| && Increasing(bs)
    ensures s <= n && NewerBucketsUpTo(bs, cutoff, n) == bs[s..n]
    ensures forall i :: 0 <= i < s ==> bs[i].time <= cutoff
    ensures forall i :: s <= i < n ==> bs[i].time > cutoff
  {
    if n == 0 {
      s := 0;
    } else {
      var t := NewerBucketsUpToSuffix(bs, cutoff, n - 1);
      var r := NewerBucketsUpTo(bs, cutoff, n - 1);
      if bs[n - 1].time > cutoff {
        s := t;
        assert NewerBucketsUpTo(bs, cutoff, n) == r + [bs[n - 1]];
        assert bs[s..n] == bs[s..n - 1] + [bs[n - 1]];
      } else {
        s := n;
        assert NewerBucketsUpTo(bs, cutoff, n) == r;
        forall i | 0 <= i < n - 1
          ensures bs[i].time <= cutoff
        {
          assert bs[i].time < bs[n - 1].time;
        }
        assert t == n - 1;
      }
    }
  }

  /** On buckets in time order, the lookback filter keeps a suffix: the most recent
      buckets, all of them newer than the cutoff, and none older. */
  lemma NewerBucketsSuffix(bs: seq<Bucket>, cutoff: real) returns (s: nat)
    requires Increasing(bs)
    ensures s <= |bs| && NewerBuckets(bs, cutoff) == bs[s..]
    ensures forall i :: 0 <= i < s ==> bs[i].time <= cutoff
    ensures forall i :: s <= i < |bs| ==> bs[i].time > cutoff
  {
    s := NewerBucketsUpToSuffix(bs, cutoff, |bs|);
    assert NewerBuckets(bs, cutoff) == NewerBucketsUpTo(bs, cutoff, |bs|);
    assert |bs[s..]| == |bs| - s;
    assert bs[s..|bs|] == bs[s..];
  }

  /** The buckets kept for a lookback: exactly those strictly newer than the newest bucket
      minus the lookback. */
  function Recent(bs: seq<Bucket>, lookback: real): (r: seq<Bucket>)
    ensures |r| <= |bs|
    ensures bs == [] ==> r == []
    ensures bs != [] ==> forall b {:trigger b in r} :: b in r <==> b in bs && b.time > Latest(bs) - lookback
  {
    if bs == [] then [] else NewerBuckets(bs, Latest(bs) - lookback)
  }

  lemma RecentWidth(bs: seq<Bucket>, lookback: real, n: nat)
    requires forall i :: 0 <= i < |bs| ==> |bs[i].cells| == n
    ensures forall b :: b in Recent(bs, lookback) ==> |b.cells| == n
  {
    if bs != [] {
      NewerBucketsWidth(bs, Latest(bs) - lookback, n);
    }
  }

  /** The down-sampled view, or nothing when it cannot be computed: the table has no time
      column, or the window width is not positive. */
  function Aggregate(f: Frame, w: int, lookback: int): (r: Option<seq<Bucket>>)
    requires WellFormed(f)
    ensures r.None? <==> !f.timed || w <= 0
    ensures r.Some? ==> |r.value| <= |f.rows|
    ensures r.Some? ==> forall b :: b in r.value ==> |b.cells| == |f.columns|
    ensures f.timed && w > 0 && f.rows == [] ==> r == Some([])
  {
    if !f.timed || w <= 0 then None
    else
      var bs := Buckets(f, w);
      RecentWidth(bs, lookback as real, |f.columns|);
      Some(Recent(bs, lookback as real))
  }

  lemma NewerBucketsWidth(bs: seq<Bucket>, cutoff: real, n: nat)
    requires forall i :: 0 <= i < |bs| ==> |bs[i].cells| == n
    ensures forall b :: b in NewerBuckets(bs, cutoff) ==> |b.cells| == n
  {
  }

  lemma BucketsOrdered(f: Frame, w: int)
    requires WellFormed(f) && w > 0
    ensures Increasing(Buckets(f, w))
  {
    forall i, j | 0 <= i < j < |Buckets(f, w)| ensures Buckets(f, w)[i].time < Buckets(f, w)[j].time {
      BucketsIncreasing(f, w, i, j);
    }
  }

  lemma LatestIsLast(bs: seq<Bucket>)
    requires Increasing(bs) && bs != []
    ensures Latest(bs) == bs[|bs| - 1].time
  {
    var i :| 0 <= i < |bs| && bs[i].time == Latest(bs);
    if i < |bs| - 1 {
      assert bs[i].time < bs[|bs| - 1].time;
    }
  }

  /** On buckets in time order, the lookback keeps a suffix: from the first bucket whose
      time is strictly greater than the newest time minus the lookback; every bucket before
      it is at or before that cutoff. With a positive lookback the newest is always kept. */
  lemma RecentSuffix(bs: seq<Bucket>, lookback: real) returns (s: nat)
    requires Increasing(bs) && bs != []
    ensures var cutoff := bs[|bs| - 1].time - lookback;
      && s <= |bs| && Recent(bs, lookback) == bs[s..]
      && (forall i :: 0 <= i < s ==> bs[i].time <= cutoff)
      && (forall i :: s <= i < |bs| ==> bs[i].time > cutoff)
      && (lookback > 0.0 ==> s < |bs|)
  {
    LatestIsLast(bs);
    var cutoff := Latest(bs) - lookback;
    assert Recent(bs, lookback) == NewerBuckets(bs, cutoff);
    s := NewerBucketsSuffix(bs, cutoff);
    if lookback > 0.0 {
      assert bs[|bs| - 1].time > cutoff;
    }
  }

  /** The down-sampled view of a non-empty table keeps the most recent buckets: a suffix
      of all the buckets, cut where the mean times stop being more than the lookback older
      than the newest bucket. With a positive lookback the newest bucket is always kept. */
  lemma AggregateKeepsRecent(f: Frame, w: int, lookback: int) returns (s: nat)
    requires WellFormed(f) && f.timed && w > 0 && f.rows != []
    ensures var bs := Buckets(f, w); var cutoff := bs[|bs| - 1].time - lookback as real;
      && bs != [] && s <= |bs|
      && Aggregate(f, w, lookback) == Some(bs[s..])
      && (forall i :: 0 <= i < s ==> bs[i].time <= cutoff)
      && (forall i :: s <= i < |bs| ==> bs[i].time > cutoff)
      && (lookback > 0 ==> s < |bs|)
  {
    var bs := Buckets(f, w);
    assert |WindowRuns(f.rows, w)| > 0;
    BucketsOrdered(f, w);
    s := RecentSuffix(bs, lookback as real);
  }

  /** Two samples one second apart, with acc_x 1.0 and 3.0, in two-second windows with a
      ten-second lookback, give one bucket whose acc_x is 2.0 and whose time is half a
      second. */
  lemma TwoSampleExample()
    ensures
      var acc := [Column("acc_x", Float32)];
      var f := Frame(true, acc, [Row(0, [Some(1.0)]), Row(NanosPerSecond, [Some(3.0)])]);
      && WellFormed(f)
      && Aggregate(f, 2 * NanosPerSecond, 10 * NanosPerSecond)
         == Some([Bucket(500_000_000.0, [Some(2.0)])])
  {
    var acc := [Column("acc_x", Float32)];
    var f := Frame(true, acc, ExampleRows);
    assert Names(acc) == ["acc_x"];
    assert WellFormed(f);
    ExampleRuns();
    ExampleSummary();
    var b := Bucket(500_000_000.0, [Some(2.0)]);
    assert Buckets(f, 2 * NanosPerSecond) == [b];
    assert NewerBuckets([b], 500_000_000.0 - (10 * NanosPerSecond) as real) == [b];
  }

  const ExampleRows: seq<Row> := [Row(0, [Some(1.0)]), Row(NanosPerSecond, [Some(3.0)])]

  lemma ExampleRuns()
    ensures WindowRuns(ExampleRows, 2 * NanosPerSecond) == [ExampleRows]
  {
    var r1 := ExampleRows[1];
    var w := 2 * NanosPerSecond;
    ExampleSorted();
    assert Window(0, w) == Window(NanosPerSecond, w) by { ExampleWindow(); }
    assert Runs([r1], w) == [[r1]];
    assert ExampleRows[1..] == [r1];
  }

  lemma ExampleSorted()
    ensures SortByTime(ExampleRows) == ExampleRows
  {
    var r0, r1 := ExampleRows[0], ExampleRows[1];
    assert SortByTime([r1]) == [r1];
    assert ExampleRows[1..] == [r1];
    assert SortByTime(ExampleRows) == InsertByTime(r0, [r1]);
  }

  /** Both samples lie in the same two-second window: the epoch lies a whole number of
      days, so a whole number of two-second windows, before time zero. */
  lemma ExampleWindow()
    ensures Window(0, 2 * NanosPerSecond) == Window(NanosPerSecond, 2 * NanosPerSecond) == -719_526 * 43_200
  {
    var w := 2 * NanosPerSecond;
    var k := -719_526 * 43_200;
    assert k * w == EpochShift;
    assert k * w <= 0 + EpochShift < k * w + w;
    assert k * w <= NanosPerSecond + EpochShift < k * w + w;
    WindowUnique(0, w, k);
    WindowUnique(NanosPerSecond, w, k);
  }

  lemma ExampleSummary()
    ensures Summarise(ExampleRows, 1) == Bucket(500_000_000.0, [Some(2.0)])
  {
    var r0, r1 := ExampleRows[0], ExampleRows[1];
    assert ExampleRows[1..] == [r1] && [r1][1..] == [];
    assert SumTimes([r1]) == NanosPerSecond;
    assert SumTimes(ExampleRows) == NanosPerSecond;
    assert ColumnCells(ExampleRows, 0) == [Some(1.0), Some(3.0)];
    assert Present([Some(1.0), Some(3.0)]) == 2;
    assert SumPresent([Some(1.0), Some(3.0)]) == 4.0;
  }
}
