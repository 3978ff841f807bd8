/** A sample table as the telemetry buffer stores it, and the two table operations
    the buffer is built from: the diagonal concatenation that appends a batch and the
    filter that keeps the rows newer than `max(time) - d`.

    A table is row-oriented here: every row has an integer-nanosecond `time` (the
    "time" column, never null in a decoded batch) and one cell per channel column,
    `None` standing for a null cell. */
module Frames {

  datatype Option<T> = None | Some(value: T)

  datatype Error =
    | SchemaMismatch    // two tables give one column name two different dtypes
    | ColumnNotFound    // an expression names a column the table does not have

  datatype Result<T> = Ok(value: T) | Err(error: Error)

  type Name = string

  const TimeColumn: Name := "time"

  /** The dtype a channel column carries; only used to decide whether two tables can be stacked. */
  datatype DType = Float32 | Float64

  datatype Column = Column(name: Name, dtype: DType)

  datatype Row = Row(time: int, cells: seq<Option<real>>)

  /** `timed` tells whether the table has a "time" column at all: the empty table has no columns. */
  datatype Frame = Frame(timed: bool, columns: seq<Column>, rows: seq<Row>)

  function Names(cols: seq<Column>): (r: seq<Name>)
    ensures |r| == |cols|
    ensures forall i :: 0 <= i < |cols| ==> r[i] == cols[i].name
  {
    seq(|cols|, i requires 0 <= i < |cols| => cols[i].name)
  }

  predicate DistinctNames(cols: seq<Column>) {
    forall i, j :: 0 <= i < j < |cols| ==> cols[i].name != cols[j].name
  }

  /** The table invariant: distinct channel names, none of them "time", every row as wide
      as the schema, and rows only in a table that has a "time" column. */
  predicate WellFormed(f: Frame) {
    && DistinctNames(f.columns)
    && TimeColumn !in Names(f.columns)
    && (forall i :: 0 <= i < |f.rows| ==> |f.rows[i].cells| == |f.columns|)
    && (f.rows != [] ==> f.timed)
  }

  /** The table with no columns and no rows. */
  function Empty(): (f: Frame)
    ensures WellFormed(f) && f.rows == [] && f.columns == [] && !f.timed
  {
    Frame(false, [], [])
  }

  /** Position of the column called `n`. */
  function Find(cols: seq<Column>, n: Name): (r: Option<nat>)
    ensures r.Some? ==> r.value < |cols| && cols[r.value].name == n
    ensures r.None? <==> n !in Names(cols)
  {
    if cols == [] then None
    else if cols[0].name == n then Some(0)
    else match Find(cols[1..], n)
      case None => assert Names(cols) == [cols[0].name] + Names(cols[1..]); None
      case Some(j) => Some(j + 1)
  }

  /** The cell of row `i` in the column called `n`; null when the table has no such column. */
  function Cell(f: Frame, i: nat, n: Name): Option<real>
    requires WellFormed(f) && i < |f.rows|
  {
    match Find(f.columns, n)
    case None => None
    case Some(j) => f.rows[i].cells[j]
  }

  /** Two schemas can be stacked when every name they share has one dtype. */
  predicate Compatible(a: seq<Column>, b: seq<Column>) {
    forall i, j :: 0 <= i < |a| && 0 <= j < |b| && a[i].name == b[j].name ==> a[i].dtype == b[j].dtype
  }

  /** The columns of `b` whose names `a` lacks, in `b`'s order. */
  function Added(a: seq<Column>, b: seq<Column>): (r: seq<Column>)
    ensures forall c :: c in r <==> c in b && c.name !in Names(a)
    ensures DistinctNames(b) ==> DistinctNames(r)
  {
    if b == [] then []
    else if b[0].name in Names(a) then Added(a, b[1..])
    else
      var rest := Added(a, b[1..]);
      assert forall c :: c in rest ==> c in b[1..];
      [b[0]] + rest
  }

  lemma NamesAppend(x: seq<Column>, y: seq<Column>)
    ensures Names(x + y) == Names(x) + Names(y)
  {
  }

  lemma {:induction false} AddedNames(a: seq<Column>, b: seq<Column>, n: Name)
    ensures n in Names(Added(a, b)) <==> n in Names(b) && n !in Names(a)
  {
    var extra := Added(a, b);
    if n in Names(extra) {
      var k :| 0 <= k < |extra| && Names(extra)[k] == n;
      assert extra[k] in b;
      var j :| 0 <= j < |b| && b[j] == extra[k];
      assert Names(b)[j] == n;
    }
    if n in Names(b) && n !in Names(a) {
      var j :| 0 <= j < |b| && Names(b)[j] == n;
      assert b[j] in extra;
      var k :| 0 <= k < |extra| && extra[k] == b[j];
      assert Names(extra)[k] == n;
    }
  }

  /** The schema of a diagonal concatenation: `a`'s columns, then the new ones of `b`. */
  function Union(a: seq<Column>, b: seq<Column>): (r: seq<Column>)
    requires DistinctNames(a) && DistinctNames(b)
    ensures DistinctNames(r)
    ensures |a| <= |r| && r[..|a|] == a
    ensures forall n :: n in Names(r) <==> n in Names(a) || n in Names(b)
    ensures Compatible(a, b) ==> forall c :: c in r <==> c in a || c in b
  {
    var extra := Added(a, b);
    var r := a + extra;
    NamesAppend(a, extra);
    forall i, j | 0 <= i < j < |r| ensures r[i].name != r[j].name {
      if j >= |a| && i < |a| {
        assert r[j] in extra;
        assert r[i].name == Names(a)[i];
      }
    }
    forall n ensures n in Names(r) <==> n in Names(a) || n in Names(b) {
      AddedNames(a, b, n);
    }
    forall c | Compatible(a, b) && c in b ensures c in r {
      if c.name in Names(a) {
        var i :| 0 <= i < |a| && Names(a)[i] == c.name;
        var j :| 0 <= j < |b| && b[j] == c;
        assert a[i] == c;
      } else {
        assert c in extra;
      }
    }
    r
  }

  /** `r` laid out for the schema `to`: the cell of every column it came with, null elsewhere. */
  function Reindex(r: Row, from: seq<Column>, to: seq<Column>): (s: Row)
    requires |r.cells| == |from|
    ensures s.time == r.time && |s.cells| == |to|
  {
    Row(r.time, seq(|to|, j requires 0 <= j < |to| =>
      match Find(from, to[j].name)
      case None => None
      case Some(p) => r.cells[p]))
  }

  function ReindexAll(rows: seq<Row>, from: seq<Column>, to: seq<Column>): (s: seq<Row>)
    requires forall i :: 0 <= i < |rows| ==> |rows[i].cells| == |from|
    ensures |s| == |rows|
    ensures forall i :: 0 <= i < |rows| ==> s[i] == Reindex(rows[i], from, to)
  {
    if rows == [] then [] else [Reindex(rows[0], from, to)] + ReindexAll(rows[1..], from, to)
  }

  /** Diagonal concatenation: the rows of `a` in order, then the rows of `b` in order, over
      the union of both schemas; a row gets a null cell in every column its table lacked.
      It fails, producing nothing, when the schemas give a shared name two dtypes. */
  function Concat(a: Frame, b: Frame): (r: Result<Frame>)
    requires WellFormed(a) && WellFormed(b)
    ensures r.Err? <==> !Compatible(a.columns, b.columns)
    ensures r.Ok? ==> WellFormed(r.value) && r.value.timed == (a.timed || b.timed)
    ensures r.Ok? ==> |r.value.rows| == |a.rows| + |b.rows|
    ensures r.Ok? ==> |a.columns| <= |r.value.columns| && r.value.columns[..|a.columns|] == a.columns
    ensures r.Ok? ==> forall c :: c in r.value.columns <==> c in a.columns || c in b.columns
  {
    if !Compatible(a.columns, b.columns) then Err(SchemaMismatch)
    else
      var cols := Union(a.columns, b.columns);
      var f := Frame(a.timed || b.timed, cols,
                     ReindexAll(a.rows, a.columns, cols) + ReindexAll(b.rows, b.columns, cols));
      assert TimeColumn !in Names(cols);
      Ok(f)
  }

  lemma ReindexCell(row: Row, from: seq<Column>, to: seq<Column>, n: Name)
    requires |row.cells| == |from| && DistinctNames(to)
    requires forall m :: m in Names(from) ==> m in Names(to)
    ensures
      var s := Reindex(row, from, to);
      (match Find(to, n) case None => None case Some(j) => s.cells[j])
      == (match Find(from, n) case None => None case Some(p) => row.cells[p])
  {
  }

  /** Row `i` of a concatenation is row `i` of the old table when `i` is below its row
      count and row `i - |a.rows|` of the new one otherwise: same time, and in every column
      the same cell, which is null where that row's own table had no such column. */
  lemma ConcatCell(a: Frame, b: Frame, i: nat, n: Name)
    requires WellFormed(a) && WellFormed(b) && Concat(a, b).Ok?
    requires i < |a.rows| + |b.rows|
    ensures var r := Concat(a, b).value;
      if i < |a.rows| then r.rows[i].time == a.rows[i].time && Cell(r, i, n) == Cell(a, i, n)
      else r.rows[i].time == b.rows[i - |a.rows|].time && Cell(r, i, n) == Cell(b, i - |a.rows|, n)
  {
    var cols := Union(a.columns, b.columns);
    var top, bottom := ReindexAll(a.rows, a.columns, cols), ReindexAll(b.rows, b.columns, cols);
    assert Concat(a, b).value == Frame(a.timed || b.timed, cols, top + bottom);
    if i < |a.rows| {
      assert (top + bottom)[i] == Reindex(a.rows[i], a.columns, cols);
      ReindexCell(a.rows[i], a.columns, cols, n);
    } else {
      var k := i - |a.rows|;
      assert (top + bottom)[i] == Reindex(b.rows[k], b.columns, cols);
      ReindexCell(b.rows[k], b.columns, cols, n);
    }
  }

  /** Greatest time among the first `n` rows. */
  function MaxTimeUpTo(rows: seq<Row>, n: nat): (m: int)
    requires 0 < n <= |rows|
    ensures forall i :: 0 <= i < n ==> rows[i].time <= m
  {
    if n == 1 then rows[0].time
    else
      var m := MaxTimeUpTo(rows, n - 1);
      if rows[n - 1].time >= m then rows[n - 1].time else m
  }

  /** Greatest time of a non-empty row sequence: no row is newer (`MaxTimeAttained` adds
      that some row has exactly this time). */
  function MaxTime(rows: seq<Row>): (m: int)
    requires rows != []
    ensures forall i :: 0 <= i < |rows| ==> rows[i].time <= m
  {
    MaxTimeUpTo(rows, |rows|)
  }

  /** Some row among the first `n` carries their greatest time; `i` is one. */
  lemma {:induction false} MaxTimeUpToAttained(rows: seq<Row>, n: nat) returns (i: nat)
    requires 0 < n <= |rows|
    ensures i < n && rows[i].time == MaxTimeUpTo(rows, n)
  {
    if n == 1 {
      i := 0;
    } else if rows[n - 1].time >= MaxTimeUpTo(rows, n - 1) {
      i := n - 1;
    } else {
      i := MaxTimeUpToAttained(rows, n - 1);
    }
  }

  /** The greatest time is the time of some row. */
  lemma MaxTimeAttained(rows: seq<Row>)
    requires rows != []
    ensures exists i :: 0 <= i < |rows| && rows[i].time == MaxTime(rows)
  {
    var i := MaxTimeUpToAttained(rows, |rows|);
  }

  /** A row at least as new as every other row carries the greatest time. */
  lemma MaxTimeIs(rows: seq<Row>, k: nat)
    requires k < |rows|
    requires forall i :: 0 <= i < |rows| ==> rows[i].time <= rows[k].time
    ensures MaxTime(rows) == rows[k].time
  {
    MaxTimeAttained(rows);
  }

  /** The rows among the first `n` whose time is strictly greater than `cutoff`, in their order. */
  function NewerThanUpTo(rows: seq<Row>, cutoff: int, n: nat): (r: seq<Row>)
    requires n <= |rows|
    ensures |r| <= n
    ensures forall i :: 0 <= i < |r| ==> r[i].time > cutoff
  {
    if n == 0 then []
    else
      var r := NewerThanUpTo(rows, cutoff, n - 1);
      if rows[n - 1].time > cutoff then r + [rows[n - 1]] else r
  }

  /** The rows whose time is strictly greater than `cutoff`, in their order: no more rows
      than were there, and every kept row is strictly newer than the cut-off, so a row at the
      cut-off itself is dropped (`NewerThanMembers` adds that exactly the newer rows are kept). */
  function NewerThan(rows: seq<Row>, cutoff: int): (r: seq<Row>)
    ensures |r| <= |rows|
    ensures forall i :: 0 <= i < |r| ==> r[i].time > cutoff
  {
    NewerThanUpTo(rows, cutoff, |rows|)
  }

  lemma {:induction false} NewerThanUpToMembers(rows: seq<Row>, cutoff: int, n: nat)
    requires n <= |rows|
    ensures forall x :: x in NewerThanUpTo(rows, cutoff, n) <==> x in rows[..n] && x.time > cutoff
  {
    if n > 0 {
      NewerThanUpToMembers(rows, cutoff, n - 1);
      assert rows[..n] == rows[..n - 1] + [rows[n - 1]];
    }
  }

  /** A row is kept exactly when it was there and is strictly newer than the cutoff: a row
      at the cutoff itself is dropped. */
  lemma NewerThanMembers(rows: seq<Row>, cutoff: int)
    ensures forall x :: x in NewerThan(rows, cutoff) <==> x in rows && x.time > cutoff
  {
    NewerThanUpToMembers(rows, cutoff, |rows|);
    assert rows[..|rows|] == rows;
  }

  /** Keeps the rows whose time is strictly greater than `max(time) - d`; a table without a
      "time" column cannot be filtered on it. */
  function Trim(f: Frame, d: int): (r: Result<Frame>)
    requires WellFormed(f)
    ensures r.Err? <==> !f.timed
    ensures r.Ok? ==> WellFormed(r.value) && r.value.timed && r.value.columns == f.columns
    ensures r.Ok? && f.rows == [] ==> r.value.rows == []
  {
    if !f.timed then Err(ColumnNotFound)
    else if f.rows == [] then Ok(f)
    else
      var g := f.(rows := NewerThan(f.rows, MaxTime(f.rows) - d));
      assert WellFormed(g) by { NewerThanMembers(f.rows, MaxTime(f.rows) - d); }
      Ok(g)
  }

  /** After a trim the table holds exactly the rows whose time is strictly greater than the
      old newest time minus `d`; rows at that boundary are gone. */
  lemma TrimKeepsExactly(f: Frame, d: int)
    requires WellFormed(f) && f.timed && f.rows != []
    ensures forall x :: x in Trim(f, d).value.rows <==> x in f.rows && x.time > MaxTime(f.rows) - d
  {
    NewerThanMembers(f.rows, MaxTime(f.rows) - d);
  }

  /** The filter of the first `n` rows looks at nothing beyond them. */
  lemma {:induction false} NewerThanUpToPrefix(s: seq<Row>, t: seq<Row>, cutoff: int, n: nat)
    requires n <= |s| && n <= |t|
    requires forall i :: 0 <= i < n ==> s[i] == t[i]
    ensures NewerThanUpTo(s, cutoff, n) == NewerThanUpTo(t, cutoff, n)
  {
    if n > 0 {
      NewerThanUpToPrefix(s, t, cutoff, n - 1);
    }
  }

  lemma {:induction false} NewerThanUpToAppend(a: seq<Row>, b: seq<Row>, cutoff: int, k: nat)
    requires k <= |b|
    ensures NewerThanUpTo(a + b, cutoff, |a| + k) == NewerThan(a, cutoff) + NewerThanUpTo(b, cutoff, k)
  {
    var ab := a + b;
    if k == 0 {
      NewerThanUpToPrefix(ab, a, cutoff, |a|);
    } else {
      NewerThanUpToAppend(a, b, cutoff, k - 1);
      var x := b[k - 1];
      assert ab[|a| + k - 1] == x;
      var r := NewerThanUpTo(ab, cutoff, |a| + k - 1);
      var q := NewerThanUpTo(b, cutoff, k - 1);
      assert r == NewerThan(a, cutoff) + q;
      if x.time > cutoff {
        assert NewerThanUpTo(ab, cutoff, |a| + k) == r + [x];
        assert NewerThanUpTo(b, cutoff, k) == q + [x];
        assert r + [x] == NewerThan(a, cutoff) + (q + [x]);
      } else {
        assert NewerThanUpTo(ab, cutoff, |a| + k) == r;
        assert NewerThanUpTo(b, cutoff, k) == q;
      }
    }
  }

  /** Filtering commutes with concatenation, so the kept rows stay in their relative order. */
  lemma NewerThanAppend(a: seq<Row>, b: seq<Row>, cutoff: int)
    ensures NewerThan(a + b, cutoff) == NewerThan(a, cutoff) + NewerThan(b, cutoff)
  {
    NewerThanUpToAppend(a, b, cutoff, |b|);
  }

  lemma {:induction false} NewerThanUpToNone(rows: seq<Row>, cutoff: int, n: nat)
    requires n <= |rows|
    requires forall i :: 0 <= i < n ==> rows[i].time <= cutoff
    ensures NewerThanUpTo(rows, cutoff, n) == []
  {
    if n > 0 {
      NewerThanUpToNone(rows, cutoff, n - 1);
    }
  }

  lemma NewerThanNone(rows: seq<Row>, cutoff: int)
    requires forall i :: 0 <= i < |rows| ==> rows[i].time <= cutoff
    ensures NewerThan(rows, cutoff) == []
  {
    NewerThanUpToNone(rows, cutoff, |rows|);
  }

  /** With a positive retention the newest row survives the trim, so the newest time does
      not move. */
  lemma TrimKeepsNewest(f: Frame, d: int)
    requires WellFormed(f) && f.timed && f.rows != [] && d > 0
    ensures Trim(f, d).Ok? && Trim(f, d).value.rows != []
    ensures MaxTime(Trim(f, d).value.rows) == MaxTime(f.rows)
  {
    TrimRows(f, d);
    NewerThanKeepsMax(f.rows, d);
  }

  lemma {:induction false} NewerThanUpToBelow(rows: seq<Row>, cutoff: int, m: int, n: nat)
    requires n <= |rows|
    requires forall i :: 0 <= i < n ==> rows[i].time <= m
    ensures forall x :: x in NewerThanUpTo(rows, cutoff, n) ==> x.time <= m
  {
    if n > 0 {
      NewerThanUpToBelow(rows, cutoff, m, n - 1);
    }
  }

  /** A row newer than the cut-off among the first `n` reappears in the filtered rows, at `k`. */
  lemma {:induction false} NewerThanUpToKeepsTime(rows: seq<Row>, cutoff: int, i: nat, n: nat) returns (k: nat)
    requires i < n <= |rows| && rows[i].time > cutoff
    ensures k < |NewerThanUpTo(rows, cutoff, n)| && NewerThanUpTo(rows, cutoff, n)[k] == rows[i]
  {
    var r := NewerThanUpTo(rows, cutoff, n - 1);
    if i == n - 1 {
      k := |r|;
      assert NewerThanUpTo(rows, cutoff, n) == r + [rows[i]];
    } else {
      k := NewerThanUpToKeepsTime(rows, cutoff, i, n - 1);
      if rows[n - 1].time > cutoff {
        assert NewerThanUpTo(rows, cutoff, n) == r + [rows[n - 1]];
      }
    }
  }

  /** With a positive retention the newest row passes the filter, so the newest time of the
      kept rows is the newest time of all of them. */
  lemma NewerThanKeepsMax(rows: seq<Row>, d: int)
    requires rows != [] && d > 0
    ensures var kept := NewerThan(rows, MaxTime(rows) - d);
      kept != [] && MaxTime(kept) == MaxTime(rows)
  {
    var m := MaxTime(rows);
    var kept := NewerThan(rows, m - d);
    var i := MaxTimeUpToAttained(rows, |rows|);
    var k := NewerThanUpToKeepsTime(rows, m - d, i, |rows|);
    NewerThanUpToBelow(rows, m - d, m, |rows|);
    forall j | 0 <= j < |kept|
      ensures kept[j].time <= kept[k].time
    {
      assert kept[j] in kept;
    }
    MaxTimeIs(kept, k);
  }

  lemma {:induction false} NewerThanUpToAll(rows: seq<Row>, cutoff: int, n: nat)
    requires n <= |rows|
    requires forall i :: 0 <= i < n ==> rows[i].time > cutoff
    ensures NewerThanUpTo(rows, cutoff, n) == rows[..n]
  {
    if n > 0 {
      NewerThanUpToAll(rows, cutoff, n - 1);
      assert rows[..n] == rows[..n - 1] + [rows[n - 1]];
    }
  }

  /** Rows that all pass a filter are kept as they are. */
  lemma NewerThanAll(rows: seq<Row>, cutoff: int)
    requires forall i :: 0 <= i < |rows| ==> rows[i].time > cutoff
    ensures NewerThan(rows, cutoff) == rows
  {
    NewerThanUpToAll(rows, cutoff, |rows|);
    assert rows[..|rows|] == rows;
  }

  /** With a positive retention the rows a trim keeps pass the same filter again unchanged. */
  lemma NewerThanSettled(rows: seq<Row>, d: int)
    requires rows != [] && d > 0
    ensures var kept := NewerThan(rows, MaxTime(rows) - d);
      kept != [] && NewerThan(kept, MaxTime(kept) - d) == kept
  {
    NewerThanKeepsMax(rows, d);
    var kept := NewerThan(rows, MaxTime(rows) - d);
    NewerThanAll(kept, MaxTime(kept) - d);
  }

  /** What a trim of a table with a time column returns. */
  lemma TrimRows(f: Frame, d: int)
    requires WellFormed(f) && f.timed
    ensures Trim(f, d) == Ok(if f.rows == [] then f else f.(rows := NewerThan(f.rows, MaxTime(f.rows) - d)))
  {
  }

  /** A retention that is not positive keeps no row: even the newest row is not strictly
      newer than itself. */
  lemma TrimEmptiesAll(f: Frame, d: int)
    requires WellFormed(f) && f.timed && d <= 0
    ensures Trim(f, d).Ok? && Trim(f, d).value.rows == []
  {
    TrimRows(f, d);
    if f.rows != [] {
      NewerThanNone(f.rows, MaxTime(f.rows) - d);
    }
  }

  /** A table whose rows all pass its own trim filter is left as it is. */
  lemma TrimSettled(g: Frame, d: int)
    requires WellFormed(g) && g.timed && g.rows != []
    requires NewerThan(g.rows, MaxTime(g.rows) - d) == g.rows
    ensures Trim(g, d) == Ok(g)
  {
    TrimRows(g, d);
  }

  /** With a positive retention a trimmed table is its own trim. */
  lemma TrimTwice(f: Frame, d: int)
    requires WellFormed(f) && f.timed && f.rows != [] && d > 0
    ensures Trim(f, d).Ok? && Trim(Trim(f, d).value, d) == Trim(f, d)
  {
    TrimRows(f, d);
    NewerThanSettled(f.rows, d);
    TrimSettled(Trim(f, d).value, d);
  }

  /** Trimming twice with the same retention removes nothing more than trimming once. */
  lemma TrimIdempotent(f: Frame, d: int)
    requires WellFormed(f) && f.timed
    ensures Trim(Trim(f, d).value, d) == Trim(f, d)
  {
    if d <= 0 {
      TrimEmptiesAll(f, d);
      TrimRows(Trim(f, d).value, d);
    } else if f.rows != [] {
      TrimTwice(f, d);
    } else {
      TrimRows(f, d);
    }
  }
}
