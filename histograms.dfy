/**
 * The histograms that panes share with fill threads, seen through the two
 * operations the registry uses on them: `reset` and `fill`. Their bin
 * arithmetic lives in files that are not part of this model, so a histogram
 * keeps its geometry and a log of the calls made on it; `progress` is the
 * fraction shown while a fill runs.
 *
 * The module also holds the range filter a fill thread applies to its data
 * and the sequential body of that thread.
 */
module Histograms {
  import opened Common

  /** A `(min, max)` bound pair. */
  datatype Range = Range(min: real, max: real)

  /** The x and y ranges of a 2D histogram. */
  datatype Range2 = Range2(x: Range, y: Range)

  /** The filter a fill builds from a range: `col > min AND col < max`. */
  predicate Inside(r: Range, v: real) {
    r.min < v < r.max
  }

  /** One call made on a 1D histogram. */
  datatype Call = ResetCall | FillCall(v: real, i: nat, n: nat)

  /** One call made on a 2D histogram. */
  datatype Call2 = ResetCall2 | FillCall2(x: real, y: real, i: nat, n: nat)

  datatype Histogram = Histogram(
    name: string,
    bins: nat,
    range: Range,
    calls: seq<Call>,
    progress: Option<real>)

  /** `xColumn`/`yColumn` are the column names recorded in the plot's cut settings. */
  datatype Histogram2D = Histogram2D(
    name: string,
    bins: (nat, nat),
    range: Range2,
    calls: seq<Call2>,
    progress: Option<real>,
    xColumn: string,
    yColumn: string)

  function NewHistogram(name: string, bins: nat, range: Range): Histogram {
    Histogram(name, bins, range, [], None)
  }

  function NewHistogram2D(name: string, bins: (nat, nat), range: Range2): Histogram2D {
    Histogram2D(name, bins, range, [], None, "", "")
  }

  /** `Histogram::reset`: counts are cleared, geometry is kept, progress is cleared. */
  function Reset(h: Histogram): Histogram {
    h.(calls := h.calls + [ResetCall], progress := None)
  }

  function Reset2D(h: Histogram2D): Histogram2D {
    h.(calls := h.calls + [ResetCall2], progress := None)
  }

  /** `Histogram::fill(v, i, n)`: one value contributed, progress becomes i / n. */
  function Fill(h: Histogram, v: real, i: nat, n: nat): Histogram
    requires i < n
  {
    h.(calls := h.calls + [FillCall(v, i, n)], progress := Some(i as real / n as real))
  }

  function Fill2D(h: Histogram2D, x: real, y: real, i: nat, n: nat): Histogram2D
    requires i < n
  {
    h.(calls := h.calls + [FillCall2(x, y, i, n)], progress := Some(i as real / n as real))
  }

  // ---------------------------------------------------------------------------
  // The range filter applied to the data before a fill

  /**
   * The rows of one column that the filter keeps. A missing value makes the
   * comparison null, and a null comparison drops the row.
   */
  function Select(column: seq<Option<real>>, r: Range): (kept: seq<Option<real>>)
    ensures forall x :: x in kept <==> x in column && x.Some? && Inside(r, x.value)
    ensures |kept| <= |column|
  {
    if column == [] then []
    else
      assert column == [column[0]] + column[1..];
      (if column[0].Some? && Inside(r, column[0].value) then [column[0]] else []) + Select(column[1..], r)
  }

  /** The filter keeps every present in-range value as often as the column holds it, and nothing else. */
  lemma {:induction false} SelectCount(column: seq<Option<real>>, r: Range)
    ensures forall x :: multiset(Select(column, r))[x] == if x.Some? && Inside(r, x.value) then multiset(column)[x] else 0
  {
    if column != [] {
      SelectCount(column[1..], r);
      assert column == [column[0]] + column[1..];
    }
  }

  /**
   * The filter keeps the rows' order: filtering two pieces of a column and
   * putting the results together is filtering the whole column.
   */
  lemma {:induction false} SelectAppend(a: seq<Option<real>>, b: seq<Option<real>>, r: Range)
    ensures Select(a + b, r) == Select(a, r) + Select(b, r)
  {
    if a != [] {
      var head := if a[0].Some? && Inside(r, a[0].value) then [a[0]] else [];
      var rest, tail := Select(a[1..], r), Select(b, r);
      assert Select(a + b, r) == head + Select(a[1..] + b, r) by {
        assert (a + b)[0] == a[0] && (a + b)[1..] == a[1..] + b;
      }
      assert Select(a[1..] + b, r) == rest + tail by {
        SelectAppend(a[1..], b, r);
      }
      assert Select(a, r) == head + rest;
      assert head + (rest + tail) == (head + rest) + tail;
    } else {
      assert a + b == b;
      assert Select(a, r) + Select(b, r) == Select(b, r);
    }
  }

  /** A row of two columns. */
  type Row = (Option<real>, Option<real>)

  /** The 2D filter: both values present and each strictly inside its own range. */
  predicate Inside2(r: Range2, row: Row) {
    row.0.Some? && row.1.Some? && Inside(r.x, row.0.value) && Inside(r.y, row.1.value)
  }

  function Select2D(rows: seq<Row>, r: Range2): (kept: seq<Row>)
    ensures forall row :: row in kept <==> row in rows && Inside2(r, row)
    ensures |kept| <= |rows|
  {
    if rows == [] then []
    else
      assert rows == [rows[0]] + rows[1..];
      (if Inside2(r, rows[0]) then [rows[0]] else []) + Select2D(rows[1..], r)
  }

  /** The 2D filter keeps every row it accepts as often as the input holds it, and nothing else. */
  lemma {:induction false} Select2DCount(rows: seq<Row>, r: Range2)
    ensures forall row :: multiset(Select2D(rows, r))[row] == if Inside2(r, row) then multiset(rows)[row] else 0
  {
    if rows != [] {
      Select2DCount(rows[1..], r);
      assert rows == [rows[0]] + rows[1..];
    }
  }

  /** The 2D filter keeps the rows' order too. */
  lemma {:induction false} Select2DAppend(a: seq<Row>, b: seq<Row>, r: Range2)
    ensures Select2D(a + b, r) == Select2D(a, r) + Select2D(b, r)
  {
    if a != [] {
      var head := if Inside2(r, a[0]) then [a[0]] else [];
      var rest, tail := Select2D(a[1..], r), Select2D(b, r);
      assert Select2D(a + b, r) == head + Select2D(a[1..] + b, r) by {
        assert (a + b)[0] == a[0] && (a + b)[1..] == a[1..] + b;
      }
      assert Select2D(a[1..] + b, r) == rest + tail by {
        Select2DAppend(a[1..], b, r);
      }
      assert Select2D(a, r) == head + rest;
      assert head + (rest + tail) == (head + rest) + tail;
    } else {
      assert a + b == b;
      assert Select2D(a, r) + Select2D(b, r) == Select2D(b, r);
    }
  }

  /** `xs.iter().zip(ys.iter())`: pairs up to the shorter length. */
  function Zip(xs: seq<Option<real>>, ys: seq<Option<real>>): (rows: seq<Row>)
    ensures |rows| == if |xs| <= |ys| then |xs| else |ys|
    ensures forall k :: 0 <= k < |rows| ==> rows[k] == (xs[k], ys[k])
  {
    seq(if |xs| <= |ys| then |xs| else |ys|, k requires 0 <= k < |xs| && k < |ys| => (xs[k], ys[k]))
  }

  function Firsts(rows: seq<Row>): seq<Option<real>> {
    seq(|rows|, k requires 0 <= k < |rows| => rows[k].0)
  }

  function Seconds(rows: seq<Row>): seq<Option<real>> {
    seq(|rows|, k requires 0 <= k < |rows| => rows[k].1)
  }

  /** Splitting the collected frame into its two columns and zipping them again loses nothing. */
  lemma ZipSplit(rows: seq<Row>)
    ensures Zip(Firsts(rows), Seconds(rows)) == rows
  {
  }

  // ---------------------------------------------------------------------------
  // The fill thread's loop

  /**
   * The calls the fill loop makes for the first |values| collected values out
   * of n: `fill(v, i, n)` for each present value, in row order.
   */
  function FillCalls(values: seq<Option<real>>, n: nat): seq<Call>
    requires |values| <= n
  {
    if values == [] then []
    else
      var i := |values| - 1;
      FillCalls(values[..i], n) + (if values[i].Some? then [FillCall(values[i].value, i, n)] else [])
  }

  /** The same for pairs: a row is used only when both of its values are present. */
  function FillCalls2(rows: seq<Row>, n: nat): seq<Call2>
    requires |rows| <= n
  {
    if rows == [] then []
    else
      var i := |rows| - 1;
      FillCalls2(rows[..i], n)
        + (if rows[i].0.Some? && rows[i].1.Some? then [FillCall2(rows[i].0.value, rows[i].1.value, i, n)] else [])
  }

  /**
   * The loop fills exactly the present values: every call is for a present
   * value at its own row index below n, the row indices strictly increase
   * (source order, no row twice), and no present value is skipped.
   */
  lemma {:induction false} FillCallsExact(values: seq<Option<real>>, n: nat)
    requires |values| <= n
    ensures forall k :: 0 <= k < |FillCalls(values, n)| ==>
      var c := FillCalls(values, n)[k];
      c.FillCall? && c.i < |values| && c.n == n && values[c.i] == Some(c.v)
    ensures forall k, l :: 0 <= k < l < |FillCalls(values, n)| ==>
      FillCalls(values, n)[k].i < FillCalls(values, n)[l].i
    ensures forall i :: 0 <= i < |values| && values[i].Some? ==> FillCall(values[i].value, i, n) in FillCalls(values, n)
  {
    if values != [] {
      var i := |values| - 1;
      var pre := values[..i];
      FillCallsExact(pre, n);
      assert forall j :: 0 <= j < i ==> pre[j] == values[j];
    }
  }

  lemma {:induction false} FillCalls2Exact(rows: seq<Row>, n: nat)
    requires |rows| <= n
    ensures forall k :: 0 <= k < |FillCalls2(rows, n)| ==>
      var c := FillCalls2(rows, n)[k];
      c.FillCall2? && c.i < |rows| && c.n == n && rows[c.i] == (Some(c.x), Some(c.y))
    ensures forall k, l :: 0 <= k < l < |FillCalls2(rows, n)| ==>
      FillCalls2(rows, n)[k].i < FillCalls2(rows, n)[l].i
    ensures forall i :: 0 <= i < |rows| && rows[i].0.Some? && rows[i].1.Some? ==>
      FillCall2(rows[i].0.value, rows[i].1.value, i, n) in FillCalls2(rows, n)
  {
    if rows != [] {
      var i := |rows| - 1;
      var pre := rows[..i];
      FillCalls2Exact(pre, n);
      assert forall j :: 0 <= j < i ==> pre[j] == rows[j];
    }
  }

  /**
   * The body of a 1D fill thread once its data is collected: `fill(v, i, n)`
   * for every present value in order, with n the number of collected rows,
   * then progress cleared. The histogram keeps its name and geometry.
   */
  method FillWorker(h: Histogram, values: seq<Option<real>>) returns (r: Histogram)
    ensures r == h.(calls := h.calls + FillCalls(values, |values|), progress := None)
  {
    var total := |values|;
    r := h;
    var i := 0;
    while i < total
      invariant 0 <= i <= total
      invariant r.name == h.name && r.bins == h.bins && r.range == h.range
      invariant r.calls == h.calls + FillCalls(values[..i], total)
    {
      assert values[..i + 1][..i] == values[..i];
      match values[i] {
        case Some(v) => r := Fill(r, v, i, total);
        case None =>
      }
      i := i + 1;
    }
    assert values[..total] == values;
    r := r.(progress := None);
  }

  /**
   * The body of a 2D fill thread: the two columns are zipped, a pair is
   * filled only when both values are present, n is the length of the x column.
   */
  method FillWorker2D(h: Histogram2D, xs: seq<Option<real>>, ys: seq<Option<real>>) returns (r: Histogram2D)
    ensures r == h.(calls := h.calls + FillCalls2(Zip(xs, ys), |xs|), progress := None)
  {
    var total := |xs|;
    r := h;
    var i := 0;
    while i < |xs| && i < |ys|
      invariant 0 <= i <= |Zip(xs, ys)|
      invariant r.name == h.name && r.bins == h.bins && r.range == h.range
      invariant r.xColumn == h.xColumn && r.yColumn == h.yColumn
      invariant r.calls == h.calls + FillCalls2(Zip(xs, ys)[..i], total)
    {
      assert Zip(xs, ys)[..i + 1][..i] == Zip(xs, ys)[..i];
      match (xs[i], ys[i]) {
        case (Some(x), Some(y)) => r := Fill2D(r, x, y, i, total);
        case _ =>
      }
      i := i + 1;
    }
    assert Zip(xs, ys)[..i] == Zip(xs, ys);
    r := r.(progress := None);
  }

  /** When every collected value is present, the loop makes exactly one call per row. */
  lemma {:induction false} FillCallsAllPresent(values: seq<Option<real>>, n: nat)
    requires |values| <= n
    requires forall k :: 0 <= k < |values| ==> values[k].Some?
    ensures |FillCalls(values, n)| == |values|
  {
    if values != [] {
      FillCallsAllPresent(values[..|values| - 1], n);
    }
  }

  /**
   * End to end, a 1D fill thread contributes only values strictly inside the
   * histogram's range, one call per selected row.
   */
  lemma ThreadFillsInside(column: seq<Option<real>>, r: Range)
    ensures var kept := Select(column, r);
      && |FillCalls(kept, |kept|)| == |kept|
      && forall c :: c in FillCalls(kept, |kept|) ==> c.FillCall? && Inside(r, c.v)
  {
    var kept := Select(column, r);
    FillCallsExact(kept, |kept|);
    assert forall k :: 0 <= k < |kept| ==> kept[k] in kept;
    FillCallsAllPresent(kept, |kept|);
    forall c | c in FillCalls(kept, |kept|) ensures c.FillCall? && Inside(r, c.v) {
      var k :| 0 <= k < |FillCalls(kept, |kept|)| && FillCalls(kept, |kept|)[k] == c;
      assert kept[c.i] in kept;
    }
  }

  lemma {:induction false} FillCalls2AllPresent(rows: seq<Row>, n: nat)
    requires |rows| <= n
    requires forall k :: 0 <= k < |rows| ==> rows[k].0.Some? && rows[k].1.Some?
    ensures |FillCalls2(rows, n)| == |rows|
  {
    if rows != [] {
      FillCalls2AllPresent(rows[..|rows| - 1], n);
    }
  }

  /** The same for 2D: both values strictly inside their own ranges, one call per selected row. */
  lemma ThreadFills2DInside(rows: seq<Row>, r: Range2)
    ensures var kept := Select2D(rows, r);
      && |FillCalls2(kept, |kept|)| == |kept|
      && forall c :: c in FillCalls2(kept, |kept|) ==> c.FillCall2? && Inside(r.x, c.x) && Inside(r.y, c.y)
  {
    var kept := Select2D(rows, r);
    forall k | 0 <= k < |kept| ensures Inside2(r, kept[k]) {
      assert kept[k] in kept;
    }
    FillCalls2AllPresent(kept, |kept|);
    var calls := FillCalls2(kept, |kept|);
    FillCalls2Exact(kept, |kept|);
    forall c | c in calls ensures c.FillCall2? && Inside(r.x, c.x) && Inside(r.y, c.y) {
      var k :| 0 <= k < |calls| && calls[k] == c;
      assert Inside2(r, kept[c.i]);
    }
  }
}
