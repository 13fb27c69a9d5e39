/** Region of interest: lines of enabled columns and rows, the windows they make, and the register words. */
module Roi {
  datatype Window = Window(x: int, y: int, width: int, height: int) {
    predicate HasColumn(c: int) { x <= c < x + width }

    predicate HasRow(r: int) { y <= r < y + height }

    predicate HasPixel(c: int, r: int) { HasColumn(c) && HasRow(r) }
  }

  /** A stretch of enabled entries. */
  datatype Run = Run(first: int, length: int) {
    predicate Has(i: int) { first <= i < first + length }
  }

  // ----- Lines to windows -----

  ghost predicate InSomeRun(runs: seq<Run>, i: int) {
    exists k :: 0 <= k < |runs| && runs[k].Has(i)
  }

  /** Non-empty runs inside the line, in order, never touching. */
  ghost predicate Separate(runs: seq<Run>, size: int) {
    && (forall k :: 0 <= k < |runs| ==>
          0 <= runs[k].first && 0 < runs[k].length && runs[k].first + runs[k].length <= size)
    && (forall j, k :: 0 <= j < k < |runs| ==> runs[j].first + runs[j].length < runs[k].first)
  }

  /** The runs cover exactly the enabled entries. */
  ghost predicate RunsOf(line: seq<bool>, runs: seq<Run>) {
    && Separate(runs, |line|)
    && forall i :: 0 <= i < |line| ==> (line[i] <==> InSomeRun(runs, i))
  }

  /** The scan that the source writes out once for the columns and once for the rows. */
  method FindRuns(line: seq<bool>) returns (runs: seq<Run>)
    ensures RunsOf(line, runs)
  {
    runs := [];
    var index, prevToEnable := 0, false;
    var cur := Run(0, 0);
    while index < |line|
      invariant index <= |line|
      invariant prevToEnable ==> 0 <= cur.first < index && forall i :: cur.first <= i < index ==> line[i]
      invariant Separate(runs, if prevToEnable then cur.first - 1 else index)
      invariant forall i :: 0 <= i < (if prevToEnable then cur.first else index) ==> (line[i] <==> InSomeRun(runs, i))
      invariant index > 0 ==> prevToEnable == line[index - 1]
      invariant !prevToEnable && index > 0 ==> Separate(runs, index - 1)
    {
      if line[index] {
        if !prevToEnable {
          prevToEnable := true;
          cur := cur.(first := index);
        }
      } else if prevToEnable {
        cur := cur.(length := index - cur.first);
        prevToEnable := false;
        RunAdded(line, runs, cur, index);
        runs := runs + [cur];
      }
      index := index + 1;
    }
    if prevToEnable {
      cur := cur.(length := index - cur.first);
      RunAdded(line, runs, cur, index);
      runs := runs + [cur];
    }
  }

  lemma RunAdded(line: seq<bool>, runs: seq<Run>, cur: Run, index: nat)
    requires index <= |line| && 0 <= cur.first < index == cur.first + cur.length
    requires Separate(runs, cur.first - 1)
    requires forall i :: cur.first <= i < index ==> line[i]
    requires forall i :: 0 <= i < cur.first ==> (line[i] <==> InSomeRun(runs, i))
    ensures Separate(runs + [cur], index)
    ensures forall i :: 0 <= i < index ==> (line[i] <==> InSomeRun(runs + [cur], i))
  {
    var all := runs + [cur];
    forall i | 0 <= i < index ensures line[i] <==> InSomeRun(all, i) {
      if i < cur.first {
        if InSomeRun(runs, i) {
          var k :| 0 <= k < |runs| && runs[k].Has(i);
          assert all[k].Has(i);
        }
        if InSomeRun(all, i) {
          var k :| 0 <= k < |all| && all[k].Has(i);
          assert k < |runs| && runs[k].Has(i);
        }
      } else {
        assert all[|runs|].Has(i);
      }
    }
  }

  ghost predicate InSomeWindow(windows: seq<Window>, c: int, r: int) {
    exists k :: 0 <= k < |windows| && windows[k].HasPixel(c, r)
  }

  predicate InBounds(w: Window, width: int, height: int) {
    0 <= w.x && 0 < w.width && w.x + w.width <= width && 0 <= w.y && 0 < w.height && w.y + w.height <= height
  }

  /** No pixel lies in two windows. */
  ghost predicate Disjoint(windows: seq<Window>) {
    forall j, k, c, r :: 0 <= j < k < |windows| && windows[j].HasPixel(c, r) ==> !windows[k].HasPixel(c, r)
  }

  /** The windows of two lines: in bounds, disjoint, and together exactly the pixels enabled on both lines. */
  ghost predicate WindowsOf(cols: seq<bool>, rows: seq<bool>, windows: seq<Window>) {
    && (forall k :: 0 <= k < |windows| ==> InBounds(windows[k], |cols|, |rows|))
    && Disjoint(windows)
    && (forall c, r :: 0 <= c < |cols| && 0 <= r < |rows| ==> (InSomeWindow(windows, c, r) <==> cols[c] && rows[r]))
  }

  function Product(x: Run, y: Run): Window { Window(x.first, y.first, x.length, y.length) }

  predicate Before(a: (nat, nat), b: (nat, nat)) { a.0 < b.0 || (a.0 == b.0 && a.1 < b.1) }

  /** Each window pairs a column run with a row run, no pair twice, and every pair before `next` is there. */
  ghost predicate PairsUpTo(xs: seq<Run>, ys: seq<Run>, windows: seq<Window>, pairs: seq<(nat, nat)>, next: (nat, nat))
  {
    && |pairs| == |windows|
    && (forall n :: 0 <= n < |pairs| ==> pairs[n].0 < |xs| && pairs[n].1 < |ys| && Before(pairs[n], next)
                                         && windows[n] == Product(xs[pairs[n].0], ys[pairs[n].1]))
    && (forall m, n :: 0 <= m < n < |pairs| ==> Before(pairs[m], pairs[n]))
    && (forall i: nat, j: nat :: i < |xs| && j < |ys| && Before((i, j), next) ==> (i, j) in pairs)
  }

  method LinesToWindows(cols: seq<bool>, rows: seq<bool>) returns (windows: seq<Window>)
    ensures WindowsOf(cols, rows, windows)
  {
    hide RunsOf;
    windows := [];
    var xs := FindRuns(cols);
    var ys := FindRuns(rows);
    ghost var pairs: seq<(nat, nat)> := [];
    var i := 0;
    while i < |xs|
      invariant i <= |xs| && PairsUpTo(xs, ys, windows, pairs, (i, 0))
    {
      var j := 0;
      while j < |ys|
        invariant j <= |ys| && PairsUpTo(xs, ys, windows, pairs, (i, j))
      {
        PairAdded(xs, ys, windows, pairs, i, j);
        windows := windows + [Window(xs[i].first, ys[j].first, xs[i].length, ys[j].length)];
        pairs := pairs + [(i, j)];
        j := j + 1;
      }
      i := i + 1;
    }
    AllPairs(cols, rows, xs, ys, windows, pairs);
  }

  lemma PairAdded(xs: seq<Run>, ys: seq<Run>, windows: seq<Window>, pairs: seq<(nat, nat)>, i: nat, j: nat)
    requires i < |xs| && j < |ys| && PairsUpTo(xs, ys, windows, pairs, (i, j))
    ensures PairsUpTo(xs, ys, windows + [Product(xs[i], ys[j])], pairs + [(i, j)], (i, j + 1))
  {
  }

  lemma AllPairs(cols: seq<bool>, rows: seq<bool>, xs: seq<Run>, ys: seq<Run>, windows: seq<Window>,
                 pairs: seq<(nat, nat)>)
    requires RunsOf(cols, xs) && RunsOf(rows, ys) && PairsUpTo(xs, ys, windows, pairs, (|xs|, 0))
    ensures WindowsOf(cols, rows, windows)
  {
    forall m, n, c, r | 0 <= m < n < |windows| && windows[m].HasPixel(c, r) ensures !windows[n].HasPixel(c, r) {
      assert Before(pairs[m], pairs[n]);
    }
    forall c, r | 0 <= c < |cols| && 0 <= r < |rows|
      ensures InSomeWindow(windows, c, r) <==> cols[c] && rows[r]
    {
      PixelOfPair(xs, ys, windows, pairs, c, r);
    }
  }

  lemma PixelOfPair(xs: seq<Run>, ys: seq<Run>, windows: seq<Window>, pairs: seq<(nat, nat)>, c: int, r: int)
    requires PairsUpTo(xs, ys, windows, pairs, (|xs|, 0))
    ensures InSomeWindow(windows, c, r) <==> InSomeRun(xs, c) && InSomeRun(ys, r)
  {
    if InSomeWindow(windows, c, r) {
      var k :| 0 <= k < |windows| && windows[k].HasPixel(c, r);
      assert xs[pairs[k].0].Has(c) && ys[pairs[k].1].Has(r);
    }
    if InSomeRun(xs, c) && InSomeRun(ys, r) {
      var i :| 0 <= i < |xs| && xs[i].Has(c);
      var j :| 0 <= j < |ys| && ys[j].Has(r);
      assert (i, j) in pairs;
      var k :| 0 <= k < |pairs| && pairs[k] == (i, j);
      assert windows[k].HasPixel(c, r);
    }
  }

  // ----- Windows to lines -----

  ghost predicate ColumnInSome(windows: seq<Window>, c: int) {
    exists k :: 0 <= k < |windows| && windows[k].HasColumn(c)
  }

  ghost predicate RowInSome(windows: seq<Window>, r: int) {
    exists k :: 0 <= k < |windows| && windows[k].HasRow(r)
  }

  lemma ColumnMore(windows: seq<Window>, n: nat, c: int)
    requires n < |windows|
    ensures ColumnInSome(windows[..n + 1], c) <==> ColumnInSome(windows[..n], c) || windows[n].HasColumn(c)
    ensures RowInSome(windows[..n + 1], c) <==> RowInSome(windows[..n], c) || windows[n].HasRow(c)
  {
  }

  /** Marks the columns and rows of every window, starting from all false. */
  method LinesFromWindows(windows: seq<Window>, width: nat, height: nat) returns (cols: seq<bool>, rows: seq<bool>)
    requires forall k :: 0 <= k < |windows| ==> InBounds(windows[k], width, height)
    ensures |cols| == width && forall c :: 0 <= c < width ==> (cols[c] <==> ColumnInSome(windows, c))
    ensures |rows| == height && forall r :: 0 <= r < height ==> (rows[r] <==> RowInSome(windows, r))
  {
    hide ColumnInSome, RowInSome;
    cols, rows := seq(width, _ => false), seq(height, _ => false);
    NoWindows();
    var k := 0;
    while k < |windows|
      invariant k <= |windows| && |cols| == width && |rows| == height
      invariant forall c :: 0 <= c < width ==> (cols[c] <==> ColumnInSome(windows[..k], c))
      invariant forall r :: 0 <= r < height ==> (rows[r] <==> RowInSome(windows[..k], r))
    {
      var w := windows[k];
      ghost var cols0, rows0 := cols, rows;
      var i := w.x;
      while i < w.x + w.width
        invariant w.x <= i <= w.x + w.width && |cols| == width
        invariant forall c :: 0 <= c < width ==> (cols[c] <==> cols0[c] || w.x <= c < i)
      {
        cols := cols[i := true];
        i := i + 1;
      }
      i := w.y;
      while i < w.y + w.height
        invariant w.y <= i <= w.y + w.height && |rows| == height
        invariant forall r :: 0 <= r < height ==> (rows[r] <==> rows0[r] || w.y <= r < i)
      {
        rows := rows[i := true];
        i := i + 1;
      }
      forall c | 0 <= c < width ensures cols[c] <==> ColumnInSome(windows[..k + 1], c) {
        assert cols0[c] <==> ColumnInSome(windows[..k], c);
        ColumnMore(windows, k, c);
      }
      forall r | 0 <= r < height ensures rows[r] <==> RowInSome(windows[..k + 1], r) {
        assert rows0[r] <==> RowInSome(windows[..k], r);
        ColumnMore(windows, k, r);
      }
      k := k + 1;
    }
    assert windows[..k] == windows;
  }

  lemma NoWindows()
    ensures forall c :: !ColumnInSome([], c) && !RowInSome([], c)
  {
  }

  predicate SomeEnabled(line: seq<bool>) { exists i :: 0 <= i < |line| && line[i] }

  /** The columns of the windows of two lines: the enabled columns if any row is enabled, else none. */
  lemma ColumnsOfWindows(cols: seq<bool>, rows: seq<bool>, windows: seq<Window>, c: int)
    requires WindowsOf(cols, rows, windows) && 0 <= c < |cols|
    ensures ColumnInSome(windows, c) <==> cols[c] && SomeEnabled(rows)
  {
    if ColumnInSome(windows, c) {
      var k :| 0 <= k < |windows| && windows[k].HasColumn(c);
      assert windows[k].HasPixel(c, windows[k].y);
      assert InSomeWindow(windows, c, windows[k].y);
    }
    if cols[c] && SomeEnabled(rows) {
      var r :| 0 <= r < |rows| && rows[r];
      assert InSomeWindow(windows, c, r);
      var k :| 0 <= k < |windows| && windows[k].HasPixel(c, r);
      assert windows[k].HasColumn(c);
    }
  }

  lemma RowsOfWindows(cols: seq<bool>, rows: seq<bool>, windows: seq<Window>, r: int)
    requires WindowsOf(cols, rows, windows) && 0 <= r < |rows|
    ensures RowInSome(windows, r) <==> rows[r] && SomeEnabled(cols)
  {
    if RowInSome(windows, r) {
      var k :| 0 <= k < |windows| && windows[k].HasRow(r);
      assert windows[k].HasPixel(windows[k].x, r);
      assert InSomeWindow(windows, windows[k].x, r);
    }
    if rows[r] && SomeEnabled(cols) {
      var c :| 0 <= c < |cols| && cols[c];
      assert InSomeWindow(windows, c, r);
      var k :| 0 <= k < |windows| && windows[k].HasPixel(c, r);
      assert windows[k].HasRow(r);
    }
  }
}
