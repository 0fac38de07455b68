/** Drawing a QR code: the dark modules as one path of rectangles of height one. */
module QrPath {
  import opened Dns

  /** One operation of the path: a rectangle of height one, with its left end, row and width. */
  datatype Rect = Rect(x: int, y: int, width: int)

  predicate Covers(r: Rect, x: int, y: int) {
    r.y == y && r.x <= x < r.x + r.width
  }

  type Modules = seq<seq<bool>>

  predicate Dark(modules: Modules, x: int, y: int) {
    0 <= y < |modules| && 0 <= x < |modules[y]| && modules[y][x]
  }

  ghost predicate Drawn(ops: seq<Rect>, x: int, y: int) {
    exists i :: 0 <= i < |ops| && Covers(ops[i], x, y)
  }

  /** No cell is covered twice. */
  ghost predicate PairwiseDisjoint(ops: seq<Rect>) {
    forall i, j, x, y :: 0 <= i < j < |ops| && Covers(ops[i], x, y) ==> !Covers(ops[j], x, y)
  }

  /** Rectangles of the same row come from left to right and do not touch: none could be merged with another. */
  ghost predicate Separate(ops: seq<Rect>) {
    forall i, j :: 0 <= i < j < |ops| && ops[i].y == ops[j].y ==> ops[i].x + ops[i].width < ops[j].x
  }

  // ---------------------------------------------------------------------------------------------------------------
  // One row
  // ---------------------------------------------------------------------------------------------------------------

  /** The runs lie in row `y`, left of `end`, from left to right with at least one cell between them. */
  ghost predicate Ordered(runs: seq<Rect>, y: int, end: int) {
    && (forall i :: 0 <= i < |runs| ==> runs[i].y == y && runs[i].width > 0)
    && (forall i :: 0 <= i < |runs| ==> 0 <= runs[i].x && runs[i].x + runs[i].width <= end)
    && (forall i, j :: 0 <= i < j < |runs| ==> runs[i].x + runs[i].width < runs[j].x)
  }

  /** The maximal runs of dark cells among the first `n` cells of a row, from left to right. */
  ghost predicate AreRuns(runs: seq<Rect>, row: seq<bool>, y: int, n: int) {
    && Ordered(runs, y, n) && n <= |row|
    && (forall x :: 0 <= x < n ==> (row[x] <==> Drawn(runs, x, y)))
  }

  /** A run is open at `x` when the cells from `start` up to `x` are dark and `start` is where the darkness begins. */
  ghost predicate Progress(runs: seq<Rect>, row: seq<bool>, y: int, x: int, start: Option<int>) {
    match start
    case None => AreRuns(runs, row, y, x) && (x > 0 ==> !row[x-1])
    case Some(s) => 0 <= s < x <= |row| && AreRuns(runs, row, y, s) && (s > 0 ==> !row[s-1])
                    && forall k :: s <= k < x ==> row[k]
  }

  lemma CloseRun(runs: seq<Rect>, row: seq<bool>, y: int, s: int, x: int)
    requires 0 <= s < x <= |row| && AreRuns(runs, row, y, s) && (s > 0 ==> !row[s-1])
    requires forall k :: s <= k < x ==> row[k]
    ensures AreRuns(runs + [Rect(s, y, x - s)], row, y, x)
  {
    var runs' := runs + [Rect(s, y, x - s)];
    if s > 0 {
      assert !Drawn(runs, s - 1, y);
    }
    forall i | 0 <= i < |runs| ensures runs[i].x + runs[i].width < s {
      if s > 0 {
        assert !Covers(runs[i], s - 1, y);
      }
    }
    forall k | 0 <= k < x ensures row[k] <==> Drawn(runs', k, y) {
      if k < s {
        if i :| 0 <= i < |runs| && Covers(runs[i], k, y) {
          assert runs'[i] == runs[i];
        }
      } else {
        assert Covers(runs'[|runs|], k, y);
      }
    }
  }

  lemma LightCell(runs: seq<Rect>, row: seq<bool>, y: int, x: int)
    requires AreRuns(runs, row, y, x) && 0 <= x < |row| && !row[x]
    ensures AreRuns(runs, row, y, x + 1)
  {
  }

  lemma NoRuns(row: seq<bool>, y: int)
    ensures AreRuns([], row, y, 0)
  {
  }

  /** The inner loop, over the cells of a row.  The last cell closes an open run, or is a run of its own. */
  method RowRuns(row: seq<bool>, y: int) returns (runs: seq<Rect>)
    ensures AreRuns(runs, row, y, |row|)
  {
    hide AreRuns;
    runs := [];
    var start: Option<int> := None;
    NoRuns(row, y);
    for x := 0 to |row|
      invariant x < |row| ==> Progress(runs, row, y, x, start)
      invariant x == |row| ==> AreRuns(runs, row, y, x)
    {
      var cell := row[x];
      if !cell && start != None {
        CloseRun(runs, row, y, start.value, x);
        runs := runs + [Rect(start.value, y, x - start.value)];
        LightCell(runs, row, y, x);
        start := None;
      } else if x == |row| - 1 {
        if !cell {
          LightCell(runs, row, y, x);
        } else if start == None {
          CloseRun(runs, row, y, x, x + 1);
          runs := runs + [Rect(x, y, 1)];
        } else {
          CloseRun(runs, row, y, start.value, x + 1);
          runs := runs + [Rect(start.value, y, x + 1 - start.value)];
        }
      } else if cell && start == None {
        start := Some(x);
      } else if !cell {
        LightCell(runs, row, y, x);
      }
    }
  }

  // ---------------------------------------------------------------------------------------------------------------
  // All rows
  // ---------------------------------------------------------------------------------------------------------------

  function Shift(runs: seq<Rect>, margin: int): seq<Rect> {
    seq(|runs|, i requires 0 <= i < |runs| => Rect(runs[i].x + margin, runs[i].y + margin, runs[i].width))
  }

  /** The operations draw exactly the dark modules of the first `n` rows, no cell twice. */
  ghost predicate Draws(ops: seq<Rect>, modules: Modules, margin: int, n: int) {
    && PairwiseDisjoint(ops) && Separate(ops)
    && (forall x, y :: Drawn(ops, x + margin, y + margin) <==> y < n && Dark(modules, x, y))
    && (forall i :: 0 <= i < |ops| ==> ops[i].y < n + margin)
  }

  lemma DrawnAppend(a: seq<Rect>, b: seq<Rect>, x: int, y: int)
    ensures Drawn(a + b, x, y) <==> Drawn(a, x, y) || Drawn(b, x, y)
  {
    if i :| 0 <= i < |a| && Covers(a[i], x, y) {
      assert (a + b)[i] == a[i];
    }
    if i :| 0 <= i < |b| && Covers(b[i], x, y) {
      assert (a + b)[|a| + i] == b[i];
    }
  }

  lemma DrawnShift(runs: seq<Rect>, margin: int, x: int, y: int)
    ensures Drawn(Shift(runs, margin), x + margin, y + margin) <==> Drawn(runs, x, y)
  {
    if i :| 0 <= i < |runs| && Covers(runs[i], x, y) {
      assert Covers(Shift(runs, margin)[i], x + margin, y + margin);
    }
    if i :| 0 <= i < |runs| && Covers(Shift(runs, margin)[i], x + margin, y + margin) {
      assert Covers(runs[i], x, y);
    }
  }

  /** Rectangles that lie in lower rows, and among themselves apart, can be appended. */
  lemma AppendApart(ops: seq<Rect>, more: seq<Rect>, y: int)
    requires PairwiseDisjoint(ops) && Separate(ops)
    requires forall i :: 0 <= i < |ops| ==> ops[i].y < y
    requires forall i :: 0 <= i < |more| ==> more[i].y == y
    requires forall i, j :: 0 <= i < j < |more| ==> more[i].x + more[i].width < more[j].x
    ensures PairwiseDisjoint(ops + more) && Separate(ops + more)
  {
    var all := ops + more;
    forall i, j, x, row | 0 <= i < j < |all| && Covers(all[i], x, row) ensures !Covers(all[j], x, row) {
      if i >= |ops| {
        assert more[i - |ops|].x + more[i - |ops|].width < more[j - |ops|].x;
      } else if j < |ops| {
        assert Covers(ops[i], x, row) && !Covers(ops[j], x, row);
      }
    }
    forall i, j | 0 <= i < j < |all| && all[i].y == all[j].y ensures all[i].x + all[i].width < all[j].x {
      if i >= |ops| {
        assert more[i - |ops|].x + more[i - |ops|].width < more[j - |ops|].x;
      } else if j < |ops| {
        assert ops[i].x + ops[i].width < ops[j].x;
      }
    }
  }

  lemma AddRow(ops: seq<Rect>, modules: Modules, margin: int, n: int, runs: seq<Rect>)
    requires 0 <= n < |modules| && Draws(ops, modules, margin, n)
    requires AreRuns(runs, modules[n], n, |modules[n]|)
    ensures Draws(ops + Shift(runs, margin), modules, margin, n + 1)
  {
    hide PairwiseDisjoint, Separate, Drawn, AreRuns;
    var more := Shift(runs, margin);
    RunsApart(runs, modules[n], n, margin);
    AppendApart(ops, more, n + margin);
    forall x, y ensures Drawn(ops + more, x + margin, y + margin) <==> y < n + 1 && Dark(modules, x, y) {
      assert Dark(modules, x, y) && y < n <==> Drawn(ops, x + margin, y + margin);
      DrawnAppend(ops, more, x + margin, y + margin);
      DrawnShift(runs, margin, x, y);
      RunsOnly(runs, modules[n], n, x, y);
    }
  }

  lemma RunsApart(runs: seq<Rect>, row: seq<bool>, y: int, margin: int)
    requires AreRuns(runs, row, y, |row|)
    ensures var more := Shift(runs, margin);
            && (forall i :: 0 <= i < |more| ==> more[i].y == y + margin)
            && (forall i, j :: 0 <= i < j < |more| ==> more[i].x + more[i].width < more[j].x)
  {
  }

  lemma RunsOnly(runs: seq<Rect>, row: seq<bool>, y: int, x: int, y': int)
    requires AreRuns(runs, row, y, |row|)
    ensures Drawn(runs, x, y') <==> y' == y && 0 <= x < |row| && row[x]
  {
    if i :| 0 <= i < |runs| && Covers(runs[i], x, y') {
      assert Drawn(runs, x, y);
    }
  }

  /** For any matrix of modules, the rectangles are pairwise disjoint and cover exactly the dark ones. */
  method GeneratePath(modules: Modules, margin: int) returns (ops: seq<Rect>)
    ensures PairwiseDisjoint(ops) && Separate(ops)
    ensures forall x, y :: Drawn(ops, x + margin, y + margin) <==> Dark(modules, x, y)
  {
    ops := [];
    for y := 0 to |modules|
      invariant Draws(ops, modules, margin, y)
    {
      var runs := RowRuns(modules[y], y);
      AddRow(ops, modules, margin, y, runs);
      ops := ops + Shift(runs, margin);
    }
  }

}
