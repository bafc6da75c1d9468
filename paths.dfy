/**
  The path resolver, `calculatePaths`: every participant walks down the
  ladder from its own lane, taking each rung it meets, and the waypoints of
  that walk are what the animation draws.

  The walk is specified by `Col` (the lane the cursor is in after a number of
  rows) and `PathUpTo` (the waypoints emitted so far); the method
  `CalculatePaths` is proved to compute exactly these, and the lemmas below
  state what the source promises about them: the shape of every path, and
  that with rungs that stay within the lanes and never touch, the walk sends
  the participants to the results one to one.
*/
module Paths {
  import opened LadderTypes

  /** `bridges.find(b => b.level === level && b.fromCol === fromCol)`. */
  function FindBridge(bridges: seq<Bridge>, level: int, fromCol: int): (r: Option<Bridge>)
    ensures r.Some? <==> Bridge(fromCol, level) in bridges
    ensures r.Some? ==> r.value.level == level && r.value.fromCol == fromCol
  {
    if bridges == [] then None
    else if bridges[0].level == level && bridges[0].fromCol == fromCol then Some(bridges[0])
    else FindBridge(bridges[1..], level, fromCol)
  }

  /**
    The lane the cursor moves to on row `row`: right when a rung starts at
    its lane, else left when a rung ends at its lane, else it stays.
  */
  function Step(bridges: seq<Bridge>, col: int, row: int): (r: int)
    ensures r == col + 1 <==> Bridge(col, row) in bridges
    ensures r == col - 1 <==> Bridge(col, row) !in bridges && Bridge(col - 1, row) in bridges
    ensures r == col <==> Bridge(col, row) !in bridges && Bridge(col - 1, row) !in bridges
  {
    if FindBridge(bridges, row, col).Some? then col + 1
    else if FindBridge(bridges, row, col - 1).Some? then col - 1
    else col
  }

  /** The cursor of the walk from lane `start` once rows `0 .. rows - 1` are done. */
  function Col(bridges: seq<Bridge>, start: int, rows: nat): (r: int)
    ensures start - rows <= r <= start + rows
  {
    if rows == 0 then start else Step(bridges, Col(bridges, start, rows - 1), rows - 1)
  }

  /** The lane the walk from `start` ends in, after rows `0 .. NumRows`. */
  function FinalCol(bridges: seq<Bridge>, start: int): int
  {
    Col(bridges, start, NumRows + 1)
  }

  /**
    The waypoints emitted on row `row` with the cursor in lane `col`: the
    point on the row, and when a rung is taken the point at its other end.
  */
  function RowSteps(bridges: seq<Bridge>, col: int, row: int): (r: seq<PathStep>)
    ensures 1 <= |r| <= 2 && r[0] == PathStep(X(col), Y(row))
    ensures |r| == 2 <==> Bridge(col, row) in bridges || Bridge(col - 1, row) in bridges
  {
    var next := Step(bridges, col, row);
    [PathStep(X(col), Y(row))] + if next != col then [PathStep(X(next), Y(row))] else []
  }

  /** The waypoints of the walk from `start` once rows `0 .. rows - 1` are done. */
  function PathUpTo(bridges: seq<Bridge>, start: int, rows: nat): (r: seq<PathStep>)
    ensures rows + 1 <= |r| <= 2 * rows + 1
    ensures r[0] == PathStep(X(start), HeaderHeight)
  {
    if rows == 0 then [PathStep(X(start), HeaderHeight)]
    else PathUpTo(bridges, start, rows - 1) + RowSteps(bridges, Col(bridges, start, rows - 1), rows - 1)
  }

  /** The whole path of the participant starting in lane `start`. */
  function Path(bridges: seq<Bridge>, start: int): (r: seq<PathStep>)
    ensures NumRows + 2 <= |r| <= 2 * NumRows + 3
    ensures r[0] == PathStep(X(start), HeaderHeight)
  {
    PathUpTo(bridges, start, NumRows + 1)
  }

  function Last(p: seq<PathStep>): PathStep
    requires p != []
  {
    p[|p| - 1]
  }

  /** A segment straight down the lane (possibly of length zero). */
  predicate Vertical(a: PathStep, b: PathStep)
  {
    b.x == a.x && (b.y == a.y || b.y == a.y + RowHeight)
  }

  /** A segment along a rung: one lane width left or right on the same row. */
  predicate Horizontal(a: PathStep, b: PathStep)
  {
    b.y == a.y && (b.x == a.x + ColWidth || b.x == a.x - ColWidth)
  }

  /** Every segment of the polyline is vertical or horizontal: there are no gaps. */
  predicate Connected(p: seq<PathStep>)
  {
    forall k :: 0 <= k < |p| - 1 ==> Vertical(p[k], p[k + 1]) || Horizontal(p[k], p[k + 1])
  }

  /** y never decreases along the path. */
  predicate Descending(p: seq<PathStep>)
  {
    forall j, k :: 0 <= j <= k < |p| ==> p[j].y <= p[k].y
  }

  /** The segment from waypoint `k` to waypoint `k + 1` runs along a rung. */
  predicate MoveAt(p: seq<PathStep>, k: int)
    requires 0 <= k < |p| - 1
  {
    Horizontal(p[k], p[k + 1])
  }

  /** Two horizontal segments never lie on the same row. */
  predicate OneMovePerRow(p: seq<PathStep>)
  {
    forall j, k {:trigger MoveAt(p, j), MoveAt(p, k)} ::
      0 <= j < k < |p| - 1 && MoveAt(p, j) && MoveAt(p, k) ==> p[j].y < p[k].y
  }

  /** Every waypoint lies on the header line or on one of the rows. */
  predicate OnRows(p: seq<PathStep>)
  {
    forall k :: 0 <= k < |p| ==> exists row :: 0 <= row <= NumRows && p[k].y == Y(row)
  }

  /** The number of horizontal segments, that is of rungs taken. */
  function Horizontals(p: seq<PathStep>): nat
  {
    if |p| < 2 then 0
    else Horizontals(p[..|p| - 1]) + if Horizontal(p[|p| - 2], p[|p| - 1]) then 1 else 0
  }

  /** The y of the last waypoint once `rows` rows are done. */
  function LastY(rows: nat): int
  {
    if rows == 0 then HeaderHeight else Y(rows - 1)
  }

  /**
    The waypoints of one row: one on the row line in the cursor's lane, and,
    when a rung is taken, a second one on the same line at the rung's far end.
  */
  lemma RowStepsShape(bridges: seq<Bridge>, col: int, row: int)
    ensures var r := RowSteps(bridges, col, row);
      && (|r| == 1 || |r| == 2)
      && (|r| == 2 <==> Step(bridges, col, row) != col)
      && r[0] == PathStep(X(col), Y(row))
      && r[|r| - 1] == PathStep(X(Step(bridges, col, row)), Y(row))
      && (forall i :: 0 <= i < |r| ==> r[i].y == Y(row))
      && (|r| == 2 ==> Horizontal(r[0], r[1]))
  {
  }

  /**
    A partial path starts at the top of lane `start`, ends in the cursor's
    lane on the last row done, and lies between the header and that row.
  */
  lemma {:induction false} PathUpToEnds(bridges: seq<Bridge>, start: int, rows: nat)
    ensures var p := PathUpTo(bridges, start, rows);
      && p != []
      && p[0] == PathStep(X(start), HeaderHeight)
      && Last(p) == PathStep(X(Col(bridges, start, rows)), LastY(rows))
      && (rows == 0 ==> |p| == 1)
      && (forall k :: 0 <= k < |p| ==> HeaderHeight <= p[k].y <= LastY(rows))
  {
    if rows > 0 {
      var p := PathUpTo(bridges, start, rows - 1);
      var r := RowSteps(bridges, Col(bridges, start, rows - 1), rows - 1);
      PathUpToEnds(bridges, start, rows - 1);
      RowStepsShape(bridges, Col(bridges, start, rows - 1), rows - 1);
      var q := p + r;
      forall k | 0 <= k < |q|
        ensures HeaderHeight <= q[k].y <= LastY(rows)
      {
        if k < |p| {
          assert q[k] == p[k];
        } else {
          assert q[k] == r[k - |p|];
        }
      }
    }
  }

  /**
    One more row appends its waypoints to the partial path: they lie on the
    row's line, start straight below the path's end, and take at most one rung.
  */
  lemma RowAppend(bridges: seq<Bridge>, start: int, rows: nat)
    requires rows > 0
    ensures var p, r := PathUpTo(bridges, start, rows - 1), RowSteps(bridges, Col(bridges, start, rows - 1), rows - 1);
      && PathUpTo(bridges, start, rows) == p + r
      && p != [] && (rows - 1 == 0 ==> |p| == 1)
      && (forall i :: 0 <= i < |p| ==> p[i].y <= LastY(rows - 1))
      && LastY(rows - 1) <= Y(rows - 1)
      && 1 <= |r| <= 2 && r[0].x == Last(p).x && Vertical(Last(p), r[0])
      && (forall i :: 0 <= i < |r| ==> r[i].y == Y(rows - 1))
      && (|r| == 2 ==> Horizontal(r[0], r[1]))
  {
    var k: nat := rows - 1;
    PathUpToEnds(bridges, start, k);
    RowStepsShape(bridges, Col(bridges, start, k), k);
    assert PathUpTo(bridges, start, rows) == PathUpTo(bridges, start, k) + RowSteps(bridges, Col(bridges, start, k), k);
  }

  /** Appending a row's waypoints below the path adds the row's rung, if it has one, to the count. */
  lemma HorizontalsAppend(p: seq<PathStep>, r: seq<PathStep>)
    requires p != [] && 1 <= |r| <= 2 && r[0].x == Last(p).x
    requires |r| == 2 ==> Horizontal(r[0], r[1])
    ensures Horizontals(p + r) == Horizontals(p) + |r| - 1
  {
    var a := r[0];
    assert (p + [a])[..|p|] == p;
    if |r| == 2 {
      assert p + r == (p + [a]) + [r[1]];
      assert (p + r)[..|p| + 1] == p + [a];
    } else {
      assert p + r == p + [a];
    }
  }

  /** A partial path holds one waypoint per row done, one for the start, and one per rung taken. */
  lemma {:induction false} PathUpToLength(bridges: seq<Bridge>, start: int, rows: nat)
    ensures |PathUpTo(bridges, start, rows)| == rows + 1 + Horizontals(PathUpTo(bridges, start, rows))
  {
    if rows > 0 {
      PathUpToLength(bridges, start, rows - 1);
      RowAppend(bridges, start, rows);
      HorizontalsAppend(PathUpTo(bridges, start, rows - 1), RowSteps(bridges, Col(bridges, start, rows - 1), rows - 1));
    }
  }

  /** Appending a connected piece that starts straight below the end keeps a path connected. */
  lemma ConnectedAppend(p: seq<PathStep>, r: seq<PathStep>)
    requires Connected(p) && Connected(r) && p != [] && r != [] && Vertical(Last(p), r[0])
    ensures Connected(p + r)
  {
    var q := p + r;
    forall k | 0 <= k < |q| - 1
      ensures Vertical(q[k], q[k + 1]) || Horizontal(q[k], q[k + 1])
    {
      if k < |p| - 1 {
        assert q[k] == p[k] && q[k + 1] == p[k + 1];
      } else if k == |p| - 1 {
        assert q[k] == Last(p) && q[k + 1] == r[0];
      } else {
        assert q[k] == r[k - |p|] && q[k + 1] == r[k + 1 - |p|];
      }
    }
  }

  /** Every segment of a partial path runs down a lane or along a rung. */
  lemma {:induction false} PathUpToConnected(bridges: seq<Bridge>, start: int, rows: nat)
    ensures Connected(PathUpTo(bridges, start, rows))
  {
    if rows > 0 {
      var r := RowSteps(bridges, Col(bridges, start, rows - 1), rows - 1);
      PathUpToConnected(bridges, start, rows - 1);
      RowAppend(bridges, start, rows);
      assert Connected(r) by {
        if |r| == 2 {
          assert Horizontal(r[0], r[1]);
        }
      }
      ConnectedAppend(PathUpTo(bridges, start, rows - 1), r);
    }
  }

  /** Appending waypoints on one line at or below every waypoint keeps y from decreasing. */
  lemma DescendingAppend(p: seq<PathStep>, r: seq<PathStep>, y: int)
    requires Descending(p) && forall i :: 0 <= i < |p| ==> p[i].y <= y
    requires forall i :: 0 <= i < |r| ==> r[i].y == y
    ensures Descending(p + r)
  {
    var q := p + r;
    forall j, k | 0 <= j <= k < |q|
      ensures q[j].y <= q[k].y
    {
      if k < |p| {
        assert q[j] == p[j] && q[k] == p[k];
      } else if j < |p| {
        assert q[j] == p[j] && q[k] == r[k - |p|];
      } else {
        assert q[j] == r[j - |p|] && q[k] == r[k - |p|];
      }
    }
  }

  /** y never decreases along a partial path. */
  lemma {:induction false} PathUpToDescending(bridges: seq<Bridge>, start: int, rows: nat)
    ensures Descending(PathUpTo(bridges, start, rows))
  {
    if rows > 0 {
      PathUpToDescending(bridges, start, rows - 1);
      RowAppend(bridges, start, rows);
      DescendingAppend(PathUpTo(bridges, start, rows - 1), RowSteps(bridges, Col(bridges, start, rows - 1), rows - 1), Y(rows - 1));
    }
  }

  /** The one rung a row may add lies below every rung taken on the rows above it. */
  lemma OneMoveAppend(p: seq<PathStep>, r: seq<PathStep>, row: nat)
    requires OneMovePerRow(p)
    requires p != [] && (row == 0 ==> |p| == 1)
    requires forall i :: 0 <= i < |p| ==> p[i].y <= LastY(row)
    requires 1 <= |r| <= 2 && r[0].x == Last(p).x && forall i :: 0 <= i < |r| ==> r[i].y == Y(row)
    ensures OneMovePerRow(p + r)
  {
    var q := p + r;
    assert q[|p| - 1] == Last(p) && q[|p|] == r[0];
    forall j, k | 0 <= j < k < |q| - 1 && MoveAt(q, j) && MoveAt(q, k)
      ensures q[j].y < q[k].y
    {
      if k + 1 < |p| {
        assert q[j] == p[j] && q[j + 1] == p[j + 1] && q[k] == p[k] && q[k + 1] == p[k + 1];
        assert MoveAt(p, j) && MoveAt(p, k);
      } else {
        assert !MoveAt(q, |p| - 1);
        assert k == |p|;
        assert j + 1 < |p|;
        assert q[j] == p[j] && q[k] == r[0];
      }
    }
  }

  /** A partial path takes at most one rung per row. */
  lemma {:induction false} PathUpToOneMove(bridges: seq<Bridge>, start: int, rows: nat)
    ensures OneMovePerRow(PathUpTo(bridges, start, rows))
  {
    if rows > 0 {
      PathUpToOneMove(bridges, start, rows - 1);
      RowAppend(bridges, start, rows);
      OneMoveAppend(PathUpTo(bridges, start, rows - 1), RowSteps(bridges, Col(bridges, start, rows - 1), rows - 1), rows - 1);
    }
  }

  /** Every waypoint of a partial path lies on the header line or on a row line. */
  lemma {:induction false} PathUpToOnRows(bridges: seq<Bridge>, start: int, rows: nat)
    requires rows <= NumRows + 1
    ensures OnRows(PathUpTo(bridges, start, rows))
  {
    if rows == 0 {
      assert PathUpTo(bridges, start, 0)[0].y == Y(0);
    } else {
      var p := PathUpTo(bridges, start, rows - 1);
      var col := Col(bridges, start, rows - 1);
      var r := RowSteps(bridges, col, rows - 1);
      PathUpToOnRows(bridges, start, rows - 1);
      RowStepsShape(bridges, col, rows - 1);
      var q := p + r;
      forall k | 0 <= k < |q|
        ensures exists row :: 0 <= row <= NumRows && q[k].y == Y(row)
      {
        if k < |p| {
          assert q[k] == p[k];
        } else {
          assert q[k] == r[k - |p|] && q[k].y == Y(rows - 1);
        }
      }
    }
  }

  /**
    The path of the participant in lane `start`: it begins at
    `(X(start), HeaderHeight)`, ends at the bottom row of the lane the walk
    ends in, holds `NumRows + 2` waypoints plus one per rung taken, and every
    waypoint after the first sits on a row line.
  */
  lemma PathShape(bridges: seq<Bridge>, start: int)
    ensures var p := Path(bridges, start);
      && p[0] == PathStep(X(start), HeaderHeight)
      && Last(p) == PathStep(X(FinalCol(bridges, start)), Y(NumRows))
      && |p| == NumRows + 2 + Horizontals(p)
      && Connected(p) && Descending(p) && OneMovePerRow(p) && OnRows(p)
  {
    PathUpToEnds(bridges, start, NumRows + 1);
    PathUpToLength(bridges, start, NumRows + 1);
    PathUpToConnected(bridges, start, NumRows + 1);
    PathUpToDescending(bridges, start, NumRows + 1);
    PathUpToOneMove(bridges, start, NumRows + 1);
    PathUpToOnRows(bridges, start, NumRows + 1);
  }

  /** With no rungs every path is `NumRows + 2` waypoints straight down its lane. */
  lemma {:induction false} NoBridgesStraight(start: int, rows: nat)
    ensures |PathUpTo([], start, rows)| == rows + 1
    ensures Col([], start, rows) == start
    ensures forall k :: 0 <= k < rows + 1 ==> PathUpTo([], start, rows)[k].x == X(start)
  {
    if rows > 0 {
      NoBridgesStraight(start, rows - 1);
    }
  }

  /** Without rungs a path has `NumRows + 2` waypoints, all on the x of its own lane. */
  lemma NoBridgesPath(start: int)
    ensures |Path([], start)| == NumRows + 2
    ensures forall k :: 0 <= k < |Path([], start)| ==> Path([], start)[k].x == X(start)
  {
    NoBridgesStraight(start, NumRows + 1);
  }

  /** Rows without rungs leave the cursor where it is. */
  lemma {:induction false} QuietRows(bridges: seq<Bridge>, start: int, lo: nat, hi: nat)
    requires lo <= hi
    requires forall b :: b in bridges ==> !(lo <= b.level < hi)
    ensures Col(bridges, start, hi) == Col(bridges, start, lo)
  {
    if hi > lo {
      QuietRows(bridges, start, lo, hi - 1);
    }
  }

  /** With rungs within the lanes, one row keeps the cursor within the lanes. */
  lemma StepInRange(count: int, bridges: seq<Bridge>, col: int, row: int)
    requires WithinLanes(count, bridges)
    requires 0 <= row <= NumRows && 0 <= col < count
    ensures 0 <= Step(bridges, col, row) < count
  {
    if FindBridge(bridges, row, col).Some? {
      assert Bridge(col, row) in bridges;
    } else if FindBridge(bridges, row, col - 1).Some? {
      assert Bridge(col - 1, row) in bridges;
    }
  }

  /** With rungs within the lanes, the cursor of every walk stays within the lanes. */
  lemma {:induction false} ColInRange(count: int, bridges: seq<Bridge>, start: int, rows: nat)
    requires WithinLanes(count, bridges)
    requires 0 <= start < count && rows <= NumRows + 1
    ensures 0 <= Col(bridges, start, rows) < count
  {
    if rows > 0 {
      ColInRange(count, bridges, start, rows - 1);
      StepInRange(count, bridges, Col(bridges, start, rows - 1), rows - 1);
    }
  }

  /**
    With non-adjacent rungs a row is an involution on the lanes: taking the
    same row twice brings every cursor back. This is where the adjacency
    exclusion matters: a lane touched by two rungs of one row would break it.
  */
  lemma StepInvolution(bridges: seq<Bridge>, col: int, row: int)
    requires NonAdjacent(bridges)
    ensures Step(bridges, Step(bridges, col, row), row) == col
  {
    if FindBridge(bridges, row, col).Some? {
      if Bridge(col + 1, row) in bridges {
        NonAdjacentMembers(bridges, Bridge(col, row), Bridge(col + 1, row));
      }
    } else if FindBridge(bridges, row, col - 1).Some? {
      if Bridge(col - 2, row) in bridges {
        NonAdjacentMembers(bridges, Bridge(col - 1, row), Bridge(col - 2, row));
      }
    }
  }

  /** Walking up the ladder from lane `col` through rows `rows - 1 .. 0`. */
  function ColUp(bridges: seq<Bridge>, col: int, rows: nat): int
    decreases rows
  {
    if rows == 0 then col else ColUp(bridges, Step(bridges, col, rows - 1), rows - 1)
  }

  /** The lane whose walk ends in lane `col`: the walk up the whole ladder. */
  function StartOf(bridges: seq<Bridge>, col: int): int
  {
    ColUp(bridges, col, NumRows + 1)
  }

  /** Walking down from where the walk up ends leads back. */
  lemma {:induction false} WalkDownUndoesUp(bridges: seq<Bridge>, col: int, rows: nat)
    requires NonAdjacent(bridges)
    ensures Col(bridges, ColUp(bridges, col, rows), rows) == col
    decreases rows
  {
    if rows > 0 {
      var k: nat := rows - 1;
      var up := Step(bridges, col, k);
      WalkDownUndoesUp(bridges, up, k);
      StepInvolution(bridges, col, k);
      assert ColUp(bridges, col, rows) == ColUp(bridges, up, k);
      assert Col(bridges, ColUp(bridges, up, k), rows) == Step(bridges, Col(bridges, ColUp(bridges, up, k), k), k);
    }
  }

  /** Walking up from where the walk down ends leads back. */
  lemma {:induction false} WalkUpUndoesDown(bridges: seq<Bridge>, col: int, rows: nat)
    requires NonAdjacent(bridges)
    ensures ColUp(bridges, Col(bridges, col, rows), rows) == col
    decreases rows
  {
    if rows > 0 {
      var k: nat := rows - 1;
      var down := Col(bridges, col, k);
      WalkUpUndoesDown(bridges, col, k);
      StepInvolution(bridges, down, k);
      assert Col(bridges, col, rows) == Step(bridges, down, k);
      assert ColUp(bridges, Step(bridges, down, k), rows) == ColUp(bridges, Step(bridges, Step(bridges, down, k), k), k);
    }
  }

  /** With rungs within the lanes, the walk up never leaves the lanes. */
  lemma {:induction false} ColUpInRange(count: int, bridges: seq<Bridge>, col: int, rows: nat)
    requires WithinLanes(count, bridges)
    requires 0 <= col < count && rows <= NumRows + 1
    ensures 0 <= ColUp(bridges, col, rows) < count
    decreases rows
  {
    if rows > 0 {
      var k: nat := rows - 1;
      var up := Step(bridges, col, k);
      StepInRange(count, bridges, col, k);
      ColUpInRange(count, bridges, up, k);
      assert ColUp(bridges, col, rows) == ColUp(bridges, up, k);
    }
  }

  /**
    The central invariant: with rungs within the lanes that never touch, the
    lanes the participants end in are a permutation of the lanes: every
    participant ends in a lane, no two end in the same one, and every lane is
    reached, by the walk that starts where the walk up from it ends.
  */
  lemma WalkIsBijection(count: int, bridges: seq<Bridge>)
    requires WithinLanes(count, bridges) && NonAdjacent(bridges)
    ensures forall s :: 0 <= s < count ==> 0 <= FinalCol(bridges, s) < count
    ensures forall s, t :: 0 <= s < count && 0 <= t < count && FinalCol(bridges, s) == FinalCol(bridges, t) ==> s == t
    ensures forall c :: 0 <= c < count ==>
      0 <= StartOf(bridges, c) < count && FinalCol(bridges, StartOf(bridges, c)) == c
  {
    forall s | 0 <= s < count
      ensures 0 <= FinalCol(bridges, s) < count
    {
      ColInRange(count, bridges, s, NumRows + 1);
    }
    forall s, t | 0 <= s < count && 0 <= t < count && FinalCol(bridges, s) == FinalCol(bridges, t)
      ensures s == t
    {
      WalkUpUndoesDown(bridges, s, NumRows + 1);
      WalkUpUndoesDown(bridges, t, NumRows + 1);
    }
    forall c | 0 <= c < count
      ensures 0 <= StartOf(bridges, c) < count && FinalCol(bridges, StartOf(bridges, c)) == c
    {
      WalkDownUndoesUp(bridges, c, NumRows + 1);
      ColUpInRange(count, bridges, c, NumRows + 1);
    }
  }

  /**
    Non-adjacency cannot be dropped: with rungs at lanes 0 and 1 of the same
    row, the participants starting in lanes 0 and 2 both end in lane 1.
  */
  lemma AdjacentRungsMerge(bridges: seq<Bridge>)
    requires bridges == [Bridge(0, 1), Bridge(1, 1)]
    ensures WithinLanes(3, bridges) && !NonAdjacent(bridges)
      && FinalCol(bridges, 0) == 1 && FinalCol(bridges, 2) == 1
  {
    assert !Apart(bridges[0].fromCol, bridges[1].fromCol);
    QuietRows(bridges, 0, 2, NumRows + 1);
    QuietRows(bridges, 0, 0, 1);
    QuietRows(bridges, 2, 2, NumRows + 1);
    QuietRows(bridges, 2, 0, 1);
    assert Bridge(0, 1) in bridges && Bridge(1, 1) in bridges;
    assert Bridge(2, 1) !in bridges;
  }

  /**
    When every rung is the one between lanes 0 and 1 on row `level`, the
    walks from lanes 0 and 1 trade places, however often the rung is listed.
  */
  lemma SingleRungWalk(bridges: seq<Bridge>, level: int)
    requires 0 <= level <= NumRows && Bridge(0, level) in bridges
    requires forall b :: b in bridges ==> b == Bridge(0, level)
    ensures FinalCol(bridges, 0) == 1 && FinalCol(bridges, 1) == 0
  {
    var next: nat := level + 1;
    QuietRows(bridges, 0, 0, level);
    QuietRows(bridges, 0, next, NumRows + 1);
    QuietRows(bridges, 1, 0, level);
    QuietRows(bridges, 1, next, NumRows + 1);
    assert Bridge(1, level) !in bridges;
    assert Col(bridges, 0, next) == Step(bridges, 0, level);
    assert Col(bridges, 1, next) == Step(bridges, 1, level);
  }

  /** The three branches of one row, as the resolver takes them. */
  lemma RowStepsCases(bridges: seq<Bridge>, col: int, row: int)
    ensures FindBridge(bridges, row, col).Some? ==>
      RowSteps(bridges, col, row) == [PathStep(X(col), Y(row)), PathStep(X(col + 1), Y(row))]
      && Step(bridges, col, row) == col + 1
    ensures FindBridge(bridges, row, col).None? && FindBridge(bridges, row, col - 1).Some? ==>
      RowSteps(bridges, col, row) == [PathStep(X(col), Y(row)), PathStep(X(col - 1), Y(row))]
      && Step(bridges, col, row) == col - 1
    ensures FindBridge(bridges, row, col).None? && FindBridge(bridges, row, col - 1).None? ==>
      RowSteps(bridges, col, row) == [PathStep(X(col), Y(row))] && Step(bridges, col, row) == col
  {
  }

  /**
    `calculatePaths`: one path per starting lane, each the walk described by
    `Path`, starting at the top of its own lane and ending at the bottom of
    the lane its walk ends in.
  */
  method CalculatePaths(count: int, bridges: seq<Bridge>) returns (paths: seq<seq<PathStep>>)
    ensures |paths| == if count > 0 then count else 0
    ensures forall i :: 0 <= i < |paths| ==> paths[i] == Path(bridges, i)
    ensures forall i :: 0 <= i < |paths| ==> paths[i] != [] && paths[i][0] == PathStep(X(i), HeaderHeight)
    ensures forall i :: 0 <= i < |paths| ==> Last(paths[i]) == PathStep(X(FinalCol(bridges, i)), Y(NumRows))
  {
    paths := [];
    var startCol := 0;
    while startCol < count
      invariant 0 <= startCol == |paths|
      invariant startCol <= if count > 0 then count else 0
      invariant forall i :: 0 <= i < |paths| ==> paths[i] == Path(bridges, i)
    {
      var path := [PathStep(X(startCol), HeaderHeight)];
      var currentCol := startCol;
      var row := 0;
      while row <= NumRows
        invariant 0 <= row <= NumRows + 1
        invariant currentCol == Col(bridges, startCol, row)
        invariant path == PathUpTo(bridges, startCol, row)
      {
        var currentY := HeaderHeight + row * RowHeight;
        ghost var next := path + RowSteps(bridges, currentCol, row);
        assert next == PathUpTo(bridges, startCol, row + 1);
        RowStepsCases(bridges, currentCol, row);
        var bridgeRight := FindBridge(bridges, row, currentCol);
        var bridgeLeft := FindBridge(bridges, row, currentCol - 1);
        if bridgeRight.Some? {
          path := path + [PathStep(X(currentCol), currentY)];
          currentCol := currentCol + 1;
          path := path + [PathStep(X(currentCol), currentY)];
        } else if bridgeLeft.Some? {
          path := path + [PathStep(X(currentCol), currentY)];
          currentCol := currentCol - 1;
          path := path + [PathStep(X(currentCol), currentY)];
        } else {
          path := path + [PathStep(X(currentCol), currentY)];
        }
        assert path == next;
        row := row + 1;
      }
      paths := paths + [path];
      startCol := startCol + 1;
    }
    forall i | 0 <= i < |paths|
      ensures paths[i] != [] && paths[i][0] == PathStep(X(i), HeaderHeight)
      ensures Last(paths[i]) == PathStep(X(FinalCol(bridges, i)), Y(NumRows))
    {
      PathShape(bridges, i);
    }
  }
}
