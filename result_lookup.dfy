/**
  The result lookup of the finished screen (App.tsx, line 123): the result
  a participant gets is read back from the x of the last waypoint of their
  path, as `Math.round((x - 120 / 2) / 120)`.
*/
module ResultLookup {
  import opened LadderTypes
  import opened Paths
  import opened ResultIndices

  /**
    `Math.round((x - 60) / 120)` for an integer `x`: the integer nearest to
    `(x - 60) / 120`, a tie going up as `Math.round` does.
  */
  function ResultIndex(x: int): (r: int)
    ensures 120 * (2 * r - 1) <= 2 * (x - 60) < 120 * (2 * r + 1)
  {
    (2 * (x - 60) + 120) / 240
  }

  /** The lookup undoes the lane-centre formula: the x of lane `c` is read back as `c`. */
  lemma ResultIndexInvertsX(c: int)
    ensures ResultIndex(X(c)) == c
  {
    assert 2 * (X(c) - 60) + 120 == 240 * c + 120;
  }

  /**
    For rungs within the lanes that never touch, the index read back from the
    last waypoint of participant `i`'s path is entry `i` of
    `getFinalResultIndices`: the screen shows the result the extractor
    assigns, and no two participants are shown the same result.
  */
  lemma LookupFindsResult(count: int, bridges: seq<Bridge>, i: int)
    requires WithinLanes(count, bridges) && NonAdjacent(bridges) && 0 <= i < count
    ensures var r := ResultIndex(Last(Path(bridges, i)).x);
      r == FinalResultIndices(count, bridges)[i] && 0 <= r < count
    ensures forall j :: 0 <= j < count && j != i ==>
      ResultIndex(Last(Path(bridges, j)).x) != ResultIndex(Last(Path(bridges, i)).x)
  {
    FinalResultIndicesFollowPaths(count, bridges);
    WalkIsBijection(count, bridges);
    PathShape(bridges, i);
    ResultIndexInvertsX(FinalCol(bridges, i));
    forall j | 0 <= j < count && j != i
      ensures ResultIndex(Last(Path(bridges, j)).x) != ResultIndex(Last(Path(bridges, i)).x)
    {
      PathShape(bridges, j);
      ResultIndexInvertsX(FinalCol(bridges, j));
    }
  }
}
