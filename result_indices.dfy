/**
  The permutation extractor, `getFinalResultIndices`: starting from the
  identity, every rung, row by row, swaps the entries that hold its two
  lanes. Entry `i` is then the lane participant `i` is in.

  The mapping after each row is specified by `Extract`; the method
  `GetFinalResultIndices` is proved to compute it in place. The lemmas state
  that the mapping is always a permutation, that with non-adjacent rungs the
  order of the rungs within a row does not matter, and that the mapping
  agrees with the lane each path of the resolver ends in.
*/
module ResultIndices {
  import opened LadderTypes
  import opened Paths

  /** `Array.from({ length: count }, (_, i) => i)`. */
  function Identity(count: int): (r: seq<int>)
    ensures |r| == if count > 0 then count else 0
    ensures forall i :: 0 <= i < |r| ==> r[i] == i
  {
    seq(if count > 0 then count else 0, i => i)
  }

  /** `s.indexOf(v)`: the first index that holds `v`, or -1 when none does. */
  function IndexOf(s: seq<int>, v: int): (r: int)
    ensures -1 <= r < |s|
    ensures r == -1 <==> v !in s
    ensures 0 <= r ==> s[r] == v && v !in s[..r]
  {
    if s == [] then -1
    else if s[0] == v then 0
    else
      var k := IndexOf(s[1..], v);
      if k == -1 then -1
      else
        assert s[..k + 1] == [s[0]] + s[1..][..k];
        k + 1
  }

  /** `bridges.filter(b => b.level === row)`, keeping the order of the list. */
  function RowBridges(bridges: seq<Bridge>, row: int): (r: seq<Bridge>)
    ensures |r| <= |bridges|
  {
    if bridges == [] then []
    else (if bridges[0].level == row then [bridges[0]] else []) + RowBridges(bridges[1..], row)
  }

  /** `filter` keeps exactly the rungs that lie on the row. */
  lemma {:induction false} RowBridgesMembers(bridges: seq<Bridge>, row: int)
    ensures forall b :: b in RowBridges(bridges, row) <==> b in bridges && b.level == row
  {
    if bridges != [] {
      RowBridgesMembers(bridges[1..], row);
      assert bridges == [bridges[0]] + bridges[1..];
    }
  }

  /** `filter` keeps a single rung exactly when it lies on the row. */
  lemma RowBridgesSingle(x: Bridge, row: int)
    ensures RowBridges([x], row) == if x.level == row then [x] else []
  {
    assert [x][1..] == [];
  }

  /**
    `filter` keeps the rungs of the row in list order, each as often as it is
    listed: filtering a concatenation filters each part (with
    `RowBridgesSingle`, this determines the result completely).
  */
  lemma {:induction false} RowBridgesKeepsOrder(a: seq<Bridge>, b: seq<Bridge>, row: int)
    ensures RowBridges(a + b, row) == RowBridges(a, row) + RowBridges(b, row)
  {
    if a == [] {
      assert a + b == b;
    } else {
      var t, h := a[1..], if a[0].level == row then [a[0]] else [];
      RowBridgesKeepsOrder(t, b, row);
      assert RowBridges(a + b, row) == h + RowBridges(t + b, row) by {
        assert (a + b)[0] == a[0] && (a + b)[1..] == t + b;
      }
      assert RowBridges(a, row) == h + RowBridges(t, row);
      SeqAppendAssoc(h, RowBridges(t, row), RowBridges(b, row));
    }
  }

  /** Concatenation of rung lists is associative. */
  lemma SeqAppendAssoc(x: seq<Bridge>, y: seq<Bridge>, z: seq<Bridge>)
    ensures x + (y + z) == (x + y) + z
  {
  }

  /** Filtering a list with a rung in front filters the rung, then the rest. */
  lemma RowBridgesCons(x: Bridge, t: seq<Bridge>, row: int)
    ensures RowBridges([x] + t, row) == (if x.level == row then [x] else []) + RowBridges(t, row)
  {
    assert ([x] + t)[0] == x && ([x] + t)[1..] == t;
  }

  /** For rungs within the lanes, the rungs of a visited row join existing lanes. */
  lemma RowBridgesWithinLanes(count: int, bridges: seq<Bridge>, row: int)
    requires WithinLanes(count, bridges) && 0 <= row <= NumRows
    ensures forall b :: b in RowBridges(bridges, row) ==> b.level == row && 0 <= b.fromCol < count - 1
  {
    RowBridgesMembers(bridges, row);
  }

  /** A list with no rung on the row filters to nothing. */
  lemma RowBridgesNone(bridges: seq<Bridge>, row: int)
    requires forall b :: b in bridges ==> b.level != row
    ensures RowBridges(bridges, row) == []
  {
    RowBridgesMembers(bridges, row);
    var r := RowBridges(bridges, row);
    assert forall i :: 0 <= i < |r| ==> r[i] in r;
  }

  /** The value a rung at lanes `a`, `a + 1` leaves in place of `v`. */
  function Transpose(a: int, v: int): int
  {
    if v == a then a + 1 else if v == a + 1 then a else v
  }

  /** `m` holds each of the lanes `0 .. count - 1` exactly once. */
  predicate IsPermutation(m: seq<int>, count: int)
  {
    multiset(m) == multiset(Identity(count))
  }

  /**
    The swap of one rung (`utils/ladderUtils.ts`, lines 69-72): the entries holding `a` and `a + 1`,
    found with `indexOf`, trade places. When either lane is missing the
    mapping is left as it is; the engine never gets there for rungs within
    the lanes (`SwapKeepsPermutation`).
  */
  function SwapEntries(m: seq<int>, a: int): (r: seq<int>)
    ensures |r| == |m|
  {
    var idx1 := IndexOf(m, a);
    var idx2 := IndexOf(m, a + 1);
    if idx1 < 0 || idx2 < 0 then m else m[idx1 := m[idx2]][idx2 := m[idx1]]
  }

  /**
    What the swap does: when both lanes are present, the first entry holding
    `a` now holds `a + 1` and the first entry holding `a + 1` now holds `a`;
    when either is missing nothing changes; entries holding neither lane keep
    their value.
  */
  lemma SwapEntriesSwaps(m: seq<int>, a: int)
    ensures a !in m || a + 1 !in m ==> SwapEntries(m, a) == m
    ensures a in m && a + 1 in m ==>
      SwapEntries(m, a)[IndexOf(m, a)] == a + 1 && SwapEntries(m, a)[IndexOf(m, a + 1)] == a
    ensures forall i :: 0 <= i < |m| && m[i] != a && m[i] != a + 1 ==> SwapEntries(m, a)[i] == m[i]
  {
  }

  /** The identity holds every lane once and nothing else. */
  lemma {:induction false} IdentityMultiplicity(count: int)
    ensures forall v :: multiset(Identity(count))[v] == if 0 <= v < count then 1 else 0
  {
    if count > 0 {
      IdentityMultiplicity(count - 1);
      assert Identity(count) == Identity(count - 1) + [count - 1];
    } else {
      assert Identity(count) == [];
    }
  }

  /** A value held at two indices is counted twice. */
  lemma TwiceCounted(m: seq<int>, i: int, j: int)
    requires 0 <= i < j < |m| && m[i] == m[j]
    ensures multiset(m)[m[i]] >= 2
  {
    assert m == m[..j] + m[j..];
    assert m[i] in m[..j] && m[j] in m[j..];
  }

  /** A permutation of the lanes holds every lane and nothing else. */
  lemma PermutationMembers(m: seq<int>, count: int)
    requires IsPermutation(m, count)
    ensures forall v :: v in m <==> 0 <= v < count
  {
    IdentityMultiplicity(count);
    forall v
      ensures v in m <==> 0 <= v < count
    {
      assert v in m <==> v in multiset(m);
    }
  }

  /** A permutation of the lanes holds no lane twice. */
  lemma PermutationDistinct(m: seq<int>, count: int)
    requires IsPermutation(m, count)
    ensures forall i, j :: 0 <= i < |m| && 0 <= j < |m| && i != j ==> m[i] != m[j]
  {
    IdentityMultiplicity(count);
    forall i, j | 0 <= i < |m| && 0 <= j < |m| && i != j
      ensures m[i] != m[j]
    {
      if m[i] == m[j] {
        if i < j { TwiceCounted(m, i, j); } else { TwiceCounted(m, j, i); }
      }
    }
  }

  /**
    On a permutation of the lanes, `indexOf` finds both lanes of a rung that
    lies within the lanes, at two different indices, and the swap leaves a
    permutation.
  */
  lemma SwapKeepsPermutation(m: seq<int>, count: int, a: int)
    requires IsPermutation(m, count) && 0 <= a < count - 1
    ensures 0 <= IndexOf(m, a) && 0 <= IndexOf(m, a + 1) && IndexOf(m, a) != IndexOf(m, a + 1)
    ensures IsPermutation(SwapEntries(m, a), count)
  {
    PermutationMembers(m, count);
    var i1, i2 := IndexOf(m, a), IndexOf(m, a + 1);
    assert multiset(m[i1 := m[i2]][i2 := m[i1]]) == multiset(m);
  }

  /**
    The rungs of one row applied in list order (`utils/ladderUtils.ts`, lines 68-73), each by the
    swap of its two lanes.
  */
  function ApplyRungs(m: seq<int>, rungs: seq<Bridge>): (r: seq<int>)
    ensures |r| == |m|
  {
    if rungs == [] then m
    else SwapEntries(ApplyRungs(m, rungs[..|rungs| - 1]), rungs[|rungs| - 1].fromCol)
  }

  /** Some rung of `rungs` has `v` as one of its two lanes. */
  predicate Touches(rungs: seq<Bridge>, v: int)
  {
    exists b :: b in rungs && (v == b.fromCol || v == b.fromCol + 1)
  }

  /** Entries holding a lane that no rung of the row joins keep their value. */
  lemma {:induction false} ApplyRungsUntouched(m: seq<int>, rungs: seq<Bridge>)
    ensures forall i :: 0 <= i < |m| && !Touches(rungs, m[i]) ==> ApplyRungs(m, rungs)[i] == m[i]
  {
    if rungs != [] {
      var n := |rungs| - 1;
      ApplyRungsUntouched(m, rungs[..n]);
      forall i | 0 <= i < |m| && !Touches(rungs, m[i])
        ensures ApplyRungs(m, rungs)[i] == m[i]
      {
        var a, p := rungs[n].fromCol, ApplyRungs(m, rungs[..n]);
        assert !Touches(rungs[..n], m[i]) by {
          assert forall b :: b in rungs[..n] ==> b in rungs;
        }
        assert m[i] != a && m[i] != a + 1 by {
          assert rungs[n] in rungs;
        }
        SwapEntriesSwaps(p, a);
      }
    }
  }

  /** Rungs within the lanes turn a permutation of the lanes into another one. */
  lemma {:induction false} ApplyRungsPermutation(count: int, m: seq<int>, rungs: seq<Bridge>)
    requires IsPermutation(m, count)
    requires forall b :: b in rungs ==> 0 <= b.fromCol < count - 1
    ensures IsPermutation(ApplyRungs(m, rungs), count)
  {
    if rungs != [] {
      var n := |rungs| - 1;
      ApplyRungsPermutation(count, m, rungs[..n]);
      SwapKeepsPermutation(ApplyRungs(m, rungs[..n]), count, rungs[n].fromCol);
    }
  }

  /** The mapping once rows `0 .. rows - 1` are done (`utils/ladderUtils.ts`, lines 63-74). */
  function Extract(count: int, bridges: seq<Bridge>, rows: nat): (r: seq<int>)
    requires WithinLanes(count, bridges) && rows <= NumRows + 1
    ensures |r| == |Identity(count)|
  {
    if rows == 0 then Identity(count)
    else ApplyRungs(Extract(count, bridges, rows - 1), RowBridges(bridges, rows - 1))
  }

  /** The result of `getFinalResultIndices`. */
  function FinalResultIndices(count: int, bridges: seq<Bridge>): (r: seq<int>)
    requires WithinLanes(count, bridges)
    ensures |r| == |Identity(count)|
  {
    Extract(count, bridges, NumRows + 1)
  }

  /**
    For rungs within the lanes, the mapping after every row, and so the
    result, is a permutation of the lanes: every result is given to exactly
    one participant.
  */
  lemma {:induction false} ExtractPermutation(count: int, bridges: seq<Bridge>, rows: nat)
    requires WithinLanes(count, bridges) && rows <= NumRows + 1
    ensures IsPermutation(Extract(count, bridges, rows), count)
  {
    if rows > 0 {
      var r: nat := rows - 1;
      ExtractPermutation(count, bridges, r);
      RowBridgesWithinLanes(count, bridges, r);
      ApplyRungsPermutation(count, Extract(count, bridges, r), RowBridges(bridges, r));
      assert Extract(count, bridges, rows) == ApplyRungs(Extract(count, bridges, r), RowBridges(bridges, r));
    }
  }

  /** On a permutation, swapping the entries that hold `a` and `a + 1` swaps those values everywhere. */
  lemma SwapTransposes(m: seq<int>, count: int, a: int)
    requires IsPermutation(m, count) && 0 <= a < count - 1
    ensures forall i :: 0 <= i < |m| ==> SwapEntries(m, a)[i] == Transpose(a, m[i])
  {
    PermutationMembers(m, count);
    PermutationDistinct(m, count);
  }

  /** One more rung, apart from all others on its row, transposes where they lead. */
  lemma StepExtend(rungs: seq<Bridge>, x: Bridge, v: int, row: int)
    requires x.level == row
    requires forall y :: y in rungs && y.level == row ==> Apart(y.fromCol, x.fromCol)
    ensures Step(rungs + [x], v, row) == Transpose(x.fromCol, Step(rungs, v, row))
  {
    var a := x.fromCol;
    assert Bridge(a, row) == x;
    assert Bridge(a, row) !in rungs && Bridge(a - 1, row) !in rungs && Bridge(a + 1, row) !in rungs;
    assert forall c :: Bridge(c, row) in rungs + [x] <==> Bridge(c, row) in rungs || c == a;
  }

  /**
    With non-adjacent rungs all on row `row`, applying them in list order
    moves every entry the way the walk's cursor moves on that row.
  */
  lemma {:induction false} ApplyRungsSteps(count: int, m: seq<int>, rungs: seq<Bridge>, row: int)
    requires IsPermutation(m, count)
    requires forall b :: b in rungs ==> b.level == row && 0 <= b.fromCol < count - 1
    requires NonAdjacent(rungs)
    ensures forall i :: 0 <= i < |m| ==> ApplyRungs(m, rungs)[i] == Step(rungs, m[i], row)
  {
    if rungs == [] {
      forall i | 0 <= i < |m|
        ensures m[i] == Step(rungs, m[i], row)
      {
        assert FindBridge(rungs, row, m[i]) == None;
      }
    } else {
      var n := |rungs| - 1;
      var init, x := rungs[..n], rungs[n];
      assert rungs == init + [x];
      assert NonAdjacent(init) by {
        forall i, j | 0 <= i < |init| && 0 <= j < |init| && i != j && init[i].level == init[j].level
          ensures Apart(init[i].fromCol, init[j].fromCol)
        {
          assert init[i] == rungs[i] && init[j] == rungs[j];
        }
      }
      ApplyRungsSteps(count, m, init, row);
      ApplyRungsPermutation(count, m, init);
      var prev := ApplyRungs(m, init);
      SwapTransposes(prev, count, x.fromCol);
      forall y | y in init && y.level == row
        ensures Apart(y.fromCol, x.fromCol)
      {
        var k :| 0 <= k < n && init[k] == y;
        assert rungs[k] == y;
      }
      forall i | 0 <= i < |m|
        ensures ApplyRungs(m, rungs)[i] == Step(rungs, m[i], row)
      {
        StepExtend(init, x, m[i], row);
      }
    }
  }

  /** The filtered row moves the cursor exactly as the whole rung list does on that row. */
  lemma StepOnRow(bridges: seq<Bridge>, v: int, row: int)
    ensures Step(RowBridges(bridges, row), v, row) == Step(bridges, v, row)
  {
    RowBridgesMembers(bridges, row);
    assert Bridge(v, row) in RowBridges(bridges, row) <==> Bridge(v, row) in bridges;
    assert Bridge(v - 1, row) in RowBridges(bridges, row) <==> Bridge(v - 1, row) in bridges;
  }

  /** Dropping the first rung keeps a list non-adjacent. */
  lemma TailNonAdjacent(bridges: seq<Bridge>)
    requires NonAdjacent(bridges) && bridges != []
    ensures NonAdjacent(bridges[1..])
  {
    var tail := bridges[1..];
    forall i, j | 0 <= i < |tail| && 0 <= j < |tail| && i != j && tail[i].level == tail[j].level
      ensures Apart(tail[i].fromCol, tail[j].fromCol)
    {
      assert tail[i] == bridges[i + 1] && tail[j] == bridges[j + 1];
    }
  }

  /** A rung apart from every rung of a non-adjacent list on its row can be put in front of it. */
  lemma ConsNonAdjacent(x: Bridge, t: seq<Bridge>)
    requires NonAdjacent(t)
    requires forall b :: b in t && b.level == x.level ==> Apart(b.fromCol, x.fromCol)
    ensures NonAdjacent([x] + t)
  {
    var r := [x] + t;
    forall i, j | 0 <= i < |r| && 0 <= j < |r| && i != j && r[i].level == r[j].level
      ensures Apart(r[i].fromCol, r[j].fromCol)
    {
      if i > 0 && j > 0 {
        assert r[i] == t[i - 1] && r[j] == t[j - 1];
      } else if i > 0 {
        assert r[i] in t;
      } else {
        assert r[j] in t;
      }
    }
  }

  /** Filtering a non-adjacent list keeps it non-adjacent. */
  lemma {:induction false} RowBridgesNonAdjacent(bridges: seq<Bridge>, row: int)
    requires NonAdjacent(bridges)
    ensures NonAdjacent(RowBridges(bridges, row))
  {
    if bridges != [] {
      var tail := bridges[1..];
      TailNonAdjacent(bridges);
      RowBridgesNonAdjacent(tail, row);
      if bridges[0].level == row {
        RowBridgesMembers(tail, row);
        forall b | b in RowBridges(tail, row) && b.level == bridges[0].level
          ensures Apart(b.fromCol, bridges[0].fromCol)
        {
          var m :| 0 <= m < |tail| && tail[m] == b;
          assert bridges[m + 1] == b;
        }
        ConsNonAdjacent(bridges[0], RowBridges(tail, row));
      }
    }
  }

  /**
    With rungs within the lanes that never touch, the swaps of one row move
    entry `i` the way the walk's cursor moves on that row.
  */
  lemma RowFollowsWalk(count: int, bridges: seq<Bridge>, row: int, prev: seq<int>, i: int)
    requires WithinLanes(count, bridges) && NonAdjacent(bridges) && 0 <= row <= NumRows
    requires IsPermutation(prev, count) && 0 <= i < |prev|
    ensures ApplyRungs(prev, RowBridges(bridges, row))[i] == Step(bridges, prev[i], row)
  {
    var rungs := RowBridges(bridges, row);
    RowBridgesWithinLanes(count, bridges, row);
    RowBridgesNonAdjacent(bridges, row);
    ApplyRungsSteps(count, prev, rungs, row);
    StepOnRow(bridges, prev[i], row);
  }

  /** One more row moves entry `i` of the mapping the way the walk's cursor moves on it. */
  lemma ExtractStep(count: int, bridges: seq<Bridge>, row: int, i: int)
    requires WithinLanes(count, bridges) && NonAdjacent(bridges) && 0 <= row <= NumRows
    requires 0 <= i < count
    ensures Extract(count, bridges, row + 1)[i] == Step(bridges, Extract(count, bridges, row)[i], row)
  {
    ExtractPermutation(count, bridges, row);
    RowFollowsWalk(count, bridges, row, Extract(count, bridges, row), i);
  }

  /**
    With rungs within the lanes that never touch, entry `i` of the mapping
    after any number of rows is the lane of the walk from lane `i`.
  */
  lemma {:induction false} ExtractFollowsWalk(count: int, bridges: seq<Bridge>, rows: nat, i: int)
    requires WithinLanes(count, bridges) && NonAdjacent(bridges) && rows <= NumRows + 1
    requires 0 <= i < count
    ensures |Extract(count, bridges, rows)| == count
    ensures Extract(count, bridges, rows)[i] == Col(bridges, i, rows)
  {
    if rows > 0 {
      var r := rows - 1;
      ExtractFollowsWalk(count, bridges, r, i);
      ExtractStep(count, bridges, r, i);
      assert r + 1 == rows;
      assert Col(bridges, i, rows) == Step(bridges, Col(bridges, i, r), r);
    }
  }

  /**
    The cross-check between the two halves of the engine: for rungs within
    the lanes that never touch, entry `i` of `getFinalResultIndices` is the
    lane the path of participant `i` ends in, and the path's last waypoint
    lies at the bottom of that lane.
  */
  lemma FinalResultIndicesFollowPaths(count: int, bridges: seq<Bridge>)
    requires WithinLanes(count, bridges) && NonAdjacent(bridges)
    ensures |FinalResultIndices(count, bridges)| == |Identity(count)|
    ensures forall i :: 0 <= i < |FinalResultIndices(count, bridges)| ==>
      FinalResultIndices(count, bridges)[i] == FinalCol(bridges, i)
      && Last(Path(bridges, i)) == PathStep(X(FinalResultIndices(count, bridges)[i]), Y(NumRows))
  {
    forall i | 0 <= i < |FinalResultIndices(count, bridges)|
      ensures FinalResultIndices(count, bridges)[i] == FinalCol(bridges, i)
      ensures Last(Path(bridges, i)) == PathStep(X(FinalCol(bridges, i)), Y(NumRows))
    {
      ExtractFollowsWalk(count, bridges, NumRows + 1, i);
      PathShape(bridges, i);
    }
  }

  /**
    With rungs within the lanes that never touch, the order in which the
    rungs of one row are listed does not change the mapping.
  */
  lemma RowOrderIrrelevant(count: int, m: seq<int>, rungs: seq<Bridge>, reordered: seq<Bridge>, row: int)
    requires IsPermutation(m, count)
    requires forall b :: b in rungs ==> b.level == row && 0 <= b.fromCol < count - 1
    requires NonAdjacent(rungs) && NonAdjacent(reordered)
    requires forall b :: b in reordered <==> b in rungs
    ensures ApplyRungs(m, rungs) == ApplyRungs(m, reordered)
  {
    ApplyRungsSteps(count, m, rungs, row);
    ApplyRungsSteps(count, m, reordered, row);
    forall i | 0 <= i < |m|
      ensures Step(rungs, m[i], row) == Step(reordered, m[i], row)
    {
      assert Bridge(m[i], row) in rungs <==> Bridge(m[i], row) in reordered;
      assert Bridge(m[i] - 1, row) in rungs <==> Bridge(m[i] - 1, row) in reordered;
    }
  }

  /** Without rungs nothing moves: the mapping stays the identity. */
  lemma {:induction false} ExtractNoBridges(count: int, rows: nat)
    requires rows <= NumRows + 1
    ensures Extract(count, [], rows) == Identity(count)
  {
    if rows > 0 {
      ExtractNoBridges(count, rows - 1);
      assert RowBridges([], rows - 1) == [];
    }
  }

  /** Without rungs every participant gets the result below its own lane. */
  lemma NoBridgesIdentity(count: int)
    ensures forall i :: 0 <= i < count ==> i < |FinalResultIndices(count, [])| && FinalResultIndices(count, [])[i] == i
    ensures |FinalResultIndices(count, [])| == if count > 0 then count else 0
  {
    ExtractNoBridges(count, NumRows + 1);
    assert FinalResultIndices(count, []) == Identity(count);
  }

  /** A single rung between two lanes swaps the two results. */
  lemma SingleRungSwaps(bridges: seq<Bridge>, level: int)
    requires 0 <= level <= NumRows && bridges == [Bridge(0, level)]
    ensures WithinLanes(2, bridges) && FinalResultIndices(2, bridges) == [1, 0]
  {
    assert NonAdjacent(bridges);
    SingleRungWalk(bridges, level);
    FinalResultIndicesFollowPaths(2, bridges);
  }

  /** A row without rungs leaves the mapping as it is. */
  lemma ExtractQuietRow(count: int, bridges: seq<Bridge>, row: nat, next: nat)
    requires WithinLanes(count, bridges) && next == row + 1 <= NumRows + 1
    requires forall b :: b in bridges ==> b.level != row
    ensures Extract(count, bridges, next) == Extract(count, bridges, row)
  {
    RowBridgesNone(bridges, row);
    assert ApplyRungs(Extract(count, bridges, row), []) == Extract(count, bridges, row);
  }

  /** Rows without rungs leave the mapping as it is. */
  lemma {:induction false} ExtractQuiet(count: int, bridges: seq<Bridge>, lo: nat, hi: nat)
    requires WithinLanes(count, bridges) && lo <= hi <= NumRows + 1
    requires forall b :: b in bridges ==> !(lo <= b.level < hi)
    ensures Extract(count, bridges, hi) == Extract(count, bridges, lo)
    decreases hi - lo
  {
    if lo < hi {
      ExtractQuietRow(count, bridges, lo, lo + 1);
      ExtractQuiet(count, bridges, lo + 1, hi);
    }
  }

  /** Swapping the same pair of lanes twice restores the mapping. */
  lemma TwiceSwapped(rungs: seq<Bridge>)
    requires rungs == [Bridge(0, 1), Bridge(0, 1)]
    ensures ApplyRungs([0, 1], rungs) == [0, 1]
  {
    assert IndexOf([0, 1], 0) == 0 && IndexOf([0, 1], 1) == 1;
    assert SwapEntries([0, 1], 0) == [1, 0];
    assert IndexOf([1, 0], 0) == 1 && IndexOf([1, 0], 1) == 0;
    assert SwapEntries([1, 0], 0) == [0, 1];
    assert rungs[..1][..0] == [];
    assert ApplyRungs([0, 1], rungs[..1]) == [1, 0];
  }

  /** After row 1, the two swaps of a rung listed twice have cancelled out. */
  lemma DuplicateRungExtract(bridges: seq<Bridge>)
    requires bridges == [Bridge(0, 1), Bridge(0, 1)]
    ensures WithinLanes(2, bridges) && Extract(2, bridges, 2) == [0, 1]
  {
    ExtractQuietRow(2, bridges, 0, 1);
    assert Extract(2, bridges, 0) == [0, 1];
    assert RowBridges(bridges, 1) == bridges;
    TwiceSwapped(bridges);
  }

  /**
    A rung listed twice is taken once by the walk, which stops at the first
    match, but swapped twice by the extractor, so the two disagree: the
    non-adjacency the paths' agreement requires also rules out repeats.
  */
  lemma DuplicateRungDisagrees(bridges: seq<Bridge>)
    requires bridges == [Bridge(0, 1), Bridge(0, 1)]
    ensures WithinLanes(2, bridges) && !NonAdjacent(bridges)
    ensures FinalResultIndices(2, bridges) == [0, 1] && FinalCol(bridges, 0) == 1
  {
    assert !Apart(bridges[0].fromCol, bridges[1].fromCol);
    DuplicateRungExtract(bridges);
    ExtractQuiet(2, bridges, 2, NumRows + 1);
    SingleRungWalk(bridges, 1);
  }

  /** Before each rung of a row, the mapping holds both of the rung's lanes. */
  lemma RungLanesPresent(count: int, start: seq<int>, rungs: seq<Bridge>, k: int, cur: seq<int>)
    requires IsPermutation(start, count)
    requires forall b :: b in rungs ==> 0 <= b.fromCol < count - 1
    requires 0 <= k < |rungs| && cur == ApplyRungs(start, rungs[..k])
    ensures rungs[k].fromCol in cur && rungs[k].fromCol + 1 in cur
  {
    assert forall b :: b in rungs[..k] ==> b in rungs;
    ApplyRungsPermutation(count, start, rungs[..k]);
    PermutationMembers(cur, count);
  }

  /** Applying one more rung of a row is one more swap. */
  lemma NextRung(start: seq<int>, rungs: seq<Bridge>, k: int)
    requires 0 <= k < |rungs|
    ensures ApplyRungs(start, rungs[..k + 1]) == SwapEntries(ApplyRungs(start, rungs[..k]), rungs[k].fromCol)
  {
    var pre := rungs[..k + 1];
    assert pre[..|pre| - 1] == rungs[..k] && pre[|pre| - 1] == rungs[k];
  }

  /**
    The callback of `rowBridges.forEach` (`utils/ladderUtils.ts`, lines 69-72): the entries that hold
    the rung's two lanes, found with `indexOf`, are swapped in place.
  */
  method SwapRung(currentMapping: array<int>, b: Bridge)
    requires b.fromCol in currentMapping[..] && b.fromCol + 1 in currentMapping[..]
    modifies currentMapping
    ensures currentMapping[..] == SwapEntries(old(currentMapping[..]), b.fromCol)
  {
    var idx1 := IndexOf(currentMapping[..], b.fromCol);
    var idx2 := IndexOf(currentMapping[..], b.fromCol + 1);
    currentMapping[idx1], currentMapping[idx2] := currentMapping[idx2], currentMapping[idx1];
  }

  /**
    `rowBridges.forEach(...)` (`utils/ladderUtils.ts`, lines 68-73): the rungs of the row are applied
    in list order to the mapping in place.
  */
  method SwapRow(currentMapping: array<int>, ghost count: int, rowBridges: seq<Bridge>)
    requires IsPermutation(currentMapping[..], count)
    requires forall b :: b in rowBridges ==> 0 <= b.fromCol < count - 1
    modifies currentMapping
    ensures currentMapping[..] == ApplyRungs(old(currentMapping[..]), rowBridges)
  {
    ghost var start := currentMapping[..];
    var k := 0;
    while k < |rowBridges|
      invariant 0 <= k <= |rowBridges|
      invariant currentMapping[..] == ApplyRungs(start, rowBridges[..k])
    {
      RungLanesPresent(count, start, rowBridges, k, currentMapping[..]);
      SwapRung(currentMapping, rowBridges[k]);
      NextRung(start, rowBridges, k);
      k := k + 1;
    }
    assert rowBridges[..k] == rowBridges;
  }

  /** `Array.from({ length: count }, (_, i) => i)`: a new array holding the identity mapping. */
  method IdentityArray(count: nat) returns (a: array<int>)
    ensures fresh(a) && a[..] == Identity(count)
  {
    a := new int[count];
    forall i | 0 <= i < count {
      a[i] := i;
    }
  }

  /**
    One pass of the loop over rows in `getFinalResultIndices`: the rungs of
    row `row` are swapped in place, taking the mapping one row further.
  */
  method ApplyRow(currentMapping: array<int>, count: nat, bridges: seq<Bridge>, row: nat, next: nat)
    requires WithinLanes(count, bridges) && row <= NumRows && next == row + 1
    requires currentMapping[..] == Extract(count, bridges, row)
    modifies currentMapping
    ensures currentMapping[..] == Extract(count, bridges, next)
  {
    var rowBridges := RowBridges(bridges, row);
    RowBridgesWithinLanes(count, bridges, row);
    ExtractPermutation(count, bridges, row);
    SwapRow(currentMapping, count, rowBridges);
  }

  /**
    The loop over rows 0 to `numRows` of `getFinalResultIndices`: each row's
    rungs are swapped in place, so the array ends as the final mapping.
  */
  method ApplyRows(currentMapping: array<int>, count: nat, bridges: seq<Bridge>)
    requires WithinLanes(count, bridges) && currentMapping[..] == Identity(count)
    modifies currentMapping
    ensures currentMapping[..] == FinalResultIndices(count, bridges)
  {
    for row := 0 to NumRows + 1
      invariant currentMapping[..] == Extract(count, bridges, row)
    {
      ApplyRow(currentMapping, count, bridges, row, row + 1);
    }
  }

  /**
    `getFinalResultIndices`: the identity array, with the rungs of each row
    applied by swapping in place the entries that `indexOf` finds. For rungs
    within the lanes the result is a permutation of the lanes; when they also
    never touch, entry `i` is the lane the walk from lane `i` ends in. The
    unused `new Array(count)` throws for a negative `count`, so callers pass
    a count of at least 0.
  */
  method GetFinalResultIndices(count: int, bridges: seq<Bridge>) returns (mapping: seq<int>)
    requires count >= 0
    requires WithinLanes(count, bridges)
    ensures mapping == FinalResultIndices(count, bridges)
    ensures IsPermutation(mapping, count)
    ensures NonAdjacent(bridges) ==> forall i :: 0 <= i < |mapping| ==> mapping[i] == FinalCol(bridges, i)
  {
    var currentMapping := IdentityArray(count);
    ApplyRows(currentMapping, count, bridges);
    mapping := currentMapping[..];
    ExtractPermutation(count, bridges, NumRows + 1);
    if NonAdjacent(bridges) {
      FinalResultIndicesFollowPaths(count, bridges);
    }
  }
}
