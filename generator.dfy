/**
  The rung generator, `generateBridges`: rows 1 to NumRows - 1 are scanned
  from the left, and a rung is placed between lanes `col` and `col + 1`
  when no rung on that row already touches it and a random draw comes out
  in favour.

  The random draws are a parameter: `coin(row, col)` is the outcome of the
  draw for that candidate. The method's contract says exactly which rungs
  come out for a given coin, and `GreedyDetermined` shows that this
  description leaves no freedom: one list, in scan order, satisfies it.
*/
module Generator {
  import opened LadderTypes

  /** `a` is scanned before `b`: an earlier row, or the same row further left. */
  predicate Before(a: Bridge, b: Bridge)
  {
    a.level < b.level || (a.level == b.level && a.fromCol < b.fromCol)
  }

  /** The rungs are listed in scan order, with no rung twice. */
  predicate Ascending(bridges: seq<Bridge>)
  {
    forall i, j :: 0 <= i < j < |bridges| ==> Before(bridges[i], bridges[j])
  }

  /** The rungs a scan of `count` lanes can place: rows 1 to NumRows - 1, joining existing lanes. */
  predicate Candidates(count: int, bridges: seq<Bridge>)
  {
    forall b :: b in bridges ==> 1 <= b.level < NumRows && 0 <= b.fromCol < count - 1
  }

  /**
    The greedy rule for the candidate at (`row`, `col`): it is a rung exactly
    when its draw came out in favour and the rung to its left was not placed.
  */
  predicate Greedy(bridges: seq<Bridge>, coin: (int, int) -> bool, row: int, col: int)
  {
    Bridge(col, row) in bridges <==> coin(row, col) && Bridge(col - 1, row) !in bridges
  }

  /** `bridges.some(b => b.level === row && (b.fromCol === col - 1 || b.fromCol === col + 1))`. */
  function HasAdjacent(bridges: seq<Bridge>, row: int, col: int): (r: bool)
    ensures r <==> Bridge(col - 1, row) in bridges || Bridge(col + 1, row) in bridges
  {
    if bridges == [] then false
    else
      var b := bridges[0];
      assert b == Bridge(b.fromCol, b.level);
      (b.level == row && (b.fromCol == col - 1 || b.fromCol == col + 1))
      || HasAdjacent(bridges[1..], row, col)
  }

  /** Appending a rung that no listed rung on its row touches keeps the list non-adjacent. */
  lemma AppendNonAdjacent(bridges: seq<Bridge>, x: Bridge)
    requires NonAdjacent(bridges)
    requires forall b :: b in bridges && b.level == x.level ==> Apart(b.fromCol, x.fromCol)
    ensures NonAdjacent(bridges + [x])
  {
    var r := bridges + [x];
    forall i, j | 0 <= i < |r| && 0 <= j < |r| && i != j && r[i].level == r[j].level
      ensures Apart(r[i].fromCol, r[j].fromCol)
    {
      if i < |bridges| && j < |bridges| {
        assert r[i] == bridges[i] && r[j] == bridges[j];
      } else if i < |bridges| {
        assert r[i] in bridges;
      } else {
        assert r[j] in bridges;
      }
    }
  }

  /** Appending a rung scanned after every listed one keeps the list in scan order. */
  lemma AppendAscending(bridges: seq<Bridge>, x: Bridge)
    requires Ascending(bridges)
    requires forall b :: b in bridges ==> Before(b, x)
    ensures Ascending(bridges + [x])
  {
    var r := bridges + [x];
    forall i, j | 0 <= i < j < |r|
      ensures Before(r[i], r[j])
    {
      assert r[i] == bridges[i];
      if j < |bridges| {
        assert r[j] == bridges[j];
      }
    }
  }

  /** A rung placed elsewhere does not change the rule's verdict on a decided candidate. */
  lemma AppendKeepsGreedy(bridges: seq<Bridge>, coin: (int, int) -> bool, x: Bridge, row: int, col: int)
    requires Greedy(bridges, coin, row, col)
    requires x != Bridge(col, row) && x != Bridge(col - 1, row)
    ensures Greedy(bridges + [x], coin, row, col)
  {
  }

  /**
    `generateBridges`. For `count` lanes and the draws `coin`, the rungs come
    out in scan order, on rows 1 to NumRows - 1 between existing lanes, no two
    touching, and every candidate follows the greedy rule. With fewer than two
    lanes there is no rung.
  */
  method GenerateBridges(count: int, coin: (int, int) -> bool) returns (bridges: seq<Bridge>)
    ensures Candidates(count, bridges) && WithinLanes(count, bridges)
    ensures NonAdjacent(bridges) && Ascending(bridges)
    ensures forall row, col :: 1 <= row < NumRows && 0 <= col < count - 1 ==> Greedy(bridges, coin, row, col)
    ensures count <= 1 ==> bridges == []
  {
    bridges := [];
    var row := 1;
    while row < NumRows
      invariant 1 <= row <= NumRows
      invariant forall b :: b in bridges ==> 1 <= b.level < row && 0 <= b.fromCol < count - 1
      invariant NonAdjacent(bridges) && Ascending(bridges)
      invariant forall r, c :: 1 <= r < row && 0 <= c < count - 1 ==> Greedy(bridges, coin, r, c)
      invariant count <= 1 ==> bridges == []
    {
      var col := 0;
      while col < count - 1
        invariant 0 <= col <= if count - 1 > 0 then count - 1 else 0
        invariant forall b :: b in bridges ==>
          1 <= b.level <= row && 0 <= b.fromCol < count - 1 && (b.level == row ==> b.fromCol < col)
        invariant NonAdjacent(bridges) && Ascending(bridges)
        invariant forall r, c :: 1 <= r < row && 0 <= c < count - 1 ==> Greedy(bridges, coin, r, c)
        invariant forall c :: 0 <= c < col ==> Greedy(bridges, coin, row, c)
        invariant count <= 1 ==> bridges == []
      {
        // No rung of this row lies right of `col` yet, so only the left neighbour can block it.
        var hasAdjacent := HasAdjacent(bridges, row, col);
        assert hasAdjacent <==> Bridge(col - 1, row) in bridges;
        assert Bridge(col, row) !in bridges;
        if !hasAdjacent && coin(row, col) {
          var x := Bridge(col, row);
          AppendNonAdjacent(bridges, x);
          AppendAscending(bridges, x);
          forall r, c | 1 <= r <= row && 0 <= c < count - 1 && (r < row || c < col)
            ensures Greedy(bridges + [x], coin, r, c)
          {
            AppendKeepsGreedy(bridges, coin, x, r, c);
          }
          bridges := bridges + [x];
        }
        col := col + 1;
      }
      row := row + 1;
    }
  }

  /** The first element of a non-empty list is one of its members. */
  lemma HeadMember(s: seq<Bridge>)
    requires s != []
    ensures s[0] in s
  {
  }

  /** The first element of a list in scan order is scanned before every later one. */
  lemma AscendingHead(s: seq<Bridge>, k: int)
    requires Ascending(s) && 0 < k < |s|
    ensures Before(s[0], s[k])
  {
  }

  /** Two lists in scan order holding the same rungs are the same list. */
  lemma {:induction false} AscendingUnique(a: seq<Bridge>, b: seq<Bridge>)
    requires Ascending(a) && Ascending(b)
    requires forall x :: x in a <==> x in b
    ensures a == b
    decreases |a|
  {
    if a == [] || b == [] {
      if a != [] {
        HeadMember(a);
        assert false;
      }
      if b != [] {
        HeadMember(b);
        assert false;
      }
    } else {
      HeadMember(a);
      var j :| 0 <= j < |b| && b[j] == a[0];
      HeadMember(b);
      var i :| 0 <= i < |a| && a[i] == b[0];
      if i > 0 && j > 0 {
        AscendingHead(a, i);
        AscendingHead(b, j);
        assert false;
      }
      assert a[0] == b[0];
      forall x
        ensures x in a[1..] <==> x in b[1..]
      {
        if x in a[1..] {
          var k :| 0 <= k < |a| - 1 && a[1..][k] == x;
          assert Before(a[0], a[k + 1]) && a[k + 1] in a;
          var l :| 0 <= l < |b| && b[l] == x;
          assert l != 0 && b[1..][l - 1] == x;
        }
        if x in b[1..] {
          var k :| 0 <= k < |b| - 1 && b[1..][k] == x;
          assert Before(b[0], b[k + 1]) && b[k + 1] in b;
          var l :| 0 <= l < |a| && a[l] == x;
          assert l != 0 && a[1..][l - 1] == x;
        }
      }
      AscendingUnique(a[1..], b[1..]);
      assert a == [a[0]] + a[1..] && b == [b[0]] + b[1..];
    }
  }

  /** Two candidate lists that follow the greedy rule for the same draws place the same rung at each candidate. */
  lemma {:induction false} GreedySameRung(count: int, coin: (int, int) -> bool, a: seq<Bridge>, b: seq<Bridge>, row: int, col: int)
    requires Candidates(count, a) && Candidates(count, b)
    requires forall r, c :: 1 <= r < NumRows && 0 <= c < count - 1 ==> Greedy(a, coin, r, c)
    requires forall r, c :: 1 <= r < NumRows && 0 <= c < count - 1 ==> Greedy(b, coin, r, c)
    ensures Bridge(col, row) in a <==> Bridge(col, row) in b
    decreases if col < 0 then 0 else col + 1
  {
    if 1 <= row < NumRows && 0 <= col < count - 1 {
      GreedySameRung(count, coin, a, b, row, col - 1);
      assert Greedy(a, coin, row, col) && Greedy(b, coin, row, col);
    }
  }

  /**
    The greedy rule leaves no freedom: for given lanes and draws, one list in
    scan order satisfies `GenerateBridges`'s contract.
  */
  lemma GreedyDetermined(count: int, coin: (int, int) -> bool, a: seq<Bridge>, b: seq<Bridge>)
    requires Candidates(count, a) && Candidates(count, b) && Ascending(a) && Ascending(b)
    requires forall r, c :: 1 <= r < NumRows && 0 <= c < count - 1 ==> Greedy(a, coin, r, c)
    requires forall r, c :: 1 <= r < NumRows && 0 <= c < count - 1 ==> Greedy(b, coin, r, c)
    ensures a == b
  {
    forall x
      ensures x in a <==> x in b
    {
      GreedySameRung(count, coin, a, b, x.level, x.fromCol);
      assert x == Bridge(x.fromCol, x.level);
    }
    AscendingUnique(a, b);
  }
}
