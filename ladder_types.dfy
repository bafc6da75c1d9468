/**
  The shapes the ladder engine works on (`Bridge`, `PathStep`) and the fixed
  ladder configuration it reads (`LADDER_CONFIG`), together with the two
  structural conditions on a rung list that the whole engine depends on.
*/
module LadderTypes {

  /** A rung joining lane `fromCol` to lane `fromCol + 1` on row `level`. */
  datatype Bridge = Bridge(fromCol: int, level: int)

  /** One waypoint of a participant's descent, in canvas pixels. */
  datatype PathStep = PathStep(x: int, y: int)

  /** The value of a JavaScript `find`: the element found, or `undefined`. */
  datatype Option<T> = None | Some(value: T)

  // LADDER_CONFIG. The footer height, stroke width and rung probability are
  // not read by the engine's arithmetic; the probability is replaced by an
  // arbitrary coin (see module Generator).
  const ColWidth: int := 120
  const RowHeight: int := 40
  const NumRows: int := 15
  const HeaderHeight: int := 120

  /** Canvas x of the centre of lane `col`: the middle of the `col`-th column of width `colWidth`. */
  function X(col: int): (r: int)
    ensures r / ColWidth == col && r % ColWidth == ColWidth / 2
  {
    col * ColWidth + ColWidth / 2
  }

  /** Canvas y of row `row`: `row` row heights below the header. */
  function Y(row: int): (r: int)
    ensures (r - HeaderHeight) / RowHeight == row && (r - HeaderHeight) % RowHeight == 0
  {
    HeaderHeight + row * RowHeight
  }

  /** Two lane indices that do not touch: neither equal nor neighbours. */
  predicate Apart(a: int, b: int)
  {
    a - b >= 2 || b - a >= 2
  }

  /**
    No two entries of the list lie on one row with equal or neighbouring
    `fromCol`; in particular the list holds no rung twice.
  */
  predicate NonAdjacent(bridges: seq<Bridge>)
  {
    forall i, j ::
      0 <= i < |bridges| && 0 <= j < |bridges| && i != j && bridges[i].level == bridges[j].level
      ==> Apart(bridges[i].fromCol, bridges[j].fromCol)
  }

  /**
    Every rung on a row that the engine visits (rows 0 to NumRows) joins two
    lanes that exist when there are `count` of them.
  */
  predicate WithinLanes(count: int, bridges: seq<Bridge>)
  {
    forall b :: b in bridges && 0 <= b.level <= NumRows ==> 0 <= b.fromCol < count - 1
  }

  /** Two distinct members of a non-adjacent list on one row are apart. */
  lemma NonAdjacentMembers(bridges: seq<Bridge>, a: Bridge, b: Bridge)
    requires NonAdjacent(bridges)
    requires a in bridges && b in bridges && a != b && a.level == b.level
    ensures Apart(a.fromCol, b.fromCol)
  {
    var i :| 0 <= i < |bridges| && bridges[i] == a;
    var j :| 0 <= j < |bridges| && bridges[j] == b;
    assert i != j;
  }
}
