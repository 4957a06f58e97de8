/**
  Rotation of the falling Tetris piece (GameManager.findRotation and
  GameManager.rotate in tetris.js).

  The source keeps the pivot as a Point whose coordinates may be nudged by
  half a cell, and rotates with Math.cos/Math.sin of a quarter turn followed by
  Math.round. Here the pivot is kept in doubled coordinates (r2 = 2r, c2 = 2c),
  which are always integers; both coordinates of a pivot are either integers
  or half-integers, so the quarter turn is computed exactly in integers.
*/
module TetrisRotation {
  import opened TetrisGrid

  /** tetris.js Point, with doubled coordinates: the pivot is (r2 / 2, c2 / 2). */
  datatype Point = Point(r2: int, c2: int, shape: int, valid: bool)

  /** Both coordinates of the pivot are integers, or both are half-integers,
      so a quarter turn about it sends grid cells to grid cells. */
  predicate Aligned(p: Point) {
    (p.r2 - p.c2) % 2 == 0
  }

  /** The first column at or after `from` holding a falling cell, or `Columns`. */
  function FirstFallingColumn(row: seq<int>, from: int): (c: int)
    requires |row| == Columns && 0 <= from <= Columns
    ensures from <= c <= Columns
    ensures forall j | from <= j < c :: row[j] <= 0
    ensures c < Columns ==> row[c] > 0
    decreases Columns - from
  {
    if from == Columns then Columns
    else if row[from] > 0 then from
    else FirstFallingColumn(row, from + 1)
  }

  /** The lowest row above `limit` holding a falling cell, or -1. */
  function LowestFallingRow(g: Grid, limit: int): (r: int)
    requires IsGrid(g) && 0 <= limit <= Rows
    ensures -1 <= r < limit
    ensures forall j, c | r < j < limit && 0 <= c < Columns :: g[j][c] <= 0
    ensures r >= 0 ==> FirstFallingColumn(g[r], 0) < Columns
    decreases limit
  {
    if limit == 0 then -1
    else if FirstFallingColumn(g[limit - 1], 0) < Columns then limit - 1
    else LowestFallingRow(g, limit - 1)
  }

  /** The cell findRotation's scan holds after rows 0 .. limit-1, with its
      shape id. The `break` leaves only the column loop, so every later row
      with a falling cell replaces the cell by its leftmost falling cell. */
  datatype Scanned = Scanned(r: int, c: int, shape: int)

  function ScannedCell(g: Grid, limit: int): (s: Scanned)
    requires IsGrid(g) && 0 <= limit <= Rows
    ensures PointInGrid(s.r, s.c)
  {
    var r := LowestFallingRow(g, limit);
    if r < 0 then Scanned(0, 0, 0)
    else
      var c := FirstFallingColumn(g[r], 0);
      Scanned(r, c, g[r][c])
  }

  /** One row of findRotation's scan: a row with a falling cell replaces the
      scanned cell by its leftmost falling cell, any other row keeps it. */
  lemma ScanStep(g: Grid, r: int)
    requires IsGrid(g) && 0 <= r < Rows
    ensures var c := FirstFallingColumn(g[r], 0);
            ScannedCell(g, r + 1) == if c < Columns then Scanned(r, c, g[r][c]) else ScannedCell(g, r)
  {
  }

  /** The scan settles on the leftmost falling cell of the LOWEST row that has
      one, with that cell's shape id; with no falling cell it keeps the
      initial Point(0, 0, 0). */
  lemma PivotIsLowestLeftmost(g: Grid)
    requires IsGrid(g)
    ensures !HasFalling(g) ==> ScannedCell(g, Rows) == Scanned(0, 0, 0)
    ensures var s := ScannedCell(g, Rows);
            HasFalling(g) ==>
              && g[s.r][s.c] > 0 && s.shape == g[s.r][s.c]
              && (forall j, k | PointInGrid(j, k) && j > s.r :: g[j][k] <= 0)
              && (forall k | 0 <= k < s.c :: g[s.r][k] <= 0)
  {
    var lr := LowestFallingRow(g, Rows);
    if HasFalling(g) {
      var j, k :| PointInGrid(j, k) && g[j][k] > 0;
      assert lr >= j;
    }
    if lr >= 0 {
      var k := FirstFallingColumn(g[lr], 0);
      assert PointInGrid(lr, k) && g[lr][k] > 0;
    }
  }

  /** The case-4 (S shape) nudge of findRotation at the (integer) point
      (r, c), also reached by falling through from case 3. */
  function SShapeNudge(g: Grid, r: int, c: int, shape: int, valid: bool): (q: Point)
    requires IsGrid(g) && 0 <= r < Rows && 0 <= c <= Columns
    ensures Aligned(q) && q.shape == shape && q.valid == valid
  {
    if PointInGrid(r, c + 1) && g[r][c + 1] != 4 then Point(2 * r - 1, 2 * c - 1, shape, valid)
    else Point(2 * r, 2 * c, shape, valid)
  }

  /** The switch of findRotation on the shape id of the scanned cell (r, c):
      the square is marked invalid, the bar, L and S shapes nudge the pivot
      (the L case falls through into the S case), and every other id keeps it. */
  function Adjust(g: Grid, r: int, c: int, shape: int): (q: Point)
    requires IsGrid(g) && PointInGrid(r, c)
    ensures Aligned(q)
    ensures q.shape == shape
    ensures shape == 1 ==> !q.valid
    ensures shape != 1 && shape != 3 ==> q.valid
  {
    if shape == 1 then Point(0, 0, 1, false)
    else if shape == 2 then
      if PointInGrid(r + 1, c) && g[r + 1][c] == 2 then Point(2 * r + 3, 2 * c - 1, 2, true)
      else Point(2 * r - 1, 2 * c + 3, 2, true)
    else if shape == 3 then
      if PointInGrid(r - 1, c + 1) && g[r - 1][c + 1] == 0 then Point(2 * r - 2, 2 * c + 2, 3, true)
      else if PointInGrid(r, c + 1) && g[r][c + 1] == 0 then SShapeNudge(g, r, c + 1, 3, true)
      else SShapeNudge(g, r, c, 3, false)
    else if shape == 4 then SShapeNudge(g, r, c, 4, true)
    else Point(2 * r, 2 * c, shape, true)
  }

  /** The point findRotation returns: its two coordinates are both integers
      or both half-integers. */
  function RotationPoint(g: Grid): (q: Point)
    requires IsGrid(g)
    ensures Aligned(q)
  {
    var s := ScannedCell(g, Rows);
    Adjust(g, s.r, s.c, s.shape)
  }

  /** The square never rotates: a lowest-leftmost falling cell of shape 1
      yields an invalid pivot. */
  lemma SquareNeverRotates(g: Grid)
    requires IsGrid(g)
    requires var s := ScannedCell(g, Rows); g[s.r][s.c] == 1
    ensures !RotationPoint(g).valid
  {
    var s := ScannedCell(g, Rows);
    PivotIsLowestLeftmost(g);
    assert HasFalling(g) by { assert PointInGrid(s.r, s.c) && g[s.r][s.c] > 0; }
  }

  /** Where rotate sends the cell (r, c): (pr + (c - pc), pc - (r - pr)). */
  function Turn(p: Point, r: int, c: int): (int, int) {
    ((p.r2 - p.c2) / 2 + c, (p.r2 + p.c2) / 2 - r)
  }

  /** The cell that rotate sends to (x, y). */
  function TurnSource(p: Point, x: int, y: int): (int, int) {
    ((p.r2 + p.c2) / 2 - y, x - (p.r2 - p.c2) / 2)
  }

  /** For a pivot whose coordinates are both integers or both half-integers,
      the integer image is exactly the quarter turn of the source's formula
      (so Math.round has nothing to round), and it is a bijection whose inverse
      is TurnSource. */
  lemma TurnIsQuarterTurn(p: Point, r: int, c: int)
    requires Aligned(p)
    ensures var t := Turn(p, r, c);
            && (t.0 as real) == (p.r2 as real) / 2.0 + ((c as real) - (p.c2 as real) / 2.0)
            && (t.1 as real) == (p.c2 as real) / 2.0 - ((r as real) - (p.r2 as real) / 2.0)
    ensures var t := Turn(p, r, c); TurnSource(p, t.0, t.1) == (r, c)
    ensures var s := TurnSource(p, r, c); Turn(p, s.0, s.1) == (r, c)
  {
    var d := (p.r2 - p.c2) / 2;
    assert p.r2 - p.c2 == 2 * d;
    var e := (p.r2 + p.c2) / 2;
    assert p.r2 + p.c2 == 2 * e by {
      assert p.r2 + p.c2 == 2 * d + 2 * p.c2;
    }
    assert (p.r2 as real) == 2.0 * (d as real) + (p.c2 as real);
  }

  /** Every rotated falling cell lands inside the grid and not on a static cell. */
  ghost predicate RotationFits(g: Grid, p: Point)
    requires IsGrid(g)
  {
    forall r, c | PointInGrid(r, c) && g[r][c] > 0 ::
      var t := Turn(p, r, c);
      PointInGrid(t.0, t.1) && g[t.0][t.1] >= 0
  }

  /** One cell of the grid after a committed rotation. */
  function RotatedCell(g: Grid, p: Point, x: int, y: int): int
    requires IsGrid(g) && PointInGrid(x, y)
  {
    var s := TurnSource(p, x, y);
    if PointInGrid(s.0, s.1) && g[s.0][s.1] > 0 then g[s.0][s.1] else Lifted(g[x][y])
  }

  /** Reference definition of a committed rotation about p. */
  function Rotated(g: Grid, p: Point): (h: Grid)
    requires IsGrid(g)
    ensures IsGrid(h)
    ensures forall x, y | PointInGrid(x, y) :: h[x][y] == RotatedCell(g, p, x, y)
  {
    seq(Rows, x requires 0 <= x < Rows => seq(Columns, y requires 0 <= y < Columns => RotatedCell(g, p, x, y)))
  }

  /** A rotation that fits moves every falling cell (r, c) to
      (pr + (c - pc), pc - (r - pr)) with its code, leaves every static cell
      alone, and every falling cell of the result comes from exactly one
      falling cell of the grid, so the number of falling cells is kept. */
  lemma RotationMovesWholePiece(g: Grid, p: Point)
    requires IsGrid(g) && Aligned(p) && RotationFits(g, p)
    ensures forall r, c | PointInGrid(r, c) && g[r][c] > 0 ::
              var t := Turn(p, r, c);
              PointInGrid(t.0, t.1) && Rotated(g, p)[t.0][t.1] == g[r][c]
    ensures forall x, y | PointInGrid(x, y) && g[x][y] < 0 :: Rotated(g, p)[x][y] == g[x][y]
    ensures forall x, y | PointInGrid(x, y) && Rotated(g, p)[x][y] > 0 ::
              var s := TurnSource(p, x, y);
              PointInGrid(s.0, s.1) && g[s.0][s.1] == Rotated(g, p)[x][y]
  {
    var h := Rotated(g, p);
    forall r, c | PointInGrid(r, c) && g[r][c] > 0
      ensures var t := Turn(p, r, c); PointInGrid(t.0, t.1) && h[t.0][t.1] == g[r][c]
    {
      TurnIsQuarterTurn(p, r, c);
    }
    forall x, y | PointInGrid(x, y)
      ensures var s := TurnSource(p, x, y); PointInGrid(s.0, s.1) && g[s.0][s.1] > 0 ==> g[x][y] >= 0
    {
      TurnIsQuarterTurn(p, x, y);
    }
  }

  /** Rotating the piece keeps one shape id: every falling cell of the result
      is the falling cell it was turned from. */
  lemma RotatedKeepsOneShape(g: Grid, p: Point)
    requires IsGrid(g) && OneFallingShape(g)
    ensures OneFallingShape(Rotated(g, p))
  {
    var h := Rotated(g, p);
    forall x, y | PointInGrid(x, y) && h[x][y] > 0
      ensures var s := TurnSource(p, x, y); PointInGrid(s.0, s.1) && g[s.0][s.1] == h[x][y]
    {
    }
  }
}
