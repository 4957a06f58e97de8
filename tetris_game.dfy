/**
  The Tetris engine of tetris.js: class GameManager, which owns the grid and
  the collision flag and changes them in place, and the per-frame tick of the
  Tetris scene (Tetris.display), which sequences spawning, gravity, freezing
  and row clearing.
*/
module TetrisGame {
  import opened TetrisGrid
  import opened TetrisRotation

  /** Cell (x, y) part-way through pass 2 of translateMovingBlocksDown, which
      has moved every falling cell visited so far (bottom-up, right to left)
      one row down. */
  ghost function PartialDownCell(g: Grid, r: int, c: int, x: int, y: int): int
    requires IsGrid(g) && PointInGrid(x, y)
  {
    if x > 0 && VisitedDescending(x - 1, y, r, c) && g[x - 1][y] > 0 then g[x - 1][y]
    else if VisitedDescending(x, y, r, c) then Lifted(g[x][y])
    else g[x][y]
  }

  /** The grid part-way through pass 2 of translateMovingBlocksDown. */
  ghost function PartialDownGrid(g: Grid, r: int, c: int): (h: Grid)
    requires IsGrid(g)
    ensures IsGrid(h)
    ensures forall x, y | PointInGrid(x, y) :: h[x][y] == PartialDownCell(g, r, c, x, y)
  {
    seq(Rows, x requires 0 <= x < Rows =>
      seq(Columns, y requires 0 <= y < Columns => PartialDownCell(g, r, c, x, y)))
  }

  /** Pass 2 starts from the grid itself and, after the top row, has built
      the one-row-down shift; a finished row is the start of the row above. */
  lemma DownGridEnds(g: Grid, r: int)
    requires IsGrid(g)
    ensures PartialDownGrid(g, Rows - 1, Columns - 1) == g
    ensures PartialDownGrid(g, -1, Columns - 1) == ShiftDown(g)
    ensures PartialDownGrid(g, r, -1) == PartialDownGrid(g, r - 1, Columns - 1)
  {
    GridExt(PartialDownGrid(g, Rows - 1, Columns - 1), g);
    GridExt(PartialDownGrid(g, -1, Columns - 1), ShiftDown(g));
    GridExt(PartialDownGrid(g, r, -1), PartialDownGrid(g, r - 1, Columns - 1));
  }

  /** Visiting a falling cell (r, c) finds the cell below it empty, moves the
      code there and empties (r, c); visiting any other cell changes nothing. */
  lemma DownGridStep(g: Grid, r: int, c: int)
    requires IsGrid(g) && RoomBelowEveryFallingCell(g) && PointInGrid(r, c)
    ensures var h := PartialDownGrid(g, r, c);
            && h[r][c] == g[r][c]
            && if g[r][c] > 0 then
                 var h1 := h[r + 1 := h[r + 1][c := g[r][c]]];
                 r + 1 < Rows && h[r + 1][c] == 0 && PartialDownGrid(g, r, c - 1) == h1[r := h1[r][c := 0]]
               else PartialDownGrid(g, r, c - 1) == h
  {
    var h := PartialDownGrid(g, r, c);
    if g[r][c] > 0 {
      var h1 := h[r + 1 := h[r + 1][c := g[r][c]]];
      GridExt(PartialDownGrid(g, r, c - 1), h1[r := h1[r][c := 0]]);
    } else {
      GridExt(PartialDownGrid(g, r, c - 1), h);
    }
  }

  /** Cell (x, y) of the shadow copy part-way through the commit pass of a
      horizontal shift. */
  ghost function PartialSideCell(g: Grid, dir: Direction, r: int, c: int, x: int, y: int): int
    requires IsGrid(g) && PointInGrid(x, y)
  {
    var s := y - Offset(dir);
    if 0 <= s < Columns && VisitedAscending(x, s, r, c) && g[x][s] > 0 then g[x][s]
    else Lifted(g[x][y])
  }

  /** Cell (x, y) of the shadow copy part-way through rotate's commit pass. */
  ghost function PartialRotatedCell(g: Grid, p: Point, r: int, c: int, x: int, y: int): int
    requires IsGrid(g) && PointInGrid(x, y)
  {
    var s := TurnSource(p, x, y);
    if PointInGrid(s.0, s.1) && VisitedAscending(s.0, s.1, r, c) && g[s.0][s.1] > 0 then g[s.0][s.1]
    else Lifted(g[x][y])
  }

  /** The shadow copy part-way through the moving pass of a horizontal shift. */
  ghost function PartialSideGrid(g: Grid, dir: Direction, r: int, c: int): (h: Grid)
    requires IsGrid(g)
    ensures IsGrid(h)
    ensures forall x, y | PointInGrid(x, y) :: h[x][y] == PartialSideCell(g, dir, r, c, x, y)
  {
    seq(Rows, x requires 0 <= x < Rows =>
      seq(Columns, y requires 0 <= y < Columns => PartialSideCell(g, dir, r, c, x, y)))
  }

  /** The moving pass starts from the copy with the piece lifted out and,
      after the last row, has built the shifted grid. */
  lemma SideGridEnds(g: Grid, dir: Direction)
    requires IsGrid(g)
    ensures PartialSideGrid(g, dir, 0, 0) == LiftedGrid(g)
    ensures PartialSideGrid(g, dir, Rows, 0) == ShiftHorizontally(g, dir)
  {
    GridExt(PartialSideGrid(g, dir, 0, 0), LiftedGrid(g));
    GridExt(PartialSideGrid(g, dir, Rows, 0), ShiftHorizontally(g, dir));
  }

  /** Finishing row r is the same as starting row r + 1. */
  lemma SideGridRowEnd(g: Grid, dir: Direction, r: int)
    requires IsGrid(g)
    ensures PartialSideGrid(g, dir, r, Columns) == PartialSideGrid(g, dir, r + 1, 0)
  {
    GridExt(PartialSideGrid(g, dir, r, Columns), PartialSideGrid(g, dir, r + 1, 0));
  }

  /** Visiting cell (r, c) writes a falling cell one column over and leaves
      every other cell of the copy alone. */
  lemma SideGridStep(g: Grid, dir: Direction, r: int, c: int)
    requires IsGrid(g) && RoomBesideEveryFallingCell(g, dir) && PointInGrid(r, c)
    ensures var h := PartialSideGrid(g, dir, r, c);
            var n := c + Offset(dir);
            if g[r][c] > 0 then 0 <= n < Columns && PartialSideGrid(g, dir, r, c + 1) == h[r := h[r][n := g[r][c]]]
            else PartialSideGrid(g, dir, r, c + 1) == h
  {
    var h, h' := PartialSideGrid(g, dir, r, c), PartialSideGrid(g, dir, r, c + 1);
    var n := c + Offset(dir);
    if g[r][c] > 0 {
      assert 0 <= n < Columns;
      var h2 := h[r := h[r][n := g[r][c]]];
      forall x, y | PointInGrid(x, y)
        ensures h'[x][y] == h2[x][y]
      {
        if x != r || y != n {
          assert h2[x][y] == h[x][y];
        }
      }
      GridExt(h', h2);
    } else {
      forall x, y | PointInGrid(x, y)
        ensures h'[x][y] == h[x][y]
      {
      }
      GridExt(h', h);
    }
  }

  /** The shadow copy part-way through rotate's rotation pass. */
  ghost function PartialRotatedGrid(g: Grid, p: Point, r: int, c: int): (h: Grid)
    requires IsGrid(g)
    ensures IsGrid(h)
    ensures forall x, y | PointInGrid(x, y) :: h[x][y] == PartialRotatedCell(g, p, r, c, x, y)
  {
    seq(Rows, x requires 0 <= x < Rows =>
      seq(Columns, y requires 0 <= y < Columns => PartialRotatedCell(g, p, r, c, x, y)))
  }

  lemma RotatedGridEnds(g: Grid, p: Point)
    requires IsGrid(g)
    ensures PartialRotatedGrid(g, p, 0, 0) == LiftedGrid(g)
    ensures PartialRotatedGrid(g, p, Rows, 0) == Rotated(g, p)
  {
    GridExt(PartialRotatedGrid(g, p, 0, 0), LiftedGrid(g));
    GridExt(PartialRotatedGrid(g, p, Rows, 0), Rotated(g, p));
  }

  lemma RotatedGridRowEnd(g: Grid, p: Point, r: int)
    requires IsGrid(g)
    ensures PartialRotatedGrid(g, p, r, Columns) == PartialRotatedGrid(g, p, r + 1, 0)
  {
    GridExt(PartialRotatedGrid(g, p, r, Columns), PartialRotatedGrid(g, p, r + 1, 0));
  }

  /** Visiting a falling cell (r, c) whose turn fits writes it at its turned
      position and leaves every other cell of the copy alone; visiting any
      other cell changes nothing. */
  lemma RotatedGridStep(g: Grid, p: Point, r: int, c: int)
    requires IsGrid(g) && Aligned(p) && PointInGrid(r, c)
    ensures g[r][c] <= 0 ==> PartialRotatedGrid(g, p, r, c + 1) == PartialRotatedGrid(g, p, r, c)
    ensures var h := PartialRotatedGrid(g, p, r, c);
            var t := Turn(p, r, c);
            g[r][c] > 0 && PointInGrid(t.0, t.1) ==>
              PartialRotatedGrid(g, p, r, c + 1) == h[t.0 := h[t.0][t.1 := g[r][c]]]
    ensures var h := PartialRotatedGrid(g, p, r, c);
            var t := Turn(p, r, c);
            PointInGrid(t.0, t.1) ==> (h[t.0][t.1] < 0 <==> g[t.0][t.1] < 0)
  {
    var h := PartialRotatedGrid(g, p, r, c);
    var t := Turn(p, r, c);
    TurnIsQuarterTurn(p, r, c);
    forall x, y | PointInGrid(x, y)
      ensures TurnSource(p, x, y) == (r, c) <==> (x, y) == t
    {
      TurnIsQuarterTurn(p, x, y);
    }
    if g[r][c] <= 0 {
      GridExt(PartialRotatedGrid(g, p, r, c + 1), h);
    }
    if g[r][c] > 0 && PointInGrid(t.0, t.1) {
      GridExt(PartialRotatedGrid(g, p, r, c + 1), h[t.0 := h[t.0][t.1 := g[r][c]]]);
    }
  }

  /** The falling cell (r, c) turns about p onto a cell in the grid that is not static. */
  ghost predicate TurnFits(g: Grid, p: Point, r: int, c: int)
    requires IsGrid(g)
  {
    var t := Turn(p, r, c);
    PointInGrid(t.0, t.1) && g[t.0][t.1] >= 0
  }

  /** Every falling cell the rotation pass has visited by (r, c) turns onto a
      cell in the grid that is not static. */
  ghost predicate FitsBefore(g: Grid, p: Point, r: int, c: int)
    requires IsGrid(g)
  {
    forall i, j | PointInGrid(i, j) && VisitedAscending(i, j, r, c) && g[i][j] > 0 :: TurnFits(g, p, i, j)
  }

  /** Nothing is visited at the start, a finished row is the start of the
      next one, and after the last row FitsBefore is RotationFits. */
  lemma FitsBeforeEnds(g: Grid, p: Point, r: int)
    requires IsGrid(g)
    ensures FitsBefore(g, p, 0, 0)
    ensures FitsBefore(g, p, r, Columns) <==> FitsBefore(g, p, r + 1, 0)
    ensures FitsBefore(g, p, Rows, 0) <==> RotationFits(g, p)
  {
  }

  /** Visiting (r, c) adds exactly that cell's fit to FitsBefore. */
  lemma FitsBeforeStep(g: Grid, p: Point, r: int, c: int)
    requires IsGrid(g) && PointInGrid(r, c)
    ensures FitsBefore(g, p, r, c + 1) <==> FitsBefore(g, p, r, c) && (g[r][c] > 0 ==> TurnFits(g, p, r, c))
  {
  }

  class GameManager {
    var grid: Grid
    var collision: bool

    ghost predicate Valid()
      reads this
    {
      IsGrid(grid)
    }

    constructor ()
      ensures Valid() && grid == EmptyGrid() && !collision
    {
      grid := EmptyGrid();
      collision := false;
    }

    /** isFallingBlocks: is any cell of the grid positive? */
    method IsFallingBlocks() returns (b: bool)
      requires Valid()
      ensures b <==> HasFalling(grid)
    {
      var r := 0;
      while r < Rows
        invariant 0 <= r <= Rows
        invariant forall i, j | 0 <= i < r && 0 <= j < Columns :: grid[i][j] <= 0
      {
        var c := 0;
        while c < Columns
          invariant 0 <= c <= Columns
          invariant forall j | 0 <= j < c :: grid[r][j] <= 0
        {
          if grid[r][c] > 0 {
            assert PointInGrid(r, c);
            return true;
          }
          c := c + 1;
        }
        r := r + 1;
      }
      return false;
    }

    /** generateShape, whose shape id is fixed to the vertical bar: rows 0 to 3
        of the middle column become 2, whatever they held. */
    method GenerateShape()
      requires Valid()
      modifies this
      ensures Valid() && collision == old(collision)
      ensures grid == Spawn(old(grid), GeneratedShape)
    {
      var shape := GeneratedShape;
      var middle := Columns / 2;
      grid := grid[0 := grid[0][middle := shape]];
      grid := grid[1 := grid[1][middle := shape]];
      grid := grid[2 := grid[2][middle := shape]];
      grid := grid[3 := grid[3][middle := shape]];
      GridExt(grid, Spawn(old(grid), GeneratedShape));
    }

    /** Pass 1 of translateMovingBlocksDown: bottom-up and right to left,
        stop at the first falling cell that cannot move down. */
    method FallingBlocksCanMoveDown() returns (ok: bool)
      requires Valid()
      ensures ok <==> AllCanMoveDown(grid)
    {
      var r := Rows - 1;
      while r >= 0
        invariant -1 <= r < Rows
        invariant forall i, j | r < i < Rows && 0 <= j < Columns && grid[i][j] > 0 :: CanMoveDown(grid, i, j)
      {
        var c := Columns - 1;
        while c >= 0
          invariant -1 <= c < Columns
          invariant forall i, j | r < i < Rows && 0 <= j < Columns && grid[i][j] > 0 :: CanMoveDown(grid, i, j)
          invariant forall j | c < j < Columns && grid[r][j] > 0 :: CanMoveDown(grid, r, j)
        {
          if grid[r][c] > 0 {
            if !CanMoveDown(grid, r, c) {
              assert PointInGrid(r, c);
              return false;
            }
          }
          c := c - 1;
        }
        r := r - 1;
      }
      return true;
    }

    /** translateMovingBlocksDown: if some falling cell cannot move down, only
        the collision flag is raised; otherwise pass 2 moves every falling
        cell one row down, in place. */
    method TranslateMovingBlocksDown()
      requires Valid()
      modifies this
      ensures Valid()
      ensures AllCanMoveDown(old(grid)) ==> grid == ShiftDown(old(grid)) && collision == old(collision)
      ensures !AllCanMoveDown(old(grid)) ==> grid == old(grid) && collision
    {
      var ok := FallingBlocksCanMoveDown();
      if !ok {
        collision := true;
        return;
      }

      ghost var g := grid;
      AllCanMoveDownIsLocal(g);
      DownGridEnds(g, 0);
      var r := Rows - 1;
      while r >= 0
        invariant -1 <= r < Rows
        invariant collision == old(collision)
        invariant grid == PartialDownGrid(g, r, Columns - 1)
      {
        var c := Columns - 1;
        while c >= 0
          invariant -1 <= c < Columns
          invariant collision == old(collision)
          invariant grid == PartialDownGrid(g, r, c)
        {
          DownGridStep(g, r, c);
          if grid[r][c] > 0 {
            if CanMoveDown(grid, r, c) {
              grid := grid[r + 1 := grid[r + 1][c := grid[r][c]]];
              grid := grid[r := grid[r][c := 0]];
            }
          }
          c := c - 1;
        }
        DownGridEnds(g, r);
        r := r - 1;
      }
    }

    /** changeBlocksToStatic: every falling code k becomes -k. */
    method ChangeBlocksToStatic()
      requires Valid()
      modifies this
      ensures Valid() && collision == old(collision)
      ensures grid == Frozen(old(grid))
    {
      ghost var g := grid;
      var r := 0;
      while r < Rows
        invariant 0 <= r <= Rows
        invariant IsGrid(grid) && collision == old(collision)
        invariant forall x, y | PointInGrid(x, y) ::
                    grid[x][y] == if x < r && g[x][y] > 0 then -g[x][y] else g[x][y]
      {
        var c := 0;
        while c < Columns
          invariant 0 <= c <= Columns
          invariant IsGrid(grid) && collision == old(collision)
          invariant forall x, y | PointInGrid(x, y) ::
                      grid[x][y] == if VisitedAscending(x, y, r, c) && g[x][y] > 0 then -g[x][y] else g[x][y]
        {
          if grid[r][c] > 0 {
            grid := grid[r := grid[r][c := grid[r][c] * -1]];
          }
          c := c + 1;
        }
        r := r + 1;
      }
      GridExt(grid, Frozen(g));
    }

    /** checkRowIsSame: compares each cell of the row with its right-hand
        neighbour and rejects an empty cell. */
    method CheckRowIsSame(row: int) returns (same: bool)
      requires Valid() && 0 <= row < Rows
      ensures same == RowIsSame(grid[row])
    {
      var c := 0;
      while c < Columns - 1
        invariant 0 <= c <= Columns - 1
        invariant forall j | 0 <= j <= c :: grid[row][j] == grid[row][0]
        invariant c > 0 ==> grid[row][0] != 0
      {
        if grid[row][c] != grid[row][c + 1] || grid[row][c] == 0 {
          return false;
        }
        c := c + 1;
      }
      return true;
    }

    /** clearRow: splices the row out and unshifts a new row of zeros. */
    method ClearRow(row: int)
      requires Valid() && 0 <= row < Rows
      modifies this
      ensures Valid() && collision == old(collision)
      ensures grid == RowRemoved(old(grid), row)
    {
      var rest := grid[..row] + grid[row + 1..];
      var tempRow: seq<int> := [];
      var c := 0;
      while c < Columns
        invariant 0 <= c <= Columns
        invariant |tempRow| == c && forall j | 0 <= j < c :: tempRow[j] == 0
      {
        tempRow := tempRow + [0];
        c := c + 1;
      }
      assert tempRow == EmptyRow();
      grid := [tempRow] + rest;
    }

    /** The deep copy with every falling cell set to 0 that both
        translateMovingBlocksHorizontally and rotate begin with. */
    method CopyWithoutPiece() returns (copy: Grid)
      requires Valid()
      ensures copy == LiftedGrid(grid)
    {
      copy := grid;
      var r := 0;
      while r < Rows
        invariant 0 <= r <= Rows
        invariant IsGrid(copy)
        invariant forall x, y | PointInGrid(x, y) :: copy[x][y] == if x < r then Lifted(grid[x][y]) else grid[x][y]
      {
        var c := 0;
        while c < Columns
          invariant 0 <= c <= Columns
          invariant IsGrid(copy)
          invariant forall x, y | PointInGrid(x, y) ::
                      copy[x][y] == if VisitedAscending(x, y, r, c) then Lifted(grid[x][y]) else grid[x][y]
        {
          if copy[r][c] > 0 {
            copy := copy[r := copy[r][c := 0]];
          }
          c := c + 1;
        }
        r := r + 1;
      }
      GridExt(copy, LiftedGrid(grid));
    }

    /** The legality pass of translateMovingBlocksHorizontally: row-major,
        stop at the first falling cell that cannot move in `dir`. */
    method FallingBlocksCanMoveHorizontally(dir: Direction) returns (ok: bool)
      requires Valid()
      ensures ok <==> AllCanMoveHorizontally(grid, dir)
    {
      var r := 0;
      while r < Rows
        invariant 0 <= r <= Rows
        invariant forall i, j | 0 <= i < r && 0 <= j < Columns && grid[i][j] > 0 :: CanMoveHorizontally(grid, i, j, dir)
      {
        var c := 0;
        while c < Columns
          invariant 0 <= c <= Columns
          invariant forall i, j | 0 <= i < r && 0 <= j < Columns && grid[i][j] > 0 :: CanMoveHorizontally(grid, i, j, dir)
          invariant forall j | 0 <= j < c && grid[r][j] > 0 :: CanMoveHorizontally(grid, r, j, dir)
        {
          if grid[r][c] > 0 {
            if !CanMoveHorizontally(grid, r, c, dir) {
              assert PointInGrid(r, c);
              return false;
            }
          }
          c := c + 1;
        }
        r := r + 1;
      }
      return true;
    }

    /** The moving pass of translateMovingBlocksHorizontally: each falling
        cell is written one column over into the copy that has the piece
        lifted out. */
    method ShiftedCopy(dir: Direction) returns (copy: Grid)
      requires Valid() && AllCanMoveHorizontally(grid, dir)
      ensures copy == ShiftHorizontally(grid, dir)
    {
      copy := CopyWithoutPiece();
      AllCanMoveHorizontallyIsLocal(grid, dir);
      SideGridEnds(grid, dir);
      var r := 0;
      while r < Rows
        invariant 0 <= r <= Rows
        invariant copy == PartialSideGrid(grid, dir, r, 0)
      {
        var c := 0;
        while c < Columns
          invariant 0 <= c <= Columns
          invariant copy == PartialSideGrid(grid, dir, r, c)
        {
          SideGridStep(grid, dir, r, c);
          if grid[r][c] > 0 {
            if CanMoveHorizontally(grid, r, c, dir) {
              var n := c + Offset(dir);
              copy := copy[r := copy[r][n := grid[r][c]]];
            }
          }
          c := c + 1;
        }
        SideGridRowEnd(grid, dir, r);
        r := r + 1;
      }
    }

    /** translateMovingBlocksHorizontally: all falling cells move one column
        in `dir`, or, if any of them cannot, nothing changes. */
    method TranslateMovingBlocksHorizontally(dir: Direction)
      requires Valid()
      modifies this
      ensures Valid() && collision == old(collision)
      ensures AllCanMoveHorizontally(old(grid), dir) ==> grid == ShiftHorizontally(old(grid), dir)
      ensures !AllCanMoveHorizontally(old(grid), dir) ==> grid == old(grid)
    {
      var ok := FallingBlocksCanMoveHorizontally(dir);
      if !ok {
        return;
      }
      grid := ShiftedCopy(dir);
    }

    /** The column loop of findRotation's scan: it stops (the `break`) at
        the first falling cell of row r, or runs off the row. */
    method LeftmostFalling(r: int) returns (c: int)
      requires Valid() && 0 <= r < Rows
      ensures c == FirstFallingColumn(grid[r], 0)
      ensures c < Columns <==> exists j | 0 <= j < Columns :: grid[r][j] > 0
    {
      c := 0;
      while c < Columns
        invariant 0 <= c <= Columns
        invariant forall j | 0 <= j < c :: grid[r][j] <= 0
      {
        if grid[r][c] > 0 {
          break;
        }
        c := c + 1;
      }
    }

    /** findRotation: the scan for the pivot cell followed by the switch on
        its shape id. */
    method FindRotation() returns (p: Point)
      requires Valid()
      ensures p == RotationPoint(grid)
    {
      var pr, pc, shape := 0, 0, 0;
      var r := 0;
      while r < Rows
        invariant 0 <= r <= Rows
        invariant ScannedCell(grid, r) == Scanned(pr, pc, shape)
      {
        ScanStep(grid, r);
        var c := LeftmostFalling(r);
        if c < Columns {
          pr, pc, shape := r, c, grid[r][c];
        }
        r := r + 1;
      }
      p := Adjust(grid, pr, pc, shape);
    }

    /** One row of rotate's rotation pass: each falling cell of row r is
        written, turned a quarter about p, into the copy; the pass gives up at
        the first cell that would land outside the grid or on a static cell. */
    method RotateRow(p: Point, r: int, copy0: Grid) returns (copy: Grid, fits: bool)
      requires Valid() && Aligned(p) && 0 <= r < Rows
      requires copy0 == PartialRotatedGrid(grid, p, r, 0) && FitsBefore(grid, p, r, 0)
      ensures fits ==> copy == PartialRotatedGrid(grid, p, r + 1, 0) && FitsBefore(grid, p, r + 1, 0)
      ensures !fits ==> !RotationFits(grid, p)
    {
      copy := copy0;
      var c := 0;
      while c < Columns
        invariant 0 <= c <= Columns
        invariant copy == PartialRotatedGrid(grid, p, r, c)
        invariant FitsBefore(grid, p, r, c)
      {
        RotatedGridStep(grid, p, r, c);
        FitsBeforeStep(grid, p, r, c);
        if grid[r][c] > 0 {
          var rotatedR, rotatedC := Turn(p, r, c).0, Turn(p, r, c).1;
          if !PointInGrid(rotatedR, rotatedC) || copy[rotatedR][rotatedC] < 0 {
            assert !TurnFits(grid, p, r, c);
            return copy, false;
          }
          copy := copy[rotatedR := copy[rotatedR][rotatedC := grid[r][c]]];
        }
        c := c + 1;
      }
      RotatedGridRowEnd(grid, p, r);
      FitsBeforeEnds(grid, p, r);
      return copy, true;
    }

    /** The rotation pass of rotate, row by row over the copy that has the
        piece lifted out. */
    method RotatedCopy(p: Point) returns (copy: Grid, fits: bool)
      requires Valid() && Aligned(p)
      ensures fits <==> RotationFits(grid, p)
      ensures fits ==> copy == Rotated(grid, p)
    {
      copy := CopyWithoutPiece();
      RotatedGridEnds(grid, p);
      FitsBeforeEnds(grid, p, 0);
      var r := 0;
      while r < Rows
        invariant 0 <= r <= Rows
        invariant copy == PartialRotatedGrid(grid, p, r, 0)
        invariant FitsBefore(grid, p, r, 0)
      {
        var rowFits;
        copy, rowFits := RotateRow(p, r, copy);
        if !rowFits {
          return copy, false;
        }
        r := r + 1;
      }
      FitsBeforeEnds(grid, p, Rows);
      return copy, true;
    }

    /** rotate: the shadow copy replaces the grid only if the pivot is valid
        and every turned cell lands in the grid and not on a static cell. */
    method Rotate()
      requires Valid()
      modifies this
      ensures Valid() && collision == old(collision)
      ensures var p := RotationPoint(old(grid));
              if p.valid && RotationFits(old(grid), p) then grid == Rotated(old(grid), p) else grid == old(grid)
    {
      var p := FindRotation();
      if !p.valid {
        return;
      }
      var copy, fits := RotatedCopy(p);
      if fits {
        grid := copy;
      }
    }
  }

  /** The grid after one tick of Tetris.display fires: spawn when no piece is
      falling; otherwise gravity, or, on collision, freeze and clear rows. */
  ghost function TickGrid(g: Grid): (h: Grid)
    requires IsGrid(g)
  {
    if !HasFalling(g) then Spawn(g, GeneratedShape)
    else if AllCanMoveDown(g) then ShiftDown(g)
    else ClearFrom(Frozen(g), 0)
  }

  /** A tick spawns a piece when none is falling, keeps a piece falling while
      it can drop, and leaves no falling cell once the piece has landed. */
  lemma TickCycle(g: Grid)
    requires IsGrid(g)
    ensures IsGrid(TickGrid(g))
    ensures !HasFalling(g) ==> HasFalling(TickGrid(g))
    ensures HasFalling(g) && AllCanMoveDown(g) ==> HasFalling(TickGrid(g))
    ensures HasFalling(g) && !AllCanMoveDown(g) ==> NoFalling(TickGrid(g))
  {
    if !HasFalling(g) {
      SpawnWritesBar(g);
    } else if AllCanMoveDown(g) {
      var r, c :| PointInGrid(r, c) && g[r][c] > 0;
      GravityMovesWholePiece(g);
      assert PointInGrid(r + 1, c) && ShiftDown(g)[r + 1][c] > 0;
    } else {
      FreezeLeavesNoFalling(g);
      ClearFromKeepsNoFalling(Frozen(g), 0);
    }
  }

  /** A tick keeps the falling cells one piece: the spawned bar carries the
      generated id alone, a drop moves the piece whole, and a landing leaves
      no falling cell. */
  lemma TickKeepsOneShape(g: Grid)
    requires IsGrid(g) && OneFallingShape(g)
    ensures OneFallingShape(TickGrid(g))
  {
    if !HasFalling(g) {
      SpawnHasOneShape(g);
    } else if AllCanMoveDown(g) {
      ShiftDownKeepsOneShape(g);
    } else {
      FreezeLeavesNoFalling(g);
      ClearFromKeepsNoFalling(Frozen(g), 0);
    }
  }

  /** One row of the clearing loop. */
  lemma ClearFromStep(g: Grid, i: int)
    requires IsGrid(g) && 0 <= i < Rows
    ensures ClearFrom(g, i) == ClearFrom(ClearRepeat(g, i, 0), i + 1)
  {
  }

  /** One repetition on the same row: a uniform row is removed and checked
      again, anything else ends the repetitions. */
  lemma ClearRepeatStep(g: Grid, i: int, j: int)
    requires IsGrid(g) && 0 <= i < Rows && 0 <= j <= 4
    ensures j < 4 && RowIsSame(g[i]) ==> ClearRepeat(g, i, j) == ClearRepeat(RowRemoved(g, i), i, j + 1)
    ensures !(j < 4 && RowIsSame(g[i])) ==> ClearRepeat(g, i, j) == g
  {
  }

  /** The Tetris scene's game state: its engine, its time accumulator and its
      flags. */
  class Tetris {
    var gameManager: GameManager
    var tetrisTime: real
    var tickRate: real
    var pauseTetris: bool
    var playingTetris: bool
    var pauseSnake: bool
    var playingSnake: bool

    /** Between frames the collision flag is always down. */
    ghost predicate Valid()
      reads this, gameManager
    {
      gameManager.Valid() && !gameManager.collision
    }

    constructor ()
      ensures Valid() && fresh(gameManager)
      ensures gameManager.grid == EmptyGrid()
      ensures tetrisTime == 0.0 && tickRate == 1.0 && !pauseTetris && playingTetris
      ensures pauseSnake && !playingSnake
    {
      gameManager := new GameManager();
      tetrisTime := 0.0;
      tickRate := 1.0;
      pauseSnake := true;
      pauseTetris := false;
      playingTetris := true;
      playingSnake := false;
    }

    /** The "Move right" and "Move left" buttons: while Tetris is played,
        the piece shifts as a whole or not at all. */
    method MovePiece(dir: Direction)
      requires Valid()
      modifies gameManager
      ensures Valid()
      ensures playingTetris && AllCanMoveHorizontally(old(gameManager.grid), dir) ==>
                gameManager.grid == ShiftHorizontally(old(gameManager.grid), dir)
      ensures !playingTetris || !AllCanMoveHorizontally(old(gameManager.grid), dir) ==>
                gameManager.grid == old(gameManager.grid)
    {
      if playingTetris {
        gameManager.TranslateMovingBlocksHorizontally(dir);
      }
    }

    /** The "Rotate" button: while Tetris is played, the piece turns about
        findRotation's pivot if the turn is valid and fits. */
    method RotatePiece()
      requires Valid()
      modifies gameManager
      ensures Valid()
      ensures var p := RotationPoint(old(gameManager.grid));
              if playingTetris && p.valid && RotationFits(old(gameManager.grid), p)
              then gameManager.grid == Rotated(old(gameManager.grid), p)
              else gameManager.grid == old(gameManager.grid)
    {
      if playingTetris {
        gameManager.Rotate();
      }
    }

    /** The "Speed up" and "Slow down" buttons: the tick interval takes one
        changeSpeed step, so it stays on the ladder, and nothing else changes. */
    method ChangeRate(dir: SpeedChange)
      requires Valid()
      modifies this
      ensures Valid() && gameManager == old(gameManager) && tetrisTime == old(tetrisTime)
      ensures tickRate == ChangeSpeed(dir, old(tickRate))
      ensures OnSpeedLadder(old(tickRate)) ==> OnSpeedLadder(tickRate)
      ensures pauseTetris == old(pauseTetris) && playingTetris == old(playingTetris)
      ensures pauseSnake == old(pauseSnake) && playingSnake == old(playingSnake)
    {
      tickRate := ChangeSpeed(dir, tickRate);
      if OnSpeedLadder(old(tickRate)) {
        ChangeSpeedStaysOnLadder(dir, old(tickRate));
      }
    }

    /** The "Pause game" button: flips the pause flag of Snake while Snake
        is played, and of Tetris otherwise; nothing else changes. */
    method TogglePause()
      requires Valid()
      modifies this
      ensures Valid() && gameManager == old(gameManager) && tetrisTime == old(tetrisTime)
      ensures tickRate == old(tickRate)
      ensures playingTetris == old(playingTetris) && playingSnake == old(playingSnake)
      ensures playingSnake ==> pauseSnake == !old(pauseSnake) && pauseTetris == old(pauseTetris)
      ensures !playingSnake ==> pauseTetris == !old(pauseTetris) && pauseSnake == old(pauseSnake)
    {
      if playingSnake {
        pauseSnake := !pauseSnake;
      } else {
        pauseTetris := !pauseTetris;
      }
    }

    /** The inner loop of the row clearing in Tetris.display: a uniform row
        i is cleared, and the same index checked again, at most four times,
        since the rows above move down into it. */
    method ClearRowRepeatedly(i: int)
      requires gameManager.Valid() && 0 <= i < Rows
      modifies gameManager
      ensures gameManager.Valid() && gameManager.collision == old(gameManager.collision)
      ensures gameManager.grid == ClearRepeat(old(gameManager.grid), i, 0)
    {
      var gm := gameManager;
      var j := 0;
      while j < 4
        invariant 0 <= j <= 4
        invariant gm.Valid() && gm.collision == old(gm.collision)
        invariant ClearRepeat(gm.grid, i, j) == ClearRepeat(old(gm.grid), i, 0)
      {
        ClearRepeatStep(gm.grid, i, j);
        var same := gm.CheckRowIsSame(i);
        if same {
          gm.ClearRow(i);
        } else {
          return;
        }
        j := j + 1;
      }
      ClearRepeatStep(gm.grid, i, j);
    }

    /** The row loop of Tetris.display after a piece has landed: every row,
        top to bottom, that is uniformly filled is cleared (up to four times
        at the same index). */
    method ClearFullRows()
      requires gameManager.Valid()
      modifies gameManager
      ensures gameManager.Valid() && gameManager.collision == old(gameManager.collision)
      ensures gameManager.grid == ClearFrom(old(gameManager.grid), 0)
    {
      var gm := gameManager;
      var i := 0;
      while i < Rows
        invariant 0 <= i <= Rows
        invariant gm.Valid() && gm.collision == old(gm.collision)
        invariant ClearFrom(gm.grid, i) == ClearFrom(old(gm.grid), 0)
      {
        ClearFromStep(gm.grid, i);
        ClearRepeatStep(gm.grid, i, 0);
        var same := gm.CheckRowIsSame(i);
        if same {
          ClearRowRepeatedly(i);
        }
        i := i + 1;
      }
    }

    /** The game logic of Tetris.display for one frame of `dt` seconds: at most
        one tick, and only once the accumulated time exceeds the tick rate. */
    method Display(dt: real)
      requires Valid()
      modifies this, gameManager
      ensures Valid() && gameManager == old(gameManager)
      ensures tickRate == old(tickRate) && pauseTetris == old(pauseTetris) && playingTetris == old(playingTetris)
      ensures pauseSnake == old(pauseSnake) && playingSnake == old(playingSnake)
      ensures var running := !old(pauseTetris) && old(playingTetris);
              var fires := running && old(tetrisTime) + dt > tickRate;
              && (!running ==> tetrisTime == old(tetrisTime) && gameManager.grid == old(gameManager.grid))
              && (running && !fires ==> tetrisTime == old(tetrisTime) + dt && gameManager.grid == old(gameManager.grid))
              && (fires ==> tetrisTime == 0.0 && gameManager.grid == TickGrid(old(gameManager.grid)))
    {
      var gm := gameManager;
      if !pauseTetris && playingTetris {
        tetrisTime := tetrisTime + dt;
        if tetrisTime > tickRate {
          tetrisTime := 0.0;
          var falling := gm.IsFallingBlocks();
          if falling {
            gm.TranslateMovingBlocksDown();
            if gm.collision {
              gm.ChangeBlocksToStatic();
              ClearFullRows();
              gm.collision := false;
            }
          } else {
            gm.GenerateShape();
          }
        }
      }
    }
  }
}
