/**
  The Tetris playing field of tetris.js (class GameManager): a 20 x 10 grid of
  integer cell codes. A positive code k is a cell of the falling piece of shape k,
  a negative code -k is a landed (static) cell of the same shape, and 0 is empty.

  This module holds the grid rules as pure functions (the recursive movement
  checks, and reference definitions of what gravity, a horizontal shift,
  freezing, spawning and row removal do to a whole grid) together with the
  lemmas that state what the source promises about them. It also holds
  GameManager.changeSpeed, the ladder of tick intervals, which does not touch
  the grid.
*/
module TetrisGrid {

  const Rows: int := 20
  const Columns: int := 10

  type Grid = seq<seq<int>>

  /** The grid has `Rows` rows of `Columns` cells. */
  predicate IsGrid(g: Grid) {
    |g| == Rows && forall r | 0 <= r < Rows :: |g[r]| == Columns
  }

  /** GameManager.pointInGrid */
  predicate PointInGrid(r: int, c: int) {
    0 <= r < Rows && 0 <= c < Columns
  }

  /** The guard is exactly what makes `g[r][c]` a read inside the grid. */
  lemma PointInGridIsIndex(g: Grid, r: int, c: int)
    requires IsGrid(g)
    ensures PointInGrid(r, c) <==> 0 <= r < |g| && 0 <= c < |g[r]|
  {
  }

  function EmptyRow(): (row: seq<int>)
    ensures |row| == Columns && forall c | 0 <= c < Columns :: row[c] == 0
  {
    seq(Columns, _ => 0)
  }

  function EmptyGrid(): (g: Grid)
    ensures IsGrid(g)
    ensures forall r, c | PointInGrid(r, c) :: g[r][c] == 0
  {
    seq(Rows, _ => EmptyRow())
  }

  /** Two grids that agree on every cell are equal. */
  lemma GridExt(a: Grid, b: Grid)
    requires IsGrid(a) && IsGrid(b)
    requires forall r, c | PointInGrid(r, c) :: a[r][c] == b[r][c]
    ensures a == b
  {
    forall r | 0 <= r < Rows
      ensures a[r] == b[r]
    {
      assert forall c | 0 <= c < Columns :: a[r][c] == b[r][c];
    }
  }

  /** Some cell belongs to the falling piece. */
  ghost predicate HasFalling(g: Grid)
    requires IsGrid(g)
  {
    exists r, c | PointInGrid(r, c) :: g[r][c] > 0
  }

  /** No cell belongs to a falling piece. */
  ghost predicate NoFalling(g: Grid)
    requires IsGrid(g)
  {
    forall r, c | PointInGrid(r, c) :: g[r][c] <= 0
  }

  /** Every falling cell carries the same shape id: the falling cells are the
      cells of one piece. */
  ghost predicate OneFallingShape(g: Grid)
    requires IsGrid(g)
  {
    forall r1, c1, r2, c2 | PointInGrid(r1, c1) && PointInGrid(r2, c2) && g[r1][c1] > 0 && g[r2][c2] > 0 ::
      g[r1][c1] == g[r2][c2]
  }

  /** What a cell holds once the falling piece has been lifted off the grid. */
  function Lifted(v: int): int {
    if v > 0 then 0 else v
  }

  /** The shadow copy translateMovingBlocksHorizontally and rotate start
      from: the grid with every falling cell emptied. */
  function LiftedGrid(g: Grid): (h: Grid)
    requires IsGrid(g)
    ensures IsGrid(h)
    ensures forall r, c | PointInGrid(r, c) :: h[r][c] == Lifted(g[r][c])
  {
    seq(Rows, r requires 0 <= r < Rows => seq(Columns, c requires 0 <= c < Columns => Lifted(g[r][c])))
  }

  /** In a row-major scan at (r, c), cell (i, j) has already been visited. */
  predicate VisitedAscending(i: int, j: int, r: int, c: int) {
    i < r || (i == r && j < c)
  }

  /** In a bottom-up, right-to-left scan at (r, c), cell (i, j) has already been visited. */
  predicate VisitedDescending(i: int, j: int, r: int, c: int) {
    i > r || (i == r && j > c)
  }

  // ---------------------------------------------------------------------------
  // Gravity
  // ---------------------------------------------------------------------------

  /** GameManager.canMoveDown: the cell below is empty, or it holds a falling
      cell that can itself move down; the floor and static cells block. */
  function CanMoveDown(g: Grid, row: int, col: int): (b: bool)
    requires IsGrid(g) && PointInGrid(row, col)
    ensures b ==> row + 1 < Rows && g[row + 1][col] >= 0
    ensures row + 1 < Rows && g[row + 1][col] == 0 ==> b
    decreases Rows - row
  {
    if row + 1 < Rows then
      if g[row + 1][col] == 0 then true
      else if g[row + 1][col] < 0 then false
      else CanMoveDown(g, row + 1, col)
    else false
  }

  /** Below `row` in column `col`, the cells down to row k are falling cells
      and row k is empty. */
  ghost predicate RunToGap(g: Grid, row: int, col: int, k: int)
    requires IsGrid(g) && PointInGrid(row, col)
  {
    row < k < Rows && g[k][col] == 0 && forall j | row < j < k :: g[j][col] > 0
  }

  /** canMoveDown follows the chain of falling cells below a cell down to an
      empty cell: it holds exactly when such a gap exists. */
  lemma {:induction false} CanMoveDownFindsGap(g: Grid, row: int, col: int)
    requires IsGrid(g) && PointInGrid(row, col)
    ensures CanMoveDown(g, row, col) <==> exists k :: RunToGap(g, row, col, k)
    decreases Rows - row
  {
    if row + 1 >= Rows {
      forall k ensures !RunToGap(g, row, col, k) { }
    } else if g[row + 1][col] == 0 {
      assert RunToGap(g, row, col, row + 1);
    } else if g[row + 1][col] < 0 {
      forall k ensures !RunToGap(g, row, col, k) {
        if row + 1 < k < Rows { assert !(g[row + 1][col] > 0); }
      }
    } else {
      CanMoveDownFindsGap(g, row + 1, col);
      forall k ensures RunToGap(g, row, col, k) <==> RunToGap(g, row + 1, col, k) {
        RunToGapThroughFalling(g, row, col, k);
      }
      if CanMoveDown(g, row + 1, col) {
        var k :| RunToGap(g, row + 1, col, k);
        assert RunToGap(g, row, col, k);
      }
    }
  }

  /** Past a falling cell directly below, the gap search continues one row down. */
  lemma RunToGapThroughFalling(g: Grid, row: int, col: int, k: int)
    requires IsGrid(g) && PointInGrid(row, col) && row + 1 < Rows && g[row + 1][col] > 0
    ensures RunToGap(g, row, col, k) <==> RunToGap(g, row + 1, col, k)
  {
  }

  /** Pass 1 of translateMovingBlocksDown succeeds: every falling cell can move down. */
  ghost predicate AllCanMoveDown(g: Grid)
    requires IsGrid(g)
  {
    forall r, c | PointInGrid(r, c) && g[r][c] > 0 :: CanMoveDown(g, r, c)
  }

  /** Every falling cell has a row below it whose cell there is not static. */
  ghost predicate RoomBelowEveryFallingCell(g: Grid)
    requires IsGrid(g)
  {
    forall r, c | PointInGrid(r, c) && g[r][c] > 0 :: r + 1 < Rows && g[r + 1][c] >= 0
  }

  lemma {:induction false} RoomBelowGivesMove(g: Grid, r: int, c: int)
    requires IsGrid(g) && RoomBelowEveryFallingCell(g)
    requires PointInGrid(r, c) && g[r][c] > 0
    ensures CanMoveDown(g, r, c)
    decreases Rows - r
  {
    if g[r + 1][c] > 0 {
      RoomBelowGivesMove(g, r + 1, c);
    }
  }

  /** The whole piece can fall exactly when no falling cell sits on the floor
      or directly on a static cell. */
  lemma AllCanMoveDownIsLocal(g: Grid)
    requires IsGrid(g)
    ensures AllCanMoveDown(g) <==> RoomBelowEveryFallingCell(g)
  {
    if RoomBelowEveryFallingCell(g) {
      forall r, c | PointInGrid(r, c) && g[r][c] > 0
        ensures CanMoveDown(g, r, c)
      {
        RoomBelowGivesMove(g, r, c);
      }
    }
    if AllCanMoveDown(g) {
      forall r, c | PointInGrid(r, c) && g[r][c] > 0
        ensures r + 1 < Rows && g[r + 1][c] >= 0
      {
        assert CanMoveDown(g, r, c);
      }
    }
  }

  /** One cell of the grid after the falling piece has dropped one row. */
  function DownCell(g: Grid, r: int, c: int): int
    requires IsGrid(g) && PointInGrid(r, c)
  {
    if r > 0 && g[r - 1][c] > 0 then g[r - 1][c] else Lifted(g[r][c])
  }

  /** Reference definition of a successful gravity step: every falling cell
      one row lower, everything else in place. */
  function ShiftDown(g: Grid): (s: Grid)
    requires IsGrid(g)
    ensures IsGrid(s)
    ensures forall r, c | PointInGrid(r, c) :: s[r][c] == DownCell(g, r, c)
  {
    seq(Rows, r requires 0 <= r < Rows => seq(Columns, c requires 0 <= c < Columns => DownCell(g, r, c)))
  }

  /** Dropping the piece keeps one shape id: every falling cell of the result
      is the falling cell just above it. */
  lemma ShiftDownKeepsOneShape(g: Grid)
    requires IsGrid(g) && OneFallingShape(g)
    ensures OneFallingShape(ShiftDown(g))
  {
    var s := ShiftDown(g);
    forall r, c | PointInGrid(r, c) && s[r][c] > 0
      ensures r > 0 && g[r - 1][c] == s[r][c]
    {
    }
  }

  /** Gravity is all-or-nothing: when it applies, every falling cell lands one
      row lower with its code, no static cell changes, and every falling cell
      of the result came from the cell just above it. */
  lemma GravityMovesWholePiece(g: Grid)
    requires IsGrid(g) && AllCanMoveDown(g)
    ensures forall r, c | PointInGrid(r, c) && g[r][c] > 0 ::
              r + 1 < Rows && ShiftDown(g)[r + 1][c] == g[r][c]
    ensures forall r, c | PointInGrid(r, c) && g[r][c] < 0 :: ShiftDown(g)[r][c] == g[r][c]
    ensures forall r, c | PointInGrid(r, c) && ShiftDown(g)[r][c] > 0 ::
              r > 0 && g[r - 1][c] == ShiftDown(g)[r][c]
  {
    AllCanMoveDownIsLocal(g);
  }

  // ---------------------------------------------------------------------------
  // Freezing
  // ---------------------------------------------------------------------------

  /** Reference definition of changeBlocksToStatic: every falling code k becomes -k. */
  function Frozen(g: Grid): (f: Grid)
    requires IsGrid(g)
    ensures IsGrid(f)
    ensures forall r, c | PointInGrid(r, c) :: f[r][c] == (if g[r][c] > 0 then -g[r][c] else g[r][c])
  {
    seq(Rows, r requires 0 <= r < Rows =>
      seq(Columns, c requires 0 <= c < Columns => if g[r][c] > 0 then -g[r][c] else g[r][c]))
  }

  /** After freezing no falling cell is left, and static cells keep their
      shape's code (the magnitude never changes). */
  lemma FreezeLeavesNoFalling(g: Grid)
    requires IsGrid(g)
    ensures NoFalling(Frozen(g))
    ensures forall r, c | PointInGrid(r, c) ::
              (Frozen(g)[r][c] == 0 <==> g[r][c] == 0) &&
              (g[r][c] < 0 ==> Frozen(g)[r][c] == g[r][c]) &&
              (g[r][c] > 0 ==> Frozen(g)[r][c] + g[r][c] == 0)
  {
  }

  // ---------------------------------------------------------------------------
  // Row clearing
  // ---------------------------------------------------------------------------

  /** checkRowIsSame's condition: one single non-zero code fills the whole row. */
  predicate RowIsSame(row: seq<int>)
    requires |row| == Columns
  {
    row[0] != 0 && forall c | 0 <= c < Columns :: row[c] == row[0]
  }

  /** A row holding an empty cell, or two different codes, is never cleared. */
  lemma MixedOrGappedRowIsKept(row: seq<int>, i: int, j: int)
    requires |row| == Columns && 0 <= i < Columns && 0 <= j < Columns
    requires row[i] == 0 || row[i] != row[j]
    ensures !RowIsSame(row)
  {
  }

  /** Reference definition of clearRow: the row is spliced out and an empty
      row is put on top, so the rows above it move down by one. */
  function RowRemoved(g: Grid, row: int): (h: Grid)
    requires IsGrid(g) && 0 <= row < Rows
    ensures IsGrid(h)
    ensures h[0] == EmptyRow()
    ensures forall r | 1 <= r <= row :: h[r] == g[r - 1]
    ensures forall r | row < r < Rows :: h[r] == g[r]
  {
    [EmptyRow()] + (g[..row] + g[row + 1..])
  }

  /** The inner loop of the tick's row clearing at row i, from attempt j on:
      at most four removals, stopping at the first row that is not uniform. */
  function ClearRepeat(g: Grid, i: int, j: int): (h: Grid)
    requires IsGrid(g) && 0 <= i < Rows && 0 <= j <= 4
    ensures IsGrid(h)
    decreases 4 - j
  {
    if j < 4 && RowIsSame(g[i]) then ClearRepeat(RowRemoved(g, i), i, j + 1) else g
  }

  /** The outer loop of the tick's row clearing, from row i to the bottom. */
  function ClearFrom(g: Grid, i: int): (h: Grid)
    requires IsGrid(g) && 0 <= i <= Rows
    ensures IsGrid(h)
    decreases Rows - i
  {
    if i < Rows then ClearFrom(ClearRepeat(g, i, 0), i + 1) else g
  }

  lemma RowRemovedKeepsNoFalling(g: Grid, row: int)
    requires IsGrid(g) && 0 <= row < Rows && NoFalling(g)
    ensures NoFalling(RowRemoved(g, row))
  {
    var h := RowRemoved(g, row);
    forall r, c | PointInGrid(r, c) ensures h[r][c] <= 0 {
      if r == 0 {
      } else if r <= row {
        assert h[r] == g[r - 1];
      } else {
        assert h[r] == g[r];
      }
    }
  }

  lemma {:induction false} ClearRepeatKeepsNoFalling(g: Grid, i: int, j: int)
    requires IsGrid(g) && 0 <= i < Rows && 0 <= j <= 4 && NoFalling(g)
    ensures NoFalling(ClearRepeat(g, i, j))
    decreases 4 - j
  {
    if j < 4 && RowIsSame(g[i]) {
      RowRemovedKeepsNoFalling(g, i);
      ClearRepeatKeepsNoFalling(RowRemoved(g, i), i, j + 1);
    }
  }

  /** Row clearing only removes rows and adds empty ones, so after a piece is
      frozen no falling cell ever reappears. */
  lemma {:induction false} ClearFromKeepsNoFalling(g: Grid, i: int)
    requires IsGrid(g) && 0 <= i <= Rows && NoFalling(g)
    ensures NoFalling(ClearFrom(g, i))
    decreases Rows - i
  {
    if i < Rows {
      ClearRepeatKeepsNoFalling(g, i, 0);
      ClearFromKeepsNoFalling(ClearRepeat(g, i, 0), i + 1);
    }
  }

  // ---------------------------------------------------------------------------
  // Spawning
  // ---------------------------------------------------------------------------

  /** generateShape draws a random shape in a commented-out line; the live
      line fixes the shape to 2, the vertical bar. */
  const GeneratedShape: int := 2

  /** The cells generateShape writes for each shape id, around the middle column. */
  function ShapeCells(shape: int): seq<(int, int)> {
    var m := Columns / 2;
    if shape == 1 then [(0, m), (1, m), (0, m - 1), (1, m - 1)]
    else if shape == 2 then [(0, m), (1, m), (2, m), (3, m)]
    else if shape == 3 then [(0, m), (1, m), (1, m - 1), (1, m - 2)]
    else if shape == 4 then [(0, m), (0, m - 1), (1, m - 1), (1, m - 2)]
    else if shape == 5 then [(0, m - 1), (1, m), (1, m - 1), (1, m - 2)]
    else []
  }

  /** The grid after generateShape has written `shape` (with no collision check). */
  function Spawn(g: Grid, shape: int): (h: Grid)
    requires IsGrid(g)
    ensures IsGrid(h)
    ensures forall r, c | PointInGrid(r, c) :: h[r][c] == (if (r, c) in ShapeCells(shape) then shape else g[r][c])
  {
    seq(Rows, r requires 0 <= r < Rows =>
      seq(Columns, c requires 0 <= c < Columns => if (r, c) in ShapeCells(shape) then shape else g[r][c]))
  }

  /** The spawned piece is the vertical bar in rows 0 to 3 of column 5; every
      other cell is left as it was, and afterwards there is a falling piece. */
  lemma SpawnWritesBar(g: Grid)
    requires IsGrid(g)
    ensures forall r | 0 <= r < 4 :: Spawn(g, GeneratedShape)[r][5] == 2
    ensures forall r, c | PointInGrid(r, c) && !(0 <= r < 4 && c == 5) :: Spawn(g, GeneratedShape)[r][c] == g[r][c]
    ensures HasFalling(Spawn(g, GeneratedShape))
  {
    var h := Spawn(g, GeneratedShape);
    assert h[0][5] == 2;
  }

  /** On a grid with no falling piece, the spawned piece is the only falling
      one and all its cells carry the generated id. */
  lemma SpawnHasOneShape(g: Grid)
    requires IsGrid(g) && !HasFalling(g)
    ensures forall r, c | PointInGrid(r, c) && Spawn(g, GeneratedShape)[r][c] > 0 ::
              Spawn(g, GeneratedShape)[r][c] == GeneratedShape
    ensures OneFallingShape(Spawn(g, GeneratedShape))
  {
    var h := Spawn(g, GeneratedShape);
    forall r, c | PointInGrid(r, c) && h[r][c] > 0
      ensures h[r][c] == GeneratedShape
    {
      assert g[r][c] <= 0;
    }
  }

  // ---------------------------------------------------------------------------
  // Horizontal shift
  // ---------------------------------------------------------------------------

  /** The two directions translateMovingBlocksHorizontally is called with ("LEFT", "RIGHT"). */
  datatype Direction = Left | Right

  function Offset(dir: Direction): int {
    if dir == Left then -1 else 1
  }

  /** GameManager.canMoveHorizontally: the cell itself must be falling, and
      the neighbour in `dir` must be empty or a falling cell that can move. */
  function CanMoveHorizontally(g: Grid, r: int, c: int, dir: Direction): (b: bool)
    requires IsGrid(g) && PointInGrid(r, c)
    ensures b ==> g[r][c] > 0 && PointInGrid(r, c + Offset(dir)) && g[r][c + Offset(dir)] >= 0
    ensures g[r][c] > 0 && PointInGrid(r, c + Offset(dir)) && g[r][c + Offset(dir)] == 0 ==> b
    decreases if dir == Left then c else Columns - c
  {
    if g[r][c] <= 0 then false
    else if dir == Left then
      if c - 1 >= 0 then
        if g[r][c - 1] == 0 then true else CanMoveHorizontally(g, r, c - 1, dir)
      else false
    else
      if c + 1 < Columns then
        if g[r][c + 1] == 0 then true else CanMoveHorizontally(g, r, c + 1, dir)
      else false
  }

  /** The legality pass of translateMovingBlocksHorizontally succeeds. */
  ghost predicate AllCanMoveHorizontally(g: Grid, dir: Direction)
    requires IsGrid(g)
  {
    forall r, c | PointInGrid(r, c) && g[r][c] > 0 :: CanMoveHorizontally(g, r, c, dir)
  }

  /** Every falling cell has an in-grid neighbour in `dir` that is not static. */
  ghost predicate RoomBesideEveryFallingCell(g: Grid, dir: Direction)
    requires IsGrid(g)
  {
    forall r, c | PointInGrid(r, c) && g[r][c] > 0 ::
      0 <= c + Offset(dir) < Columns && g[r][c + Offset(dir)] >= 0
  }

  lemma {:induction false} RoomBesideGivesMove(g: Grid, r: int, c: int, dir: Direction)
    requires IsGrid(g) && RoomBesideEveryFallingCell(g, dir)
    requires PointInGrid(r, c) && g[r][c] > 0
    ensures CanMoveHorizontally(g, r, c, dir)
    decreases if dir == Left then c else Columns - c
  {
    var n := c + Offset(dir);
    if g[r][n] > 0 {
      RoomBesideGivesMove(g, r, n, dir);
    }
  }

  /** A shift is legal exactly when no falling cell touches the edge or a
      static cell on that side. */
  lemma AllCanMoveHorizontallyIsLocal(g: Grid, dir: Direction)
    requires IsGrid(g)
    ensures AllCanMoveHorizontally(g, dir) <==> RoomBesideEveryFallingCell(g, dir)
  {
    if RoomBesideEveryFallingCell(g, dir) {
      forall r, c | PointInGrid(r, c) && g[r][c] > 0
        ensures CanMoveHorizontally(g, r, c, dir)
      {
        RoomBesideGivesMove(g, r, c, dir);
      }
    }
    if AllCanMoveHorizontally(g, dir) {
      forall r, c | PointInGrid(r, c) && g[r][c] > 0
        ensures 0 <= c + Offset(dir) < Columns && g[r][c + Offset(dir)] >= 0
      {
        assert CanMoveHorizontally(g, r, c, dir);
        var n := c + Offset(dir);
        assert 0 <= n < Columns && (g[r][n] == 0 || CanMoveHorizontally(g, r, n, dir));
      }
    }
  }

  /** One cell after the falling piece has moved one column in `dir`. */
  function SideCell(g: Grid, r: int, c: int, dir: Direction): int
    requires IsGrid(g) && PointInGrid(r, c)
  {
    var s := c - Offset(dir);
    if 0 <= s < Columns && g[r][s] > 0 then g[r][s] else Lifted(g[r][c])
  }

  /** Reference definition of a successful horizontal shift. */
  function ShiftHorizontally(g: Grid, dir: Direction): (s: Grid)
    requires IsGrid(g)
    ensures IsGrid(s)
    ensures forall r, c | PointInGrid(r, c) :: s[r][c] == SideCell(g, r, c, dir)
  {
    seq(Rows, r requires 0 <= r < Rows => seq(Columns, c requires 0 <= c < Columns => SideCell(g, r, c, dir)))
  }

  /** A legal shift moves every falling cell one column in `dir` with its code,
      leaves every static cell alone and creates no other falling cell. */
  lemma ShiftMovesWholePiece(g: Grid, dir: Direction)
    requires IsGrid(g) && AllCanMoveHorizontally(g, dir)
    ensures forall r, c | PointInGrid(r, c) && g[r][c] > 0 ::
              PointInGrid(r, c + Offset(dir)) && ShiftHorizontally(g, dir)[r][c + Offset(dir)] == g[r][c]
    ensures forall r, c | PointInGrid(r, c) && g[r][c] < 0 :: ShiftHorizontally(g, dir)[r][c] == g[r][c]
    ensures forall r, c | PointInGrid(r, c) && ShiftHorizontally(g, dir)[r][c] > 0 ::
              PointInGrid(r, c - Offset(dir)) && g[r][c - Offset(dir)] == ShiftHorizontally(g, dir)[r][c]
  {
    AllCanMoveHorizontallyIsLocal(g, dir);
  }

  /** Moving the piece sideways keeps one shape id: every falling cell of the
      result is the falling cell beside it. */
  lemma ShiftHorizontallyKeepsOneShape(g: Grid, dir: Direction)
    requires IsGrid(g) && OneFallingShape(g)
    ensures OneFallingShape(ShiftHorizontally(g, dir))
  {
    var s := ShiftHorizontally(g, dir);
    forall r, c | PointInGrid(r, c) && s[r][c] > 0
      ensures PointInGrid(r, c - Offset(dir)) && g[r][c - Offset(dir)] == s[r][c]
    {
    }
  }

  /** A falling cell on the edge it moves towards blocks the whole shift. */
  lemma EdgeBlocksShift(g: Grid, r: int, dir: Direction)
    requires IsGrid(g) && 0 <= r < Rows
    requires var edge := if dir == Left then 0 else Columns - 1; g[r][edge] > 0
    ensures !AllCanMoveHorizontally(g, dir)
  {
    AllCanMoveHorizontallyIsLocal(g, dir);
    var edge := if dir == Left then 0 else Columns - 1;
    assert PointInGrid(r, edge);
  }

  // ---------------------------------------------------------------------------
  // Speed
  // ---------------------------------------------------------------------------

  /** The two requests changeSpeed distinguishes ("UP" and anything else). */
  datatype SpeedChange = Up | Down

  /** GameManager.changeSpeed: the tick interval moves by 0.2, stopping at 0.2
      going up and at 1.0 going down (exact comparisons). */
  function ChangeSpeed(dir: SpeedChange, rate: real): (r: real)
    ensures dir == Up ==> rate - 0.2 <= r <= rate
    ensures dir == Down ==> rate <= r <= rate + 0.2
    ensures r == rate <==> (dir == Up && rate == 0.2) || (dir == Down && rate == 1.0)
  {
    match dir
    case Up => if rate == 0.2 then 0.2 else rate - 0.2
    case Down => if rate == 1.0 then 1.0 else rate + 0.2
  }

  /** The five rates reachable from the initial 1.0 in steps of 0.2. */
  predicate OnSpeedLadder(rate: real) {
    rate == 0.2 || rate == 0.4 || rate == 0.6 || rate == 0.8 || rate == 1.0
  }

  /** Under exact arithmetic, changeSpeed never leaves [0.2, 1.0], and away
      from the ends a step up and a step down undo each other. */
  lemma ChangeSpeedStaysOnLadder(dir: SpeedChange, rate: real)
    requires OnSpeedLadder(rate)
    ensures OnSpeedLadder(ChangeSpeed(dir, rate))
    ensures 0.2 <= ChangeSpeed(dir, rate) <= 1.0
    ensures rate != 0.2 ==> ChangeSpeed(Down, ChangeSpeed(Up, rate)) == rate
    ensures rate != 1.0 ==> ChangeSpeed(Up, ChangeSpeed(Down, rate)) == rate
  {
  }
}
