/**
  The Snake engine of snake.js: a 20 x 20 grid with a wall border (code 1),
  empty cells (0), snake cells (2) and fruit (3); a head-first body list; a
  direction code; and a time accumulator that fires at most one move per call.

  The class Snake keeps the grid and the body as fields that its methods
  update in place; the pure functions below state what one move does.
*/
module SnakeGame {
  const Rows := 20
  const Columns := 20
  const StartingRow := 8
  const StartingColumn := 12
  const StartingDirection := 2

  const Empty := 0
  const Wall := 1
  const SnakeCell := 2
  const FruitCell := 3

  type Grid = seq<seq<int>>
  type Cell = (int, int)

  predicate IsGrid(g: Grid) {
    |g| == Rows && forall r | 0 <= r < Rows :: |g[r]| == Columns
  }

  predicate InGrid(p: Cell) {
    0 <= p.0 < Rows && 0 <= p.1 < Columns
  }

  predicate OnBorder(p: Cell) {
    p.0 == 0 || p.0 == Rows - 1 || p.1 == 0 || p.1 == Columns - 1
  }

  /** A cell off the wall: fruit is only ever placed here, and the head stays here. */
  predicate Interior(p: Cell) {
    1 <= p.0 < Rows - 1 && 1 <= p.1 < Columns - 1
  }

  /** Every border cell holds the wall. */
  predicate Bordered(g: Grid) {
    IsGrid(g) && forall r, c | 0 <= r < Rows && 0 <= c < Columns && OnBorder((r, c)) :: g[r][c] == Wall
  }

  /** The layout of the constructor and of resetGame: walls around an empty
      field. (The start cell is not marked as snake.) */
  function InitialGrid(): (g: Grid)
    ensures Bordered(g)
    ensures forall r, c | Interior((r, c)) :: g[r][c] == Empty
  {
    seq(Rows, r => seq(Columns, c => if OnBorder((r, c)) then Wall else Empty))
  }

  /** The grid with cell p set to v. */
  function Write(g: Grid, p: Cell, v: int): (h: Grid)
    requires IsGrid(g) && InGrid(p)
    ensures IsGrid(h)
    ensures h[p.0][p.1] == v
    ensures forall r, c | InGrid((r, c)) && (r, c) != p :: h[r][c] == g[r][c]
  {
    g[p.0 := g[p.0][p.1 := v]]
  }

  /** checkCollision: a row above the grid, a column right of it, a wall or a
      snake cell. A column left of the grid reads an undefined cell, which is
      neither 1 nor 2, so it is not a collision; a row below the grid is not
      handled by the source at all. */
  function Collides(g: Grid, row: int, column: int): (b: bool)
    requires IsGrid(g) && row < Rows
    ensures row < 0 || column >= Columns ==> b
    ensures 0 <= row && column < 0 ==> !b
    ensures b && InGrid((row, column)) ==> g[row][column] != Empty && g[row][column] != FruitCell
  {
    row < 0 || column >= Columns || (0 <= column && (g[row][column] == Wall || g[row][column] == SnakeCell))
  }

  /** On a cell of the grid, a collision is exactly a wall or a snake cell. */
  lemma CollidesOnGrid(g: Grid, p: Cell)
    requires IsGrid(g) && InGrid(p)
    ensures Collides(g, p.0, p.1) <==> g[p.0][p.1] == Wall || g[p.0][p.1] == SnakeCell
  {
  }

  /** The cell moveSnakeForward aims at. The codes are named backwards in the
      source: 1 decrements the column and 3 increments it. Any other code
      aims at the head itself. */
  function Target(head: Cell, direction: int): (t: Cell)
    ensures 0 <= direction < 4 ==> t != head
    ensures Interior(head) ==> InGrid(t)
  {
    match direction
    case 0 => (head.0 - 1, head.1)
    case 1 => (head.0, head.1 - 1)
    case 2 => (head.0 + 1, head.1)
    case 3 => (head.0, head.1 + 1)
    case _ => head
  }

  /** The code input() refuses while facing `current`: the opposite one. */
  predicate IsReversal(current: int, input: int) {
    (current == 0 && input == 2) || (current == 1 && input == 3) ||
    (current == 2 && input == 0) || (current == 3 && input == 1)
  }

  /** The refused input is exactly the reverse direction, and turning back
      would aim the head at the cell it just left, which is why it is refused. */
  lemma ReversalIsOpposite(current: int, input: int, head: Cell)
    ensures IsReversal(current, input) <==> 0 <= current < 4 && input == (current + 2) % 4
    ensures IsReversal(current, input) ==> Target(Target(head, current), input) == head
  {
  }

  /** Starting from an interior head, a move that does not collide on a
      bordered grid lands on an interior cell. */
  lemma ClearTargetIsInterior(g: Grid, head: Cell, direction: int)
    requires Bordered(g) && Interior(head)
    requires !Collides(g, Target(head, direction).0, Target(head, direction).1)
    ensures Interior(Target(head, direction))
  {
    var t := Target(head, direction);
    assert InGrid(t);
  }

  /** The grid after moveSnake to `target` with the old tail at `tail`: the
      tail cell is cleared; then, if the target holds fruit, the tail is
      marked again and the fruit removed (growSnake); then the target is
      marked as snake. */
  function MovedGrid(g: Grid, tail: Cell, target: Cell): (h: Grid)
    requires IsGrid(g) && InGrid(tail) && InGrid(target)
    ensures IsGrid(h)
  {
    var cleared := Write(g, tail, Empty);
    var grown := if cleared[target.0][target.1] == FruitCell then Write(Write(cleared, tail, SnakeCell), target, Empty) else cleared;
    Write(grown, target, SnakeCell)
  }

  /** Whether moving onto `target` eats a fruit: the target holds fruit once
      the tail cell has been cleared. */
  predicate Eats(g: Grid, tail: Cell, target: Cell)
    requires IsGrid(g) && InGrid(target) && InGrid(tail)
  {
    target != tail && g[target.0][target.1] == FruitCell
  }

  /** The body after moveSnake: the target is unshifted as the new head, the
      tail is popped, and re-pushed when a fruit is eaten. */
  function MovedBody(g: Grid, body: seq<Cell>, target: Cell): seq<Cell>
    requires IsGrid(g) && |body| > 0 && InGrid(body[|body| - 1]) && InGrid(target)
  {
    var tail := body[|body| - 1];
    [target] + body[..|body| - 1] + (if Eats(g, tail, target) then [tail] else [])
  }

  /** A move marks the target as snake; the old tail stays snake if a fruit
      was eaten and is emptied otherwise (unless the head moved onto it);
      every other cell keeps its value. */
  lemma MoveCells(g: Grid, tail: Cell, target: Cell)
    requires IsGrid(g) && InGrid(tail) && InGrid(target)
    ensures var h := MovedGrid(g, tail, target);
            && h[target.0][target.1] == SnakeCell
            && (target != tail ==> h[tail.0][tail.1] == if Eats(g, tail, target) then SnakeCell else Empty)
            && (forall r, c | InGrid((r, c)) && (r, c) != tail && (r, c) != target :: h[r][c] == g[r][c])
  {
  }

  /** A move without fruit keeps the length; a move onto fruit adds exactly
      one cell, the old tail. The target is the new head and every other cell
      follows the one ahead of it. */
  lemma MoveBody(g: Grid, body: seq<Cell>, target: Cell)
    requires IsGrid(g) && |body| > 0 && InGrid(body[|body| - 1]) && InGrid(target)
    ensures var b := MovedBody(g, body, target);
            var tail := body[|body| - 1];
            && |b| == |body| + (if Eats(g, tail, target) then 1 else 0)
            && b[0] == target
            && (forall i | 0 <= i < |body| - 1 :: b[i + 1] == body[i])
            && (Eats(g, tail, target) ==> b[|b| - 1] == tail)
  {
  }

  /** A move between interior cells never touches the wall. */
  lemma MoveKeepsBorder(g: Grid, tail: Cell, target: Cell)
    requires Bordered(g) && Interior(tail) && Interior(target)
    ensures Bordered(MovedGrid(g, tail, target))
  {
    MoveCells(g, tail, target);
  }

  /** Is there a fruit anywhere on the grid? */
  ghost predicate HasFruit(g: Grid)
    requires IsGrid(g)
  {
    exists r, c | InGrid((r, c)) :: g[r][c] == FruitCell
  }

  /** The grid once processTick has made sure there is a fruit: unchanged if
      one exists, otherwise with a fruit written at `p`. Afterwards there is a
      fruit, and no cell but `p` has changed. */
  ghost function FruitPlaced(g: Grid, p: Cell): (h: Grid)
    requires IsGrid(g) && InGrid(p)
    ensures IsGrid(h) && HasFruit(h)
    ensures forall r, c | InGrid((r, c)) && (r, c) != p :: h[r][c] == g[r][c]
    ensures Bordered(g) && Interior(p) ==> Bordered(h)
  {
    if HasFruit(g) then g else Write(g, p, FruitCell)
  }

  /** Cell (r, c) holds fruit. */
  ghost predicate FruitAt(g: Grid, r: int, c: int)
    requires IsGrid(g) && InGrid((r, c))
  {
    g[r][c] == FruitCell
  }

  /** No two cells hold fruit. */
  ghost predicate AtMostOneFruit(g: Grid)
    requires IsGrid(g)
  {
    forall r1, c1, r2, c2 | InGrid((r1, c1)) && InGrid((r2, c2)) && FruitAt(g, r1, c1) && FruitAt(g, r2, c2) ::
      r1 == r2 && c1 == c2
  }

  /** The start layout (of the constructor and of every reset) holds no fruit. */
  lemma InitialGridHasNoFruit()
    ensures !HasFruit(InitialGrid()) && AtMostOneFruit(InitialGrid())
  {
    var g := InitialGrid();
    forall r, c | InGrid((r, c))
      ensures g[r][c] != FruitCell
    {
      assert g[r][c] == Wall || g[r][c] == Empty;
    }
  }

  /** processTick spawns a fruit only when there is none, so the fruit step
      never makes a second one. */
  lemma FruitPlacedKeepsOneFruit(g: Grid, p: Cell)
    requires IsGrid(g) && InGrid(p) && AtMostOneFruit(g)
    ensures AtMostOneFruit(FruitPlaced(g, p))
  {
    if !HasFruit(g) {
      var h := FruitPlaced(g, p);
      forall r, c | InGrid((r, c)) && (r, c) != p
        ensures h[r][c] != FruitCell
      {
        assert h[r][c] == g[r][c];
      }
    }
  }

  /** A move writes only snake and empty cells: every fruit after it was a
      fruit before, so a move never adds a fruit. */
  lemma MoveAddsNoFruit(g: Grid, tail: Cell, target: Cell)
    requires IsGrid(g) && InGrid(tail) && InGrid(target)
    ensures forall r, c | InGrid((r, c)) && MovedGrid(g, tail, target)[r][c] == FruitCell :: g[r][c] == FruitCell
  {
    MoveCells(g, tail, target);
  }

  /** Hence a move keeps at most one fruit on the grid. */
  lemma MoveKeepsOneFruit(g: Grid, tail: Cell, target: Cell)
    requires IsGrid(g) && InGrid(tail) && InGrid(target) && AtMostOneFruit(g)
    ensures AtMostOneFruit(MovedGrid(g, tail, target))
  {
    MoveAddsNoFruit(g, tail, target);
  }

  class Snake {
    var grid: Grid
    var body: seq<Cell>
    var snakeDirection: int
    var time: real
    var tickRate: real
    var paused: bool

    /** The wall stays intact and the snake, head first, lies off the wall. */
    ghost predicate Valid()
      reads this
    {
      Bordered(grid) && |body| > 0 && forall i | 0 <= i < |body| :: Interior(body[i])
    }

    ghost predicate IsReset()
      reads this
    {
      grid == InitialGrid() && body == [(StartingRow, StartingColumn)] && snakeDirection == StartingDirection && time == 0.0
    }

    /** The state after moveSnakeForward from grid `g`, body `b` and direction
        `d`: reset on a collision, otherwise the moved grid and body with the
        direction kept. */
    ghost predicate MovedFrom(g: Grid, b: seq<Cell>, d: int)
      requires IsGrid(g) && |b| > 0 && Interior(b[0]) && InGrid(b[|b| - 1])
      reads this
    {
      var t := Target(b[0], d);
      && (Collides(g, t.0, t.1) ==> IsReset())
      && (!Collides(g, t.0, t.1) ==>
            && grid == MovedGrid(g, b[|b| - 1], t)
            && body == MovedBody(g, b, t)
            && snakeDirection == d)
    }

    constructor (tRate: real)
      ensures Valid() && IsReset() && tickRate == tRate && !paused
    {
      grid := InitialGrid();
      body := [(StartingRow, StartingColumn)];
      snakeDirection := StartingDirection;
      time := 0.0;
      tickRate := tRate;
      paused := false;
    }

    /** resetGame: the start layout, body, direction and time again. */
    method ResetGame()
      modifies this
      ensures Valid() && IsReset()
      ensures tickRate == old(tickRate) && paused == old(paused)
    {
      grid := InitialGrid();
      body := [(StartingRow, StartingColumn)];
      snakeDirection := StartingDirection;
      time := 0.0;
    }

    /** growSnake: on a fruit at (row, column) the old tail is marked again,
        the fruit removed and the tail pushed back onto the body. */
    method GrowSnake(row: int, column: int, tail: Cell)
      requires IsGrid(grid) && InGrid((row, column)) && InGrid(tail)
      modifies this`grid, this`body
      ensures if old(grid)[row][column] == FruitCell
              then grid == Write(Write(old(grid), tail, SnakeCell), (row, column), Empty) && body == old(body) + [tail]
              else grid == old(grid) && body == old(body)
    {
      if grid[row][column] == FruitCell {
        grid := Write(grid, tail, SnakeCell);
        grid := Write(grid, (row, column), Empty);
        body := body + [tail];
      }
    }

    /** moveSnake: a colliding target resets the game; otherwise the tail is
        cleared and popped, the target unshifted as the new head, a fruit
        there eaten, and the target marked as snake. */
    method MoveSnake(row: int, column: int)
      requires Valid() && InGrid((row, column))
      modifies this
      ensures Valid()
      ensures tickRate == old(tickRate) && paused == old(paused)
      ensures Collides(old(grid), row, column) ==> IsReset()
      ensures !Collides(old(grid), row, column) ==>
                && grid == MovedGrid(old(grid), old(body)[|old(body)| - 1], (row, column))
                && body == MovedBody(old(grid), old(body), (row, column))
                && snakeDirection == old(snakeDirection) && time == old(time)
      ensures AtMostOneFruit(old(grid)) ==> AtMostOneFruit(grid)
    {
      var head := (row, column);
      if Collides(grid, row, column) {
        ResetGame();
        InitialGridHasNoFruit();
        return;
      }
      assert grid[row][column] != Wall;
      assert Interior(head);
      var tailPosition := |body| - 1;
      var oldTail := body[tailPosition];
      ghost var g0, b0 := grid, body;
      grid := Write(grid, oldTail, Empty);
      body := body[..tailPosition];
      body := [head] + body;
      GrowSnake(row, column, oldTail);
      grid := Write(grid, head, SnakeCell);
      MoveKeepsBorder(g0, oldTail, head);
      assert body == MovedBody(g0, b0, head);
      if AtMostOneFruit(g0) {
        MoveKeepsOneFruit(g0, oldTail, head);
      }
    }

    /** generateFruit, with the cell the random retry loop would settle on
        given by the caller. The source's check against the body compares
        array references and never rejects a cell, so the fruit may land on
        the snake. */
    method GenerateFruit(fruitRow: int, fruitColumn: int)
      requires Valid() && Interior((fruitRow, fruitColumn))
      modifies this`grid
      ensures Valid()
      ensures grid == Write(old(grid), (fruitRow, fruitColumn), FruitCell)
    {
      grid := Write(grid, (fruitRow, fruitColumn), FruitCell);
    }

    /** fruitExists: a scan of the whole grid for a fruit cell. */
    method FruitExists() returns (b: bool)
      requires IsGrid(grid)
      ensures b <==> HasFruit(grid)
    {
      var r := 0;
      while r < Rows
        invariant 0 <= r <= Rows
        invariant forall i, j | 0 <= i < r && 0 <= j < Columns :: grid[i][j] != FruitCell
      {
        var c := 0;
        while c < Columns
          invariant 0 <= c <= Columns
          invariant forall j | 0 <= j < c :: grid[r][j] != FruitCell
        {
          if grid[r][c] == FruitCell {
            assert InGrid((r, c));
            return true;
          }
          c := c + 1;
        }
        r := r + 1;
      }
      return false;
    }

    /** input: any code but the reverse of the current direction is taken. */
    method Input(input: int)
      modifies this
      ensures snakeDirection == if IsReversal(old(snakeDirection), input) then old(snakeDirection) else input
      ensures grid == old(grid) && body == old(body) && time == old(time)
      ensures tickRate == old(tickRate) && paused == old(paused)
    {
      match snakeDirection {
        case 0 => if input == 2 { return; }
        case 1 => if input == 3 { return; }
        case 2 => if input == 0 { return; }
        case 3 => if input == 1 { return; }
        case _ =>
      }
      snakeDirection := input;
    }

    /** moveSnakeForward: moveSnake to the head's neighbour in the current
        direction (the switch on the direction code is Target). */
    method MoveSnakeForward()
      requires Valid()
      modifies this
      ensures Valid()
      ensures tickRate == old(tickRate) && paused == old(paused)
      ensures MovedFrom(old(grid), old(body), old(snakeDirection))
      ensures !Collides(old(grid), Target(old(body)[0], old(snakeDirection)).0, Target(old(body)[0], old(snakeDirection)).1) ==>
                time == old(time)
      ensures AtMostOneFruit(old(grid)) ==> AtMostOneFruit(grid)
    {
      var next := Target(body[0], snakeDirection);
      MoveSnake(next.0, next.1);
    }

    /** changeTickRate. */
    method ChangeTickRate(t: real)
      modifies this
      ensures tickRate == t
      ensures grid == old(grid) && body == old(body) && snakeDirection == old(snakeDirection)
      ensures time == old(time) && paused == old(paused)
    {
      tickRate := t;
    }

    /** The fruit step of processTick: generateFruit runs only when
        fruitExists finds no fruit. */
    method PlaceFruit(fruitRow: int, fruitColumn: int)
      requires Valid() && Interior((fruitRow, fruitColumn))
      modifies this`grid
      ensures Valid()
      ensures grid == FruitPlaced(old(grid), (fruitRow, fruitColumn))
      ensures AtMostOneFruit(old(grid)) ==> AtMostOneFruit(grid)
    {
      var hasFruit := FruitExists();
      if !hasFruit {
        GenerateFruit(fruitRow, fruitColumn);
      }
      if AtMostOneFruit(old(grid)) {
        FruitPlacedKeepsOneFruit(old(grid), (fruitRow, fruitColumn));
      }
    }

    /** The fired branch of processTick, once the time has restarted: a fruit
        is placed if there is none, and the snake makes exactly one move. */
    method AdvanceSnake(fruitRow: int, fruitColumn: int)
      requires Valid() && Interior((fruitRow, fruitColumn)) && time == 0.0
      modifies this
      ensures Valid() && time == 0.0
      ensures tickRate == old(tickRate) && paused == old(paused)
      ensures MovedFrom(FruitPlaced(old(grid), (fruitRow, fruitColumn)), old(body), old(snakeDirection))
      ensures AtMostOneFruit(old(grid)) ==> AtMostOneFruit(grid)
    {
      PlaceFruit(fruitRow, fruitColumn);
      MoveSnakeForward();
    }

    /** processTick for a frame of `dt` seconds; (fruitRow, fruitColumn) is
        the cell generateFruit would pick at random. When the accumulated
        time passes the tick rate, the time restarts, a fruit is placed if
        there is none, and the snake makes exactly one move. */
    method ProcessTick(dt: real, fruitRow: int, fruitColumn: int)
      requires Valid() && Interior((fruitRow, fruitColumn))
      modifies this
      ensures Valid()
      ensures tickRate == old(tickRate) && paused == old(paused)
      ensures old(paused) ==>
                grid == old(grid) && body == old(body) && snakeDirection == old(snakeDirection) && time == old(time)
      ensures !old(paused) && old(time) + dt <= old(tickRate) ==>
                grid == old(grid) && body == old(body) && snakeDirection == old(snakeDirection) && time == old(time) + dt
      ensures !old(paused) && old(time) + dt > old(tickRate) ==>
                time == 0.0 && MovedFrom(FruitPlaced(old(grid), (fruitRow, fruitColumn)), old(body), old(snakeDirection))
      ensures AtMostOneFruit(old(grid)) ==> AtMostOneFruit(grid)
    {
      if !paused {
        time := time + dt;
        if time > tickRate {
          time := 0.0;
          assert grid == old(grid) && body == old(body) && snakeDirection == old(snakeDirection);
          AdvanceSnake(fruitRow, fruitColumn);
        }
      }
    }
  }
}
