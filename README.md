# Arcade cabinet game engines, modelled in Dafny

This project models the game logic of a browser arcade cabinet with two
tick-driven grid games, plus the small driver and colour lookup around them.

- **Tetris** (`tetris.js`). Class `GameManager` owns a 20 × 10 grid of integer
  codes and a collision flag. A positive code k is a cell of the falling piece
  of shape k. A negative code −k is a landed cell of that shape. 0 is empty.
  The methods do four things:
  - gravity, a two-pass all-or-nothing check followed by the move;
  - freezing a piece by negating it;
  - detecting and removing same-colour full rows;
  - an all-or-nothing horizontal shift and a quarter-turn rotation, both
    built in a shadow copy.

  The per-frame tick of the Tetris scene puts these in order: spawn a piece,
  let it fall, or freeze it and clear rows.
- **Snake** (`snake.js`). Class `Snake` owns a 20 × 20 grid with a wall border
  (1), snake cells (2) and fruit (3). It also owns a head-first body list, a
  direction code, and a time accumulator that fires at most one move per call.
- **Driver** (`arcadescene.js`). Class `ArcadeScene` holds the pause and
  playing flags of both games and a tick rate clamped to [0.1, 2]. It pushes
  that rate to both engines and routes each frame to at most one engine.
- **Colours** (`gridrenderer.js`). `getColor` maps a cell code to an RGBA
  colour and ignores its sign.

The modules are:

| file | module | contents |
|---|---|---|
| `tetris_grid.dfy` | `TetrisGrid` | the grid, the recursive movement checks, reference definitions of gravity, shifting, freezing, spawning and row removal, the speed ladder of `changeSpeed`, and the lemmas about them |
| `tetris_rotation.dfy` | `TetrisRotation` | the pivot scan, the per-shape pivot switch of `findRotation`, and the quarter turn |
| `tetris_game.dfy` | `TetrisGame` | class `GameManager` (grid updated in place, nested loops), and class `Tetris` with the tick and the scene's button handlers |
| `snake.dfy` | `SnakeGame` | class `Snake` and the functions that state what one move does |
| `arcade.dfy` | `Arcade` | class `ArcadeScene`, its flag transitions and its rate handlers |
| `grid_colors.dfy` | `GridColors` | `getColor` and its palette |

Every loop of the modelled source is a `while` loop here, with two
exceptions. The random retry loop of `generateFruit` becomes a cell the
caller supplies, and `deepCopy` of a grid becomes a value copy. Each
`while` loop is proved to compute a reference function of the grid. For example,
`translateMovingBlocksDown` yields `ShiftDown(old(grid))` or raises the flag,
and `rotate` yields `Rotated(old(grid), RotationPoint(old(grid)))` or leaves
the grid alone. The lemmas then prove what the source promises about those
functions.

The rotation pivot has coordinates that may be half-integers. It is kept in
doubled coordinates, so the source's `Math.cos`/`Math.sin`/`Math.round`
quarter turn becomes exact integer arithmetic. The lemma
`TetrisRotation.TurnIsQuarterTurn` shows that it agrees with the exact
quarter-turn formula (cos = 0, sin = 1), so `Math.round` has nothing to
round. The double values of `Math.cos(Math.PI / 2)` and
`Math.sin(Math.PI / 2)` are not modelled.

### Behaviour modelled as the code has it

- **No game-over check.** Tetris has no game-over check. A new bar is written
  over whatever is in rows 0 to 3 of column 5.
- **Pivot row.** The `findRotation` scan `break`s only out of the column loop.
  So the pivot is the leftmost falling cell of the *lowest* row that has one,
  not the first cell in reading order.
- **Fall-through from case 3.** In `findRotation`, case 3 (L shape) falls
  through into case 4 (S shape), with its possibly updated column and validity.
- **Uniform rows only.** A row is cleared only when one single non-zero code
  fills it. A full row of mixed codes stays.
- **Fruit can land on the snake.** `generateFruit` checks `BODY.includes` with
  a fresh array. That compares references, so it never rejects a cell, and
  fruit may land on the snake.
- **Start cell is not marked.** The snake's start cell is not marked on the
  initial grid.
- **Snake direction codes are backwards.** Code 1 decrements the column and
  code 3 increments it.
- **Collision edges.** `checkCollision` tests `row < 0` and `column >= COLUMNS`
  only. A column left of the grid reads an undefined cell, which the model
  treats as no collision. A row below the grid is never reached: the head
  stays on interior cells, as `SnakeGame.ClearTargetIsInterior` proves.

## Model

| member | source | states |
|---|---|---|
| TetrisGrid.EmptyGrid | tetris.js:137-158 | the initial field is 20 rows of 10 zeros |
| TetrisGrid.PointInGridIsIndex | tetris.js:578-582 | on any well-formed grid, pointInGrid(r, c) holds exactly when `grid[r][c]` is a cell of the grid, which is why the move checks and the rotation fit may read the cell after it |
| TetrisGrid.CanMoveDown | tetris.js:281-292 | the recursive check: true only if a row below exists and its cell is not static, and always true over an empty cell; `CanMoveDownFindsGap` gives its full meaning |
| TetrisGrid.CanMoveDownFindsGap | tetris.js:281-292 | canMoveDown(r, c) holds iff below (r, c) an unbroken run of falling cells ends at an empty cell; the floor and static cells block |
| TetrisGrid.AllCanMoveDownIsLocal | tetris.js:251-264 | the legality pass succeeds iff every falling cell has a row below it whose cell is not static |
| TetrisGrid.ShiftDownKeepsOneShape | tetris.js:266-278 | after a drop every falling cell still carries one shape id, since each comes from the falling cell just above it |
| TetrisGrid.GravityMovesWholePiece | tetris.js:266-278 | a successful gravity step moves every falling cell exactly one row down with its code, leaves static cells untouched, and creates no falling cell that was not directly above |
| TetrisGrid.FreezeLeavesNoFalling | tetris.js:295-302 | after freezing no positive cell remains; each former k is −k; zero and negative cells are unchanged |
| TetrisGrid.MixedOrGappedRowIsKept | tetris.js:305-312 | a row with an empty cell or with two different codes is never reported as clearable |
| TetrisGrid.RowRemoved | tetris.js:316-323 | clearRow keeps 20 rows, puts an all-zero row on top, moves rows 0..row−1 to 1..row and leaves rows below `row` unchanged |
| TetrisGrid.ClearFromKeepsNoFalling | tetris.js:101-116 | the row-clearing loops never bring back a falling cell |
| TetrisGrid.SpawnWritesBar | tetris.js:203-222 | generateShape writes 2 into rows 0–3 of column 5, changes nothing else, and leaves a falling piece |
| TetrisGrid.SpawnHasOneShape | tetris.js:203-222 | spawning on a grid with no falling piece leaves only falling cells of the generated id 2 |
| TetrisGrid.CanMoveHorizontally | tetris.js:379-405 | the recursive check: true only for a falling cell whose in-grid neighbour in `dir` is not static, and always true next to an empty cell; `AllCanMoveHorizontallyIsLocal` gives its meaning for a whole piece |
| TetrisGrid.AllCanMoveHorizontallyIsLocal | tetris.js:379-405 | the horizontal legality pass succeeds iff every falling cell has an in-grid neighbour in that direction that is not static |
| TetrisGrid.ShiftMovesWholePiece | tetris.js:356-374 | a legal shift moves every falling cell one column with its code, keeps static cells, and creates no other falling cell |
| TetrisGrid.ShiftHorizontallyKeepsOneShape | tetris.js:356-374 | after a sideways move every falling cell still carries one shape id, since each comes from the falling cell beside it |
| TetrisGrid.EdgeBlocksShift | tetris.js:383-402 | a falling cell on the edge it moves towards blocks the whole shift |
| TetrisGrid.ChangeSpeed | tetris.js:407-420 | "UP" shortens the interval and "DOWN" lengthens it, by at most 0.2, and the rate stays put exactly at 0.2 going up and at 1.0 going down; `ChangeSpeedStaysOnLadder` gives its range and its inverse steps |
| TetrisGrid.ChangeSpeedStaysOnLadder | tetris.js:407-420 | changeSpeed keeps the rate on 0.2, 0.4, …, 1.0, and a step up and a step down undo each other away from the ends |
| TetrisRotation.FirstFallingColumn | tetris.js:427-432 | the column scan stops at the leftmost falling cell of a row, or runs off the row when there is none |
| TetrisRotation.PivotIsLowestLeftmost | tetris.js:424-434 | the scanned cell is the leftmost falling cell of the lowest row holding one, with its shape id, or (0, 0, 0) with no falling cell |
| TetrisRotation.Adjust | tetris.js:437-521 | the shape switch keeps the shape id, marks the square invalid, keeps every shape but 1 and 3 valid, and yields a pivot whose coordinates are both integers or both half-integers |
| TetrisRotation.RotationPoint | tetris.js:423-527 | findRotation's pivot always has aligned coordinates, so its quarter turn maps cells to cells |
| TetrisRotation.SquareNeverRotates | tetris.js:440-445 | a square (shape 1) found by the scan yields an invalid pivot, so it never rotates |
| TetrisRotation.TurnIsQuarterTurn | tetris.js:551-563 | the integer image equals the cos/sin formula exactly (nothing to round), and TurnSource is its inverse |
| TetrisRotation.RotationMovesWholePiece | tetris.js:546-575 | a fitting rotation moves each falling (r, c) to (pr + (c − pc), pc − (r − pr)) with its code, keeps static cells, and every falling cell of the result holds the code of the cell that turns onto it; with Turn and TurnSource inverse, falling cells before and after correspond one to one |
| TetrisRotation.RotatedKeepsOneShape | tetris.js:550-575 | after a rotation every falling cell still carries one shape id, since each comes from the falling cell turned onto it |
| TetrisGame.GameManager.constructor | tetris.js:135-165 | a new manager has the empty grid and no collision |
| TetrisGame.GameManager.IsFallingBlocks | tetris.js:185-193 | returns true iff some cell is positive |
| TetrisGame.GameManager.GenerateShape | tetris.js:203-246 | the grid becomes the old grid with the bar written in, the flag unchanged |
| TetrisGame.GameManager.FallingBlocksCanMoveDown | tetris.js:252-264 | the bottom-up scan answers true iff every falling cell can move down |
| TetrisGame.GameManager.TranslateMovingBlocksDown | tetris.js:251-279 | atomic: either the flag is raised and the grid unchanged, or the grid becomes the one-row-down shift and the flag is kept |
| TetrisGame.GameManager.ChangeBlocksToStatic | tetris.js:295-302 | the grid becomes its frozen form |
| TetrisGame.GameManager.CheckRowIsSame | tetris.js:305-312 | returns true iff all ten cells hold one non-zero value |
| TetrisGame.GameManager.ClearRow | tetris.js:316-323 | the grid becomes the grid with that row removed and an empty row on top |
| TetrisGame.GameManager.CopyWithoutPiece | tetris.js:330-336 | the deep copy equals the grid with every falling cell emptied |
| TetrisGame.GameManager.FallingBlocksCanMoveHorizontally | tetris.js:338-354 | the legality scan answers true iff every falling cell can move in that direction |
| TetrisGame.GameManager.ShiftedCopy | tetris.js:356-374 | after a legal check, the copy holds exactly the shifted grid |
| TetrisGame.GameManager.TranslateMovingBlocksHorizontally | tetris.js:328-376 | all-or-nothing: the grid becomes the shifted grid if the move is legal, otherwise it is unchanged |
| TetrisGame.GameManager.LeftmostFalling | tetris.js:427-432 | the column loop stops at the first falling cell of the row, and runs off the row exactly when the row has none |
| TetrisGame.GameManager.FindRotation | tetris.js:423-527 | returns the pivot defined by the lowest-row scan and the shape switch |
| TetrisGame.GameManager.RotateRow | tetris.js:551-572 | one row of the rotation pass either reports a misfit, and then the whole rotation does not fit, or writes every falling cell of the row at its turned position |
| TetrisGame.GameManager.RotatedCopy | tetris.js:539-573 | reports fitting iff every turned falling cell is in the grid and not on a static cell, and then the copy is the rotated grid |
| TetrisGame.GameManager.Rotate | tetris.js:531-576 | the grid becomes the rotated grid if the pivot is valid and the rotation fits, otherwise it is unchanged |
| TetrisGame.TickCycle | tetris.js:97-121 | a tick spawns a piece when none is falling, keeps it falling while it can drop, and leaves no falling cell once it lands |
| TetrisGame.TickKeepsOneShape | tetris.js:97-121 | a tick keeps every falling cell on one shape id: spawn writes only id 2 onto a grid with no falling cell, a drop moves the piece whole, a landing leaves no falling cell |
| TetrisGame.Tetris.constructor | tetris.js:9-39 | time 0, tick rate 1.0, Tetris played and unpaused, Snake paused and not played, empty grid |
| TetrisGame.Tetris.MovePiece | tetris.js:50-51 | while Tetris is played the piece shifts whole or not at all; otherwise the grid is unchanged |
| TetrisGame.Tetris.RotatePiece | tetris.js:61 | while Tetris is played the piece turns about findRotation's pivot if valid and fitting; otherwise the grid is unchanged |
| TetrisGame.Tetris.ChangeRate | tetris.js:52-53 | the rate takes one changeSpeed step and stays on the ladder; flags, time and engine are untouched |
| TetrisGame.Tetris.TogglePause | tetris.js:54 | flips Snake's pause flag while Snake is played and Tetris's otherwise; nothing else changes |
| TetrisGame.Tetris.ClearRowRepeatedly | tetris.js:103-112 | clears row i while it is uniform, at most four times |
| TetrisGame.Tetris.ClearFullRows | tetris.js:101-113 | applies the repeated clearing to every row from top to bottom |
| TetrisGame.Tetris.Display | tetris.js:91-122 | only when running and time + dt exceeds the rate: time resets to 0 and the grid takes exactly one tick step; the collision flag is false again afterwards |
| SnakeGame.InitialGrid | snake.js:13-35 | the start layout has wall on every border cell and empty interior |
| SnakeGame.InitialGridHasNoFruit | snake.js:13-35 | the start layout holds no fruit, so at most one |
| SnakeGame.FruitPlacedKeepsOneFruit | snake.js:186-190 | the fruit step adds a fruit only where none exists, so a grid with at most one fruit keeps at most one |
| SnakeGame.MoveAddsNoFruit | snake.js:137-155 | a move writes only snake and empty cells, so every fruit after it was a fruit before |
| SnakeGame.MoveKeepsOneFruit | snake.js:137-155 | a move keeps a grid with at most one fruit at most one fruit |
| SnakeGame.Collides | snake.js:71-75 | a row above or a column right of the grid collides, a column left of it does not (the undefined read), and a colliding grid cell is neither empty nor fruit; `CollidesOnGrid` gives its meaning on grid cells |
| SnakeGame.CollidesOnGrid | snake.js:71-75 | on a grid cell, checkCollision is true iff the cell is wall or snake |
| SnakeGame.Target | snake.js:228-248 | each direction code 0–3 aims at a cell other than the head |
| SnakeGame.ReversalIsOpposite | snake.js:199-220 | input refuses d iff d is (current + 2) mod 4 for a current code in 0–3, and that move would return the head to the cell it came from |
| SnakeGame.ClearTargetIsInterior | snake.js:71-75 | a move that does not collide lands on an interior cell, so the missing row and column checks are never needed |
| SnakeGame.MoveCells | snake.js:146-154 | a move marks the target 2, the old tail 2 after eating and 0 otherwise, and changes no other cell |
| SnakeGame.MoveBody | snake.js:146-154 | the target becomes the head, every other cell follows the one ahead, and the length grows by exactly one iff a fruit is eaten (the old tail re-appended) |
| SnakeGame.MoveKeepsBorder | snake.js:137-155 | a move between interior cells keeps every border cell a wall |
| SnakeGame.Snake.constructor | snake.js:10-68 | start layout, body [(8, 12)], direction 2, time 0, the given rate, not paused |
| SnakeGame.Snake.ResetGame | snake.js:89-132 | restores layout, body, direction and time, and keeps rate and pause |
| SnakeGame.Snake.GrowSnake | snake.js:79-85 | on fruit: tail marked 2, fruit cleared, tail pushed; otherwise nothing changes; only the grid and the body may change |
| SnakeGame.Snake.MoveSnake | snake.js:137-155 | a colliding target resets the game; otherwise grid and body become the moved grid and body; border and interior body are kept, and the grid never gains a second fruit |
| SnakeGame.Snake.GenerateFruit | snake.js:158-168 | the chosen interior cell becomes 3 and nothing else in the grid changes; only the grid may change |
| SnakeGame.Snake.FruitExists | snake.js:172-180 | returns true iff some cell holds fruit |
| SnakeGame.Snake.Input | snake.js:199-220 | the direction becomes d unless d reverses the current direction |
| SnakeGame.Snake.MoveSnakeForward | snake.js:228-250 | the snake moves to the head's neighbour in the current direction: a reset on collision, otherwise the moved grid and body with the direction and time kept; never a second fruit |
| SnakeGame.Snake.ChangeTickRate | snake.js:252-254 | sets the rate and nothing else |
| SnakeGame.FruitPlaced | snake.js:187-190 | after the fruit step there is a fruit on the grid, no cell but the chosen one has changed, and the wall is intact |
| SnakeGame.Snake.PlaceFruit | snake.js:187-190 | generateFruit runs only when fruitExists finds none; only the grid may change, so body, direction and time are untouched; at most one fruit is kept |
| SnakeGame.Snake.AdvanceSnake | snake.js:186-191 | a fired tick places a fruit if none exists and then makes exactly one forward move from the grid with that fruit; at most one fruit is kept |
| SnakeGame.Snake.ProcessTick | snake.js:182-196 | paused: nothing; else time grows by dt, and past the rate time resets, fruit is placed only if none exists, and exactly one forward move happens; at most one fruit is kept |
| Arcade.SwitchSwapsGames | arcadescene.js:59-74 | switching swaps the played game, unpauses the new one and pauses the other, keeping exactly one game played |
| Arcade.PauseTogglesActiveGame | arcadescene.js:58 | pause flips only the played game's flag, and twice restores the flags |
| Arcade.AtMostOneEngineRuns | arcadescene.js:111-121 | with well-formed flags no frame ticks both engines |
| Arcade.RateHandlersStayInRange | arcadescene.js:127-142 | both rate handlers keep the rate in [0.1, 2], move it by at most 0.1, and undo each other away from the clamps |
| Arcade.ArcadeScene.constructor | arcadescene.js:11-49 | rate 1.0 in both engines, Tetris played, Snake paused |
| Arcade.ArcadeScene.RaiseTickRate | arcadescene.js:127-134 | rate lowered by 0.1, clamped at 0.1, pushed to both engines; the Snake's grid, body, direction, time and pause flag are untouched |
| Arcade.ArcadeScene.LowerTickRate | arcadescene.js:136-142 | rate raised by 0.1, clamped at 2, pushed to both engines; the Snake's grid, body, direction, time and pause flag are untouched |
| Arcade.ArcadeScene.Pause | arcadescene.js:58 | the flags become the paused flags, and the invariant holds |
| Arcade.ArcadeScene.SwitchGame | arcadescene.js:59-74 | the flags become the switched flags, and the invariant holds |
| Arcade.ArcadeScene.Display | arcadescene.js:111-121 | each engine is ticked only while played and unpaused, never both; Snake's state is untouched unless it is ticked; a ticked Snake accumulates dt, or past its rate restarts its time and makes exactly one move from the grid with the fruit placed; the Snake never gains a second fruit |
| GridColors.GetColor | gridrenderer.js:73-94 | every code yields one opaque colour, white exactly when the absolute value is 0 or above 8 |
| GridColors.GetColorFollowsPalette | gridrenderer.js:73-94 | the sign is ignored, codes 1–8 take the eight palette entries in order, and every other code is white |
| GridColors.PaletteIsDistinct | gridrenderer.js:75-90 | the eight colours are pairwise distinct and none is white |
| GridColors.FreezingKeepsColours | gridrenderer.js:73-74 | freezing a piece does not change how any cell is drawn |

## Left out

- Rendering is not modelled. This covers `GridRenderer.displayGrid`, the
  camera, lights, materials, transforms and `console.log`; these are calls
  into a graphics library and the browser.
- The `key_triggered_button` wiring of both scenes is not modelled as
  wiring. The handler bodies are modelled as methods: those of the Tetris
  scene (tetris.js:50-61) in class `Tetris`, and those of the arcade scene
  that change its flags or rate in class `ArcadeScene`. The arcade's move,
  rotate and direction buttons (arcadescene.js:76-81) are not modelled: each
  reads `playing_tetris` or `playing_snake` to pick a game and then calls
  that game's engine. On the Snake side that call is `Snake.Input`, which is
  modelled. On the Tetris side it fails, as the line on the arcade's Tetris
  engine below says. The Tetris scene's two empty Snake buttons
  (tetris.js:57-58) do nothing.
- TetrisGame.Tetris.ChangeRate: the rate stays on the ladder only under
  exact arithmetic, for the reason given for `ChangeSpeedStaysOnLadder`
  below.
- The `Snake` class and the `GridRenderer` class duplicated inside
  tetris.js are not modelled. They are stale copies of snake.js and
  gridrenderer.js, and the stale `moveSnake` calls `BODY.length()`, which
  throws.
- `generateBlock` is unused and random, so it is not modelled.
- Randomness becomes parameters. `generateShape`'s random shape is a
  commented-out line; the live code fixes it to 2. `generateFruit`'s random
  retry loop becomes a caller-supplied interior cell, and the loop exits on
  its first try because `includes` never matches.
- Floating point is not modelled. Times, `dt` and tick rates are exact reals,
  so `changeSpeed`'s exact comparisons and the ±0.1 clamps hold as under
  exact arithmetic. Rounding drift of repeated float steps is not captured.
- TetrisGrid.ChangeSpeedStaysOnLadder holds only for exact reals. In IEEE-754
  doubles, four "UP" steps from 1.0 give 0.20000000000000007, not 0.2. The
  `rate == 0.2` test at tetris.js:407-420 then misses, and the next steps give
  5.551115123125783e-17 and then -0.19999999999999996. The model's ladder
  stops at 0.2 instead.
- The arcade scene's Tetris engine is called with methods that tetris.js
  does not define: a `Tetris(tickRate)` constructor, `processTick`,
  `changeTickRate`, `displayGrid`, and, from the move and rotate buttons,
  `translateMovingBlocksHorizontally` and `rotate`. The last two are methods
  of `GameManager` (tetris.js:328 and tetris.js:531), not of the `Tetris`
  scene. The model records the rate pushed to
  that engine and whether a frame was routed to it. The Tetris tick itself
  is modelled as the tetris.js display body.
- `deepCopyObject` is not modelled, because grids hold only numbers.
  `deepCopy` of a grid is a value copy.
- `translateMovingBlocksHorizontally` is modelled only for "LEFT" and
  "RIGHT", the two strings any caller passes. Any other string would empty
  the piece out of the grid.
- Accessors (`getGrid`, `getCollision`, `setCollision`, `getNumRows`,
  `getNumColumns`) are plain field reads and writes.
- TetrisRotation.RotationMovesWholePiece: the count of falling cells is kept.
  This is stated as a bijection between falling cells before and after, not
  as a count.
- TetrisGame.GameManager.TranslateMovingBlocksHorizontally: the legality
  pass and the moving pass are separate methods (`FallingBlocksCanMoveHorizontally`,
  `ShiftedCopy`) called in the source's order. The source makes the shadow
  copy before the check; the model makes it after the check, inside
  `ShiftedCopy`. The check reads only the grid, never the copy, so the
  result is the same.
- TetrisGame.GameManager.Rotate: the rotation pass is the method
  `RotatedCopy`, which returns whether it ran to the end. Its row loop is
  the method `RotateRow`.
- TetrisGame.GameManager.FindRotation: the column loop of the scan is the
  method `LeftmostFalling`. The assignment that the source makes before
  `break` is made once that loop has ended.
- SnakeGame.Snake.ProcessTick: the fired branch is the method
  `AdvanceSnake`, and its fruit step is the method `PlaceFruit`.
- SnakeGame.Snake.MoveSnakeForward: the switch on the direction code is the
  function `Target`.
- TetrisGame.GameManager.TranslateMovingBlocksDown: the legality pass is the
  method `FallingBlocksCanMoveDown`, which reports the failing case that the
  source handles by raising the flag and returning.
- TetrisGame.Tetris.Display: the row-clearing loops of display are the
  methods `ClearFullRows` and `ClearRowRepeatedly`.
