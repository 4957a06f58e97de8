/**
  The driver scene of arcadescene.js: which game is being played, which is
  paused, and the tick rate shared by both engines.

  The Snake engine is the class of snake.js. The Tetris engine arcadescene.js
  talks to (a Tetris built with a tick rate, with processTick and
  changeTickRate) is not defined in tetris.js, so the scene records what it
  hands to that engine: the last tick rate pushed to it, and whether a frame
  was routed to it.
*/
module Arcade {
  import SnakeGame

  const InitialTickRate := 1.0
  const FastestTickRate := 0.1
  const SlowestTickRate := 2.0
  const TickRateStep := 0.1

  /** The four flags of the scene. */
  datatype Controls = Controls(pauseSnake: bool, pauseTetris: bool, playingTetris: bool, playingSnake: bool)

  /** The flags of a freshly built scene: Tetris playing, Snake paused. */
  function InitialControls(): Controls {
    Controls(true, false, true, false)
  }

  /** Exactly one game is being played and the other one is paused. */
  predicate WellFormed(k: Controls) {
    k.playingTetris != k.playingSnake &&
    (k.playingTetris ==> k.pauseSnake) &&
    (k.playingSnake ==> k.pauseTetris)
  }

  /** The "Pause game" handler: toggles the pause flag of the game being
      played (Tetris's when Snake is not being played). */
  function Paused(k: Controls): Controls
  {
    if k.playingSnake then k.(pauseSnake := !k.pauseSnake) else k.(pauseTetris := !k.pauseTetris)
  }

  /** The "Switch Game" handler: the other game becomes the one played, is
      unpaused, and the game left is paused. */
  function Switched(k: Controls): Controls
  {
    if k.playingSnake then Controls(true, false, true, false)
    else if k.playingTetris then Controls(false, true, false, true)
    else k
  }

  /** The frame routing of display: each engine gets processTick only while
      it is played and not paused. */
  predicate TetrisRuns(k: Controls) {
    !k.pauseTetris && k.playingTetris
  }

  predicate SnakeRuns(k: Controls) {
    !k.pauseSnake && k.playingSnake
  }

  /** The initial flags are well formed, and Switch Game keeps them so, with
      the other game played, unpaused, and the left game paused. */
  lemma SwitchSwapsGames(k: Controls)
    requires WellFormed(k)
    ensures WellFormed(InitialControls())
    ensures var k' := Switched(k);
            && WellFormed(k')
            && k'.playingTetris == !k.playingTetris && k'.playingSnake == !k.playingSnake
            && (k'.playingTetris ==> !k'.pauseTetris) && (k'.playingSnake ==> !k'.pauseSnake)
    ensures var k2 := Switched(Switched(k));
            k2.playingTetris == k.playingTetris && k2.playingSnake == k.playingSnake
  {
  }

  /** Pause flips only the played game's flag: the game not played stays
      paused, which game is played does not change, and pausing twice
      restores the flags. */
  lemma PauseTogglesActiveGame(k: Controls)
    requires WellFormed(k)
    ensures var k' := Paused(k);
            && WellFormed(k')
            && k'.playingTetris == k.playingTetris && k'.playingSnake == k.playingSnake
            && (k.playingTetris ==> k'.pauseTetris == !k.pauseTetris && k'.pauseSnake == k.pauseSnake)
            && (k.playingSnake ==> k'.pauseSnake == !k.pauseSnake && k'.pauseTetris == k.pauseTetris)
    ensures Paused(Paused(k)) == k
  {
  }

  /** With well-formed flags, at most one engine is ticked per frame. */
  lemma AtMostOneEngineRuns(k: Controls)
    requires WellFormed(k)
    ensures !(TetrisRuns(k) && SnakeRuns(k))
  {
  }

  /** raiseTickRate: a tenth of a second faster, but never below 0.1. */
  function RaisedRate(rate: real): real {
    if rate - TickRateStep < FastestTickRate then FastestTickRate else rate - TickRateStep
  }

  /** lowerTickRate: a tenth of a second slower, but never above 2. */
  function LoweredRate(rate: real): real {
    if rate + TickRateStep > SlowestTickRate then SlowestTickRate else rate + TickRateStep
  }

  ghost predicate RateInRange(rate: real) {
    FastestTickRate <= rate <= SlowestTickRate
  }

  /** Both handlers keep the rate in [0.1, 2], move it by at most 0.1, and
      undo each other away from the clamps. */
  lemma RateHandlersStayInRange(rate: real)
    requires RateInRange(rate)
    ensures RateInRange(RaisedRate(rate)) && RateInRange(LoweredRate(rate))
    ensures RaisedRate(rate) <= rate <= LoweredRate(rate)
    ensures rate - TickRateStep <= RaisedRate(rate) && LoweredRate(rate) <= rate + TickRateStep
    ensures rate >= FastestTickRate + TickRateStep ==> LoweredRate(RaisedRate(rate)) == rate
    ensures rate <= SlowestTickRate - TickRateStep ==> RaisedRate(LoweredRate(rate)) == rate
  {
  }

  class ArcadeScene {
    var tickRate: real
    var snake: SnakeGame.Snake
    /** The rate last pushed to the Tetris engine by changeTickRate. */
    var tetrisRate: real
    var pauseSnake: bool
    var pauseTetris: bool
    var playingTetris: bool
    var playingSnake: bool

    function Flags(): Controls
      reads this
    {
      Controls(pauseSnake, pauseTetris, playingTetris, playingSnake)
    }

    /** The flags are well formed, the rate lies in [0.1, 2], and both engines
        run at the scene's rate. The Snake's own pause flag is only ever set
        by its constructor, so it stays off. */
    ghost predicate Valid()
      reads this, snake
    {
      WellFormed(Flags()) && RateInRange(tickRate) &&
      snake.Valid() && !snake.paused && snake.tickRate == tickRate && tetrisRate == tickRate
    }

    constructor ()
      ensures Valid() && fresh(snake)
      ensures tickRate == InitialTickRate && Flags() == InitialControls()
      ensures snake.IsReset() && !snake.paused
    {
      tickRate := InitialTickRate;
      tetrisRate := InitialTickRate;
      snake := new SnakeGame.Snake(InitialTickRate);
      pauseSnake := true;
      pauseTetris := false;
      playingTetris := true;
      playingSnake := false;
    }

    /** raiseTickRate: the new rate is pushed to both engines. */
    method RaiseTickRate()
      requires Valid()
      modifies this, snake
      ensures Valid() && snake == old(snake) && Flags() == old(Flags())
      ensures tickRate == RaisedRate(old(tickRate))
      ensures snake.grid == old(snake.grid) && snake.body == old(snake.body) && snake.time == old(snake.time)
      ensures snake.snakeDirection == old(snake.snakeDirection) && snake.paused == old(snake.paused)
    {
      tickRate := tickRate - TickRateStep;
      if tickRate < FastestTickRate {
        tickRate := FastestTickRate;
      }
      snake.ChangeTickRate(tickRate);
      tetrisRate := tickRate;
      RateHandlersStayInRange(old(tickRate));
    }

    /** lowerTickRate: the new rate is pushed to both engines. */
    method LowerTickRate()
      requires Valid()
      modifies this, snake
      ensures Valid() && snake == old(snake) && Flags() == old(Flags())
      ensures tickRate == LoweredRate(old(tickRate))
      ensures snake.grid == old(snake.grid) && snake.body == old(snake.body) && snake.time == old(snake.time)
      ensures snake.snakeDirection == old(snake.snakeDirection) && snake.paused == old(snake.paused)
    {
      tickRate := tickRate + TickRateStep;
      if tickRate > SlowestTickRate {
        tickRate := SlowestTickRate;
      }
      snake.ChangeTickRate(tickRate);
      tetrisRate := tickRate;
      RateHandlersStayInRange(old(tickRate));
    }

    /** The "Pause game" handler. */
    method Pause()
      requires Valid()
      modifies this
      ensures Valid() && snake == old(snake)
      ensures Flags() == Paused(old(Flags()))
      ensures tickRate == old(tickRate) && tetrisRate == old(tetrisRate)
    {
      if playingSnake {
        pauseSnake := !pauseSnake;
      } else {
        pauseTetris := !pauseTetris;
      }
      PauseTogglesActiveGame(old(Flags()));
    }

    /** The "Switch Game" handler. */
    method SwitchGame()
      requires Valid()
      modifies this
      ensures Valid() && snake == old(snake)
      ensures Flags() == Switched(old(Flags()))
      ensures tickRate == old(tickRate) && tetrisRate == old(tetrisRate)
    {
      if playingSnake {
        playingTetris := true;
        playingSnake := false;
        pauseTetris := false;
        pauseSnake := true;
      } else if playingTetris {
        playingSnake := true;
        playingTetris := false;
        pauseTetris := true;
        pauseSnake := false;
      }
      SwitchSwapsGames(old(Flags()));
    }

    /** The game logic of display for one frame of `dt` seconds: processTick
        goes to the Tetris engine (reported in tetrisTicked) or to the Snake
        engine, and never to both. (fruitRow, fruitColumn) is the cell Snake's
        generateFruit would pick at random. */
    method Display(dt: real, fruitRow: int, fruitColumn: int) returns (tetrisTicked: bool, snakeTicked: bool)
      requires Valid() && SnakeGame.Interior((fruitRow, fruitColumn))
      modifies snake
      ensures Valid()
      ensures tetrisTicked == TetrisRuns(Flags()) && snakeTicked == SnakeRuns(Flags())
      ensures !(tetrisTicked && snakeTicked)
      ensures snake.paused == old(snake.paused) && snake.tickRate == old(snake.tickRate)
      ensures !snakeTicked ==>
                && snake.grid == old(snake.grid) && snake.body == old(snake.body)
                && snake.snakeDirection == old(snake.snakeDirection) && snake.time == old(snake.time)
      ensures snakeTicked && old(snake.time) + dt <= tickRate ==>
                && snake.grid == old(snake.grid) && snake.body == old(snake.body)
                && snake.snakeDirection == old(snake.snakeDirection) && snake.time == old(snake.time) + dt
      ensures snakeTicked && old(snake.time) + dt > tickRate ==>
                && snake.time == 0.0
                && snake.MovedFrom(SnakeGame.FruitPlaced(old(snake.grid), (fruitRow, fruitColumn)), old(snake.body), old(snake.snakeDirection))
      ensures SnakeGame.AtMostOneFruit(old(snake.grid)) ==> SnakeGame.AtMostOneFruit(snake.grid)
    {
      tetrisTicked := false;
      snakeTicked := false;
      if !pauseTetris && playingTetris {
        tetrisTicked := true;
      }
      if !pauseSnake && playingSnake {
        snake.ProcessTick(dt, fruitRow, fruitColumn);
        snakeTicked := true;
      }
      AtMostOneEngineRuns(Flags());
    }
  }
}
