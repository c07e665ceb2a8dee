/** The game script's module-level variables as one object, and its functions as
    methods that update them in place. Each method is proved to perform the
    corresponding transition of `Rules`; what those transitions guarantee is
    proved in `Properties`. */
module Game {
  import opened Grid
  import Rules
  import Properties

  class Game {
    /** `canvas.width` and `canvas.height`. */
    const width: int
    const height: int

    var snake: seq<Point>
    var direction: Direction
    var nextDirection: Direction
    var food: Point
    var specialFood: Point
    var hasSpecialFood: bool
    var score: int
    var highScore: int
    var gameSpeed: int
    var isPaused: bool
    var isGameOver: bool

    /** The game variables as a value. */
    function Snapshot(): Rules.State
      reads this
    {
      Rules.State(snake, direction, nextDirection, food, specialFood, hasSpecialFood,
                  score, highScore, gameSpeed, isPaused, isGameOver)
    }

    ghost predicate Valid()
      reads this
    {
      Rules.Inv(Snapshot(), width, height)
    }

    /** The script's load: nothing started, the stored high score read in. */
    constructor (width: int, height: int, storedHighScore: nat)
      requires CanvasOk(width, height)
      ensures this.width == width && this.height == height
      ensures Snapshot() == Rules.Unstarted(storedHighScore)
      ensures Valid()
    {
      this.width, this.height := width, height;
      snake := [];
      direction, nextDirection := Right, Right;
      food, specialFood, hasSpecialFood := Point(0, 0), Point(0, 0), false;
      score, highScore := 0, storedHighScore;
      gameSpeed := Rules.INITIAL_SPEED;
      isPaused, isGameOver := false, true;
    }

    /** initGame. */
    method InitGame(rolls: Rules.Rolls)
      requires Valid() && Rules.RollsInRange(rolls)
      requires Rules.HasFreeDraw(rolls.cells, Rules.InitialSnake(), width, height)
      modifies this
      ensures Snapshot() == Rules.Init(old(Snapshot()), rolls, width, height)
      ensures Valid()
    {
      snake := Rules.InitialSnake();
      direction, nextDirection := Right, Right;
      score := 0;
      gameSpeed := Rules.INITIAL_SPEED;
      PlaceFood(rolls);
      isGameOver := false;
      isPaused := false;
      Properties.InitEstablishesInv(old(Snapshot()), rolls, width, height);
    }

    /** The rejection loop of placeFood: draw cells until one is off the snake. */
    method DrawFreeCell(draws: seq<Draw>) returns (cell: Point)
      requires Rules.HasFreeDraw(draws, snake, width, height)
      ensures cell !in snake
      ensures cell == DrawnCell(draws[Rules.FirstFree(draws, snake, width, height)], width, height)
    {
      ghost var k := Rules.FirstFree(draws, snake, width, height);
      var attempt := 0;
      var isValidPosition := false;
      cell := DrawnCell(draws[0], width, height);
      while !isValidPosition
        invariant 0 <= attempt <= k + 1
        invariant !isValidPosition ==> attempt <= k
        invariant isValidPosition ==> attempt == k + 1 && cell == DrawnCell(draws[k], width, height)
        decreases k + 1 - attempt
      {
        cell := DrawnCell(draws[attempt], width, height);
        isValidPosition := true;
        for j := 0 to |snake|
          invariant isValidPosition
          invariant forall m :: 0 <= m < j ==> snake[m] != cell
        {
          if snake[j] == cell {
            isValidPosition := false;
            break;
          }
        }
        attempt := attempt + 1;
      }
    }

    /** placeFood. */
    method PlaceFood(rolls: Rules.Rolls)
      requires Rules.HasFreeDraw(rolls.cells, snake, width, height)
      modifies this
      ensures Snapshot() == Rules.PlaceFood(old(Snapshot()), rolls, width, height)
    {
      food := DrawFreeCell(rolls.cells);
      if rolls.spawn < Rules.SPECIAL_CHANCE && !hasSpecialFood {
        PlaceSpecialFood(rolls.special);
      }
    }

    /** placeSpecialFood, without the timer (see ExpireSpecial). */
    method PlaceSpecialFood(d: Draw)
      modifies this
      ensures Snapshot() == Rules.PlaceSpecialFood(old(Snapshot()), d, width, height)
    {
      specialFood := DrawnCell(d, width, height);
      hasSpecialFood := true;
    }

    /** The ten-second timeout set by placeSpecialFood, when it fires. */
    method ExpireSpecial()
      requires Valid()
      modifies this
      ensures Snapshot() == Rules.ExpireSpecial(old(Snapshot()))
      ensures Valid()
    {
      hasSpecialFood := false;
    }

    /** gameLoop: one tick. */
    method GameLoop(rolls: Rules.Rolls)
      requires Valid() && Rules.RollsInRange(rolls)
      requires Rules.CanTick(Snapshot(), rolls, width, height)
      modifies this
      ensures Snapshot() == Rules.Tick(old(Snapshot()), rolls, width, height)
      ensures Valid()
    {
      Properties.TickPreservesInv(Snapshot(), rolls, width, height);
      if isPaused || isGameOver {
        return;
      }
      direction := nextDirection;
      Rules.MoveKeepsFoodOff(Snapshot(), rolls, width, height);
      MoveSnake(rolls);
      var hit := CheckCollision();
      if hit {
        GameOver();
        return;
      }
      var _ := CheckFood(rolls);
    }

    /** moveSnake. */
    method MoveSnake(rolls: Rules.Rolls)
      requires Rules.CanMove(Snapshot(), rolls, width, height)
      modifies this
      ensures Snapshot() == Rules.Move(old(Snapshot()), rolls, width, height)
    {
      var head := Step(snake[0], direction);
      snake := [head] + snake;
      var ate := CheckFood(rolls);
      if !ate {
        snake := snake[..|snake| - 1];
      }
    }

    /** checkCollision. */
    method CheckCollision() returns (hit: bool)
      requires |snake| > 0
      ensures hit == Rules.Collides(snake, width, height)
    {
      var head := snake[0];
      if head.x < 0 || head.x >= width || head.y < 0 || head.y >= height {
        return true;
      }
      for i := 1 to |snake|
        invariant forall k :: 1 <= k < i ==> snake[k] != head
      {
        if head == snake[i] {
          return true;
        }
      }
      return false;
    }

    /** checkFood; `ate` is its return value. */
    method CheckFood(rolls: Rules.Rolls) returns (ate: bool)
      requires |snake| > 0 && Rules.CanCheckFood(Snapshot(), rolls, width, height)
      modifies this
      ensures ate == (Rules.MealAt(old(Snapshot())) != Rules.NoMeal)
      ensures Snapshot() == Rules.CheckFood(old(Snapshot()), rolls, width, height)
    {
      var head := snake[0];
      if head == food {
        score := score + 1;
        if gameSpeed > Rules.SPEED_FLOOR {
          gameSpeed := gameSpeed - Rules.SPEED_STEP;
        }
        PlaceFood(rolls);
        if score > highScore {
          highScore := score;
        }
        return true;
      }
      if hasSpecialFood && head == specialFood {
        score := score + Rules.SPECIAL_POINTS;
        hasSpecialFood := false;
        if score > highScore {
          highScore := score;
        }
        return true;
      }
      return false;
    }

    /** The state part of gameOver. */
    method GameOver()
      modifies this
      ensures Snapshot() == Rules.GameOver(old(Snapshot()))
    {
      isGameOver := true;
    }

    /** The state part of togglePause. */
    method TogglePause()
      requires Valid()
      modifies this
      ensures Snapshot() == Rules.TogglePause(old(Snapshot()))
      ensures Valid()
    {
      isPaused := !isPaused;
    }

    /** The keydown handler. */
    method HandleKey(key: Rules.Key)
      requires Valid()
      modifies this
      ensures Snapshot() == Rules.HandleKey(old(Snapshot()), key)
      ensures Valid()
    {
      Properties.KeyPreservesInv(Snapshot(), key, width, height);
      if isGameOver {
        return;
      }
      match key
      case ArrowUp =>
        if direction != Down { nextDirection := Up; }
      case ArrowDown =>
        if direction != Up { nextDirection := Down; }
      case ArrowLeft =>
        if direction != Right { nextDirection := Left; }
      case ArrowRight =>
        if direction != Left { nextDirection := Right; }
      case Space =>
        TogglePause();
      case OtherKey =>
    }
  }
}
