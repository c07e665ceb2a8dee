/** What the game's transitions guarantee: the shape of a move, the scoring rules,
    the standing invariant of the game variables, the input and tick guards, and
    a few concrete scenarios that show the behaviour of the script as written. */
module Properties {
  import opened Grid
  import opened Rules

  function Max(a: int, b: int): int
  {
    if a >= b then a else b
  }

  /** Whether the head moveSnake is about to prepend lands on food. */
  predicate EatsAt(s: State, head: Point)
  {
    head == s.food || (s.hasSpecialFood && head == s.specialFood)
  }

  // ---------------------------------------------------------------- placing food

  /** placeFood puts the food on the first drawn cell that is off the snake, on the
      drawn grid, and creates special food only when none is present and the roll
      is below SPECIAL_CHANCE; nothing else changes. */
  lemma PlaceFoodFacts(s: State, rolls: Rolls, width: int, height: int)
    requires HasFreeDraw(rolls.cells, s.snake, width, height)
    requires CanvasOk(width, height) && RollsInRange(rolls)
    ensures var t := PlaceFood(s, rolls, width, height);
      && t.food !in s.snake
      && FoodCellOk(t.food, width, height)
      && (exists i :: 0 <= i < |rolls.cells| && t.food == DrawnCell(rolls.cells[i], width, height)
           && forall j :: 0 <= j < i ==> DrawnCell(rolls.cells[j], width, height) in s.snake)
      && t.hasSpecialFood == (s.hasSpecialFood || rolls.spawn < SPECIAL_CHANCE)
      && (s.hasSpecialFood ==> t.specialFood == s.specialFood)
      && (!s.hasSpecialFood && rolls.spawn < SPECIAL_CHANCE ==>
            t.specialFood == DrawnCell(rolls.special, width, height))
      && (t.hasSpecialFood ==> s.hasSpecialFood || FoodCellOk(t.specialFood, width, height))
      && t.(food := s.food, specialFood := s.specialFood, hasSpecialFood := s.hasSpecialFood) == s
  {
    var i := FirstFree(rolls.cells, s.snake, width, height);
    DrawnCellOk(rolls.cells[i], width, height);
    DrawnCellOk(rolls.special, width, height);
  }

  // ---------------------------------------------------------------- eating

  /** A regular meal: one point, a speed-up of SPEED_STEP only while above the floor,
      new food off the snake, and the high score raised to the score if beaten. */
  lemma RegularMealEffect(s: State, rolls: Rolls, width: int, height: int)
    requires |s.snake| > 0 && CanCheckFood(s, rolls, width, height)
    requires s.snake[0] == s.food
    ensures var t := CheckFood(s, rolls, width, height);
      && MealAt(s) == RegularMeal
      && t.score == s.score + 1
      && t.gameSpeed == (if s.gameSpeed > SPEED_FLOOR then s.gameSpeed - SPEED_STEP else s.gameSpeed)
      && t.highScore == Max(s.highScore, t.score)
      && t.food !in s.snake
  {
  }

  /** A special meal needs special food present at the head and no food there; it adds
      SPECIAL_POINTS, removes the special food and leaves speed and food alone. */
  lemma SpecialMealEffect(s: State, rolls: Rolls, width: int, height: int)
    requires |s.snake| > 0 && CanCheckFood(s, rolls, width, height)
    ensures MealAt(s) == SpecialMeal <==>
      s.snake[0] != s.food && s.hasSpecialFood && s.snake[0] == s.specialFood
    ensures MealAt(s) == SpecialMeal ==> var t := CheckFood(s, rolls, width, height);
      && t.score == s.score + SPECIAL_POINTS
      && !t.hasSpecialFood
      && t.gameSpeed == s.gameSpeed && t.food == s.food
      && t.highScore == Max(s.highScore, t.score)
  {
  }

  /** Without food at the head checkFood changes nothing. */
  lemma NoMealEffect(s: State, rolls: Rolls, width: int, height: int)
    requires |s.snake| > 0 && CanCheckFood(s, rolls, width, height)
    requires !EatsAt(s, s.snake[0])
    ensures MealAt(s) == NoMeal && CheckFood(s, rolls, width, height) == s
  {
  }

  // ---------------------------------------------------------------- moving

  /** moveSnake prepends the old head shifted one cell in `direction`; the old tail
      is dropped exactly when the new head finds no food; the length grows by one or
      not at all. */
  lemma MoveShape(s: State, rolls: Rolls, width: int, height: int)
    requires CanMove(s, rolls, width, height)
    ensures var t := Move(s, rolls, width, height);
      var head := Step(s.snake[0], s.direction);
      && t.snake == [head] + (if EatsAt(s, head) then s.snake else s.snake[..|s.snake| - 1])
      && |t.snake| == |s.snake| + (if EatsAt(s, head) then 1 else 0)
      && t.(snake := s.snake) == CheckFood(Grown(s), rolls, width, height).(snake := s.snake)
  {
    var head := Step(s.snake[0], s.direction);
    var t := Move(s, rolls, width, height);
    if !EatsAt(s, head) {
      assert (t.snake)[..|s.snake|] == ([head] + s.snake)[..|s.snake|];
      assert ([head] + s.snake)[..|s.snake|] == [head] + s.snake[..|s.snake| - 1];
    }
  }

  /** The check runs on the snake after the move, so heading into the cell the tail
      has just left, inside the canvas and with no special food there, is no collision. */
  lemma VacatedTailIsSafe(s: State, rolls: Rolls, width: int, height: int)
    requires Inv(s, width, height) && CanTick(s, rolls, width, height)
    requires !s.isPaused && !s.isGameOver
    requires Step(s.snake[0], s.nextDirection) == s.snake[|s.snake| - 1]
    requires InBounds(s.snake[|s.snake| - 1], width, height)
    requires !(s.hasSpecialFood && s.specialFood == s.snake[|s.snake| - 1])
    ensures !Tick(s, rolls, width, height).isGameOver
    ensures |Tick(s, rolls, width, height).snake| == |s.snake|
  {
    var u := Turned(s);
    var n := |s.snake|;
    var tail := s.snake[n - 1];
    MoveShape(u, rolls, width, height);
    var m := Move(u, rolls, width, height).snake;
    assert m == [tail] + s.snake[..n - 1];
  }

  // ---------------------------------------------------------------- the invariant

  /** The part of the invariant that checkFood sees regardless of the snake. */
  predicate Core(s: State, width: int, height: int)
  {
    CanvasOk(width, height)
    && s.nextDirection != Opposite(s.direction)
    && SPEED_FLOOR <= s.gameSpeed <= INITIAL_SPEED && s.gameSpeed % SPEED_STEP == 0
    && 0 <= s.score <= s.highScore
    && FoodCellOk(s.food, width, height)
    && (s.hasSpecialFood ==> FoodCellOk(s.specialFood, width, height))
  }

  /** checkFood keeps the core invariant; regular food is replaced by food off the snake. */
  lemma CheckFoodKeepsCore(s: State, rolls: Rolls, width: int, height: int)
    requires |s.snake| > 0 && CanCheckFood(s, rolls, width, height)
    requires Core(s, width, height) && RollsInRange(rolls)
    ensures var t := CheckFood(s, rolls, width, height);
      && Core(t, width, height)
      && (MealAt(s) == RegularMeal ==> t.food !in s.snake)
      && (MealAt(s) != RegularMeal ==> t.food == s.food)
  {
    match MealAt(s)
    case RegularMeal =>
      RegularMealKeepsCore(s, rolls, width, height);
    case SpecialMeal =>
    case NoMeal =>
  }

  lemma RegularMealKeepsCore(s: State, rolls: Rolls, width: int, height: int)
    requires |s.snake| > 0 && CanCheckFood(s, rolls, width, height) && MealAt(s) == RegularMeal
    requires Core(s, width, height) && RollsInRange(rolls)
    ensures var t := CheckFood(s, rolls, width, height);
      Core(t, width, height) && t.food !in s.snake
  {
    var fast := SpeedUp(s.(score := s.score + 1));
    assert SPEED_FLOOR <= fast.gameSpeed <= INITIAL_SPEED && fast.gameSpeed % SPEED_STEP == 0;
    PlaceFoodFacts(fast, rolls, width, height);
    var placed := PlaceFood(fast, rolls, width, height);
    assert placed.direction == s.direction && placed.nextDirection == s.nextDirection;
    assert placed.gameSpeed == fast.gameSpeed && placed.score == s.score + 1;
    assert placed.highScore == s.highScore;
    var t := RecordHighScore(placed);
    assert t == CheckFood(s, rolls, width, height);
    assert t.food == placed.food && t.specialFood == placed.specialFood;
    assert t.hasSpecialFood == placed.hasSpecialFood;
  }

  /** A tick keeps the invariant: the buffered direction is never the reverse of the
      applied one, the speed stays an even value in [SPEED_FLOOR, INITIAL_SPEED], the
      score never exceeds the high score, the food stays off the snake, the snake keeps
      three segments or more, and a running snake never overlaps itself. */
  lemma TickPreservesInv(s: State, rolls: Rolls, width: int, height: int)
    requires Inv(s, width, height) && RollsInRange(rolls) && CanTick(s, rolls, width, height)
    ensures Inv(Tick(s, rolls, width, height), width, height)
  {
    if !s.isPaused && !s.isGameOver {
      var u := Turned(s);
      assert Core(u, width, height);
      var grown := Grown(u);
      CheckFoodKeepsCore(grown, rolls, width, height);
      MoveShape(u, rolls, width, height);
      MoveKeepsFoodOff(u, rolls, width, height);
      var moved := Move(u, rolls, width, height);
      assert Core(moved, width, height);
      if !Collides(moved.snake, width, height) {
        CheckFoodKeepsCore(moved, rolls, width, height);
        MovedHasNoDuplicates(s.snake, moved.snake);
      }
    }
  }

  /** A move that does not hit the body keeps the segments pairwise distinct. */
  lemma MovedHasNoDuplicates(old_: seq<Point>, moved: seq<Point>)
    requires NoDuplicates(old_) && |old_| > 0 && !HitsBody(moved) && |moved| > 0
    requires moved[1..] == old_ || moved[1..] == old_[..|old_| - 1]
    ensures NoDuplicates(moved)
  {
    forall i, j | 0 <= i < j < |moved|
      ensures moved[i] != moved[j]
    {
      if i > 0 {
        assert moved[i] == moved[1..][i - 1] && moved[j] == moved[1..][j - 1];
      }
    }
  }

  /** The script's load state satisfies the invariant. */
  lemma UnstartedInv(storedHighScore: nat, width: int, height: int)
    requires CanvasOk(width, height)
    ensures Inv(Unstarted(storedHighScore), width, height)
  {
  }

  /** initGame establishes the invariant from any valid state, keeps the high score and
      any special food already present, and starts a running, unpaused game with the initial snake heading right. */
  lemma InitEstablishesInv(s: State, rolls: Rolls, width: int, height: int)
    requires Inv(s, width, height) && RollsInRange(rolls)
    requires HasFreeDraw(rolls.cells, InitialSnake(), width, height)
    ensures var t := Init(s, rolls, width, height);
      && Inv(t, width, height)
      && t.snake == InitialSnake() && t.direction == Right && t.nextDirection == Right
      && t.score == 0 && t.gameSpeed == INITIAL_SPEED && t.highScore == s.highScore
      && !t.isGameOver && !t.isPaused
      && t.hasSpecialFood == (s.hasSpecialFood || rolls.spawn < SPECIAL_CHANCE)
      && (s.hasSpecialFood ==> t.specialFood == s.specialFood)
  {
    var reset := s.(snake := InitialSnake(), direction := Right, nextDirection := Right,
                    score := 0, gameSpeed := INITIAL_SPEED);
    PlaceFoodFacts(reset, rolls, width, height);
  }

  /** The keydown handler keeps the invariant; after the game is over it changes nothing;
      only the buffered direction and the pause flag ever change. */
  lemma KeyPreservesInv(s: State, key: Key, width: int, height: int)
    requires Inv(s, width, height)
    ensures var t := HandleKey(s, key);
      && Inv(t, width, height)
      && (s.isGameOver ==> t == s)
      && t.(nextDirection := s.nextDirection, isPaused := s.isPaused) == s
  {
  }

  /** An arrow key is accepted exactly when it does not reverse the applied direction,
      so a buffered direction that was not the reverse never becomes one. */
  lemma TurnAcceptedIff(s: State, d: Direction)
    ensures Turn(s, d).nextDirection == d <==> s.direction != Opposite(d) || s.nextDirection == d
    ensures s.nextDirection != Opposite(s.direction) ==> Turn(s, d).nextDirection != Opposite(s.direction)
  {
  }

  /** togglePause flips the flag, even after the game is over, and keeps the invariant. */
  lemma TogglePausePreservesInv(s: State, width: int, height: int)
    requires Inv(s, width, height)
    ensures Inv(TogglePause(s), width, height) && TogglePause(s).isPaused == !s.isPaused
  {
  }

  /** The special food's timeout keeps the invariant. */
  lemma ExpirePreservesInv(s: State, width: int, height: int)
    requires Inv(s, width, height)
    ensures Inv(ExpireSpecial(s), width, height) && !ExpireSpecial(s).hasSpecialFood
  {
  }

  // ---------------------------------------------------------------- the tick

  /** A tick while paused or over changes nothing. */
  lemma TickFrozen(s: State, rolls: Rolls, width: int, height: int)
    requires Inv(s, width, height) && CanTick(s, rolls, width, height)
    requires s.isPaused || s.isGameOver
    ensures Tick(s, rolls, width, height) == s
  {
  }

  /** A running tick applies the buffered direction, which is never the reverse of the
      previous one; moves the head one cell that way; changes the length by 0 or 1; and
      ends the game exactly when the moved snake collides. */
  lemma TickMoves(s: State, rolls: Rolls, width: int, height: int)
    requires Inv(s, width, height) && CanTick(s, rolls, width, height)
    requires !s.isPaused && !s.isGameOver
    ensures var t := Tick(s, rolls, width, height);
      && t.direction == s.nextDirection && t.direction != Opposite(s.direction)
      && t.snake[0] == Step(s.snake[0], s.nextDirection)
      && Adjacent(s.snake[0], t.snake[0])
      && (|t.snake| == |s.snake| || |t.snake| == |s.snake| + 1)
      && (t.isGameOver <==> Collides(t.snake, width, height))
  {
    MoveShape(Turned(s), rolls, width, height);
    StepUndone(s.snake[0], s.nextDirection);
  }

  /** Scoring over a tick: the score rises by 0, 1, SPECIAL_POINTS or both at once
      (regular food, then special food spawned on the head or already lying under the food); the high score is the
      maximum of the old high score and the new score, so it never decreases; the
      speed never rises and drops by at most SPEED_STEP. */
  lemma TickScoring(s: State, rolls: Rolls, width: int, height: int)
    requires Inv(s, width, height) && CanTick(s, rolls, width, height)
    ensures var t := Tick(s, rolls, width, height);
      && t.score - s.score in {0, 1, SPECIAL_POINTS, 1 + SPECIAL_POINTS}
      && t.highScore == Max(s.highScore, t.score)
      && s.gameSpeed - SPEED_STEP <= t.gameSpeed <= s.gameSpeed
    ensures !s.isPaused && !s.isGameOver ==>
      var m := Move(Turned(s), rolls, width, height);
      Tick(s, rolls, width, height).score ==
        s.score + MealPoints(MealAt(Grown(Turned(s))))
        + (if Collides(m.snake, width, height) then 0 else MealPoints(MealAt(m)))
  {
    if !s.isPaused && !s.isGameOver {
      var u := Turned(s);
      var grown := Grown(u);
      MoveKeepsFoodOff(u, rolls, width, height);
      MoveShape(u, rolls, width, height);
      CheckFoodScoring(grown, rolls, width, height);
      var first := CheckFood(grown, rolls, width, height);
      var moved := Move(u, rolls, width, height);
      assert moved.score == first.score && moved.highScore == first.highScore;
      assert moved.gameSpeed == first.gameSpeed;
      if !Collides(moved.snake, width, height) {
        CheckFoodScoring(moved, rolls, width, height);
      }
    }
  }

  /** The points a meal is worth. */
  function MealPoints(m: Meal): int
  {
    match m
    case RegularMeal => 1
    case SpecialMeal => SPECIAL_POINTS
    case NoMeal => 0
  }

  /** One checkFood: the score rises by the meal's points, the high score becomes the
      maximum, and only a regular meal can lower the speed, by at most SPEED_STEP. */
  lemma CheckFoodScoring(s: State, rolls: Rolls, width: int, height: int)
    requires |s.snake| > 0 && CanCheckFood(s, rolls, width, height) && s.score <= s.highScore
    ensures var t := CheckFood(s, rolls, width, height);
      && t.score == s.score + MealPoints(MealAt(s))
      && t.highScore == Max(s.highScore, t.score)
      && s.gameSpeed - SPEED_STEP <= t.gameSpeed <= s.gameSpeed
      && (MealAt(s) != RegularMeal ==> t.gameSpeed == s.gameSpeed)
  {
  }

  /** A tick that both scores and ends the game ate special food lying on the body:
      regular food is never on the snake, so a regular meal cannot be fatal. */
  lemma FatalMealIsSpecial(s: State, rolls: Rolls, width: int, height: int)
    requires Inv(s, width, height) && CanTick(s, rolls, width, height)
    requires !s.isPaused && !s.isGameOver
    requires Tick(s, rolls, width, height).isGameOver
    requires Tick(s, rolls, width, height).score != s.score
    ensures MealAt(Grown(Turned(s))) == SpecialMeal
    ensures s.specialFood in s.snake
  {
    var u := Turned(s);
    var head := NewHead(u);
    var grown := Grown(u);
    MoveShape(u, rolls, width, height);
    var m := Move(u, rolls, width, height).snake;
    assert m == grown.snake;
    if MealAt(grown) == RegularMeal {
      FoodCellInBounds(s.food, width, height);
      assert false;
    }
    assert head == s.specialFood;
    if s.specialFood !in s.snake {
      FoodCellInBounds(s.specialFood, width, height);
      assert false;
    }
  }

  lemma FoodCellInBounds(p: Point, width: int, height: int)
    requires CanvasOk(width, height) && FoodCellOk(p, width, height)
    ensures InBounds(p, width, height)
  {
  }

  // ---------------------------------------------------------------- concrete scenarios (400 x 400 canvas)

  /** Start, then one tick with the food drawn at the top-left corner: the head is
      one cell to the right, the tail is dropped, nothing is scored. */
  lemma FirstTickExample(rolls: Rolls)
    requires rolls == Rolls([Draw(0.0, 0.0)], 0.5, Draw(0.0, 0.0))
    ensures HasFreeDraw(rolls.cells, InitialSnake(), 400, 400)
    ensures var s := Init(Unstarted(0), rolls, 400, 400);
      && Inv(s, 400, 400) && CanTick(s, rolls, 400, 400)
      && Tick(s, rolls, 400, 400).snake == [Point(220, 200), Point(200, 200), Point(180, 200)]
      && Tick(s, rolls, 400, 400).score == 0 && !Tick(s, rolls, 400, 400).isGameOver
  {
    assert DrawnCell(rolls.cells[0], 400, 400) == Point(0, 0);
    UnstartedInv(0, 400, 400);
    InitEstablishesInv(Unstarted(0), rolls, 400, 400);
  }

  /** Because checkFood runs again after the move, a tick can score twice: the regular
      meal's placeFood spawns special food on the head, and the second checkFood eats it
      at once, for 1 + SPECIAL_POINTS points and a single segment of growth
      (StackedMealExample shows the other way). */
  lemma DoubleMealExample(s: State, rolls: Rolls)
    requires s == State([Point(100, 100), Point(80, 100), Point(60, 100)], Right, Right,
                        Point(120, 100), Point(0, 0), false, 0, 0, INITIAL_SPEED, false, false)
    requires rolls == Rolls([Draw(0.0, 0.0)], 0.0, Draw(6.0 / 19.0, 5.0 / 19.0))
    ensures Inv(s, 400, 400) && CanTick(s, rolls, 400, 400)
    ensures var t := Tick(s, rolls, 400, 400);
      && t.score == 1 + SPECIAL_POINTS && t.highScore == 1 + SPECIAL_POINTS
      && |t.snake| == 4 && !t.hasSpecialFood && !t.isGameOver
      && t.gameSpeed == INITIAL_SPEED - SPEED_STEP
  {
    ScaleAt(6.0 / 19.0, 6, 400);
    ScaleAt(5.0 / 19.0, 5, 400);
    assert DrawnCell(rolls.special, 400, 400) == Point(120, 100);
    assert DrawnCell(rolls.cells[0], 400, 400) == Point(0, 0);
    var grown := Grown(Turned(s));
    assert grown.snake == [Point(120, 100)] + s.snake;
    assert FirstFree(rolls.cells, grown.snake, 400, 400) == 0;
    var first := CheckFood(grown, rolls, 400, 400);
    assert first == grown.(score := 1, highScore := 1, gameSpeed := INITIAL_SPEED - SPEED_STEP,
                           food := Point(0, 0), specialFood := Point(120, 100), hasSpecialFood := true);
    var moved := Move(Turned(s), rolls, 400, 400);
    assert moved == first;
    assert !Collides(moved.snake, 400, 400);
    assert MealAt(moved) == SpecialMeal;
  }

  /** Special food placed earlier may lie under the regular food: the first checkFood
      eats the regular food, and the second finds the special food still at the head. */
  lemma StackedMealExample(s: State, rolls: Rolls)
    requires s == State([Point(100, 100), Point(80, 100), Point(60, 100)], Right, Right,
                        Point(120, 100), Point(120, 100), true, 0, 0, INITIAL_SPEED, false, false)
    requires rolls == Rolls([Draw(0.0, 0.0)], 0.5, Draw(0.0, 0.0))
    ensures Inv(s, 400, 400) && CanTick(s, rolls, 400, 400)
    ensures var t := Tick(s, rolls, 400, 400);
      && t.score == 1 + SPECIAL_POINTS && t.highScore == 1 + SPECIAL_POINTS
      && |t.snake| == 4 && !t.hasSpecialFood && !t.isGameOver
  {
    assert DrawnCell(rolls.cells[0], 400, 400) == Point(0, 0);
    var grown := Grown(Turned(s));
    assert FirstFree(rolls.cells, grown.snake, 400, 400) == 0;
    var moved := Move(Turned(s), rolls, 400, 400);
    assert moved == grown.(score := 1, highScore := 1, gameSpeed := INITIAL_SPEED - SPEED_STEP,
                           food := Point(0, 0));
    assert !Collides(moved.snake, 400, 400);
    assert MealAt(moved) == SpecialMeal;
  }

  /** Eating happens before the collision check, and special food may lie on the body:
      heading into a body segment that carries special food scores SPECIAL_POINTS on
      the tick that ends the game. */
  lemma FatalMealExample(s: State, rolls: Rolls)
    requires s == State([Point(100, 100), Point(100, 120), Point(80, 120), Point(80, 100), Point(60, 100)],
                        Up, Left, Point(0, 0), Point(80, 100), true, 2, 2, INITIAL_SPEED - 2 * SPEED_STEP,
                        false, false)
    requires rolls == Rolls([Draw(0.0, 0.0)], 0.5, Draw(0.0, 0.0))
    ensures Inv(s, 400, 400) && CanTick(s, rolls, 400, 400)
    ensures var t := Tick(s, rolls, 400, 400);
      && t.isGameOver && t.score == 2 + SPECIAL_POINTS && t.highScore == 2 + SPECIAL_POINTS
      && |t.snake| == 6
  {
    var moved := Move(Turned(s), rolls, 400, 400);
    assert moved.snake[4] == moved.snake[0];
  }
}
