/** The game's state as a value, and one pure transition per function of the
    game script. `Game.Game` runs these steps imperatively; the lemmas about
    them are in `Properties`. */
module Rules {
  import opened Grid

  const INITIAL_SPEED: int := 150
  /** `gameSpeed` is lowered only while it is above this value. */
  const SPEED_FLOOR: int := 50
  const SPEED_STEP: int := 2
  /** `specialFood.points`. */
  const SPECIAL_POINTS: int := 5
  /** Special food appears when the random roll is below this value (and none is present). */
  const SPECIAL_CHANCE: real := 0.1

  /** The keys the keydown handler distinguishes. */
  datatype Key = ArrowUp | ArrowDown | ArrowLeft | ArrowRight | Space | OtherKey

  /** The `Math.random()` results one call of placeFood consumes: one draw per
      attempt of its rejection loop, the 10% roll, and the special food's cell. */
  datatype Rolls = Rolls(cells: seq<Draw>, spawn: real, special: Draw)

  /** The script's module-level game variables. */
  datatype State = State(
    snake: seq<Point>,
    direction: Direction,
    nextDirection: Direction,
    food: Point,
    specialFood: Point,
    hasSpecialFood: bool,
    score: int,
    highScore: int,
    gameSpeed: int,
    isPaused: bool,
    isGameOver: bool)

  /** What checkFood finds at the head: regular food is tested first. */
  datatype Meal = NoMeal | RegularMeal | SpecialMeal

  predicate RollsInRange(rolls: Rolls)
  {
    (forall i :: 0 <= i < |rolls.cells| ==> DrawInRange(rolls.cells[i])) &&
    IsUnit(rolls.spawn) && DrawInRange(rolls.special)
  }

  /** The three segments initGame lays out, head first, heading right. */
  function InitialSnake(): seq<Point>
  {
    [Point(10 * SNAKE_SIZE, 10 * SNAKE_SIZE),
     Point(9 * SNAKE_SIZE, 10 * SNAKE_SIZE),
     Point(8 * SNAKE_SIZE, 10 * SNAKE_SIZE)]
  }

  /** The state when the script has loaded and nothing has been started:
      `food = {}` is represented by an arbitrary point that nothing reads. */
  function Unstarted(storedHighScore: nat): State
  {
    State([], Right, Right, Point(0, 0), Point(0, 0), false,
          0, storedHighScore, INITIAL_SPEED, false, true)
  }

  predicate NoDuplicates(snake: seq<Point>)
  {
    forall i, j :: 0 <= i < j < |snake| ==> snake[i] != snake[j]
  }

  // ---------------------------------------------------------------- food

  /** Some attempt of the rejection loop lands off the snake; without one the
      loop of placeFood would not terminate. */
  predicate HasFreeDraw(draws: seq<Draw>, snake: seq<Point>, width: int, height: int)
  {
    exists i :: 0 <= i < |draws| && DrawnCell(draws[i], width, height) !in snake
  }

  /** The attempt the rejection loop stops at: the first one off the snake. */
  function FirstFree(draws: seq<Draw>, snake: seq<Point>, width: int, height: int): (i: nat)
    requires HasFreeDraw(draws, snake, width, height)
    ensures i < |draws| && DrawnCell(draws[i], width, height) !in snake
    ensures forall j :: 0 <= j < i ==> DrawnCell(draws[j], width, height) in snake
    decreases |draws|
  {
    if DrawnCell(draws[0], width, height) !in snake then 0
    else
      assert HasFreeDraw(draws[1..], snake, width, height) by {
        var k :| 0 <= k < |draws| && DrawnCell(draws[k], width, height) !in snake;
        assert draws[1..][k - 1] == draws[k];
      }
      var i := FirstFree(draws[1..], snake, width, height);
      assert forall j :: 1 <= j <= i ==> draws[j] == draws[1..][j - 1];
      1 + i
  }

  /** placeSpecialFood: anywhere on the drawn grid, on the snake or the food included. */
  function PlaceSpecialFood(s: State, d: Draw, width: int, height: int): State
  {
    s.(specialFood := DrawnCell(d, width, height), hasSpecialFood := true)
  }

  /** placeFood: the first drawn cell off the snake becomes the food; then, on a roll
      below SPECIAL_CHANCE and only while no special food is present, special food. */
  function PlaceFood(s: State, rolls: Rolls, width: int, height: int): (t: State)
    requires HasFreeDraw(rolls.cells, s.snake, width, height)
    ensures t.food !in s.snake
    ensures t == s.(food := t.food, specialFood := t.specialFood, hasSpecialFood := t.hasSpecialFood)
  {
    var cell := DrawnCell(rolls.cells[FirstFree(rolls.cells, s.snake, width, height)], width, height);
    var placed := s.(food := cell);
    if rolls.spawn < SPECIAL_CHANCE && !s.hasSpecialFood then
      PlaceSpecialFood(placed, rolls.special, width, height)
    else
      placed
  }

  /** The timeout of placeSpecialFood firing. */
  function ExpireSpecial(s: State): State
  {
    s.(hasSpecialFood := false)
  }

  // ---------------------------------------------------------------- eating

  function MealAt(s: State): Meal
    requires |s.snake| > 0
  {
    if s.snake[0] == s.food then RegularMeal
    else if s.hasSpecialFood && s.snake[0] == s.specialFood then SpecialMeal
    else NoMeal
  }

  /** The speed-up of a regular meal. */
  function SpeedUp(s: State): State
  {
    if s.gameSpeed > SPEED_FLOOR then s.(gameSpeed := s.gameSpeed - SPEED_STEP) else s
  }

  /** The high-score update after a meal. */
  function RecordHighScore(s: State): State
  {
    if s.score > s.highScore then s.(highScore := s.score) else s
  }

  /** What checkFood needs from the random source: a free draw if it will call placeFood. */
  predicate CanCheckFood(s: State, rolls: Rolls, width: int, height: int)
    requires |s.snake| > 0
  {
    MealAt(s) == RegularMeal ==> HasFreeDraw(rolls.cells, s.snake, width, height)
  }

  /** checkFood: eat the food at the head, if any, and score it; whether it ate is `MealAt(s) != NoMeal`. */
  function CheckFood(s: State, rolls: Rolls, width: int, height: int): (t: State)
    requires |s.snake| > 0 && CanCheckFood(s, rolls, width, height)
    ensures t.snake == s.snake && t.direction == s.direction && t.nextDirection == s.nextDirection
    ensures t.isPaused == s.isPaused && t.isGameOver == s.isGameOver
  {
    match MealAt(s)
    case RegularMeal =>
      RecordHighScore(PlaceFood(SpeedUp(s.(score := s.score + 1)), rolls, width, height))
    case SpecialMeal =>
      RecordHighScore(s.(score := s.score + SPECIAL_POINTS, hasSpecialFood := false))
    case NoMeal =>
      s
  }

  // ---------------------------------------------------------------- moving

  /** The head moveSnake prepends. */
  function NewHead(s: State): Point
    requires |s.snake| > 0
  {
    Step(s.snake[0], s.direction)
  }

  /** The snake right after `unshift`, before checkFood and `pop`. */
  function Grown(s: State): State
    requires |s.snake| > 0
  {
    s.(snake := [NewHead(s)] + s.snake)
  }

  predicate CanMove(s: State, rolls: Rolls, width: int, height: int)
  {
    |s.snake| > 0 && CanCheckFood(Grown(s), rolls, width, height)
  }

  /** moveSnake: prepend the new head, run checkFood, and drop the tail unless it ate. */
  function Move(s: State, rolls: Rolls, width: int, height: int): State
    requires CanMove(s, rolls, width, height)
  {
    var grown := Grown(s);
    var fed := CheckFood(grown, rolls, width, height);
    if MealAt(grown) != NoMeal then fed else fed.(snake := fed.snake[..|fed.snake| - 1])
  }

  /** Some segment after the head sits on the head. */
  predicate HitsBody(snake: seq<Point>)
  {
    exists i :: 1 <= i < |snake| && snake[i] == snake[0]
  }

  /** checkCollision: the head is outside the canvas or on a later segment. */
  predicate Collides(snake: seq<Point>, width: int, height: int)
    requires |snake| > 0
  {
    !InBounds(snake[0], width, height) || HitsBody(snake)
  }

  /** The state part of gameOver. */
  function GameOver(s: State): State
  {
    s.(isGameOver := true)
  }

  // ---------------------------------------------------------------- the tick

  /** The standing invariant of the game variables (see Properties). */
  predicate Inv(s: State, width: int, height: int)
  {
    CanvasOk(width, height)
    && s.nextDirection != Opposite(s.direction)
    && SPEED_FLOOR <= s.gameSpeed <= INITIAL_SPEED && s.gameSpeed % SPEED_STEP == 0
    && 0 <= s.score <= s.highScore
    && s.food !in s.snake
    && (s.snake == [] ==> s.isGameOver)
    && (s.snake != [] ==> |s.snake| >= 3 && FoodCellOk(s.food, width, height))
    && (s.hasSpecialFood ==> FoodCellOk(s.specialFood, width, height))
    && (!s.isGameOver ==> NoDuplicates(s.snake))
  }

  /** The state gameLoop hands to moveSnake. */
  function Turned(s: State): State
  {
    s.(direction := s.nextDirection)
  }

  /** What a tick needs from the random source. */
  predicate CanTick(s: State, rolls: Rolls, width: int, height: int)
  {
    !s.isPaused && !s.isGameOver && |s.snake| > 0 ==> CanMove(Turned(s), rolls, width, height)
  }

  /** After a move from a state whose food is off the snake, the food is still off
      the snake; so the second checkFood of a tick never finds regular food. */
  lemma MoveKeepsFoodOff(s: State, rolls: Rolls, width: int, height: int)
    requires CanMove(s, rolls, width, height) && s.food !in s.snake
    ensures var t := Move(s, rolls, width, height); |t.snake| > 0 && t.food !in t.snake
  {
    var grown := Grown(s);
    var t := Move(s, rolls, width, height);
    match MealAt(grown)
    case RegularMeal =>
    case SpecialMeal =>
    case NoMeal =>
      assert t.snake == [NewHead(s)] + s.snake[..|s.snake| - 1];
  }

  /** gameLoop: nothing while paused or over; otherwise apply the buffered turn,
      move, end the game on a collision, and otherwise run checkFood once more. */
  function Tick(s: State, rolls: Rolls, width: int, height: int): State
    requires Inv(s, width, height) && CanTick(s, rolls, width, height)
  {
    if s.isPaused || s.isGameOver then s
    else
      var moved := Move(Turned(s), rolls, width, height);
      MoveKeepsFoodOff(Turned(s), rolls, width, height);
      if Collides(moved.snake, width, height) then GameOver(moved)
      else CheckFood(moved, rolls, width, height)
  }

  // ---------------------------------------------------------------- input and lifecycle

  /** togglePause, state part: it flips the flag whatever the game state. */
  function TogglePause(s: State): State
  {
    s.(isPaused := !s.isPaused)
  }

  /** One arrow key: accepted unless it reverses the heading applied last tick. */
  function Turn(s: State, d: Direction): State
  {
    if s.direction != Opposite(d) then s.(nextDirection := d) else s
  }

  /** The keydown handler: ignored once the game is over. */
  function HandleKey(s: State, key: Key): State
  {
    if s.isGameOver then s
    else
      match key
      case ArrowUp => Turn(s, Up)
      case ArrowDown => Turn(s, Down)
      case ArrowLeft => Turn(s, Left)
      case ArrowRight => Turn(s, Right)
      case Space => TogglePause(s)
      case OtherKey => s
  }

  /** initGame: the initial snake heading right, score 0, initial speed, new food,
      then running and unpaused. `hasSpecialFood` and `highScore` carry over. */
  function Init(s: State, rolls: Rolls, width: int, height: int): State
    requires HasFreeDraw(rolls.cells, InitialSnake(), width, height)
  {
    var reset := s.(snake := InitialSnake(), direction := Right, nextDirection := Right,
                    score := 0, gameSpeed := INITIAL_SPEED);
    PlaceFood(reset, rolls, width, height).(isGameOver := false, isPaused := false)
  }
}
