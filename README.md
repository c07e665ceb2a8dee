# Snake game core in Dafny

A model of the simulation core of the `snake-io-game` browser game (`script.js`).
A snake moves on a pixel grid of 20-pixel cells. It grows by eating food, and
the game ends when it leaves the canvas or runs into itself. The model covers
these parts of the script:

- the module-level game variables;
- the start of a game (`initGame`);
- food and special-food placement, including its rejection-sampling loop;
- one tick of the game loop: turn, move, collision check and the two `checkFood` calls;
- scoring, speed-up and the high score;
- the pause and game-over flags;
- the keyboard direction filter.

Layout:

- `grid.dfy`, module `Grid`: points, the four directions, one step of the snake,
  the canvas bounds, and how a pair of `Math.random()` values becomes a food cell
  (`Math.floor(r * maxX) * SNAKE_SIZE`, with `r` a real in [0, 1)).
- `rules.dfy`, module `Rules`: the game variables as a value (`State`), with one
  pure transition per script function: `PlaceFood`, `CheckFood`, `Move`, `Tick`,
  `HandleKey`, `Init`, and so on. It also holds the standing invariant `Inv`.
- `game.dfy`, module `Game`: class `Game`. Its fields are the script's variables.
  Its methods update them in place, in the script's own order, with the script's
  loops. Each method is proved to compute the corresponding `Rules` transition
  (`ensures Snapshot() == Rules.Tick(old(Snapshot()), ...)`). The public methods
  also keep `Valid()`, which is the invariant.
- `properties.dfy`, module `Properties`: what the transitions guarantee.

Randomness is supplied by the caller. Each `Math.random()` result is a `real` in
[0, 1). One call of `placeFood` consumes a `Rules.Rolls` value:
- the draws tried by its rejection loop;
- the 10% roll;
- the special food's draw.

A tick calls `placeFood` at most once (`Rules.MoveKeepsFoodOff`), so one `Rolls`
value per tick is enough. The source's loop ends only when a draw lands off the
snake. The model therefore requires that some supplied draw does (`HasFreeDraw`),
and only when the tick will actually place food. Canvas width and height are
parameters: positive multiples of `SNAKE_SIZE` = 20.

The model follows the code as written, including its quirks:

- `checkFood` runs twice per tick: inside `moveSnake` and again after the
  collision check. The second call can never find regular food. It can find
  special food that the first call's `placeFood` has just spawned on the head
  (`DoubleMealExample`), or special food already lying under the eaten food
  (`StackedMealExample`). So one tick can score 6.
- Collision is checked after the tail has been dropped. A head moving into the
  cell the tail just left is therefore safe (`VacatedTailIsSafe`).
- Eating comes before the collision check. Special food is placed without
  avoiding the snake or the food. So a fatal tick can still score, and only
  through special food (`FatalMealIsSpecial`, `FatalMealExample`).
- `initGame` does not reset `hasSpecialFood`. Special food left over from the
  previous game stays.
- Food is drawn with `Math.floor(Math.random() * (width / 20 - 1)) * 20`. The
  drawn coordinates along a side are exactly the multiples of 20 from 0 up to
  `DrawMax`, which is `(side / 20 - 2) * 20` once the side has two cells or more and
  0 for a one-cell side (`ScaleRange`, `ScaleReaches`). So, once a side has two
  cells or more, food never lands in its last cell: not in the last column, not
  in the last row. On a one-cell side every draw is 0, which is that side's only cell.
- Keys are ignored after game over (script.js:393), while the pause button
  toggles in any state (script.js:375-376, 416).
- The speed drops by 2 only while above 50. It stays in [50, 150] because it
  starts at 150 and is always even. The invariant records the parity.

## Model

| member | source | states |
|---|---|---|
| `Game.Game.constructor` | script.js:13-29 | the load state: empty snake, heading right, score 0, stored high score, speed 150, not paused, game over; the invariant holds |
| `Game.Game.InitGame` | script.js:47-73 | performs `Rules.Init`: initial 3-segment snake heading right, score 0, speed 150, new food, running and unpaused; keeps the invariant |
| `Game.Game.DrawFreeCell` | script.js:84-99 | the rejection loop returns a cell off the snake, namely the first supplied draw off the snake |
| `Game.Game.PlaceFood` | script.js:76-108 | performs `Rules.PlaceFood` on the game variables |
| `Game.Game.PlaceSpecialFood` | script.js:111-123 | sets the special food to the drawn cell and raises `hasSpecialFood` |
| `Game.Game.ExpireSpecial` | script.js:126-128 | the timeout clears `hasSpecialFood` and nothing else; keeps the invariant |
| `Game.Game.GameLoop` | script.js:132-155 | performs `Rules.Tick` with the script's statement order; keeps the invariant |
| `Game.Game.MoveSnake` | script.js:158-183 | performs `Rules.Move`: prepend the stepped head, run checkFood, pop unless it ate |
| `Game.Game.CheckCollision` | script.js:186-202 | returns true iff the head is outside the canvas or equal to a segment at index 1 or later |
| `Game.Game.CheckFood` | script.js:205-250 | returns whether food was at the head; performs `Rules.CheckFood` |
| `Game.Game.GameOver` | script.js:355-356 | sets `isGameOver` and nothing else |
| `Game.Game.TogglePause` | script.js:375-376 | flips `isPaused` and nothing else; keeps the invariant |
| `Game.Game.HandleKey` | script.js:392-411 | performs `Rules.HandleKey` (arrow filter, space toggles pause, ignored after game over); keeps the invariant |
| `Grid.StepUndone` | script.js:161-174 | the new head is adjacent to the old one, and stepping the opposite way returns to it |
| `Grid.ScaleRange` | script.js:77-87 | a drawn coordinate is a multiple of 20 in [0, DrawMax] (DrawMax is (extent/20 - 2)·20 from two cells on, 0 for one cell), inside the canvas, and never in its last cell once the side has two cells or more |
| `Grid.ScaleReaches` | script.js:77-87 | every such coordinate is produced by some `Math.random()` value |
| `Grid.DrawnCellOk` | script.js:112-117 | a drawn cell, special food included, lies on the drawn grid and inside the canvas |
| `Rules.FirstFree` | script.js:84-99 | the attempt the loop stops at is off the snake and every earlier attempt was on it |
| `Rules.PlaceFood` | script.js:76-108 | the new food is off the snake; only the food and special-food variables change |
| `Rules.CheckFood` | script.js:205-250 | checkFood never changes the snake, the directions, or the pause and game-over flags |
| `Rules.MoveKeepsFoodOff` | script.js:139-148 | after a move the food is still off the snake, so the tick's second checkFood never eats regular food |
| `Properties.PlaceFoodFacts` | script.js:76-107 | food off the snake, on the drawn grid, at the first free draw; special food created only when absent and the roll is below 0.1; nothing else changes |
| `Properties.RegularMealEffect` | script.js:209-230 | a regular meal adds exactly 1, lowers the speed by 2 only when above 50, places food off the snake, and raises the high score to max(old high score, score) |
| `Properties.SpecialMealEffect` | script.js:234-247 | a special meal happens iff special food is present at the head and regular food is not; it adds exactly 5, clears the flag, leaves speed and food unchanged, and raises the high score to the max |
| `Properties.NoMealEffect` | script.js:205-250 | with no food at the head checkFood changes nothing |
| `Properties.MoveShape` | script.js:158-183 | the new snake is the old head shifted one cell in `direction` followed by all old segments (meal) or all but the last (no meal); the length grows by exactly 1 or 0 |
| `Properties.VacatedTailIsSafe` | script.js:139-142 | moving into the cell the tail leaves, in bounds and without special food there, does not end the game and keeps the length |
| `Properties.CheckFoodKeepsCore` | script.js:205-250 | checkFood keeps the direction rule, speed bounds and parity, score ≤ high score, and the food cells on the drawn grid |
| `Properties.RegularMealKeepsCore` | script.js:209-230 | a regular meal keeps the speed bounds and parity, score ≤ high score, and the new food on the drawn grid |
| `Properties.TickPreservesInv` | script.js:132-148 | a tick keeps the invariant: nextDirection is never the reverse of direction, speed is even and in [50, 150], 0 ≤ score ≤ high score, food is off the snake, the snake has at least 3 segments, and a running snake has no repeated segment |
| `Properties.MovedHasNoDuplicates` | script.js:186-202 | a move that does not hit the body keeps the segments distinct |
| `Properties.UnstartedInv` | script.js:16-29 | the load state satisfies the invariant |
| `Properties.InitEstablishesInv` | script.js:47-73 | initGame establishes the invariant, keeps the high score, keeps the special food's cell when it is present, and starts a running game heading right with score 0 and speed 150 |
| `Properties.KeyPreservesInv` | script.js:392-411 | key input keeps the invariant, changes nothing after game over, and changes only `nextDirection` and `isPaused` |
| `Properties.TurnAcceptedIff` | script.js:396-407 | an arrow key is taken iff it does not reverse the applied direction; a buffered direction that is not the reverse of the applied one stays so after the key |
| `Properties.TogglePausePreservesInv` | script.js:375-376 | the pause flag flips and the invariant holds |
| `Properties.ExpirePreservesInv` | script.js:126-128 | the expiry clears the special food and keeps the invariant |
| `Properties.TickFrozen` | script.js:133 | a tick while paused or over changes nothing |
| `Properties.TickMoves` | script.js:132-145 | a running tick applies nextDirection, never a reversal; moves the head one cell to an adjacent cell; changes the length by 0 or 1; and sets `isGameOver` iff the moved snake collides |
| `Properties.TickScoring` | script.js:132-148 | a running tick adds exactly the points of the meal at the new head, plus, when the moved snake does not collide, the points of the meal the second checkFood finds; in every case the gain is 0, 1, 5 or 6; afterwards the high score is max(old high score, score); the speed never rises and drops by at most 2 |
| `Properties.CheckFoodScoring` | script.js:205-250 | one checkFood adds 1 for regular food, 5 for special food and 0 otherwise; the high score becomes the maximum; only a regular meal lowers the speed, by at most 2 |
| `Properties.FatalMealIsSpecial` | script.js:139-145 | a tick that scores and ends the game ate special food lying on the snake |
| `Properties.FoodCellInBounds` | script.js:77-87 | a cell on the drawn grid is inside the canvas |
| `Properties.FirstTickExample` | script.js:132-155 | after start and one tick with no food ahead: head (220,200), tail dropped, length 3, score 0 |
| `Properties.DoubleMealExample` | script.js:139-148 | a concrete tick that scores 6: regular food, then special food spawned on the head |
| `Properties.StackedMealExample` | script.js:139-148 | a concrete tick that scores 6: special food placed earlier lies under the regular food and the second checkFood eats it |
| `Properties.FatalMealExample` | script.js:139-145 | a concrete tick that eats special food on the body, scores 5 more and ends the game |

## Left out

- Rendering: `draw`, `updateMinimap`, the overlays drawn by `gameOver` and `togglePause`, and the start screen. This is canvas output with floating-point geometry.
- Skins, including the time-dependent rainbow colours, and the random food colour from `foodColors`. These are cosmetic and read by nothing in the simulation. The colour's `Math.random()` call is not part of `Rolls`.
- DOM updates of the score, high score and pause button, and the registration of the button and key listeners.
- `localStorage`: the high score is read once, as a constructor parameter, and stored nowhere. The source compares the number `score` with the *string* it read from storage. The model treats that value as a plain number.
- Timers: the `setInterval` arming and re-arming when the speed changes, and `clearInterval` in `gameOver`. The model keeps `gameSpeed` as a number. The `setTimeout` of `placeSpecialFood` is only the separate `ExpireSpecial` event. A stale timeout from earlier special food, clearing newer special food, is therefore not modelled as such. It is any call of `ExpireSpecial`.
- Probabilities: the uniformity of `Math.random()` and the 10% chance. The random values are exact reals supplied by the caller, so double-precision rounding in `Math.random() * maxX` is not modelled.
- The initial `food = {}` has no coordinates. It is represented by an arbitrary point that no operation reads before `initGame`.
- Game.Game.PlaceFood: requires a supplied draw off the snake. A fully occupied drawn grid makes the source loop forever, and that case is not modelled.
