# Snake with a maze: a Dafny model

This project models the game logic of a grid snake game with maze walls,
written twice: `snake.js`, a browser version whose state lives in
module-level variables, and `snake.py`, a pygame version whose state is the
`GameState` class. In both, a snake moves across a square board of cells.
It eats food (+10 points, one cell longer) and dies on the board's edge, on
a wall or on itself. When the last food is eaten, a level regeneration is
scheduled one second later. It keeps 90% of the walls, tops the wall count
back up, and places 1 to 3 new foods.

The project has four modules:

- `Grid` (grid.dfy): cells, Manhattan distance, the board and the inner
  wall box `[5, tileCount-6]²`, and the list helpers the game uses.
- `Placement` (placement.dfy): the placement rules both versions share.
  These cover where a single wall or food may go, which walls a
  regeneration keeps, and how successive single placements build the new
  wall and food lists.
- `SnakeJs` (snake_js.dfy): the browser version. Its variables are the
  fields of class `Game`, and each function of the page is a method
  (`MoveSnake`, `CheckCollision`, `HandleKeyPress`, `ResetGame`,
  `GenerateMaze`, …).
- `SnakePy` (snake_py.dfy): the pygame version. The `GameState` class has
  the source's fields and methods. `HandleEvent` covers the event handling
  of `main`.

In each version, the methods are proved against value-level functions on a
snapshot of the state:

- `Moved` is one JavaScript tick.
- `Advance` is one call of `move_snake`.
- `OnKey` and `Steer` handle the keys.
- `MazeWalls` and `Refill` generate the maze and the food.

The lemmas state the rules of the game about these functions.

Randomness is an input, bundled in a `Draws` value:

- The wall shuffle is a permutation of indices.
- The JavaScript boundary pass uses one 10% coin per candidate.
- Each single wall or food placement gets a finite stream of candidate
  cells. The source draws candidates until one is allowed; the model takes
  the first allowed candidate of the stream.
- The food count is a value in 1..3.

A stream with no allowed candidate places nothing. `Shortfall` counts
those cases, so the wall-count lemmas hold exactly: walls placed plus
shortfall equals the target.

Where the code departs from what the game's structure suggests, the model
follows the code:

- **Boundary walls leave the inner box.** In `snake.js`, the boundary pass
  sweeps indices 3 to tileCount-4 and offers cells on rows and columns 5
  and tileCount-6 (snake.js:128-166). Interior walls are drawn inside
  `[5, tileCount-6]²` (snake.js:182-186), but a boundary wall such as
  (3, 5) is outside that box. `SnakeJs.MazeLayout` states where these walls
  actually lie.
- **Boundary walls skip most checks.** They are checked only against the
  head distance. They are not checked against the snake, the food, other
  walls or the spacing rule. So the spacing invariant that the Python maze
  keeps (`SnakePy.MazeKeepsWallsSound`) is not claimed for JavaScript.
- **Reset leaves a pending regeneration in place.** `resetGame` in
  `snake.js` neither clears `isGeneratingNewMaze` nor cancels the pending
  timeout (snake.js:344-355). `SnakeJs.Game.ResetGame` keeps the flag as it
  was.
- **The two versions test collisions differently.**
  - `snake.js` tests after moving and dropping the tail, against the
    segments after the head (snake.js:39-40, 301-320).
  - `snake.py` tests the new head before moving, against the whole snake,
    tail included (snake.py:142-148).

## Model

| member | source | states |
|---|---|---|
| Placement.WallAllowed | snake.js:194-211 | definition: a candidate wall is off the snake, the food and the walls, at distance ≥ 3 from the head and ≥ 2 from every wall |
| Placement.PlaceWalls | snake.js:171-173 | definition: successive single-wall placements, each against the walls placed before it |
| Placement.FoodAllowed | snake.js:288-290 | definition: a candidate food is off the snake, the food and the walls |
| Placement.Refill | snake.js:264-275 | definition: the food list cleared, then one single-food placement per stream |
| SnakeJs.Moved | snake.js:226-258 | definition: one moveSnake on a snapshot of the state |
| SnakeJs.Collides | snake.js:301-320 | definition: checkCollision's verdict on the moved snake |
| SnakeJs.Steer | snake.js:373-385 | definition: the direction after a non-restart key |
| SnakeJs.MazeWalls | snake.js:95-174 | definition: generateMaze as kept walls, then the boundary pass, then the interior placements |
| SnakePy.Blocked | snake.py:142-146 | definition: the collision test of move_snake on the new head |
| SnakePy.Advance | snake.py:118-161 | definition: one move_snake on a snapshot of the state |
| SnakePy.Turn | snake.py:268-275 | definition: the direction after an arrow key, reversal rejected |
| SnakePy.OnKey | snake.py:263-276 | definition: one key press as `main` handles it |
| SnakePy.MazeWalls | snake.py:76-98 | definition: generate_maze as kept walls, then one single-wall placement per wall to generate |
| Grid.IndexOf | snake.js:234-241 | the position found is the first cell equal to the head, or the list's length exactly when no cell is equal |
| Grid.RemoveAt | snake.js:237 | removing one food keeps the others in their order and shortens the list by one |
| Grid.PermuteFacts | snake.js:108 | a shuffled wall list has the same length, draws every cell from the old list and stays well spaced when the old list was |
| Grid.WellSpacedDistinct | snake.py:69-72 | walls pairwise at distance at least 2 are pairwise distinct |
| Placement.RetainedFacts | snake.py:82-92 | a regeneration keeps exactly floor(0.9 n) old walls, all from the old list; kept plus generated is n; spacing is kept |
| Placement.FirstWall | snake.js:181-220 | the chosen wall is the first allowed candidate: every earlier candidate is rejected, and there is none exactly when no candidate is allowed |
| Placement.PlaceWallsFacts | snake.js:170-173 | successive single placements keep the old walls as a prefix; each new wall lies in the inner box, is off the snake and the food, is at distance ≥ 3 from the head and ≥ 2 from every earlier wall; walls added plus shortfall equals the number of placements |
| Placement.PlaceWallsSound | snake.py:94-98 | placements preserve the wall invariant: inside the inner box and pairwise at distance ≥ 2 |
| Placement.FirstFood | snake.js:281-295 | the chosen food is the first free candidate (off the snake, the food and the walls): every earlier candidate is not free; there is none exactly when no candidate is free |
| Placement.RefillFacts | snake.js:264-275 | a refill has at most one food per stream; the foods are pairwise distinct, on the board and off the snake and the walls |
| Placement.RefillComplete | snake.py:100-104 | with at most three foods to place and three free candidates per stream, the refill has exactly one food per stream |
| SnakeJs.MoveWithoutEating | snake.js:226-258 | a tick that finds no food: the head is the old head plus (dx, dy), the body is the old snake minus its last cell, and the length, score and foods are unchanged |
| SnakeJs.MoveEating | snake.js:233-241 | a tick that eats: the snake grows by exactly one cell in front, the score rises by exactly 10, and only the first food on the head is removed, the rest staying in order |
| SnakeJs.PendingFlag | snake.js:244-251 | the regeneration flag is set iff it was set or the food list is empty after the tick; a newly raised flag means the food ran out |
| SnakeJs.StandingStill | snake.js:301-320 | with direction (0, 0), a one-cell snake on the board and off walls and food stays put and does not collide |
| SnakeJs.StepOntoWall | snake.js:309-312 | a tick onto a wall collides, and the score is unchanged unless that cell held food |
| SnakeJs.SteerRule | snake.js:373-385 | an arrow is ignored iff it reverses the current direction, otherwise it sets its unit vector; other keys change nothing; the direction stays legal |
| SnakeJs.Sweep | snake.js:128-167 | definition: the reference for the boundary pass (the loop stops at the board's end or when the quota is spent, skipping the outer three indices); its own contract only says the quota left never grows, and `SnakeJs.SweepFacts` is its lemma |
| SnakeJs.SweepAtFacts | snake.js:135-166 | the four candidates of one sweep index only append walls on the boundary lines at distance ≥ 3 from the head, one per unit of quota used |
| SnakeJs.SweepFacts | snake.js:124-167 | the whole boundary pass keeps the walls it started from and appends walls on the boundary lines at distance ≥ 3 from the head, one per unit of quota used |
| SnakeJs.MazeCount | snake.js:104-173 | boundary walls are at most min(g, floor(0.7 g)); walls plus shortfall is n for an old maze of n > 0 walls and floor(0.8 t) + floor(t²/50) for the first maze |
| SnakeJs.MazeLayout | snake.js:95-174 | the regenerated list is the kept old walls, then boundary walls on the boundary lines far from the head, then interior walls in the inner box, off snake and food, far from the head and spaced from all earlier walls |
| SnakeJs.Game.constructor | snake.js:405-407 | page load: initial snake (10, 10) at rest, score 0, a first maze generated with food at (15, 15), then a refill, and the tick running |
| SnakeJs.Game.Tick | snake.js:37-45 | one interval tick moves as `Moved` says, and the tick interval keeps running iff the moved snake does not collide |
| SnakeJs.Game.MoveSnake | snake.js:226-258 | the food scan and list updates leave the state equal to `Moved` of the old state |
| SnakeJs.Game.CheckCollision | snake.js:301-320 | a collision is reported iff the head is off the board, on a wall, or equal to a later segment |
| SnakeJs.Game.HandleKeyPress | snake.js:363-386 | 'r' or 'R' restarts the game; any other key steers as `Steer` says and changes nothing else |
| SnakeJs.Game.ResetGame | snake.js:344-355 | snake (10, 10), direction (0, 0), score 0, a maze generated over no walls and no food, then a refill; the tick runs; the regeneration flag is left as it was |
| SnakeJs.Game.RegenerateLevel | snake.js:246-250 | the deferred regeneration replaces the walls by `MazeWalls` and the food by a refill, and clears the flag |
| SnakeJs.Game.GenerateMaze | snake.js:95-174 | the new wall list is `MazeWalls` of the old one |
| SnakeJs.Game.AddBoundaryWalls | snake.js:124-167 | the boundary loop's walls and count equal the `Sweep` of the quota, and the count never exceeds the quota |
| SnakeJs.Game.AddInteriorWalls | snake.js:170-173 | the interior loop's walls equal `PlaceWalls` over its streams |
| SnakeJs.Game.GenerateSingleWall | snake.js:181-220 | one wall is appended iff the stream holds an allowed candidate, and it is the first one |
| SnakeJs.Game.HasNearbyWall | snake.js:204-211 | the scan reports a wall at distance below 2 iff one exists |
| SnakeJs.Game.GenerateFood | snake.js:264-275 | the food list becomes `Refill` over the food count's streams |
| SnakeJs.Game.GenerateSingleFood | snake.js:281-295 | one food is appended iff the stream holds a free candidate, and it is the first one |
| SnakePy.AdvanceIdle | snake.py:118-134 | paused: nothing changes; below the delay: only the counter advances; at the delay without direction or after game over: only the counter resets to 0 |
| SnakePy.AdvanceCollision | snake.py:136-148 | a blocked new head sets game over with snake, foods and score unchanged |
| SnakePy.AdvanceMove | snake.py:150-161 | an unblocked move puts the new head in front; without food the tail drops and the score stays; with food the snake grows by one, the score rises by 10 and the first matching food is removed |
| SnakePy.AdvanceFlag | snake.py:154-159 | after move_snake the regeneration flag is set iff it was set or the call moved onto the last food: it is never cleared, eating the last food raises it, and nothing else does |
| SnakePy.AdvanceCounter | snake.py:124-131 | the frame counter stays in [0, move_delay) |
| SnakePy.AdvanceKeepsSnake | snake.py:136-161 | a snake on the board, with no repeated cell and adjacent consecutive cells, stays so after any call |
| SnakePy.OnKeyRule | snake.py:263-276 | keys are ignored after game over; space toggles the pause only; arrows are ignored while paused, rejected iff they reverse the direction, and otherwise set their unit vector |
| SnakePy.MazeCount | snake.py:76-98 | kept walls are int(0.9 n) old walls at the front; walls plus shortfall is n for n > 0 old walls and 42 for the first maze |
| SnakePy.MazeKeepsWallsSound | snake.py:76-98 | the walls stay inside [5, 24]² and pairwise at distance ≥ 2 across a regeneration; every wall after the kept ones, wherever it lands, is off the snake and food and at distance ≥ 3 from the head |
| SnakePy.GameState.constructor | snake.py:23-30 | construction is a reset |
| SnakePy.GameState.Reset | snake.py:32-47 | snake (10, 10), direction (0, 0), score 0, flags cleared, counter 0, delay 15, a maze generated with food at (15, 15), then a refill; the state invariant holds |
| SnakePy.GameState.GenerateSingleWall | snake.py:49-74 | reads the state only and returns the first allowed candidate, if any |
| SnakePy.GameState.GenerateMaze | snake.py:76-98 | the new wall list is `MazeWalls` of the old one |
| SnakePy.GameState.AddNewWalls | snake.py:94-98 | the generation loop's walls equal `PlaceWalls` over its streams |
| SnakePy.GameState.GenerateFood | snake.py:100-104 | the food list becomes `Refill` over the food count's streams |
| SnakePy.GameState.GenerateSingleFood | snake.py:106-116 | the first free candidate of the stream is appended, or nothing when there is none |
| SnakePy.GameState.MoveSnake | snake.py:118-161 | the new state is `Advance` of the old one, and the state invariant (snake shape, legal direction, counter bounds, sound walls) is kept |
| SnakePy.GameState.HandleEvent | snake.py:250-281 | key presses act as `OnKey`; the pause button toggles the pause unless the game is over; the timer event regenerates walls and food and clears the flag only while it is set; the restart button resets only after game over |

## Left out

- Rendering and output are not modelled: canvas drawing, DOM score text, the game-over panel, the pygame window, fonts and drawing.
- Button hit-testing is not modelled. Its rectangles are computed while drawing, and `collidepoint` is library code. A click is an event that names the button it hit.
- Timers are not modelled: `setInterval`, `setTimeout`, `clearInterval`, `pygame.time.set_timer`, the clock and the frame rate.
  - The JavaScript tick interval is the `running` field: `gameOver` clears it and reset sets it.
  - The one-second regeneration is the pending flag plus an explicit operation (`RegenerateLevel`, the `RegenerateTimer` event).
  - In JavaScript, a timeout still pending at a reset later regenerates the fresh level. The model allows `RegenerateLevel` whenever the flag is set, but does not tie the call to that timeout.
- The pygame event loop itself, `QUIT`, and `pygame.quit`/`sys.exit` are not modelled. `HandleEvent` handles one event and `MoveSnake` is one frame.
- Random number generation is replaced by the inputs in `Draws`. The model does not capture:
  - the bias of `sort(() => Math.random() - 0.5)`;
  - the distribution of any draw.
- Unbounded retries become finite candidate streams. The source redraws until a candidate is allowed: by recursion in `snake.js` and in `generate_single_wall`, and in a `while True` loop in `generate_single_food`.
  - A stream with no allowed cell places nothing, and `Shortfall` counts that.
  - Non-termination when no cell is free is not modelled.
  - Python's recursion depth limit is not modelled.
- Floating-point proportions use integer forms: n*9/10, g*7/10, t*4/5 and t*t/50. These agree with the source's floor and `int` of 0.9, 0.7, 0.2 and 0.02 only under the assumption that the float products round to the exact rationals.
- SnakeJs.MazeCount: the boundary quota min(g, g*7/10) is not always the source's value. For some multiples of 10 from 90 up (90, 170, 180, 330, 340, 350, 360, 650 to 730, and more), `Math.floor(g * 0.7)` in IEEE doubles is one below g*7/10: for g = 90 it is 62, while `MaxBoundary(90)` is 63. g = 90 occurs on the first maze when tileCount is 50 (floor(200 * 0.2) + floor(2500 * 0.02) = 40 + 50), and on regenerations from about 891 old walls. For such g the proved bound is one above the source's quota.
- The JavaScript `tileCount` is a constant parameter of `Game`, with tileCount ≥ 11. It comes from the canvas width, which is not part of this model. Python's `TILE_COUNT` is the constant 30.
- Coordinates and the score are unbounded integers. Neither language wraps them at these sizes.
