/** The desktop version of the game (snake.py). Its state is the class
    `GameState`; the event loop of `main` feeds it key presses, button
    clicks and the one-shot regeneration timer, and calls `move_snake` once
    per frame. The functions before the class say what one call does to a
    snapshot of the state, and the lemmas state the rules of the game about
    them. */
module SnakePy {
  import opened Grid
  import opened Placement

  /** TILE_COUNT = WINDOW_SIZE // GRID_SIZE = 1200 // 40. */
  const TileCount: nat := 30

  /** The frames between two moves (move_delay). */
  const MoveDelay: int := 15

  datatype Key = Space | Up | Down | Left | Right | OtherKey

  /** The events `main` reacts to. A click carries the button it hit. */
  datatype Event = KeyDown(key: Key) | RegenerateTimer | ClickRestart | ClickPause

  /** A snapshot of the fields of GameState that the game logic uses. */
  datatype Snapshot = Snapshot(
    snake: seq<Cell>,
    foods: seq<Cell>,
    walls: seq<Cell>,
    direction: Vec,
    score: int,
    gameOver: bool,
    isPaused: bool,
    isGeneratingMaze: bool,
    moveCounter: int,
    moveDelay: int)

  // ---------------------------------------------------------------------
  // move_snake

  function NewHead(s: Snapshot): Cell
    requires |s.snake| >= 1
  {
    Shift(s.snake[0], s.direction.dx, s.direction.dy)
  }

  /** The collision test of move_snake, made before the snake moves: off
      the board, anywhere on the snake (its tail included), or on a wall. */
  predicate Blocked(h: Cell, snake: seq<Cell>, walls: seq<Cell>) {
    !InGrid(h, TileCount) || h in snake || h in walls
  }

  /** This call of move_snake moves the snake (or collides): not paused,
      the frame counter reached the delay, a direction is set and the game
      is not over. */
  predicate Moves(s: Snapshot) {
    !s.isPaused && s.moveCounter + 1 >= s.moveDelay && s.direction != Vec(0, 0) && !s.gameOver
  }

  /** move_snake. */
  function Advance(s: Snapshot): (r: Snapshot)
    requires |s.snake| >= 1
  {
    if s.isPaused then s
    else if s.moveCounter + 1 < s.moveDelay then s.(moveCounter := s.moveCounter + 1)
    else if s.direction == Vec(0, 0) || s.gameOver then s.(moveCounter := 0)
    else
      var h := NewHead(s);
      if Blocked(h, s.snake, s.walls) then s.(moveCounter := 0, gameOver := true)
      else if h in s.foods then
        var foods := RemoveAt(s.foods, IndexOf(s.foods, h));
        s.(moveCounter := 0, snake := [h] + s.snake, score := s.score + 10, foods := foods,
           isGeneratingMaze := s.isGeneratingMaze || foods == [])
      else
        s.(moveCounter := 0, snake := [h] + s.snake[..|s.snake| - 1])
  }

  /** When move_snake does not move: while paused nothing changes; below
      the delay only the counter advances; on reaching the delay the
      counter returns to 0 and, without a direction or after game over,
      nothing else changes. */
  lemma AdvanceIdle(s: Snapshot)
    requires |s.snake| >= 1
    ensures s.isPaused ==> Advance(s) == s
    ensures !s.isPaused && s.moveCounter + 1 < s.moveDelay ==>
      Advance(s) == s.(moveCounter := s.moveCounter + 1)
    ensures !s.isPaused && s.moveCounter + 1 >= s.moveDelay && (s.direction == Vec(0, 0) || s.gameOver) ==>
      Advance(s) == s.(moveCounter := 0)
    ensures !Moves(s) ==> Advance(s).snake == s.snake && Advance(s).gameOver == s.gameOver
  {
  }

  /** A blocked new head ends the game before anything moves: the snake,
      the food and the score are those of before. */
  lemma AdvanceCollision(s: Snapshot)
    requires |s.snake| >= 1 && Moves(s) && Blocked(NewHead(s), s.snake, s.walls)
    ensures Advance(s) == s.(moveCounter := 0, gameOver := true)
    ensures Advance(s).snake == s.snake && Advance(s).foods == s.foods && Advance(s).score == s.score
  {
  }

  /** A move that is not blocked: the new head leads; without food the
      length and score stay and the tail is dropped; with food the snake
      grows by one, the score by 10, and that food (its first occurrence)
      leaves the list. */
  lemma AdvanceMove(s: Snapshot)
    requires |s.snake| >= 1 && Moves(s) && !Blocked(NewHead(s), s.snake, s.walls)
    ensures var r := Advance(s); var h := NewHead(s);
      && r.snake[0] == h && !r.gameOver && r.moveCounter == 0 && r.walls == s.walls
      && (h !in s.foods ==>
            r.snake == [h] + s.snake[..|s.snake| - 1] && r.score == s.score && r.foods == s.foods)
      && (h in s.foods ==>
            && r.snake == [h] + s.snake && r.score == s.score + 10
            && |r.foods| == |s.foods| - 1
            && exists i :: 0 <= i < |s.foods| && s.foods[i] == h
                 && (forall j :: 0 <= j < i ==> s.foods[j] != h)
                 && r.foods == s.foods[..i] + s.foods[i + 1..])
  {
    var h := NewHead(s);
    if h in s.foods {
      var i := IndexOf(s.foods, h);
      assert s.foods[i] == h;
    }
  }

  /** The regeneration flag after move_snake is set exactly when it was
      set or this call moved onto the last food: move_snake never clears
      it, a move that eats the last food raises it, and nothing else does. */
  lemma AdvanceFlag(s: Snapshot)
    requires |s.snake| >= 1
    ensures Advance(s).isGeneratingMaze <==>
      s.isGeneratingMaze
      || (Moves(s) && !Blocked(NewHead(s), s.snake, s.walls) && NewHead(s) in s.foods && Advance(s).foods == [])
    ensures s.isGeneratingMaze ==> Advance(s).isGeneratingMaze
    ensures !s.isGeneratingMaze && Advance(s).isGeneratingMaze ==>
      && Moves(s) && NewHead(s) in s.foods && Advance(s).foods == []
      && |Advance(s).snake| == |s.snake| + 1
  {
  }

  /** The frame counter stays in [0, move_delay). */
  lemma AdvanceCounter(s: Snapshot)
    requires |s.snake| >= 1 && 0 <= s.moveCounter < s.moveDelay
    ensures 0 <= Advance(s).moveCounter < Advance(s).moveDelay
    ensures Advance(s).moveDelay == s.moveDelay
  {
  }

  /** The snake's shape: at least one cell, all on the board, no cell
      twice, and each cell next to the one before it. */
  predicate WellFormedSnake(snake: seq<Cell>) {
    && |snake| >= 1
    && (forall c :: c in snake ==> InGrid(c, TileCount))
    && Distinct(snake)
    && forall i :: 0 <= i < |snake| - 1 ==> Distance(snake[i], snake[i + 1]) == 1
  }

  /** Because the head is tested against the whole body before it moves,
      a well-formed snake stays well formed. */
  lemma AdvanceKeepsSnake(s: Snapshot)
    requires WellFormedSnake(s.snake) && IsDirection(s.direction.dx, s.direction.dy)
    ensures WellFormedSnake(Advance(s).snake)
  {
    if Moves(s) && !Blocked(NewHead(s), s.snake, s.walls) {
      var h := NewHead(s);
      assert Distance(h, s.snake[0]) == 1;
      var body := if h in s.foods then s.snake else s.snake[..|s.snake| - 1];
      var r := [h] + body;
      assert r == Advance(s).snake;
      assert forall c :: c in body ==> c in s.snake;
      forall i, j | 0 <= i < j < |r| ensures r[i] != r[j] {
        if i == 0 {
          assert r[j] == body[j - 1] && body[j - 1] in s.snake;
        } else {
          assert r[i] == s.snake[i - 1] && r[j] == s.snake[j - 1];
        }
      }
      forall i | 0 <= i < |r| - 1 ensures Distance(r[i], r[i + 1]) == 1 {
        if i == 0 {
          DistanceSymmetric(h, s.snake[0]);
        } else {
          assert r[i] == s.snake[i - 1] && r[i + 1] == s.snake[i];
        }
      }
    }
  }

  // ---------------------------------------------------------------------
  // Key and click events

  /** The direction after an arrow key; a key asking for the reverse of the
      current direction is ignored. */
  function Turn(v: Vec, key: Key): (r: Vec) {
    if key == Up && v.dy != 1 then Vec(0, -1)
    else if key == Down && v.dy != -1 then Vec(0, 1)
    else if key == Left && v.dx != 1 then Vec(-1, 0)
    else if key == Right && v.dx != -1 then Vec(1, 0)
    else v
  }

  /** A key press: nothing after game over; space toggles the pause; other
      keys steer, but not while paused. */
  function OnKey(s: Snapshot, key: Key): (r: Snapshot) {
    if s.gameOver then s
    else if key == Space then s.(isPaused := !s.isPaused)
    else if s.isPaused then s
    else s.(direction := Turn(s.direction, key))
  }

  predicate IsArrow(key: Key) {
    key == Up || key == Down || key == Left || key == Right
  }

  function Heading(key: Key): Vec
    requires IsArrow(key)
  {
    match key
    case Up => Vec(0, -1)
    case Down => Vec(0, 1)
    case Left => Vec(-1, 0)
    case Right => Vec(1, 0)
  }

  /** Keys are ignored after game over; space toggles the pause and nothing
      else; while paused the direction keys are ignored; otherwise an arrow
      sets its unit vector unless it asks for the reverse of the current
      direction, which is kept. The direction stays legal. */
  lemma OnKeyRule(s: Snapshot, key: Key)
    requires IsDirection(s.direction.dx, s.direction.dy)
    ensures s.gameOver ==> OnKey(s, key) == s
    ensures !s.gameOver && key == Space ==> OnKey(s, key) == s.(isPaused := !s.isPaused)
    ensures key != Space && s.isPaused ==> OnKey(s, key) == s
    ensures !s.gameOver && !s.isPaused && IsArrow(key) ==>
      && ((OnKey(s, key).direction == Heading(key))
            <==> (s.direction != Vec(-Heading(key).dx, -Heading(key).dy)))
      && (s.direction == Vec(-Heading(key).dx, -Heading(key).dy) ==> OnKey(s, key) == s)
    ensures IsDirection(OnKey(s, key).direction.dx, OnKey(s, key).direction.dy)
    ensures OnKey(s, key).(direction := s.direction, isPaused := s.isPaused) == s
  {
  }

  // ---------------------------------------------------------------------
  // Maze and food

  /** The random draws fit generate_maze over n old walls. */
  predicate WallDrawsFit(d: Draws, n: nat) {
    IsPermutation(d.shuffle, n)
    && |d.wallDraws| >= WallsToGenerate(n, TileCount)
    && DrawsInInnerBox(d.wallDraws, TileCount)
  }

  /** The random draws fit generate_food: randint(1, 3) foods, one stream
      of board cells per food. */
  predicate FoodDrawsFit(d: Draws) {
    1 <= d.foodCount <= 3 && |d.foodDraws| >= d.foodCount && DrawsInGrid(d.foodDraws, TileCount)
  }

  /** generate_maze: the kept walls, then one single-wall placement per
      wall to generate. */
  function MazeWalls(walls: seq<Cell>, snake: seq<Cell>, foods: seq<Cell>, d: Draws): (r: seq<Cell>)
    requires |snake| >= 1 && WallDrawsFit(d, |walls|)
  {
    PlaceWalls(Kept(walls, d.shuffle), snake[0], snake, foods, d.wallDraws[..WallsToGenerate(|walls|, TileCount)])
  }

  function MazeShortfall(walls: seq<Cell>, snake: seq<Cell>, foods: seq<Cell>, d: Draws): nat
    requires |snake| >= 1 && WallDrawsFit(d, |walls|)
  {
    Shortfall(Kept(walls, d.shuffle), snake[0], snake, foods, d.wallDraws[..WallsToGenerate(|walls|, TileCount)])
  }

  /** With n > 0 old walls, generate_maze keeps int(0.9 n) of them, which
      come first, and every placement that finds a cell adds one more, so
      with no shortfall it ends with exactly n walls; the first maze gets
      int(30 * 4 * 0.2) + int(30 * 30 * 0.02) = 42 walls. */
  lemma MazeCount(walls: seq<Cell>, snake: seq<Cell>, foods: seq<Cell>, d: Draws)
    requires |snake| >= 1 && WallDrawsFit(d, |walls|)
    ensures var r := MazeWalls(walls, snake, foods, d);
      var kept := Kept(walls, d.shuffle);
      && (|walls| > 0 ==> |kept| == |walls| * 9 / 10)
      && |kept| <= |r| && (forall i :: 0 <= i < |kept| ==> r[i] == kept[i] && r[i] in walls)
      && |r| + MazeShortfall(walls, snake, foods, d) == (if |walls| > 0 then |walls| else 42)
  {
    var ds := d.wallDraws[..WallsToGenerate(|walls|, TileCount)];
    assert DrawsInInnerBox(ds, TileCount) by {
      forall k, c | 0 <= k < |ds| && c in ds[k] ensures InInnerBox(c, TileCount) {
        assert ds[k] == d.wallDraws[k];
      }
    }
    if |walls| > 0 {
      RetainedFacts(walls, d.shuffle);
    }
    PlaceWallsFacts(Kept(walls, d.shuffle), snake[0], snake, foods, ds, TileCount);
  }

  /** The wall invariant: sound walls (inside the inner box, pairwise at
      distance at least 2, so distinct) stay sound across generate_maze.
      Every wall after the kept ones, including one that lands where a
      dropped old wall stood, keeps off the snake and the food and at
      distance at least 3 from the head. */
  lemma MazeKeepsWallsSound(walls: seq<Cell>, snake: seq<Cell>, foods: seq<Cell>, d: Draws)
    requires |snake| >= 1 && WallDrawsFit(d, |walls|)
    requires WallsSound(walls, TileCount)
    ensures WallsSound(MazeWalls(walls, snake, foods, d), TileCount)
    ensures var r := MazeWalls(walls, snake, foods, d);
      forall i :: |Kept(walls, d.shuffle)| <= i < |r| ==>
        r[i] !in snake && r[i] !in foods && Distance(r[i], snake[0]) >= 3
  {
    var kept := Kept(walls, d.shuffle);
    var ds := d.wallDraws[..WallsToGenerate(|walls|, TileCount)];
    assert DrawsInInnerBox(ds, TileCount) by {
      forall k, c | 0 <= k < |ds| && c in ds[k] ensures InInnerBox(c, TileCount) {
        assert ds[k] == d.wallDraws[k];
      }
    }
    if |walls| > 0 {
      RetainedFacts(walls, d.shuffle);
    }
    assert WallsSound(kept, TileCount);
    PlaceWallsSound(kept, snake[0], snake, foods, ds, TileCount);
    PlaceWallsFacts(kept, snake[0], snake, foods, ds, TileCount);
  }

  // ---------------------------------------------------------------------
  // The game state

  class GameState {
    var snake: seq<Cell>
    var foods: seq<Cell>
    var walls: seq<Cell>
    var direction: Vec
    var score: int
    var gameOver: bool
    var isPaused: bool
    var isGeneratingMaze: bool
    var moveCounter: int
    var moveDelay: int

    ghost predicate Valid()
      reads this
    {
      && WellFormedSnake(snake)
      && IsDirection(direction.dx, direction.dy)
      && moveDelay == MoveDelay && 0 <= moveCounter < moveDelay
      && WallsSound(walls, TileCount)
    }

    function State(): Snapshot
      reads this
    {
      Snapshot(snake, foods, walls, direction, score, gameOver, isPaused, isGeneratingMaze, moveCounter, moveDelay)
    }

    /** __init__ without the window: reset. */
    constructor (d: Draws)
      requires WallDrawsFit(d, 0) && FoodDrawsFit(d)
      ensures Valid()
      ensures snake == [Cell(10, 10)] && direction == Vec(0, 0) && score == 0
      ensures !gameOver && !isPaused && !isGeneratingMaze && moveCounter == 0 && moveDelay == 15
      ensures walls == MazeWalls([], [Cell(10, 10)], [Cell(15, 15)], d)
      ensures foods == Refill(snake, walls, d.foodDraws[..d.foodCount])
    {
      snake, foods, walls := [], [], [];
      direction := Vec(0, 0);
      score, moveCounter, moveDelay := 0, 0, 0;
      gameOver, isPaused, isGeneratingMaze := false, false, false;
      new;
      Reset(d);
    }

    /** reset: the initial snake, one food at (15, 15) and no walls while
        the first maze is generated, then fresh food; the regeneration
        timer is stopped, so no regeneration is pending. */
    method Reset(d: Draws)
      requires WallDrawsFit(d, 0) && FoodDrawsFit(d)
      modifies this
      ensures Valid()
      ensures snake == [Cell(10, 10)] && direction == Vec(0, 0) && score == 0
      ensures !gameOver && !isPaused && !isGeneratingMaze && moveCounter == 0 && moveDelay == 15
      ensures walls == MazeWalls([], [Cell(10, 10)], [Cell(15, 15)], d)
      ensures foods == Refill(snake, walls, d.foodDraws[..d.foodCount])
    {
      snake := [Cell(10, 10)];
      foods := [Cell(15, 15)];
      walls := [];
      direction := Vec(0, 0);
      score := 0;
      gameOver := false;
      isPaused := false;
      isGeneratingMaze := false;
      moveCounter := 0;
      moveDelay := 15;
      MazeKeepsWallsSound(walls, snake, foods, d);
      GenerateMaze(d);
      GenerateFood(d);
    }

    /** generate_single_wall: reads the state and returns the first allowed
        candidate of the stream, in the inner box, retrying by recursion
        after each rejected candidate; None when the stream holds none. */
    method GenerateSingleWall(draws: seq<Cell>) returns (r: Option<Cell>)
      requires |snake| >= 1
      ensures r == FirstWall(draws, snake[0], snake, foods, walls)
      decreases |draws|
    {
      if draws == [] {
        return None;
      }
      var newWall := draws[0];
      var snakeHead := snake[0];
      var distanceToHead := Distance(newWall, snakeHead);
      if newWall in snake || newWall in foods || newWall in walls || distanceToHead < 3 {
        r := GenerateSingleWall(draws[1..]);
        return;
      }
      var i := 0;
      while i < |walls|
        invariant 0 <= i <= |walls|
        invariant forall j :: 0 <= j < i ==> Distance(walls[j], newWall) >= 2
      {
        if Distance(walls[i], newWall) < 2 {
          r := GenerateSingleWall(draws[1..]);
          return;
        }
        i := i + 1;
      }
      return Some(newWall);
    }

    /** generate_maze. */
    method GenerateMaze(d: Draws)
      requires |snake| >= 1 && WallDrawsFit(d, |walls|)
      modifies this`walls
      ensures walls == MazeWalls(old(walls), snake, foods, d)
    {
      var oldWalls := walls;
      var totalWallCount := |oldWalls|;
      walls := [];
      if |oldWalls| > 0 {
        var wallsToKeep := |oldWalls| * 9 / 10;
        walls := Permute(oldWalls, d.shuffle)[..wallsToKeep];
      }
      var wallsToGenerate := 0;
      if totalWallCount > 0 {
        wallsToGenerate := totalWallCount - |walls|;
      } else {
        wallsToGenerate := TileCount * 4 / 5 + TileCount * TileCount / 50;
      }
      assert wallsToGenerate == WallsToGenerate(totalWallCount, TileCount);
      AddNewWalls(d.wallDraws[..wallsToGenerate]);
    }

    /** The `for _ in range(walls_to_generate)` loop of generate_maze: one
        single-wall placement per stream, appended when it finds a cell. */
    method AddNewWalls(ds: seq<seq<Cell>>)
      requires |snake| >= 1
      modifies this`walls
      ensures walls == PlaceWalls(old(walls), snake[0], snake, foods, ds)
    {
      var j := 0;
      while j < |ds|
        invariant 0 <= j <= |ds|
        invariant walls == PlaceWalls(old(walls), snake[0], snake, foods, ds[..j])
      {
        ghost var prev := walls;
        var newWall := GenerateSingleWall(ds[j]);
        if newWall.Some? {
          walls := walls + [newWall.value];
        }
        assert ds[..j + 1][..j] == ds[..j] && ds[..j + 1][j] == ds[j];
        assert PlaceWalls(old(walls), snake[0], snake, foods, ds[..j + 1])
            == prev + AsList(FirstWall(ds[j], snake[0], snake, foods, prev));
        j := j + 1;
      }
      assert ds[..j] == ds;
    }

    /** generate_food: clear the list and place randint(1, 3) foods. */
    method GenerateFood(d: Draws)
      requires FoodDrawsFit(d)
      modifies this`foods
      ensures foods == Refill(snake, walls, d.foodDraws[..d.foodCount])
    {
      foods := [];
      var foodCount := d.foodCount;
      var i := 0;
      while i < foodCount
        invariant 0 <= i <= foodCount
        invariant foods == Refill(snake, walls, d.foodDraws[..i])
      {
        assert d.foodDraws[..i + 1][..i] == d.foodDraws[..i];
        GenerateSingleFood(d.foodDraws[i]);
        i := i + 1;
      }
    }

    /** generate_single_food: the `while True` loop over the candidate
        stream; the first free candidate is appended. */
    method GenerateSingleFood(draws: seq<Cell>)
      modifies this`foods
      ensures foods == old(foods) + AsList(FirstFood(draws, snake, old(foods), walls))
    {
      var k := 0;
      while k < |draws|
        invariant 0 <= k <= |draws|
        invariant foods == old(foods)
        invariant FirstFood(draws, snake, foods, walls) == FirstFood(draws[k..], snake, foods, walls)
      {
        var newFood := draws[k];
        if newFood !in snake && newFood !in foods && newFood !in walls {
          foods := foods + [newFood];
          return;
        }
        assert draws[k..][1..] == draws[k + 1..];
        k := k + 1;
      }
    }

    /** move_snake. */
    method MoveSnake()
      requires Valid()
      modifies this
      ensures Valid()
      ensures State() == Advance(old(State()))
    {
      ghost var s := State();
      AdvanceKeepsSnake(s);
      AdvanceCounter(s);
      if isPaused {
        return;
      }
      moveCounter := moveCounter + 1;
      if moveCounter < moveDelay {
        assert State() == Advance(s);
        return;
      }
      moveCounter := 0;
      if direction == Vec(0, 0) || gameOver {
        assert State() == Advance(s);
        return;
      }
      var newHead := Cell(snake[0].x + direction.dx, snake[0].y + direction.dy);
      assert newHead == NewHead(s);
      if newHead.x < 0 || newHead.x >= TileCount || newHead.y < 0 || newHead.y >= TileCount
         || newHead in snake || newHead in walls {
        gameOver := true;
        assert State() == Advance(s);
        return;
      }
      snake := [newHead] + snake;
      if newHead in foods {
        score := score + 10;
        foods := RemoveAt(foods, IndexOf(foods, newHead));
        if foods == [] && !isGeneratingMaze {
          isGeneratingMaze := true;
        }
      } else {
        snake := snake[..|snake| - 1];
      }
      assert State() == Advance(s);
    }

    /** One event of the loop in `main`: a key press, the regeneration
        timer (acted on only while a regeneration is pending), or a click
        on the restart button (shown only after game over) or the pause
        button (shown only while the game runs). */
    method HandleEvent(e: Event, d: Draws)
      requires Valid()
      requires e == RegenerateTimer ==> WallDrawsFit(d, |walls|) && FoodDrawsFit(d)
      requires e == ClickRestart ==> WallDrawsFit(d, 0) && FoodDrawsFit(d)
      modifies this
      ensures Valid()
      ensures e.KeyDown? ==> State() == OnKey(old(State()), e.key)
      ensures e == ClickPause ==>
        State() == if old(gameOver) then old(State()) else old(State()).(isPaused := !old(isPaused))
      ensures e == RegenerateTimer && !old(isGeneratingMaze) ==> State() == old(State())
      ensures e == RegenerateTimer && old(isGeneratingMaze) ==>
        && walls == MazeWalls(old(walls), snake, old(foods), d)
        && foods == Refill(snake, walls, d.foodDraws[..d.foodCount])
        && !isGeneratingMaze
        && State().(walls := old(walls), foods := old(foods), isGeneratingMaze := true) == old(State())
      ensures e == ClickRestart && !old(gameOver) ==> State() == old(State())
      ensures e == ClickRestart && old(gameOver) ==>
        && snake == [Cell(10, 10)] && direction == Vec(0, 0) && score == 0
        && !gameOver && !isPaused && !isGeneratingMaze && moveCounter == 0
        && walls == MazeWalls([], [Cell(10, 10)], [Cell(15, 15)], d)
        && foods == Refill(snake, walls, d.foodDraws[..d.foodCount])
    {
      match e
      case KeyDown(key) =>
        OnKeyRule(State(), key);
        if !gameOver {
          if key == Space {
            isPaused := !isPaused;
          } else if !isPaused {
            if key == Up && direction.dy != 1 {
              direction := Vec(0, -1);
            } else if key == Down && direction.dy != -1 {
              direction := Vec(0, 1);
            } else if key == Left && direction.dx != 1 {
              direction := Vec(-1, 0);
            } else if key == Right && direction.dx != -1 {
              direction := Vec(1, 0);
            }
          }
        }
      case RegenerateTimer =>
        if isGeneratingMaze {
          MazeKeepsWallsSound(walls, snake, foods, d);
          GenerateMaze(d);
          GenerateFood(d);
          isGeneratingMaze := false;
        }
      case ClickRestart =>
        if gameOver {
          Reset(d);
        }
      case ClickPause =>
        if !gameOver {
          isPaused := !isPaused;
        }
    }
  }
}
