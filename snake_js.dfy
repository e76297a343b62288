/** The browser version of the game (snake.js). Its state is a set of
    module-level variables that the tick, the key handler and the deferred
    level regeneration update in place; here they are the fields of the
    class `Game`. The functions before the class say what one step does to
    a snapshot of that state, and the lemmas state the rules of the game
    about them. */
module SnakeJs {
  import opened Grid
  import opened Placement

  /** The keys the handler distinguishes; `KeyR` stands for both 'r' and 'R'. */
  datatype Key = ArrowUp | ArrowDown | ArrowLeft | ArrowRight | KeyR | Other

  /** A snapshot of the state a tick reads and writes; `pending` is
      isGeneratingNewMaze, the flag of a scheduled level regeneration. */
  datatype World = World(
    snake: seq<Cell>,
    foods: seq<Cell>,
    walls: seq<Cell>,
    dx: int,
    dy: int,
    score: int,
    pending: bool)

  // ---------------------------------------------------------------------
  // The tick

  function NextHead(w: World): Cell
    requires |w.snake| >= 1
  {
    Shift(w.snake[0], w.dx, w.dy)
  }

  /** moveSnake: the new head goes in front; the first food on it is eaten
      (+10, the tail stays) or else the tail is dropped; an empty food list
      schedules one level regeneration unless one is already pending. */
  function Moved(w: World): (r: World)
    requires |w.snake| >= 1
  {
    var head := NextHead(w);
    var i := IndexOf(w.foods, head);
    if i < |w.foods| then
      var foods := RemoveAt(w.foods, i);
      w.(snake := [head] + w.snake, foods := foods, score := w.score + 10,
         pending := w.pending || foods == [])
    else
      w.(snake := [head] + w.snake[..|w.snake| - 1], pending := w.pending || w.foods == [])
  }

  /** checkCollision's verdict on the moved snake: its head is off the
      board, on a wall, or on one of its own later segments. */
  predicate Collides(snake: seq<Cell>, walls: seq<Cell>, tileCount: int)
    requires |snake| >= 1
  {
    !InGrid(snake[0], tileCount) || snake[0] in walls
    || exists i :: 1 <= i < |snake| && snake[i] == snake[0]
  }

  /** A tick that finds no food: the head advances by (dx, dy), the body is
      the old snake without its last cell, length and score stay. */
  lemma MoveWithoutEating(w: World)
    requires |w.snake| >= 1 && NextHead(w) !in w.foods
    ensures var r := Moved(w);
      && r.snake[0] == Shift(w.snake[0], w.dx, w.dy)
      && r.snake[1..] == w.snake[..|w.snake| - 1]
      && |r.snake| == |w.snake|
      && r.score == w.score && r.foods == w.foods && r.walls == w.walls
  {
  }

  /** A tick that eats: the snake grows by exactly one cell in front, the
      score by exactly 10, and only the first food on the head is removed,
      the others staying in order. */
  lemma MoveEating(w: World)
    requires |w.snake| >= 1 && NextHead(w) in w.foods
    ensures var r := Moved(w);
      && r.snake == [NextHead(w)] + w.snake
      && |r.snake| == |w.snake| + 1
      && r.score == w.score + 10
      && exists i :: 0 <= i < |w.foods| && w.foods[i] == NextHead(w)
           && (forall j :: 0 <= j < i ==> w.foods[j] != NextHead(w))
           && r.foods == w.foods[..i] + w.foods[i + 1..]
  {
    var i := IndexOf(w.foods, NextHead(w));
    assert w.foods[i] == NextHead(w);
  }

  /** The regeneration flag is raised exactly when the food list is empty
      after the tick; it is never raised while food remains, and a flag
      already raised stays raised (no second regeneration is scheduled). */
  lemma PendingFlag(w: World)
    requires |w.snake| >= 1
    ensures Moved(w).pending <==> w.pending || Moved(w).foods == []
    ensures !w.pending && Moved(w).pending ==> Moved(w).foods == []
  {
  }

  /** Before the first arrow key the direction is (0, 0): a one-cell snake
      on the board, off the walls and off the food, stays where it is and
      does not collide. */
  lemma StandingStill(w: World, tileCount: int)
    requires |w.snake| == 1 && w.dx == 0 && w.dy == 0
    requires InGrid(w.snake[0], tileCount) && w.snake[0] !in w.walls && w.snake[0] !in w.foods
    ensures Moved(w).snake == w.snake
    ensures !Collides(Moved(w).snake, Moved(w).walls, tileCount)
  {
  }

  /** A tick that steps onto a wall ends the game; unless that cell also
      held a food the score is unchanged. */
  lemma StepOntoWall(w: World, tileCount: int)
    requires |w.snake| >= 1 && NextHead(w) in w.walls
    ensures Collides(Moved(w).snake, Moved(w).walls, tileCount)
    ensures NextHead(w) !in w.foods ==> Moved(w).score == w.score
  {
  }

  // ---------------------------------------------------------------------
  // Direction input

  predicate IsArrow(key: Key) {
    key == ArrowUp || key == ArrowDown || key == ArrowLeft || key == ArrowRight
  }

  /** The unit vector an arrow key asks for (y grows downwards). */
  function Heading(key: Key): (int, int)
    requires IsArrow(key)
  {
    match key
    case ArrowUp => (0, -1)
    case ArrowDown => (0, 1)
    case ArrowLeft => (-1, 0)
    case ArrowRight => (1, 0)
  }

  /** handleKeyPress on a non-restart key: an arrow sets its unit vector
      unless the snake moves the opposite way. */
  function Steer(dx: int, dy: int, key: Key): (r: (int, int)) {
    if key == ArrowUp && dy != 1 then (0, -1)
    else if key == ArrowDown && dy != -1 then (0, 1)
    else if key == ArrowLeft && dx != 1 then (-1, 0)
    else if key == ArrowRight && dx != -1 then (1, 0)
    else (dx, dy)
  }

  /** From any legal direction: an arrow is ignored exactly when it asks for
      the reverse of the current direction, and otherwise sets its own unit
      vector; other keys change nothing; the result is a legal direction. */
  lemma SteerRule(dx: int, dy: int, key: Key)
    requires IsDirection(dx, dy)
    ensures IsDirection(Steer(dx, dy, key).0, Steer(dx, dy, key).1)
    ensures IsArrow(key) ==>
      (Steer(dx, dy, key) == Heading(key) <==> (dx, dy) != (-Heading(key).0, -Heading(key).1))
    ensures IsArrow(key) && (dx, dy) == (-Heading(key).0, -Heading(key).1) ==> Steer(dx, dy, key) == (dx, dy)
    ensures !IsArrow(key) ==> Steer(dx, dy, key) == (dx, dy)
  {
  }

  // ---------------------------------------------------------------------
  // Maze regeneration

  function Min(a: int, b: int): int {
    if a < b then a else b
  }

  /** The boundary quota: min(g, floor(0.7 * g)). */
  function MaxBoundary(g: nat): nat {
    Min(g, g * 7 / 10)
  }

  /** Progress of the boundary pass: the walls so far and the quota left. */
  datatype Pass = Pass(walls: seq<Cell>, quota: nat)

  /** One boundary candidate: taken when its coin came up, it is at distance
      at least 3 from the head and quota remains. */
  function Offer(p: Pass, c: Cell, coin: bool, head: Cell): Pass {
    if coin && Distance(c, head) >= 3 && p.quota > 0 then Pass(p.walls + [c], p.quota - 1) else p
  }

  /** The four candidates of sweep index i, in the source's order: top,
      bottom, left, right; candidate k uses coin 4i + k. */
  function SweepAt(i: nat, tileCount: int, p: Pass, coins: seq<bool>, head: Cell): Pass
    requires 4 * i + 3 < |coins|
  {
    var top := Offer(p, Cell(i, 5), coins[4 * i], head);
    var bottom := Offer(top, Cell(i, tileCount - 6), coins[4 * i + 1], head);
    var left := Offer(bottom, Cell(5, i), coins[4 * i + 2], head);
    Offer(left, Cell(tileCount - 6, i), coins[4 * i + 3], head)
  }

  /** The boundary pass from sweep index i on: it stops at the board's end
      or when the quota is used up, and skips the outer three indices. */
  function Sweep(i: nat, tileCount: nat, p: Pass, coins: seq<bool>, head: Cell): (r: Pass)
    requires |coins| >= 4 * tileCount
    ensures r.quota <= p.quota
    decreases tileCount - i
  {
    if i >= tileCount || p.quota == 0 then p
    else if i < 3 || i > tileCount - 4 then Sweep(i + 1, tileCount, p, coins, head)
    else Sweep(i + 1, tileCount, SweepAt(i, tileCount, p, coins, head), coins, head)
  }

  /** A boundary cell: on row or column 5 or tileCount-6, at a sweep index
      in [3, tileCount-4]. */
  predicate OnBoundaryLine(c: Cell, tileCount: int) {
    ((c.y == 5 || c.y == tileCount - 6) && 3 <= c.x <= tileCount - 4)
    || ((c.x == 5 || c.x == tileCount - 6) && 3 <= c.y <= tileCount - 4)
  }

  /** The random draws fit the maze generation over n old walls. */
  predicate WallDrawsFit(d: Draws, n: nat, tileCount: nat) {
    IsPermutation(d.shuffle, n)
    && |d.coins| >= 4 * tileCount
    && |d.wallDraws| >= WallsToGenerate(n, tileCount)
    && DrawsInInnerBox(d.wallDraws, tileCount)
  }

  /** The random draws fit the food generation: a count in {1, 2, 3} and
      one stream of board cells per food. */
  predicate FoodDrawsFit(d: Draws, tileCount: nat) {
    1 <= d.foodCount <= 3 && |d.foodDraws| >= d.foodCount && DrawsInGrid(d.foodDraws, tileCount)
  }

  /** The walls after the kept walls and the boundary pass. */
  function BoundaryPass(walls: seq<Cell>, head: Cell, tileCount: nat, d: Draws): Pass
    requires WallDrawsFit(d, |walls|, tileCount)
  {
    Sweep(0, tileCount, Pass(Kept(walls, d.shuffle), MaxBoundary(WallsToGenerate(|walls|, tileCount))), d.coins, head)
  }

  /** The candidate streams of the interior pass: one per wall still owed
      after the boundary pass. */
  function InteriorDraws(walls: seq<Cell>, head: Cell, tileCount: nat, d: Draws): seq<seq<Cell>>
    requires WallDrawsFit(d, |walls|, tileCount)
  {
    var g := WallsToGenerate(|walls|, tileCount);
    d.wallDraws[..g - (MaxBoundary(g) - BoundaryPass(walls, head, tileCount, d).quota)]
  }

  /** generateMaze: kept walls, then boundary walls, then interior walls. */
  function MazeWalls(walls: seq<Cell>, head: Cell, snake: seq<Cell>, foods: seq<Cell>, tileCount: nat, d: Draws): (r: seq<Cell>)
    requires WallDrawsFit(d, |walls|, tileCount)
  {
    PlaceWalls(BoundaryPass(walls, head, tileCount, d).walls, head, snake, foods,
               InteriorDraws(walls, head, tileCount, d))
  }

  /** Interior placements of generateMaze whose streams held no allowed cell. */
  function MazeShortfall(walls: seq<Cell>, head: Cell, snake: seq<Cell>, foods: seq<Cell>, tileCount: nat, d: Draws): nat
    requires WallDrawsFit(d, |walls|, tileCount)
  {
    Shortfall(BoundaryPass(walls, head, tileCount, d).walls, head, snake, foods,
              InteriorDraws(walls, head, tileCount, d))
  }

  /** `r` continues the boundary pass `p`: it used quota only to append
      walls, each on a boundary line and at distance at least 3 from the head. */
  predicate Extends(p: Pass, r: Pass, head: Cell, tileCount: int) {
    && r.quota <= p.quota
    && |r.walls| == |p.walls| + (p.quota - r.quota)
    && r.walls[..|p.walls|] == p.walls
    && forall k :: |p.walls| <= k < |r.walls| ==>
         OnBoundaryLine(r.walls[k], tileCount) && Distance(r.walls[k], head) >= 3
  }

  lemma ExtendsTransitive(p: Pass, q: Pass, r: Pass, head: Cell, tileCount: int)
    requires Extends(p, q, head, tileCount) && Extends(q, r, head, tileCount)
    ensures Extends(p, r, head, tileCount)
  {
    assert r.walls[..|p.walls|] == r.walls[..|q.walls|][..|p.walls|];
    forall k | |p.walls| <= k < |r.walls|
      ensures OnBoundaryLine(r.walls[k], tileCount) && Distance(r.walls[k], head) >= 3
    {
      if k < |q.walls| {
        assert r.walls[k] == r.walls[..|q.walls|][k];
      }
    }
  }

  /** The four candidates of one sweep index in [3, tileCount-4] only add
      boundary walls far from the head. */
  lemma SweepAtFacts(i: nat, tileCount: nat, p: Pass, coins: seq<bool>, head: Cell)
    requires 3 <= i <= tileCount - 4 && 4 * i + 3 < |coins|
    ensures Extends(p, SweepAt(i, tileCount, p, coins, head), head, tileCount)
  {
    var top := Offer(p, Cell(i, 5), coins[4 * i], head);
    var bottom := Offer(top, Cell(i, tileCount - 6), coins[4 * i + 1], head);
    var left := Offer(bottom, Cell(5, i), coins[4 * i + 2], head);
    var right := Offer(left, Cell(tileCount - 6, i), coins[4 * i + 3], head);
    assert Extends(p, top, head, tileCount);
    assert Extends(top, bottom, head, tileCount);
    assert Extends(bottom, left, head, tileCount);
    assert Extends(left, right, head, tileCount);
    ExtendsTransitive(p, top, bottom, head, tileCount);
    ExtendsTransitive(p, bottom, left, head, tileCount);
    ExtendsTransitive(p, left, right, head, tileCount);
  }

  /** What the boundary pass adds: at most the quota, each on a boundary
      line and at distance at least 3 from the head, after the walls it
      started from. */
  lemma {:induction false} SweepFacts(i: nat, tileCount: nat, p: Pass, coins: seq<bool>, head: Cell)
    requires |coins| >= 4 * tileCount
    ensures Extends(p, Sweep(i, tileCount, p, coins, head), head, tileCount)
    decreases tileCount - i
  {
    if i >= tileCount || p.quota == 0 {
      assert p.walls[..|p.walls|] == p.walls;
    } else if i < 3 || i > tileCount - 4 {
      SweepFacts(i + 1, tileCount, p, coins, head);
    } else {
      var q := SweepAt(i, tileCount, p, coins, head);
      SweepAtFacts(i, tileCount, p, coins, head);
      SweepFacts(i + 1, tileCount, q, coins, head);
      ExtendsTransitive(p, q, Sweep(i + 1, tileCount, q, coins, head), head, tileCount);
    }
  }

  /** The wall count of a regeneration: the kept walls are floor(0.9 * n)
      walls of the old list; the boundary pass adds at most
      min(g, floor(0.7 * g)) of the g walls to generate; and every interior
      stream that finds a cell adds one, so with no shortfall an old maze of
      n > 0 walls comes back with exactly n walls, and the first maze with
      floor(0.8 * t) + floor(t * t / 50). */
  lemma MazeCount(walls: seq<Cell>, head: Cell, snake: seq<Cell>, foods: seq<Cell>, tileCount: nat, d: Draws)
    requires WallDrawsFit(d, |walls|, tileCount)
    ensures var g := WallsToGenerate(|walls|, tileCount);
      var b := BoundaryPass(walls, head, tileCount, d);
      && |b.walls| - |Kept(walls, d.shuffle)| <= MaxBoundary(g) <= g * 7 / 10
      && |MazeWalls(walls, head, snake, foods, tileCount, d)| + MazeShortfall(walls, head, snake, foods, tileCount, d)
           == (if |walls| > 0 then |walls| else tileCount * 4 / 5 + tileCount * tileCount / 50)
  {
    var n := |walls|;
    var g := WallsToGenerate(n, tileCount);
    var kept := Kept(walls, d.shuffle);
    if n > 0 {
      RetainedFacts(walls, d.shuffle);
    }
    var b := BoundaryPass(walls, head, tileCount, d);
    SweepFacts(0, tileCount, Pass(kept, MaxBoundary(g)), d.coins, head);
    var ds := InteriorDraws(walls, head, tileCount, d);
    assert DrawsInInnerBox(ds, tileCount) by {
      forall k, c | 0 <= k < |ds| && c in ds[k] ensures InInnerBox(c, tileCount) {
        assert ds[k] == d.wallDraws[k];
      }
    }
    PlaceWallsFacts(b.walls, head, snake, foods, ds, tileCount);
  }

  /** Where the regenerated walls lie: the kept walls come first and were
      all old walls; the boundary walls lie on the boundary lines at
      distance at least 3 from the head; the interior walls lie in the
      inner box, off the snake and the food, at distance at least 3 from
      the head and at least 2 from every wall before them. */
  lemma MazeLayout(walls: seq<Cell>, head: Cell, snake: seq<Cell>, foods: seq<Cell>, tileCount: nat, d: Draws)
    requires WallDrawsFit(d, |walls|, tileCount)
    ensures var r := MazeWalls(walls, head, snake, foods, tileCount, d);
      var kept := Kept(walls, d.shuffle);
      var b := BoundaryPass(walls, head, tileCount, d).walls;
      && |kept| <= |b| <= |r|
      && (forall i :: 0 <= i < |kept| ==> r[i] == kept[i] && r[i] in walls)
      && (forall i :: |kept| <= i < |b| ==> r[i] == b[i] && OnBoundaryLine(r[i], tileCount) && Distance(r[i], head) >= 3)
      && (forall i :: |b| <= i < |r| ==>
            InInnerBox(r[i], tileCount) && r[i] !in snake && r[i] !in foods && Distance(r[i], head) >= 3
            && forall j :: 0 <= j < i ==> Distance(r[j], r[i]) >= 2)
  {
    var n := |walls|;
    var g := WallsToGenerate(n, tileCount);
    var kept := Kept(walls, d.shuffle);
    if n > 0 {
      RetainedFacts(walls, d.shuffle);
    }
    var bp := BoundaryPass(walls, head, tileCount, d);
    SweepFacts(0, tileCount, Pass(kept, MaxBoundary(g)), d.coins, head);
    var ds := InteriorDraws(walls, head, tileCount, d);
    assert DrawsInInnerBox(ds, tileCount) by {
      forall k, c | 0 <= k < |ds| && c in ds[k] ensures InInnerBox(c, tileCount) {
        assert ds[k] == d.wallDraws[k];
      }
    }
    PlaceWallsFacts(bp.walls, head, snake, foods, ds, tileCount);
    var r := MazeWalls(walls, head, snake, foods, tileCount, d);
    forall i | 0 <= i < |kept| ensures r[i] == kept[i] && r[i] in walls {
      assert r[i] == bp.walls[i];
      assert bp.walls[i] == bp.walls[..|kept|][i];
      assert kept[i] in kept;
    }
    forall i | |kept| <= i < |bp.walls| ensures r[i] == bp.walls[i] {
    }
  }

  // ---------------------------------------------------------------------
  // The game state

  class Game {
    /** Board size in cells (canvas width / 20 in the page). */
    const tileCount: nat
    var snake: seq<Cell>
    var foods: seq<Cell>
    var walls: seq<Cell>
    var dx: int
    var dy: int
    var score: int
    var isGeneratingNewMaze: bool
    /** Whether the 200 ms tick interval (gameLoop) is installed. */
    var running: bool

    ghost predicate Valid()
      reads this
    {
      tileCount >= 11 && |snake| >= 1 && IsDirection(dx, dy)
    }

    function State(): World
      reads this
    {
      World(snake, foods, walls, dx, dy, score, isGeneratingNewMaze)
    }

    /** The page load: the initial variable values, then generateMaze,
        generateFood and startGame. */
    constructor (tileCount: nat, d: Draws)
      requires tileCount >= 11
      requires WallDrawsFit(d, 0, tileCount) && FoodDrawsFit(d, tileCount)
      ensures Valid() && this.tileCount == tileCount
      ensures snake == [Cell(10, 10)] && dx == 0 && dy == 0 && score == 0
      ensures !isGeneratingNewMaze && running
      ensures walls == MazeWalls([], Cell(10, 10), [Cell(10, 10)], [Cell(15, 15)], tileCount, d)
      ensures foods == Refill(snake, walls, d.foodDraws[..d.foodCount])
    {
      this.tileCount := tileCount;
      snake := [Cell(10, 10)];
      foods := [Cell(15, 15)];
      walls := [];
      dx, dy, score := 0, 0, 0;
      isGeneratingNewMaze := false;
      running := false;
      new;
      GenerateMaze(d);
      GenerateFood(d);
      running := true;
    }

    /** drawGame without the drawing: move, then check for a collision;
        a collision stops the tick interval. */
    method Tick()
      requires Valid() && running
      modifies this
      ensures Valid()
      ensures State() == Moved(old(State()))
      ensures running <==> !Collides(snake, walls, tileCount)
    {
      MoveSnake();
      var hit := CheckCollision();
      if hit {
        running := false;
      }
    }

    method MoveSnake()
      requires Valid()
      modifies this`snake, this`foods, this`score, this`isGeneratingNewMaze
      ensures Valid()
      ensures State() == Moved(old(State()))
    {
      var head := Cell(snake[0].x + dx, snake[0].y + dy);
      snake := [head] + snake;

      var foodEaten := false;
      var i := 0;
      while i < |foods|
        invariant 0 <= i <= |foods|
        invariant !foodEaten && foods == old(foods) && score == old(score)
        invariant forall j :: 0 <= j < i ==> foods[j] != head
      {
        if head == foods[i] {
          score := score + 10;
          foods := foods[..i] + foods[i + 1..];
          foodEaten := true;
          break;
        }
        i := i + 1;
      }
      assert foodEaten ==> i == IndexOf(old(foods), head) && foods == RemoveAt(old(foods), i);
      assert !foodEaten ==> IndexOf(old(foods), head) == |old(foods)|;

      if |foods| == 0 && !isGeneratingNewMaze {
        isGeneratingNewMaze := true;
      }
      if !foodEaten {
        snake := snake[..|snake| - 1];
      }
    }

    /** checkCollision: off the board, on a wall, or on the snake's own body. */
    method CheckCollision() returns (hit: bool)
      requires Valid()
      ensures hit <==> !InGrid(snake[0], tileCount) || snake[0] in walls
                       || exists i :: 1 <= i < |snake| && snake[i] == snake[0]
    {
      var head := snake[0];
      hit := false;
      if head.x < 0 || head.x >= tileCount || head.y < 0 || head.y >= tileCount {
        hit := true;
      }
      if head in walls {
        hit := true;
      }
      var i := 1;
      while i < |snake|
        invariant 1 <= i <= |snake|
        invariant hit <==> !InGrid(head, tileCount) || head in walls
                           || exists j :: 1 <= j < i && snake[j] == head
      {
        if head == snake[i] {
          hit := true;
        }
        i := i + 1;
      }
    }

    /** handleKeyPress: 'r' or 'R' restarts, an arrow steers. */
    method HandleKeyPress(key: Key, d: Draws)
      requires Valid()
      requires key == KeyR ==> WallDrawsFit(d, 0, tileCount) && FoodDrawsFit(d, tileCount)
      modifies this
      ensures Valid()
      ensures key == KeyR ==>
        && snake == [Cell(10, 10)] && dx == 0 && dy == 0 && score == 0 && running
        && walls == MazeWalls([], Cell(10, 10), [Cell(10, 10)], [], tileCount, d)
        && foods == Refill(snake, walls, d.foodDraws[..d.foodCount])
      ensures key != KeyR ==>
        && (dx, dy) == Steer(old(dx), old(dy), key)
        && snake == old(snake) && foods == old(foods) && walls == old(walls)
        && score == old(score) && running == old(running)
      ensures isGeneratingNewMaze == old(isGeneratingNewMaze)
    {
      if key == KeyR {
        ResetGame(d);
        return;
      }
      SteerRule(dx, dy, key);
      if key == ArrowUp && dy != 1 {
        dx, dy := 0, -1;
      } else if key == ArrowDown && dy != -1 {
        dx, dy := 0, 1;
      } else if key == ArrowLeft && dx != 1 {
        dx, dy := -1, 0;
      } else if key == ArrowRight && dx != -1 {
        dx, dy := 1, 0;
      }
    }

    /** resetGame: fresh snake, score and direction, empty lists, a new
        maze and food, and the tick interval restarted. A regeneration
        already pending is neither cancelled nor cleared. */
    method ResetGame(d: Draws)
      requires Valid()
      requires WallDrawsFit(d, 0, tileCount) && FoodDrawsFit(d, tileCount)
      modifies this
      ensures Valid()
      ensures snake == [Cell(10, 10)] && dx == 0 && dy == 0 && score == 0 && running
      ensures walls == MazeWalls([], Cell(10, 10), [Cell(10, 10)], [], tileCount, d)
      ensures foods == Refill(snake, walls, d.foodDraws[..d.foodCount])
      ensures isGeneratingNewMaze == old(isGeneratingNewMaze)
    {
      snake := [Cell(10, 10)];
      foods := [];
      walls := [];
      dx, dy := 0, 0;
      score := 0;
      GenerateMaze(d);
      GenerateFood(d);
      running := true;
    }

    /** The deferred level regeneration scheduled by the tick that emptied
        the food list: new maze, new food, flag cleared. */
    method RegenerateLevel(d: Draws)
      requires Valid() && isGeneratingNewMaze
      requires WallDrawsFit(d, |walls|, tileCount) && FoodDrawsFit(d, tileCount)
      modifies this`walls, this`foods, this`isGeneratingNewMaze
      ensures Valid()
      ensures walls == MazeWalls(old(walls), snake[0], snake, old(foods), tileCount, d)
      ensures foods == Refill(snake, walls, d.foodDraws[..d.foodCount])
      ensures !isGeneratingNewMaze
    {
      GenerateMaze(d);
      GenerateFood(d);
      isGeneratingNewMaze := false;
    }

    /** generateMaze. */
    method GenerateMaze(d: Draws)
      requires Valid() && WallDrawsFit(d, |walls|, tileCount)
      modifies this`walls
      ensures walls == MazeWalls(old(walls), snake[0], snake, foods, tileCount, d)
    {
      var oldWalls := walls;
      var totalWallCount := |oldWalls|;
      walls := [];
      var snakeHead := snake[0];

      if |oldWalls| > 0 {
        var wallsToKeep := |oldWalls| * 9 / 10;
        var shuffledWalls := Permute(oldWalls, d.shuffle);
        walls := shuffledWalls[..wallsToKeep];
      }

      var wallsToGenerate := 0;
      if totalWallCount > 0 {
        wallsToGenerate := totalWallCount - |walls|;
      } else {
        wallsToGenerate := tileCount * 4 / 5 + tileCount * tileCount / 50;
      }
      assert wallsToGenerate == WallsToGenerate(totalWallCount, tileCount);

      var maxBoundaryWalls := Min(wallsToGenerate, wallsToGenerate * 7 / 10);
      ghost var kept := walls;
      var boundaryWallsAdded := AddBoundaryWalls(d.coins, snakeHead, maxBoundaryWalls);
      assert Pass(walls, maxBoundaryWalls - boundaryWallsAdded) == BoundaryPass(oldWalls, snakeHead, tileCount, d);

      var remainingWallsToGenerate := wallsToGenerate - boundaryWallsAdded;
      AddInteriorWalls(d.wallDraws[..remainingWallsToGenerate]);
    }

    /** The boundary pass of generateMaze: sweep index i over the board and
        offer the four boundary cells of each index in [3, tileCount-4]
        until maxBoundaryWalls walls were added. */
    method AddBoundaryWalls(coins: seq<bool>, snakeHead: Cell, maxBoundaryWalls: nat) returns (boundaryWallsAdded: nat)
      requires |coins| >= 4 * tileCount
      modifies this`walls
      ensures boundaryWallsAdded <= maxBoundaryWalls
      ensures Pass(walls, maxBoundaryWalls - boundaryWallsAdded)
           == Sweep(0, tileCount, Pass(old(walls), maxBoundaryWalls), coins, snakeHead)
    {
      boundaryWallsAdded := 0;
      var i := 0;
      while i < tileCount && boundaryWallsAdded < maxBoundaryWalls
        invariant 0 <= i <= tileCount
        invariant 0 <= boundaryWallsAdded <= maxBoundaryWalls
        invariant Sweep(i, tileCount, Pass(walls, maxBoundaryWalls - boundaryWallsAdded), coins, snakeHead)
               == Sweep(0, tileCount, Pass(old(walls), maxBoundaryWalls), coins, snakeHead)
        decreases tileCount - i
      {
        ghost var before := Pass(walls, maxBoundaryWalls - boundaryWallsAdded);
        if !(i < 3 || i > tileCount - 4) {
          var topWall := Cell(i, 5);
          var bottomWall := Cell(i, tileCount - 6);
          var leftWall := Cell(5, i);
          var rightWall := Cell(tileCount - 6, i);
          if coins[4 * i] && Distance(topWall, snakeHead) >= 3 && boundaryWallsAdded < maxBoundaryWalls {
            walls := walls + [topWall];
            boundaryWallsAdded := boundaryWallsAdded + 1;
          }
          ghost var top := Pass(walls, maxBoundaryWalls - boundaryWallsAdded);
          assert top == Offer(before, topWall, coins[4 * i], snakeHead);
          if coins[4 * i + 1] && Distance(bottomWall, snakeHead) >= 3 && boundaryWallsAdded < maxBoundaryWalls {
            walls := walls + [bottomWall];
            boundaryWallsAdded := boundaryWallsAdded + 1;
          }
          ghost var bottom := Pass(walls, maxBoundaryWalls - boundaryWallsAdded);
          assert bottom == Offer(top, bottomWall, coins[4 * i + 1], snakeHead);
          if coins[4 * i + 2] && Distance(leftWall, snakeHead) >= 3 && boundaryWallsAdded < maxBoundaryWalls {
            walls := walls + [leftWall];
            boundaryWallsAdded := boundaryWallsAdded + 1;
          }
          ghost var left := Pass(walls, maxBoundaryWalls - boundaryWallsAdded);
          assert left == Offer(bottom, leftWall, coins[4 * i + 2], snakeHead);
          if coins[4 * i + 3] && Distance(rightWall, snakeHead) >= 3 && boundaryWallsAdded < maxBoundaryWalls {
            walls := walls + [rightWall];
            boundaryWallsAdded := boundaryWallsAdded + 1;
          }
          assert Pass(walls, maxBoundaryWalls - boundaryWallsAdded) == Offer(left, rightWall, coins[4 * i + 3], snakeHead);
          assert Pass(walls, maxBoundaryWalls - boundaryWallsAdded) == SweepAt(i, tileCount, before, coins, snakeHead);
        }
        i := i + 1;
      }
    }

    /** The interior pass of generateMaze: one single-wall placement per
        candidate stream, each checked against the walls so far. */
    method AddInteriorWalls(ds: seq<seq<Cell>>)
      requires Valid()
      modifies this`walls
      ensures walls == PlaceWalls(old(walls), snake[0], snake, foods, ds)
    {
      var j := 0;
      while j < |ds|
        invariant 0 <= j <= |ds|
        invariant walls == PlaceWalls(old(walls), snake[0], snake, foods, ds[..j])
      {
        ghost var prev := walls;
        GenerateSingleWall(ds[j]);
        assert ds[..j + 1][..j] == ds[..j] && ds[..j + 1][j] == ds[j];
        assert PlaceWalls(old(walls), snake[0], snake, foods, ds[..j + 1])
            == prev + AsList(FirstWall(ds[j], snake[0], snake, foods, prev));
        j := j + 1;
      }
      assert ds[..j] == ds;
    }

    /** generateSingleWall: the first candidate of the stream is tested;
        when it is rejected the function calls itself on the rest; the
        first allowed candidate becomes a wall. */
    method GenerateSingleWall(draws: seq<Cell>)
      requires Valid()
      modifies this`walls
      ensures walls == old(walls) + AsList(FirstWall(draws, snake[0], snake, foods, old(walls)))
      decreases |draws|
    {
      if draws == [] {
        return;
      }
      var newWall := draws[0];
      var snakeHead := snake[0];
      var distanceToHead := Distance(newWall, snakeHead);
      if newWall in snake || newWall in foods || newWall in walls || distanceToHead < 3 {
        GenerateSingleWall(draws[1..]);
        return;
      }
      var hasNearbyWall := HasNearbyWall(newWall);
      if !hasNearbyWall {
        walls := walls + [newWall];
      } else {
        GenerateSingleWall(draws[1..]);
      }
    }

    /** The spacing scan of generateSingleWall: is some wall at distance
        below 2 from the candidate? */
    method HasNearbyWall(c: Cell) returns (near: bool)
      ensures near <==> exists w :: w in walls && Distance(w, c) < 2
    {
      near := false;
      var i := 0;
      while i < |walls|
        invariant 0 <= i <= |walls|
        invariant !near
        invariant forall j :: 0 <= j < i ==> Distance(walls[j], c) >= 2
      {
        if Distance(walls[i], c) < 2 {
          near := true;
          break;
        }
        i := i + 1;
      }
    }

    /** generateFood: clear the list and place foodCount foods. */
    method GenerateFood(d: Draws)
      requires FoodDrawsFit(d, tileCount)
      modifies this`foods
      ensures foods == Refill(snake, walls, d.foodDraws[..d.foodCount])
    {
      foods := [];
      var foodCount := d.foodCount;
      var i := 0;
      while i < foodCount
        invariant 0 <= i <= foodCount
        invariant foods == Refill(snake, walls, d.foodDraws[..i])
      {
        assert d.foodDraws[..i + 1][..i] == d.foodDraws[..i];
        GenerateSingleFood(d.foodDraws[i]);
        i := i + 1;
      }
    }

    /** generateSingleFood: the first candidate of the stream becomes a
        food when it is free; otherwise the function calls itself on the
        rest. */
    method GenerateSingleFood(draws: seq<Cell>)
      modifies this`foods
      ensures foods == old(foods) + AsList(FirstFood(draws, snake, old(foods), walls))
      decreases |draws|
    {
      if draws == [] {
        return;
      }
      var newFood := draws[0];
      if newFood in snake || newFood in foods || newFood in walls {
        GenerateSingleFood(draws[1..]);
      } else {
        foods := foods + [newFood];
      }
    }
  }
}
