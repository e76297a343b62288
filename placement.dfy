/** Placement and regeneration rules the two versions of the game share:
    where one wall or one food may go, how the wall list keeps 90% of the
    old walls, and how a sequence of single placements builds the new wall
    and food lists.

    Randomness is an input. Each single placement receives the stream of
    candidate cells its retry loop would draw, and takes the first allowed
    one; a stream that holds no allowed cell places nothing, which the
    `Shortfall` count records. */
module Placement {
  import opened Grid

  /** The random choices one regeneration (maze, then food) consumes:
      the shuffle of the old walls as a permutation of their indices, the
      10% coin of each boundary candidate (JavaScript only), one candidate
      stream per interior wall, the food count and one candidate stream per
      food. */
  datatype Draws = Draws(
    shuffle: seq<nat>,
    coins: seq<bool>,
    wallDraws: seq<seq<Cell>>,
    foodCount: nat,
    foodDraws: seq<seq<Cell>>)

  /** floor(0.9 * n), the number of old walls a regeneration keeps. */
  function KeepCount(n: nat): nat {
    n * 9 / 10
  }

  /** How many walls a regeneration adds: the walls it dropped, or on the
      first generation floor(0.2 * 4t) + floor(0.02 * t * t). */
  function WallsToGenerate(n: nat, tileCount: nat): nat {
    if n > 0 then n - KeepCount(n) else tileCount * 4 / 5 + tileCount * tileCount / 50
  }

  /** The kept walls: the first floor(0.9 * n) walls of the shuffled list. */
  function Retained(walls: seq<Cell>, perm: seq<nat>): seq<Cell>
    requires IsPermutation(perm, |walls|)
  {
    Permute(walls, perm)[..KeepCount(|walls|)]
  }

  lemma RetainedFacts(walls: seq<Cell>, perm: seq<nat>)
    requires IsPermutation(perm, |walls|)
    ensures |Retained(walls, perm)| == KeepCount(|walls|)
    ensures |walls| > 0 ==> KeepCount(|walls|) + WallsToGenerate(|walls|, 0) == |walls|
    ensures forall c :: c in Retained(walls, perm) ==> c in walls
    ensures WellSpaced(walls) ==> WellSpaced(Retained(walls, perm))
  {
    PermuteFacts(walls, perm);
    var p := Permute(walls, perm);
    forall c | c in p[..KeepCount(|walls|)]
      ensures c in walls
    {
      assert c in p;
    }
  }

  /** The walls a regeneration starts from: the retained ones when there
      were old walls, none otherwise. */
  function Kept(walls: seq<Cell>, perm: seq<nat>): seq<Cell>
    requires IsPermutation(perm, |walls|)
  {
    if |walls| > 0 then Retained(walls, perm) else []
  }

  // ---------------------------------------------------------------------
  // Walls

  /** A candidate cell may become a wall: it is not on the snake, a food or
      a wall, it is at distance at least 3 from the snake's head and at
      distance at least 2 from every wall. */
  predicate WallAllowed(c: Cell, head: Cell, snake: seq<Cell>, foods: seq<Cell>, walls: seq<Cell>) {
    c !in snake && c !in foods && c !in walls
    && Distance(c, head) >= 3
    && forall w :: w in walls ==> Distance(w, c) >= 2
  }

  /** The wall the retry loop settles on: the first allowed candidate. */
  function FirstWall(draws: seq<Cell>, head: Cell, snake: seq<Cell>, foods: seq<Cell>, walls: seq<Cell>): (r: Option<Cell>)
    ensures r.Some? ==> r.value in draws && WallAllowed(r.value, head, snake, foods, walls)
    ensures r.Some? ==> exists i :: 0 <= i < |draws| && draws[i] == r.value
                          && forall j :: 0 <= j < i ==> !WallAllowed(draws[j], head, snake, foods, walls)
    ensures r.None? <==> forall c :: c in draws ==> !WallAllowed(c, head, snake, foods, walls)
  {
    if draws == [] then None
    else if WallAllowed(draws[0], head, snake, foods, walls) then Some(draws[0])
    else
      var r := FirstWall(draws[1..], head, snake, foods, walls);
      assert r.Some? ==> exists i :: 1 <= i < |draws| && draws[i] == r.value
                           && forall j :: 0 <= j < i ==> !WallAllowed(draws[j], head, snake, foods, walls) by {
        if r.Some? {
          var i :| 0 <= i < |draws[1..]| && draws[1..][i] == r.value
                   && forall j :: 0 <= j < i ==> !WallAllowed(draws[1..][j], head, snake, foods, walls);
          assert forall j :: 1 <= j < i + 1 ==> draws[j] == draws[1..][j - 1];
        }
      }
      r
  }

  function AsList(o: Option<Cell>): seq<Cell> {
    if o.Some? then [o.value] else []
  }

  /** Single-wall placements one after another, each checked against the
      walls placed before it. */
  function PlaceWalls(walls: seq<Cell>, head: Cell, snake: seq<Cell>, foods: seq<Cell>, ds: seq<seq<Cell>>): (r: seq<Cell>)
    decreases |ds|
  {
    if ds == [] then walls
    else
      var before := PlaceWalls(walls, head, snake, foods, ds[..|ds| - 1]);
      before + AsList(FirstWall(ds[|ds| - 1], head, snake, foods, before))
  }

  /** How many of those placements found no allowed candidate. */
  function Shortfall(walls: seq<Cell>, head: Cell, snake: seq<Cell>, foods: seq<Cell>, ds: seq<seq<Cell>>): nat
    decreases |ds|
  {
    if ds == [] then 0
    else
      var before := PlaceWalls(walls, head, snake, foods, ds[..|ds| - 1]);
      Shortfall(walls, head, snake, foods, ds[..|ds| - 1])
        + if FirstWall(ds[|ds| - 1], head, snake, foods, before).None? then 1 else 0
  }

  /** Every candidate of every stream lies in the inner box. */
  predicate DrawsInInnerBox(ds: seq<seq<Cell>>, tileCount: int) {
    forall k, c :: 0 <= k < |ds| && c in ds[k] ==> InInnerBox(c, tileCount)
  }

  /** Every candidate of every stream lies on the board. */
  predicate DrawsInGrid(ds: seq<seq<Cell>>, tileCount: int) {
    forall k, c :: 0 <= k < |ds| && c in ds[k] ==> InGrid(c, tileCount)
  }

  /** The walls a sequence of placements adds come after the old ones, lie
      in the inner box, keep off the snake and the food, keep distance 3
      from the head and distance 2 from every wall placed before them; the
      list grows by one per placement that found a cell. */
  lemma {:induction false} PlaceWallsFacts(walls: seq<Cell>, head: Cell, snake: seq<Cell>, foods: seq<Cell>, ds: seq<seq<Cell>>, tileCount: int)
    requires DrawsInInnerBox(ds, tileCount)
    ensures var r := PlaceWalls(walls, head, snake, foods, ds);
      && |r| + Shortfall(walls, head, snake, foods, ds) == |walls| + |ds|
      && |walls| <= |r| && (forall i :: 0 <= i < |walls| ==> r[i] == walls[i])
      && (forall i :: |walls| <= i < |r| ==>
            InInnerBox(r[i], tileCount) && r[i] !in snake && r[i] !in foods && Distance(r[i], head) >= 3)
      && (forall j, i :: 0 <= j < i < |r| && |walls| <= i ==> Distance(r[j], r[i]) >= 2)
    decreases |ds|
  {
    if ds != [] {
      var init := ds[..|ds| - 1];
      assert DrawsInInnerBox(init, tileCount) by {
        forall k, c | 0 <= k < |init| && c in init[k] ensures InInnerBox(c, tileCount) {
          assert init[k] == ds[k];
        }
      }
      PlaceWallsFacts(walls, head, snake, foods, init, tileCount);
      var before := PlaceWalls(walls, head, snake, foods, init);
      var o := FirstWall(ds[|ds| - 1], head, snake, foods, before);
      var r := before + AsList(o);
      assert r == PlaceWalls(walls, head, snake, foods, ds);
      if o.Some? {
        var c := o.value;
        assert InInnerBox(c, tileCount);
        forall j, i | 0 <= j < i < |r| && |walls| <= i
          ensures Distance(r[j], r[i]) >= 2
        {
          if i == |r| - 1 {
            assert r[j] == before[j];
            assert r[j] in before;
          } else {
            assert r[i] == before[i] && r[j] == before[j];
          }
        }
      } else {
        assert r == before;
      }
    }
  }

  /** Wall-list soundness kept across regenerations: every wall in the
      inner box, and any two walls at distance at least 2 (so no two equal). */
  predicate WallsSound(walls: seq<Cell>, tileCount: int) {
    (forall w :: w in walls ==> InInnerBox(w, tileCount)) && WellSpaced(walls)
  }

  lemma PlaceWallsSound(walls: seq<Cell>, head: Cell, snake: seq<Cell>, foods: seq<Cell>, ds: seq<seq<Cell>>, tileCount: int)
    requires DrawsInInnerBox(ds, tileCount)
    requires WallsSound(walls, tileCount)
    ensures WallsSound(PlaceWalls(walls, head, snake, foods, ds), tileCount)
  {
    PlaceWallsFacts(walls, head, snake, foods, ds, tileCount);
    var r := PlaceWalls(walls, head, snake, foods, ds);
    forall w | w in r ensures InInnerBox(w, tileCount) {
      var i :| 0 <= i < |r| && r[i] == w;
      if i < |walls| {
        assert w in walls;
      }
    }
    forall j, i | 0 <= j < i < |r| ensures Distance(r[j], r[i]) >= 2 {
      if i < |walls| {
        assert r[j] == walls[j] && r[i] == walls[i];
      }
    }
  }

  // ---------------------------------------------------------------------
  // Food

  /** A candidate cell may hold a food: it is not on the snake, a food or a wall. */
  predicate FoodAllowed(c: Cell, snake: seq<Cell>, foods: seq<Cell>, walls: seq<Cell>) {
    c !in snake && c !in foods && c !in walls
  }

  /** The food the retry loop settles on: the first free candidate. */
  function FirstFood(draws: seq<Cell>, snake: seq<Cell>, foods: seq<Cell>, walls: seq<Cell>): (r: Option<Cell>)
    ensures r.Some? ==> r.value in draws && FoodAllowed(r.value, snake, foods, walls)
    ensures r.Some? ==> exists i :: 0 <= i < |draws| && draws[i] == r.value
                          && forall j :: 0 <= j < i ==> !FoodAllowed(draws[j], snake, foods, walls)
    ensures r.None? <==> forall c :: c in draws ==> !FoodAllowed(c, snake, foods, walls)
  {
    if draws == [] then None
    else if FoodAllowed(draws[0], snake, foods, walls) then Some(draws[0])
    else
      var r := FirstFood(draws[1..], snake, foods, walls);
      assert r.Some? ==> exists i :: 1 <= i < |draws| && draws[i] == r.value
                           && forall j :: 0 <= j < i ==> !FoodAllowed(draws[j], snake, foods, walls) by {
        if r.Some? {
          var i :| 0 <= i < |draws[1..]| && draws[1..][i] == r.value
                   && forall j :: 0 <= j < i ==> !FoodAllowed(draws[1..][j], snake, foods, walls);
          assert forall j :: 1 <= j < i + 1 ==> draws[j] == draws[1..][j - 1];
        }
      }
      r
  }

  /** The food list after clearing it and placing one food per stream. */
  function Refill(snake: seq<Cell>, walls: seq<Cell>, ds: seq<seq<Cell>>): (r: seq<Cell>)
    decreases |ds|
  {
    if ds == [] then []
    else
      var before := Refill(snake, walls, ds[..|ds| - 1]);
      before + AsList(FirstFood(ds[|ds| - 1], snake, before, walls))
  }

  /** The refilled foods number at most one per stream, are pairwise
      distinct, lie on the board and keep off the snake and the walls. */
  lemma {:induction false} RefillFacts(snake: seq<Cell>, walls: seq<Cell>, ds: seq<seq<Cell>>, tileCount: int)
    requires DrawsInGrid(ds, tileCount)
    ensures var r := Refill(snake, walls, ds);
      && |r| <= |ds|
      && Distinct(r)
      && forall c :: c in r ==> InGrid(c, tileCount) && c !in snake && c !in walls
    decreases |ds|
  {
    if ds != [] {
      var init := ds[..|ds| - 1];
      assert DrawsInGrid(init, tileCount) by {
        forall k, c | 0 <= k < |init| && c in init[k] ensures InGrid(c, tileCount) {
          assert init[k] == ds[k];
        }
      }
      RefillFacts(snake, walls, init, tileCount);
      var before := Refill(snake, walls, init);
      var o := FirstFood(ds[|ds| - 1], snake, before, walls);
      var r := before + AsList(o);
      if o.Some? {
        forall i, j | 0 <= i < j < |r| ensures r[i] != r[j] {
          if j == |r| - 1 {
            assert r[i] in before;
          }
        }
      }
    }
  }

  /** A stream that holds three different cells off the snake and the walls. */
  predicate HasThreeFree(d: seq<Cell>, snake: seq<Cell>, walls: seq<Cell>) {
    exists i, j, k :: 0 <= i < j < k < |d|
      && d[i] != d[j] && d[j] != d[k] && d[i] != d[k]
      && d[i] !in snake && d[i] !in walls
      && d[j] !in snake && d[j] !in walls
      && d[k] !in snake && d[k] !in walls
  }

  /** With at most three foods to place and three free candidates in every
      stream, every placement succeeds: the refill has exactly one food per
      stream. */
  lemma {:induction false} RefillComplete(snake: seq<Cell>, walls: seq<Cell>, ds: seq<seq<Cell>>)
    requires |ds| <= 3
    requires forall k :: 0 <= k < |ds| ==> HasThreeFree(ds[k], snake, walls)
    ensures |Refill(snake, walls, ds)| == |ds|
    decreases |ds|
  {
    if ds != [] {
      var init := ds[..|ds| - 1];
      assert forall k :: 0 <= k < |init| ==> init[k] == ds[k];
      RefillComplete(snake, walls, init);
      var before := Refill(snake, walls, init);
      var d := ds[|ds| - 1];
      assert HasThreeFree(d, snake, walls);
      var i, j, k :| 0 <= i < j < k < |d|
        && d[i] != d[j] && d[j] != d[k] && d[i] != d[k]
        && d[i] !in snake && d[i] !in walls
        && d[j] !in snake && d[j] !in walls
        && d[k] !in snake && d[k] !in walls;
      if FirstFood(d, snake, before, walls).None? {
        // three different cells in a list of at most two foods
        assert d[i] in d && d[j] in d && d[k] in d;
        ThreeMembers(before, d[i], d[j], d[k]);
        assert false;
      }
    }
  }

  lemma ThreeMembers(s: seq<Cell>, a: Cell, b: Cell, c: Cell)
    requires a != b && b != c && a != c
    requires a in s && b in s && c in s
    ensures |s| >= 3
  {
    var i :| 0 <= i < |s| && s[i] == a;
    var j :| 0 <= j < |s| && s[j] == b;
    var k :| 0 <= k < |s| && s[k] == c;
    assert i != j && j != k && i != k;
  }
}
