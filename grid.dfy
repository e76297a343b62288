/** The grid model shared by both versions of the game: cells, directions,
    Manhattan distance, the board and the inner wall box, and the small
    list operations the game state uses. */
module Grid {

  /** A grid coordinate. Cells are values: two cells are the same cell when
      their coordinates agree. */
  datatype Cell = Cell(x: int, y: int)

  /** A movement vector (dx, dy). */
  datatype Vec = Vec(dx: int, dy: int)

  datatype Option<T> = None | Some(value: T)

  function Abs(n: int): nat {
    if n < 0 then -n else n
  }

  /** Manhattan distance |dx| + |dy| between two cells. */
  function Distance(a: Cell, b: Cell): nat {
    Abs(a.x - b.x) + Abs(a.y - b.y)
  }

  function Shift(c: Cell, dx: int, dy: int): Cell {
    Cell(c.x + dx, c.y + dy)
  }

  /** The playing field [0, tileCount) x [0, tileCount). */
  predicate InGrid(c: Cell, tileCount: int) {
    0 <= c.x < tileCount && 0 <= c.y < tileCount
  }

  /** The region interior walls are drawn from: [5, tileCount-6] squared. */
  predicate InInnerBox(c: Cell, tileCount: int) {
    5 <= c.x <= tileCount - 6 && 5 <= c.y <= tileCount - 6
  }

  /** The direction is at rest or one of the four unit vectors. */
  predicate IsDirection(dx: int, dy: int) {
    (dx == 0 && dy == 0) || (dx == 0 && Abs(dy) == 1) || (dy == 0 && Abs(dx) == 1)
  }

  /** Position of the first occurrence of `c` in `s`, or |s| when absent. */
  function IndexOf(s: seq<Cell>, c: Cell): (i: nat)
    ensures i <= |s|
    ensures i < |s| ==> s[i] == c
    ensures forall j :: 0 <= j < i ==> s[j] != c
    ensures i == |s| <==> c !in s
  {
    if s == [] then 0
    else if s[0] == c then 0
    else 1 + IndexOf(s[1..], c)
  }

  /** The list with its i-th element taken out, the rest in order. */
  function RemoveAt(s: seq<Cell>, i: nat): (r: seq<Cell>)
    requires i < |s|
    ensures |r| == |s| - 1
    ensures forall j :: 0 <= j < i ==> r[j] == s[j]
    ensures forall j :: i <= j < |r| ==> r[j] == s[j + 1]
  {
    s[..i] + s[i + 1..]
  }

  /** `perm` lists every index below n exactly once. */
  predicate IsPermutation(perm: seq<nat>, n: nat) {
    |perm| == n
    && (forall i :: 0 <= i < n ==> perm[i] < n)
    && (forall i, j :: 0 <= i < j < n ==> perm[i] != perm[j])
  }

  /** `s` reordered by `perm`: position i receives s[perm[i]]. */
  function Permute(s: seq<Cell>, perm: seq<nat>): seq<Cell>
    requires IsPermutation(perm, |s|)
  {
    seq(|s|, i requires 0 <= i < |s| => s[perm[i]])
  }

  /** No two distinct positions hold the same cell. */
  predicate Distinct(s: seq<Cell>) {
    forall i, j :: 0 <= i < j < |s| ==> s[i] != s[j]
  }

  /** Any two walls of the list are at Manhattan distance at least 2. */
  predicate WellSpaced(walls: seq<Cell>) {
    forall i, j :: 0 <= i < j < |walls| ==> Distance(walls[i], walls[j]) >= 2
  }

  lemma WellSpacedDistinct(walls: seq<Cell>)
    requires WellSpaced(walls)
    ensures Distinct(walls)
  {
    forall i, j | 0 <= i < j < |walls|
      ensures walls[i] != walls[j]
    {
      assert Distance(walls[i], walls[j]) >= 2;
    }
  }

  /** Reordering by a permutation draws every cell from the original list,
      and keeps a well-spaced list well spaced. */
  lemma PermuteFacts(s: seq<Cell>, perm: seq<nat>)
    requires IsPermutation(perm, |s|)
    ensures |Permute(s, perm)| == |s|
    ensures forall c :: c in Permute(s, perm) ==> c in s
    ensures WellSpaced(s) ==> WellSpaced(Permute(s, perm))
  {
    var p := Permute(s, perm);
    forall c | c in p
      ensures c in s
    {
      var i :| 0 <= i < |p| && p[i] == c;
      assert s[perm[i]] == c;
    }
    if WellSpaced(s) {
      forall i, j | 0 <= i < j < |p|
        ensures Distance(p[i], p[j]) >= 2
      {
        if perm[i] < perm[j] {
          assert Distance(s[perm[i]], s[perm[j]]) >= 2;
        } else {
          assert Distance(s[perm[j]], s[perm[i]]) >= 2;
          DistanceSymmetric(s[perm[j]], s[perm[i]]);
        }
      }
    }
  }

  lemma DistanceSymmetric(a: Cell, b: Cell)
    ensures Distance(a, b) == Distance(b, a)
  {
  }
}
