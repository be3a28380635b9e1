/** Wall flags and removeWalls. The walls of all cells live in one flat
    sequence, four per cell: the wall k of the cell at position p is entry
    4 * p + k, numbered as `show` draws them (0 top, 1 right, 2 bottom,
    3 left), with j running across the canvas and i running down it. */
module Walls {
  import opened Grid

  /** The wall of a that stands between a and its adjacent cell b. */
  function Facing(a: Coord, b: Coord): (d: int)
    requires Adjacent(a, b)
    ensures 0 <= d < 4
    ensures d == 0 <==> b.i == a.i - 1
    ensures d == 1 <==> b.j == a.j + 1
    ensures d == 2 <==> b.i == a.i + 1
    ensures d == 3 <==> b.j == a.j - 1
  {
    if b.i == a.i - 1 then 0
    else if b.j == a.j + 1 then 1
    else if b.i == a.i + 1 then 2
    else 3
  }

  /** The two facing walls of an adjacent pair are opposite sides. */
  lemma FacingOpposite(a: Coord, b: Coord)
    requires Adjacent(a, b)
    ensures Facing(b, a) == (Facing(a, b) + 2) % 4
  {
  }

  /** removeWalls(a, b) on the cells at positions a and b of an n-by-n grid:
      with x and y the differences of their coordinates, it lowers a's wall
      2 + y, b's wall 2 - y, a's wall 1 - x and b's wall 1 + x. */
  function Carve(n: int, w: seq<bool>, a: int, b: int): (r: seq<bool>)
    requires n > 0 && |w| == 4 * (n * n)
    requires 0 <= a < n * n && 0 <= b < n * n
    requires Adjacent(GridCoord(n, a), GridCoord(n, b))
    ensures |r| == |w|
  {
    var x := GridCoord(n, a).i - GridCoord(n, b).i;
    var y := GridCoord(n, a).j - GridCoord(n, b).j;
    w[4 * a + 2 + y := false][4 * b + 2 - y := false][4 * a + 1 - x := false][4 * b + 1 + x := false]
  }

  /** The walls Carve lowers, described by where b lies: the facing pair,
      and besides it both cells' bottom walls when b is above or below a,
      or both cells' right walls when b is left or right of a. */
  function Cleared(n: int, a: int, b: int): set<int>
    requires n > 0
    requires Adjacent(GridCoord(n, a), GridCoord(n, b))
  {
    var ca, cb := GridCoord(n, a), GridCoord(n, b);
    {4 * a + Facing(ca, cb), 4 * b + Facing(cb, ca)} +
      (if ca.i != cb.i then {4 * a + 2, 4 * b + 2} else {4 * a + 1, 4 * b + 1})
  }

  /** Carve lowers exactly the walls in Cleared, which include the pair
      facing each other and lie in cells a and b only; every other wall and
      every lowered wall stays as it was. */
  lemma CarveClears(n: int, w: seq<bool>, a: int, b: int)
    requires n > 0 && |w| == 4 * (n * n)
    requires 0 <= a < n * n && 0 <= b < n * n
    requires Adjacent(GridCoord(n, a), GridCoord(n, b))
    ensures forall q :: 0 <= q < |w| ==> Carve(n, w, a, b)[q] == (w[q] && q !in Cleared(n, a, b))
    ensures 4 * a + Facing(GridCoord(n, a), GridCoord(n, b)) in Cleared(n, a, b)
    ensures 4 * b + Facing(GridCoord(n, b), GridCoord(n, a)) in Cleared(n, a, b)
    ensures forall q :: q in Cleared(n, a, b) ==> 0 <= q < |w| && (q / 4 == a || q / 4 == b)
  {
    var ca, cb := GridCoord(n, a), GridCoord(n, b);
    var x, y := ca.i - cb.i, ca.j - cb.j;
    var written := {4 * a + 2 + y, 4 * b + 2 - y, 4 * a + 1 - x, 4 * b + 1 + x};
    assert written == Cleared(n, a, b);
  }

  /** Walls only come down: Carve never raises a wall. */
  lemma CarveLowersOnly(n: int, w: seq<bool>, a: int, b: int)
    requires n > 0 && |w| == 4 * (n * n)
    requires 0 <= a < n * n && 0 <= b < n * n
    requires Adjacent(GridCoord(n, a), GridCoord(n, b))
    ensures forall q :: 0 <= q < |w| && Carve(n, w, a, b)[q] ==> w[q]
  {
    CarveClears(n, w, a, b);
  }

  /** Removing the walls between the same pair twice is the same as once. */
  lemma CarveIdempotent(n: int, w: seq<bool>, a: int, b: int)
    requires n > 0 && |w| == 4 * (n * n)
    requires 0 <= a < n * n && 0 <= b < n * n
    requires Adjacent(GridCoord(n, a), GridCoord(n, b))
    ensures Carve(n, Carve(n, w, a, b), a, b) == Carve(n, w, a, b)
  {
    var once := Carve(n, w, a, b);
    CarveClears(n, w, a, b);
    CarveClears(n, once, a, b);
    assert forall q :: 0 <= q < |w| ==> Carve(n, once, a, b)[q] == once[q];
  }
}
