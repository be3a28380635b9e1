/** Cell addressing for the maze grid: the index function, the coordinates the
    grid construction gives to each position, and the neighbour lookups that
    pick the cells the carver may move to next. */
module Grid {

  /** The coordinates a cell is constructed with (its fields `i` and `j`). */
  datatype Coord = Coord(i: int, j: int)

  /** The sketch's fixed configuration: a 320 by 320 canvas of 20-pixel cells. */
  const Width: nat := 320
  const Height: nat := 320
  const CellSize: nat := 20

  /** The caller-supplied choice among the candidates: any index into a
      non-empty list (an empty list needs no choice). */
  predicate ValidChoice(cands: seq<int>, k: nat) {
    cands == [] || k < |cands|
  }

  /** Linear index of the pair (i, j), or -1 when the pair lies off the grid. */
  function GetIndex(cols: int, rows: int, i: int, j: int): (r: int)
    ensures r == -1 <==> i < 0 || j < 0 || i > cols - 1 || j > rows - 1
    ensures r != -1 ==> 0 <= r < cols * rows
  {
    if i < 0 || j < 0 || i > cols - 1 || j > rows - 1 then -1
    else
      IndexBelowSize(cols, rows, i, j);
      i + j * cols
  }

  /** The coordinates the grid construction gives to the cell it stores at
      position p: the inner loop runs over the `rows` values of i. */
  function GridCoord(rows: int, p: int): (c: Coord)
    requires rows > 0
    ensures 0 <= c.i < rows
    ensures 0 <= p ==> 0 <= c.j
  {
    Coord(p % rows, p / rows)
  }

  /** Two cells differ by exactly one in exactly one coordinate. */
  predicate Adjacent(a: Coord, b: Coord) {
    (a.j == b.j && (a.i - b.i == 1 || b.i - a.i == 1)) ||
    (a.i == b.i && (a.j - b.j == 1 || b.j - a.j == 1))
  }

  /** The four lookups of checkNeighbours on an n-by-n grid, in its order:
      (i, j-1), (i+1, j), (i, j+1), (i-1, j). */
  function Lookups(n: int, c: Coord): (r: seq<int>)
    ensures |r| == 4
    ensures forall t :: 0 <= t < 4 ==> r[t] == -1 || 0 <= r[t] < n * n
  {
    [GetIndex(n, n, c.i, c.j - 1), GetIndex(n, n, c.i + 1, c.j),
     GetIndex(n, n, c.i, c.j + 1), GetIndex(n, n, c.i - 1, c.j)]
  }

  /** The items, in order, that name an existing cell not yet visited. */
  function KeepUnvisited(items: seq<int>, visited: seq<bool>): (r: seq<int>)
    ensures |r| <= |items|
    ensures forall t :: 0 <= t < |r| ==> 0 <= r[t] < |visited| && !visited[r[t]]
    ensures forall x :: x in r <==> x in items && 0 <= x < |visited| && !visited[x]
  {
    if items == [] then []
    else
      var x := items[|items| - 1];
      KeepUnvisited(items[..|items| - 1], visited) +
        (if 0 <= x < |visited| && !visited[x] then [x] else [])
  }

  /** The filter keeps order: filtering a concatenation concatenates the
      filtered parts, so the survivors of earlier items come first. */
  lemma {:induction false} KeepUnvisitedAppend(a: seq<int>, b: seq<int>, visited: seq<bool>)
    ensures KeepUnvisited(a + b, visited) == KeepUnvisited(a, visited) + KeepUnvisited(b, visited)
  {
    if b != [] {
      var b', x := b[..|b| - 1], b[|b| - 1];
      var kept := if 0 <= x < |visited| && !visited[x] then [x] else [];
      assert (a + b)[..|a + b| - 1] == a + b' && (a + b)[|a + b| - 1] == x;
      assert KeepUnvisited(a + b, visited) == KeepUnvisited(a + b', visited) + kept;
      assert KeepUnvisited(b, visited) == KeepUnvisited(b', visited) + kept;
      KeepUnvisitedAppend(a, b', visited);
    } else {
      assert a + b == a;
    }
  }

  /** The neighbours checkNeighbours chooses from: the in-bounds, unvisited
      cells among its four lookups, in lookup order. */
  function Candidates(n: int, visited: seq<bool>, c: Coord): (r: seq<int>)
    ensures |r| <= 4
    ensures forall x :: x in r <==> x in Lookups(n, c) && 0 <= x < |visited| && !visited[x]
  {
    KeepUnvisited(Lookups(n, c), visited)
  }

  /** Every candidate of an in-bounds cell is an existing, unvisited cell
      whose stored coordinates make it adjacent to that cell. */
  lemma CandidateIsAdjacent(n: int, visited: seq<bool>, c: Coord, x: int)
    requires n > 0 && |visited| == n * n
    requires 0 <= c.i < n && 0 <= c.j < n
    requires x in Candidates(n, visited, c)
    ensures 0 <= x < n * n && !visited[x]
    ensures Adjacent(c, GridCoord(n, x))
  {
    var d :| 0 <= d < 4 && Lookups(n, c)[d] == x;
    if d == 0 {
      CellAtIndex(n, c.i, c.j - 1);
    } else if d == 1 {
      CellAtIndex(n, c.i + 1, c.j);
    } else if d == 2 {
      CellAtIndex(n, c.i, c.j + 1);
    } else {
      CellAtIndex(n, c.i - 1, c.j);
    }
  }

  /** Conversely, every in-bounds, unvisited cell adjacent to c is a candidate. */
  lemma AdjacentIsCandidate(n: int, visited: seq<bool>, c: Coord, b: Coord)
    requires n > 0 && |visited| == n * n
    requires 0 <= b.i < n && 0 <= b.j < n
    requires Adjacent(c, b)
    requires !visited[GetIndex(n, n, b.i, b.j)]
    ensures GetIndex(n, n, b.i, b.j) in Candidates(n, visited, c)
  {
  }

  /** With every cell visited there are no candidates at all. */
  lemma NoCandidatesWhenAllVisited(n: int, visited: seq<bool>, c: Coord)
    requires forall p :: 0 <= p < |visited| ==> visited[p]
    ensures Candidates(n, visited, c) == []
  {
    NoneKept(Lookups(n, c), visited);
  }

  lemma {:induction false} NoneKept(items: seq<int>, visited: seq<bool>)
    requires forall p :: 0 <= p < |visited| ==> visited[p]
    ensures KeepUnvisited(items, visited) == []
  {
    if items != [] {
      NoneKept(items[..|items| - 1], visited);
    }
  }

  /** Visiting more cells never lengthens the filtered list. */
  lemma {:induction false} KeepUnvisitedShrinks(items: seq<int>, visited: seq<bool>, more: seq<bool>)
    requires |more| == |visited|
    requires forall p :: 0 <= p < |visited| && visited[p] ==> more[p]
    ensures |KeepUnvisited(items, more)| <= |KeepUnvisited(items, visited)|
  {
    if items != [] {
      KeepUnvisitedShrinks(items[..|items| - 1], visited, more);
    }
  }

  // ---------------------------------------------------------------------
  // Index arithmetic

  /** An in-bounds pair gets an index below cols * rows. */
  lemma IndexBelowSize(cols: int, rows: int, i: int, j: int)
    requires 0 <= i < cols && 0 <= j < rows
    ensures 0 <= i + j * cols < cols * rows
  {
    MulMonotone(j, rows - 1, cols);
    assert (rows - 1) * cols == rows * cols - cols;
  }

  lemma MulMonotone(a: int, b: int, c: int)
    requires 0 <= a <= b && 0 <= c
    ensures 0 <= a * c <= b * c
  {
  }

  /** Division by n undoes i + j * n when 0 <= i < n. */
  lemma {:induction false} DivModUnique(n: int, i: int, j: int)
    requires n > 0 && 0 <= i < n
    ensures (i + j * n) / n == j && (i + j * n) % n == i
  {
    var r := i + j * n;
    var q, m := r / n, r % n;
    assert r == q * n + m;
    assert (j - q) * n == m - i;
    if j - q >= 1 {
      MulMonotone(1, j - q, n);
    } else if q - j >= 1 {
      MulMonotone(1, q - j, n);
    }
  }

  /** On a square grid, the cell stored at getIndex(i, j) has coordinates (i, j). */
  lemma CellAtIndex(n: int, i: int, j: int)
    requires n > 0 && 0 <= i < n && 0 <= j < n
    ensures GridCoord(n, GetIndex(n, n, i, j)) == Coord(i, j)
  {
    DivModUnique(n, i, j);
  }

  /** On a square grid, getIndex of a stored cell's coordinates is its position. */
  lemma IndexOfCell(n: int, p: int)
    requires n > 0 && 0 <= p < n * n
    ensures 0 <= GridCoord(n, p).i < n && 0 <= GridCoord(n, p).j < n
    ensures GetIndex(n, n, GridCoord(n, p).i, GridCoord(n, p).j) == p
  {
    var q, m := p / n, p % n;
    assert p == q * n + m;
    if q >= n {
      MulMonotone(n, q, n);
    }
  }

  /** Distinct in-bounds pairs get distinct indices. */
  lemma GetIndexInjective(cols: int, rows: int, i1: int, j1: int, i2: int, j2: int)
    requires 0 <= i1 < cols && 0 <= j1 < rows
    requires 0 <= i2 < cols && 0 <= j2 < rows
    requires GetIndex(cols, rows, i1, j1) == GetIndex(cols, rows, i2, j2)
    ensures i1 == i2 && j1 == j2
  {
    DivModUnique(cols, i1, j1);
    DivModUnique(cols, i2, j2);
  }

  /** Off the square the construction and getIndex disagree: on a grid of
      two columns and one row, getIndex(1, 0) is 1 but the cell stored at 1
      was built as Cell(0, 1). */
  lemma TransposedWhenNotSquare()
    ensures GetIndex(2, 1, 1, 0) == 1
    ensures GridCoord(1, 1) == Coord(0, 1)
  {
  }
}
