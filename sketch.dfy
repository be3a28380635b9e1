/** The sketch's carver as the program runs it: the grid, the cursor and the
    stack held in one object whose arrays are updated in place. Each cell is
    named by its position in the grid; its four wall flags sit at 4 * p .. 4 * p + 3
    of `walls` and its visited flag at p of `visited`. */
module Sketch {
  import opened Grid
  import opened Walls
  import opened Backtracker

  datatype Option<T> = None | Some(value: T)

  /** The cells of the grid so far sit at their construction coordinates,
      with walls up and not visited. */
  ghost predicate Built(grid: seq<Coord>, rows: nat, walls: array<bool>, visited: array<bool>)
    reads walls, visited
  {
    rows >= 1 && 4 * |grid| <= walls.Length && |grid| <= visited.Length &&
    (forall p :: 0 <= p < |grid| ==> grid[p] == GridCoord(rows, p)) &&
    (forall q :: 0 <= q < 4 * |grid| ==> walls[q]) &&
    (forall p :: 0 <= p < |grid| ==> !visited[p])
  }

  /** The nested loop of setup: for each of the cols values of y and each of
      the rows values of x, push a new cell (x, y) with four walls up and not
      visited. */
  method BuildGrid(cols: nat, rows: nat) returns (grid: seq<Coord>, walls: array<bool>, visited: array<bool>)
    requires cols >= 1 && rows >= 1
    ensures fresh(walls) && fresh(visited)
    ensures |grid| == cols * rows && walls.Length == 4 * |grid| && visited.Length == |grid|
    ensures forall p :: 0 <= p < |grid| ==> grid[p] == GridCoord(rows, p)
    ensures forall q :: 0 <= q < walls.Length ==> walls[q]
    ensures forall p :: 0 <= p < visited.Length ==> !visited[p]
  {
    var size := cols * rows;
    grid := [];
    walls := new bool[4 * size];
    visited := new bool[size];
    for y := 0 to cols
      invariant |grid| == y * rows
      invariant Built(grid, rows, walls, visited)
    {
      MulMonotone(y + 1, cols, rows);
      assert |grid| + rows == (y + 1) * rows <= size;
      grid := PushColumn(y, rows, grid, walls, visited);
    }
  }

  /** One pass of the inner loop of setup: push the rows cells (x, y). */
  method PushColumn(y: nat, rows: nat, grid0: seq<Coord>, walls: array<bool>, visited: array<bool>)
    returns (grid: seq<Coord>)
    requires |grid0| == y * rows && Built(grid0, rows, walls, visited)
    requires 4 * (|grid0| + rows) <= walls.Length && |grid0| + rows <= visited.Length
    requires walls != visited
    modifies walls, visited
    ensures |grid| == |grid0| + rows && grid[..|grid0|] == grid0
    ensures Built(grid, rows, walls, visited)
  {
    grid := grid0;
    for x := 0 to rows
      invariant |grid| == |grid0| + x && grid[..|grid0|] == grid0
      invariant Built(grid, rows, walls, visited)
    {
      // new Cell(x, y)
      var p := |grid|;
      assert p == x + y * rows;
      DivModUnique(rows, x, y);
      walls[4 * p], walls[4 * p + 1], walls[4 * p + 2], walls[4 * p + 3] := true, true, true, true;
      visited[p] := false;
      grid := grid + [Coord(x, y)];
    }
  }

  /** The forEach of checkNeighbours: push, in order, each item that names an
      existing cell not yet visited. */
  method CollectUnvisited(items: seq<int>, visited: array<bool>) returns (kept: seq<int>)
    ensures kept == KeepUnvisited(items, visited[..])
  {
    kept := [];
    for t := 0 to |items|
      invariant kept == KeepUnvisited(items[..t], visited[..])
    {
      var item := items[t];
      if 0 <= item < visited.Length && !visited[item] {
        kept := kept + [item];
      }
      assert items[..t + 1][..t] == items[..t];
    }
    assert items[..|items|] == items;
  }

  class Maze {
    const cols: nat
    const rows: nat
    /** The coordinates each grid cell was constructed with. */
    const grid: seq<Coord>
    const walls: array<bool>
    const visited: array<bool>
    var stack: seq<int>
    var current: int

    /** The view of the object as a carver state of the value model. */
    ghost function State(): Backtracker.State
      reads this, walls, visited
    {
      Backtracker.State(walls[..], visited[..], stack, current)
    }

    ghost predicate Valid()
      reads this, walls, visited
    {
      rows == cols && |grid| == rows * cols && walls != visited &&
      (forall p :: 0 <= p < |grid| ==> grid[p] == GridCoord(rows, p)) &&
      WellFormed(rows, State())
    }

    /** setup: cols and rows from the canvas and cell size, a grid of
        cols * rows cells built a column of rows at a time, each with all four
        walls up and not visited; `current` is the first cell and the stack
        is empty. */
    constructor Setup()
      ensures Valid() && fresh(walls) && fresh(visited)
      ensures cols == Width / CellSize && rows == Height / CellSize && cols == rows == 16
      ensures |grid| == cols * rows
      ensures forall q :: 0 <= q < walls.Length ==> walls[q]
      ensures forall p :: 0 <= p < visited.Length ==> !visited[p]
      ensures stack == [] && current == 0 && grid[current] == Coord(0, 0)
      ensures forall i, j :: 0 <= i < cols && 0 <= j < rows ==> grid[GetIndex(cols, rows, i, j)] == Coord(i, j)
      ensures State() == Init(rows)
    {
      var c := Width / CellSize;
      var r := Height / CellSize;
      var g, w, v := BuildGrid(c, r);
      cols, rows, grid, walls, visited := c, r, g, w, v;
      stack := [];
      current := 0;
      new;
      forall i, j | 0 <= i < cols && 0 <= j < rows
        ensures grid[GetIndex(cols, rows, i, j)] == Coord(i, j)
      {
        CellAtIndex(rows, i, j);
      }
      assert State() == Init(rows);
    }

    /** checkNeighbours for the cell at position c: collect, in lookup order,
        the in-bounds unvisited cells among its four lookups, then return the
        k-th, or nothing when there are none. */
    method CheckNeighbours(c: int, k: nat) returns (next: Option<int>)
      requires Valid() && 0 <= c < |grid|
      requires ValidChoice(Candidates(rows, visited[..], grid[c]), k)
      ensures next.None? <==> Candidates(rows, visited[..], grid[c]) == []
      ensures next.Some? ==> next.value == Candidates(rows, visited[..], grid[c])[k]
      ensures next.Some? ==> 0 <= next.value < |grid| && !visited[next.value]
      ensures next.Some? ==> Adjacent(grid[c], grid[next.value])
    {
      var cell := grid[c];
      var lookups := [GetIndex(cols, rows, cell.i, cell.j - 1), GetIndex(cols, rows, cell.i + 1, cell.j),
                      GetIndex(cols, rows, cell.i, cell.j + 1), GetIndex(cols, rows, cell.i - 1, cell.j)];
      var neighbours := CollectUnvisited(lookups, visited);
      assert lookups == Lookups(rows, cell);
      if |neighbours| > 0 {
        next := Some(neighbours[k]);
        assert next.value in neighbours;
        IndexOfCell(rows, c);
        CandidateIsAdjacent(rows, visited[..], cell, next.value);
      } else {
        next := None;
      }
    }

    /** removeWalls between the adjacent cells at positions a and b. */
    method RemoveWalls(a: int, b: int)
      requires Valid()
      requires 0 <= a < |grid| && 0 <= b < |grid| && Adjacent(grid[a], grid[b])
      modifies walls
      ensures Valid()
      ensures walls[..] == Carve(rows, old(walls[..]), a, b)
    {
      var x := grid[a].i - grid[b].i;
      var y := grid[a].j - grid[b].j;
      walls[4 * a + 2 + y] := false;
      walls[4 * b + 2 - y] := false;
      walls[4 * a + 1 - x] := false;
      walls[4 * b + 1 + x] := false;
    }

    /** The carving step of draw: mark `current`, then either advance to a
        chosen unvisited neighbour or backtrack by popping the stack. */
    method Step(k: nat)
      requires Valid()
      requires ValidChoice(Options(rows, State()), k)
      modifies this, walls, visited
      ensures Valid()
      ensures State() == Backtracker.Step(rows, old(State()), k)
    {
      ghost var s := State();
      visited[current] := true;
      assert visited[..] == s.visited[s.current := true];
      assert grid[current] == GridCoord(rows, current);
      var next := CheckNeighbours(current, k);
      if next.Some? {
        assert next.value == Options(rows, s)[k];
        StepAdvance(rows, s, k);
        visited[next.value] := true;
        stack := stack + [current];
        RemoveWalls(current, next.value);
        current := next.value;
      } else if |stack| > 0 {
        current := stack[|stack| - 1];
        stack := stack[..|stack| - 1];
      }
    }
  }
}
