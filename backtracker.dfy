/** The carving step of the sketch's draw loop, stated on values: the whole
    carver state of an n-by-n grid, one step of the randomized depth-first
    backtracker, and what repeated steps keep and reach. */
module Backtracker {
  import opened Grid
  import opened Walls

  /** The sketch's mutable state: every cell's four wall flags (four per
      cell, see Walls), every cell's visited flag, the backtracking stack of
      cell positions (last element on top) and the position of `current`. */
  datatype State = State(walls: seq<bool>, visited: seq<bool>, stack: seq<int>, current: int)

  /** The shape every state of an n-by-n grid has. */
  predicate WellFormed(n: int, s: State) {
    n > 0 && |s.walls| == 4 * (n * n) && |s.visited| == n * n &&
    0 <= s.current < n * n &&
    forall t :: 0 <= t < |s.stack| ==> 0 <= s.stack[t] < n * n
  }

  /** The state setup leaves: all walls up, nothing visited, an empty stack,
      and `current` the first cell. */
  function Init(n: int): (s: State)
    requires n > 0
    ensures WellFormed(n, s)
    ensures forall q :: 0 <= q < |s.walls| ==> s.walls[q]
    ensures forall p :: 0 <= p < |s.visited| ==> !s.visited[p]
    ensures s.stack == [] && s.current == 0 && GridCoord(n, s.current) == Coord(0, 0)
  {
    MulMonotone(1, n, n);
    State(seq(4 * (n * n), _ => true), seq(n * n, _ => false), [], 0)
  }

  /** The neighbours the step chooses from, once it has marked `current`. */
  function Options(n: int, s: State): seq<int>
    requires WellFormed(n, s)
  {
    Candidates(n, s.visited[s.current := true], GridCoord(n, s.current))
  }

  /** Generation is over: no unvisited neighbour and nothing to backtrack to. */
  predicate Complete(n: int, s: State)
    requires WellFormed(n, s)
  {
    Options(n, s) == [] && s.stack == []
  }

  /** One step of draw: mark `current` visited; if it has an unvisited
      neighbour, take the k-th, mark it, push `current`, remove the walls
      between them and move there; otherwise pop the stack into `current`
      if the stack is not empty. */
  function Step(n: int, s: State, k: nat): (r: State)
    requires WellFormed(n, s)
    requires ValidChoice(Options(n, s), k)
    ensures WellFormed(n, r)
    ensures |r.stack| <= |s.stack| + 1
  {
    var v := s.visited[s.current := true];
    var cands := Candidates(n, v, GridCoord(n, s.current));
    if cands != [] then
      var next := cands[k];
      IndexOfCell(n, s.current);
      CandidateIsAdjacent(n, v, GridCoord(n, s.current), next);
      State(Carve(n, s.walls, s.current, next), v[next := true], s.stack + [s.current], next)
    else if |s.stack| > 0 then
      State(s.walls, v, s.stack[..|s.stack| - 1], s.stack[|s.stack| - 1])
    else
      State(s.walls, v, s.stack, s.current)
  }

  // ---------------------------------------------------------------------
  // The search invariant

  predicate Distinct(xs: seq<int>) {
    forall t, u :: 0 <= t < u < |xs| ==> xs[t] != xs[u]
  }

  /** No unvisited candidates remain around the cell at position p. */
  predicate Finished(n: int, v: seq<bool>, p: int)
    requires n > 0
  {
    Candidates(n, v, GridCoord(n, p)) == []
  }

  /** What every step keeps: stacked cells are visited and distinct, `current`
      is not on the stack (and is visited once the stack is in use), and a
      visited cell that is neither current nor stacked has no unvisited
      neighbour left. */
  predicate Inv(n: int, s: State)
    requires WellFormed(n, s)
  {
    (forall t :: 0 <= t < |s.stack| ==> s.visited[s.stack[t]]) &&
    Distinct(s.stack) &&
    s.current !in s.stack &&
    (s.stack != [] ==> s.visited[s.current]) &&
    (forall p {:trigger Finished(n, s.visited, p)} ::
       0 <= p < n * n && s.visited[p] && p != s.current && p !in s.stack ==>
       Finished(n, s.visited, p))
  }

  lemma InitInv(n: int)
    requires n > 0
    ensures Inv(n, Init(n))
    ensures Measure(Init(n)) == 2 * (n * n)
  {
    AllUnvisitedCount(Init(n).visited);
  }

  /** A cell with no candidates keeps none once more cells are visited. */
  lemma FinishedStays(n: int, v: seq<bool>, more: seq<bool>, p: int)
    requires n > 0 && |more| == |v|
    requires forall q :: 0 <= q < |v| && v[q] ==> more[q]
    requires Finished(n, v, p)
    ensures Finished(n, more, p)
  {
    KeepUnvisitedShrinks(Lookups(n, GridCoord(n, p)), v, more);
  }

  /** Every step keeps the invariant and leaves `current` visited. */
  lemma StepInv(n: int, s: State, k: nat)
    requires WellFormed(n, s) && Inv(n, s)
    requires ValidChoice(Options(n, s), k)
    ensures Inv(n, Step(n, s, k))
    ensures Step(n, s, k).visited[Step(n, s, k).current]
  {
    if Options(n, s) != [] {
      AdvanceInv(n, s, k);
    } else if |s.stack| > 0 {
      BacktrackInv(n, s, k);
    } else {
      StayInv(n, s, k);
    }
  }

  lemma AdvanceInv(n: int, s: State, k: nat)
    requires WellFormed(n, s) && Inv(n, s)
    requires ValidChoice(Options(n, s), k) && Options(n, s) != []
    ensures Inv(n, Step(n, s, k))
    ensures Step(n, s, k).visited[Step(n, s, k).current]
  {
    var v := s.visited[s.current := true];
    var next := Options(n, s)[k];
    var r := Step(n, s, k);
    assert next in Options(n, s);
    assert !v[next];
    assert r.visited == v[next := true] && r.stack == s.stack + [s.current] && r.current == next;
    forall p | 0 <= p < n * n && r.visited[p] && p != r.current && p !in r.stack
      ensures Finished(n, r.visited, p)
    {
      assert p != s.current && p !in s.stack;
      FinishedStays(n, s.visited, r.visited, p);
    }
  }

  lemma BacktrackInv(n: int, s: State, k: nat)
    requires WellFormed(n, s) && Inv(n, s)
    requires Options(n, s) == [] && s.stack != []
    ensures Inv(n, Step(n, s, k))
    ensures Step(n, s, k).visited[Step(n, s, k).current]
  {
    var v := s.visited[s.current := true];
    var L := |s.stack|;
    var r := Step(n, s, k);
    assert r == State(s.walls, v, s.stack[..L - 1], s.stack[L - 1]);
    assert s.stack == r.stack + [r.current];
    assert forall t :: 0 <= t < |r.stack| ==> r.stack[t] == s.stack[t];
    assert r.current !in r.stack by {
      forall t | 0 <= t < |r.stack|
        ensures r.stack[t] != r.current
      {
        assert s.stack[t] != s.stack[L - 1];
      }
    }
    forall p | 0 <= p < n * n && r.visited[p] && p != r.current && p !in r.stack
      ensures Finished(n, r.visited, p)
    {
      if p == s.current {
        assert Finished(n, v, p);
      } else {
        assert p !in s.stack;
        FinishedStays(n, s.visited, r.visited, p);
      }
    }
  }

  lemma StayInv(n: int, s: State, k: nat)
    requires WellFormed(n, s) && Inv(n, s)
    requires Options(n, s) == [] && s.stack == []
    ensures Inv(n, Step(n, s, k))
    ensures Step(n, s, k).visited[Step(n, s, k).current]
  {
    var r := Step(n, s, k);
    forall p | 0 <= p < n * n && r.visited[p] && p != r.current && p !in r.stack
      ensures Finished(n, r.visited, p)
    {
      FinishedStays(n, s.visited, r.visited, p);
    }
  }

  // ---------------------------------------------------------------------
  // The branches of a step

  /** Advance: the chosen neighbour was unvisited, is adjacent, becomes
      visited and current, and no other visited flag changes; the old current
      is pushed; the walls are removeWalls of the two cells, so the walls
      facing each other across the move come down. */
  lemma StepAdvance(n: int, s: State, k: nat)
    requires WellFormed(n, s)
    requires ValidChoice(Options(n, s), k)
    requires Options(n, s) != []
    ensures var next, r := Options(n, s)[k], Step(n, s, k);
      && 0 <= next < n * n && next != s.current && !s.visited[next]
      && Adjacent(GridCoord(n, s.current), GridCoord(n, next))
      && r.current == next && r.visited == s.visited[s.current := true][next := true]
      && r.stack == s.stack + [s.current] && |r.stack| == |s.stack| + 1
      && r.walls == Carve(n, s.walls, s.current, next)
      && !r.walls[4 * s.current + Facing(GridCoord(n, s.current), GridCoord(n, next))]
      && !r.walls[4 * next + Facing(GridCoord(n, next), GridCoord(n, s.current))]
  {
    var v := s.visited[s.current := true];
    var next := Options(n, s)[k];
    assert next in Options(n, s);
    IndexOfCell(n, s.current);
    CandidateIsAdjacent(n, v, GridCoord(n, s.current), next);
    CarveClears(n, s.walls, s.current, next);
  }

  /** Backtrack: with no unvisited neighbour and a non-empty stack, the top
      of the stack is popped into `current`; no wall changes, and under the
      invariant no visited flag changes either. */
  lemma StepBacktrack(n: int, s: State, k: nat)
    requires WellFormed(n, s)
    requires Options(n, s) == [] && s.stack != []
    ensures var r := Step(n, s, k);
      && r.current == s.stack[|s.stack| - 1]
      && s.stack == r.stack + [r.current] && |r.stack| == |s.stack| - 1
      && r.walls == s.walls
      && (Inv(n, s) ==> r.visited == s.visited)
  {
  }

  /** Once complete, a step only re-marks `current`, stays complete, and
      changes nothing at all when `current` is already visited. */
  lemma StepWhenComplete(n: int, s: State, k: nat)
    requires WellFormed(n, s) && Complete(n, s)
    ensures Step(n, s, k) == s.(visited := s.visited[s.current := true])
    ensures Complete(n, Step(n, s, k))
    ensures s.visited[s.current] ==> Step(n, s, k) == s
  {
    var r := Step(n, s, k);
    assert r.visited[r.current := true] == s.visited[s.current := true];
    if s.visited[s.current] {
      assert s.visited[s.current := true] == s.visited;
    }
  }

  /** Walls only ever go from up to down, and visited flags only from false
      to true. */
  lemma StepMonotone(n: int, s: State, k: nat)
    requires WellFormed(n, s)
    requires ValidChoice(Options(n, s), k)
    ensures forall q :: 0 <= q < |s.walls| && Step(n, s, k).walls[q] ==> s.walls[q]
    ensures forall p :: 0 <= p < |s.visited| && s.visited[p] ==> Step(n, s, k).visited[p]
  {
    var cands := Options(n, s);
    if cands != [] {
      var v := s.visited[s.current := true];
      IndexOfCell(n, s.current);
      CandidateIsAdjacent(n, v, GridCoord(n, s.current), cands[k]);
      CarveLowersOnly(n, s.walls, s.current, cands[k]);
    }
  }

  // ---------------------------------------------------------------------
  // Stack bound

  /** A duplicate-free sequence has as many distinct elements as entries. */
  lemma {:induction false} DistinctCard(xs: seq<int>)
    requires Distinct(xs)
    ensures |set x | x in xs| == |xs|
  {
    if xs != [] {
      var init := xs[..|xs| - 1];
      assert Distinct(init);
      DistinctCard(init);
      assert (set x | x in xs) == (set x | x in init) + {xs[|xs| - 1]};
    }
  }

  /** The positions 0 .. m-1, as a set of m elements. */
  function Upto(m: nat): (r: set<int>)
    ensures forall x :: x in r <==> 0 <= x < m
    ensures |r| == m
  {
    if m == 0 then {} else Upto(m - 1) + {m - 1}
  }

  /** Under the invariant the stack holds fewer entries than the grid has
      cells: its entries are distinct cells other than `current`. */
  lemma StackBound(n: int, s: State)
    requires WellFormed(n, s) && Inv(n, s)
    ensures |s.stack| < n * n
  {
    var onStack := set x | x in s.stack;
    var others := Upto(n * n) - {s.current};
    DistinctCard(s.stack);
    assert onStack <= others;
    assert |others| == n * n - 1;
    SubsetCard(onStack, others);
  }

  lemma SubsetCard(a: set<int>, b: set<int>)
    requires a <= b
    ensures |a| <= |b|
  {
    assert b == a + (b - a);
  }

  // ---------------------------------------------------------------------
  // Termination measure

  /** How many cells are not yet visited. */
  function CountUnvisited(v: seq<bool>): (c: nat)
    ensures c <= |v|
  {
    if v == [] then 0 else (if v[0] then 0 else 1) + CountUnvisited(v[1..])
  }

  /** Marking cell p visited lowers the count by one exactly when p was unvisited. */
  lemma {:induction false} CountMark(v: seq<bool>, p: int)
    requires 0 <= p < |v|
    ensures CountUnvisited(v[p := true]) == CountUnvisited(v) - (if v[p] then 0 else 1)
  {
    if p == 0 {
      assert v[p := true][1..] == v[1..];
    } else {
      assert v[p := true][1..] == v[1..][p - 1 := true];
      CountMark(v[1..], p - 1);
    }
  }

  lemma {:induction false} AllUnvisitedCount(v: seq<bool>)
    requires forall p :: 0 <= p < |v| ==> !v[p]
    ensures CountUnvisited(v) == |v|
  {
    if v != [] {
      AllUnvisitedCount(v[1..]);
    }
  }

  lemma {:induction false} NoneUnvisited(v: seq<bool>)
    requires CountUnvisited(v) == 0
    ensures forall p :: 0 <= p < |v| ==> v[p]
  {
    if v != [] {
      NoneUnvisited(v[1..]);
      forall p | 1 <= p < |v|
        ensures v[p]
      {
        assert v[p] == v[1..][p - 1];
      }
    }
  }

  /** Twice the number of unvisited cells plus the stack height. */
  function Measure(s: State): nat {
    2 * CountUnvisited(s.visited) + |s.stack|
  }

  /** Unless generation is complete, every step strictly lowers the measure;
      a complete step never raises it. */
  lemma StepDecreases(n: int, s: State, k: nat)
    requires WellFormed(n, s)
    requires ValidChoice(Options(n, s), k)
    ensures !Complete(n, s) ==> Measure(Step(n, s, k)) < Measure(s)
    ensures Measure(Step(n, s, k)) <= Measure(s)
  {
    var v := s.visited[s.current := true];
    CountMark(s.visited, s.current);
    var cands := Options(n, s);
    if cands != [] {
      var next := cands[k];
      assert next in cands;
      CountMark(v, next);
    }
  }

  // ---------------------------------------------------------------------
  // Runs of steps

  /** Each choice in ks is a valid choice at the state it is used in. */
  predicate RunValid(n: int, s: State, ks: seq<nat>)
    requires WellFormed(n, s)
    decreases |ks|
  {
    ks == [] ||
    (ValidChoice(Options(n, s), ks[0]) && RunValid(n, Step(n, s, ks[0]), ks[1..]))
  }

  /** The state after one step per choice in ks. */
  function Run(n: int, s: State, ks: seq<nat>): (r: State)
    requires WellFormed(n, s) && RunValid(n, s, ks)
    ensures WellFormed(n, r)
    decreases |ks|
  {
    if ks == [] then s else Run(n, Step(n, s, ks[0]), ks[1..])
  }

  /** Runs keep the invariant; after at least one step `current` is visited. */
  lemma {:induction false} RunInv(n: int, s: State, ks: seq<nat>)
    requires WellFormed(n, s) && RunValid(n, s, ks) && Inv(n, s)
    ensures Inv(n, Run(n, s, ks))
    ensures ks != [] ==> Run(n, s, ks).visited[Run(n, s, ks).current]
    decreases |ks|
  {
    if ks != [] {
      StepInv(n, s, ks[0]);
      RunInv(n, Step(n, s, ks[0]), ks[1..]);
    }
  }

  /** No run ever raises a wall. */
  lemma {:induction false} RunLowersOnly(n: int, s: State, ks: seq<nat>)
    requires WellFormed(n, s) && RunValid(n, s, ks)
    ensures forall q :: 0 <= q < |s.walls| && Run(n, s, ks).walls[q] ==> s.walls[q]
    decreases |ks|
  {
    if ks != [] {
      StepMonotone(n, s, ks[0]);
      RunLowersOnly(n, Step(n, s, ks[0]), ks[1..]);
    }
  }

  /** A complete state stays complete however long the run. */
  lemma {:induction false} CompleteStays(n: int, s: State, ks: seq<nat>)
    requires WellFormed(n, s) && RunValid(n, s, ks) && Complete(n, s)
    ensures Complete(n, Run(n, s, ks))
    decreases |ks|
  {
    if ks != [] {
      StepWhenComplete(n, s, ks[0]);
      CompleteStays(n, Step(n, s, ks[0]), ks[1..]);
    }
  }

  /** A state with every cell visited and an empty stack is complete. */
  lemma ZeroMeasureComplete(n: int, s: State)
    requires WellFormed(n, s) && Measure(s) == 0
    ensures Complete(n, s)
  {
    NoneUnvisited(s.visited);
    NoCandidatesWhenAllVisited(n, s.visited[s.current := true], GridCoord(n, s.current));
  }

  /** As many steps as the measure suffice to complete generation. */
  lemma {:induction false} RunCompletes(n: int, s: State, ks: seq<nat>)
    requires WellFormed(n, s) && RunValid(n, s, ks)
    requires |ks| >= Measure(s)
    ensures Complete(n, Run(n, s, ks))
    decreases |ks|
  {
    if Complete(n, s) {
      CompleteStays(n, s, ks);
    } else if ks == [] {
      ZeroMeasureComplete(n, s);
    } else {
      StepDecreases(n, s, ks[0]);
      RunCompletes(n, Step(n, s, ks[0]), ks[1..]);
    }
  }

  // ---------------------------------------------------------------------
  // Completion visits every cell

  /** Every visited cell is finished. */
  predicate Closed(n: int, v: seq<bool>)
    requires n > 0 && |v| == n * n
  {
    forall p {:trigger Finished(n, v, p)} :: 0 <= p < n * n && v[p] ==> Finished(n, v, p)
  }

  /** In a closed state, visiting spreads from a cell to its in-bounds neighbour. */
  lemma SpreadStep(n: int, v: seq<bool>, a: Coord, b: Coord)
    requires n > 0 && |v| == n * n && Closed(n, v)
    requires 0 <= a.i < n && 0 <= a.j < n && 0 <= b.i < n && 0 <= b.j < n
    requires Adjacent(a, b)
    requires v[GetIndex(n, n, a.i, a.j)]
    ensures v[GetIndex(n, n, b.i, b.j)]
  {
    CellAtIndex(n, a.i, a.j);
    assert Finished(n, v, GetIndex(n, n, a.i, a.j));
    if !v[GetIndex(n, n, b.i, b.j)] {
      AdjacentIsCandidate(n, v, a, b);
    }
  }

  /** In a closed state, visiting spreads along a whole column of i values. */
  lemma {:induction false} SpreadI(n: int, v: seq<bool>, i: int, j: int, i2: int)
    requires n > 0 && |v| == n * n && Closed(n, v)
    requires 0 <= i < n && 0 <= i2 < n && 0 <= j < n
    requires v[GetIndex(n, n, i, j)]
    ensures v[GetIndex(n, n, i2, j)]
    decreases if i2 < i then i - i2 else i2 - i
  {
    if i2 > i {
      SpreadI(n, v, i, j, i2 - 1);
      SpreadStep(n, v, Coord(i2 - 1, j), Coord(i2, j));
    } else if i2 < i {
      SpreadI(n, v, i, j, i2 + 1);
      SpreadStep(n, v, Coord(i2 + 1, j), Coord(i2, j));
    }
  }

  /** In a closed state, visiting spreads along a whole row of j values. */
  lemma {:induction false} SpreadJ(n: int, v: seq<bool>, i: int, j: int, j2: int)
    requires n > 0 && |v| == n * n && Closed(n, v)
    requires 0 <= i < n && 0 <= j < n && 0 <= j2 < n
    requires v[GetIndex(n, n, i, j)]
    ensures v[GetIndex(n, n, i, j2)]
    decreases if j2 < j then j - j2 else j2 - j
  {
    if j2 > j {
      SpreadJ(n, v, i, j, j2 - 1);
      SpreadStep(n, v, Coord(i, j2 - 1), Coord(i, j2));
    } else if j2 < j {
      SpreadJ(n, v, i, j, j2 + 1);
      SpreadStep(n, v, Coord(i, j2 + 1), Coord(i, j2));
    }
  }

  /** A complete state whose current cell is visited has visited every cell. */
  lemma CompleteVisitsAll(n: int, s: State)
    requires WellFormed(n, s) && Inv(n, s) && Complete(n, s)
    requires s.visited[s.current]
    ensures forall p :: 0 <= p < n * n ==> s.visited[p]
  {
    assert s.visited[s.current := true] == s.visited;
    assert Closed(n, s.visited);
    var c := GridCoord(n, s.current);
    IndexOfCell(n, s.current);
    forall p | 0 <= p < n * n
      ensures s.visited[p]
    {
      var d := GridCoord(n, p);
      IndexOfCell(n, p);
      SpreadI(n, s.visited, c.i, c.j, d.i);
      SpreadJ(n, s.visited, d.i, c.j, d.j);
    }
  }

  /** From setup, any 2 * n * n steps complete generation with every cell
      visited, whatever neighbours are chosen along the way. */
  lemma CarvingVisitsEveryCell(n: int, ks: seq<nat>)
    requires n > 0 && RunValid(n, Init(n), ks)
    requires |ks| >= 2 * (n * n)
    ensures Complete(n, Run(n, Init(n), ks))
    ensures forall p :: 0 <= p < n * n ==> Run(n, Init(n), ks).visited[p]
  {
    InitInv(n);
    RunCompletes(n, Init(n), ks);
    MulMonotone(1, n, n);
    RunInv(n, Init(n), ks);
    CompleteVisitsAll(n, Run(n, Init(n), ks));
  }
}
