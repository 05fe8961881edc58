/** The grid the searches run over, the moves they may make, and what a
    path from `start` to `end` is. A grid is a rectangular array of rows,
    indexed `grid[y][x]`; the value 1 marks a wall, any other value is open
    floor. */
module Grid {

  /** A cell: column `x`, row `y`. */
  datatype Cell = Cell(x: int, y: int)

  type Grid = seq<seq<int>>

  /** The searches read the number of columns from the first row, so they
      need at least one row, and every row as long as the first. */
  predicate WellFormed(grid: Grid) {
    |grid| > 0 && forall y :: 0 <= y < |grid| ==> |grid[y]| == |grid[0]|
  }

  function Rows(grid: Grid): nat { |grid| }

  function Cols(grid: Grid): nat
    requires WellFormed(grid)
  {
    |grid[0]|
  }

  predicate InBounds(grid: Grid, c: Cell)
    requires WellFormed(grid)
  {
    0 <= c.x < Cols(grid) && 0 <= c.y < Rows(grid)
  }

  predicate IsWall(grid: Grid, c: Cell)
    requires WellFormed(grid) && InBounds(grid, c)
  {
    grid[c.y][c.x] == 1
  }

  /** The test both searches apply to a neighbour before using it: inside
      the grid and not a wall. */
  predicate Passable(grid: Grid, c: Cell)
    requires WellFormed(grid)
  {
    InBounds(grid, c) && !IsWall(grid, c)
  }

  /** Every cell inside the grid. */
  function Cells(grid: Grid): (s: set<Cell>)
    requires WellFormed(grid)
    ensures forall c :: c in s <==> InBounds(grid, c)
  {
    var s := set x: int, y: int | 0 <= x < Cols(grid) && 0 <= y < Rows(grid) :: Cell(x, y);
    assert forall c :: InBounds(grid, c) ==> Cell(c.x, c.y) in s;
    s
  }

  /** The test both searches spell out before using a neighbour: it is
      skipped exactly when it lies left of column 0, at or past the length
      of the first row, above row 0, at or past the last row, or holds 1.
      Every row is as long as the first, so a cell that is not skipped is
      read inside its own row. */
  lemma SkipTest(grid: Grid, c: Cell)
    requires WellFormed(grid)
    ensures !Passable(grid, c) <==> (c.x < 0 || c.x >= |grid[0]| || c.y < 0 || c.y >= |grid| || grid[c.y][c.x] == 1)
    ensures InBounds(grid, c) <==> c in Cells(grid)
    ensures InBounds(grid, c) ==> c.x < |grid[c.y]| && (IsWall(grid, c) <==> grid[c.y][c.x] == 1)
  {
  }

  function Abs(n: int): nat { if n < 0 then -n else n }

  /** Two cells are one move apart: they differ by exactly one in exactly
      one coordinate. */
  predicate Adjacent(a: Cell, b: Cell) {
    (a.x == b.x && Abs(a.y - b.y) == 1) || (a.y == b.y && Abs(a.x - b.x) == 1)
  }

  /** The four candidate moves, in the order both searches try them:
      east, west, south, north. */
  function Neighbors(c: Cell): (ns: seq<Cell>)
    ensures |ns| == 4
  {
    [Cell(c.x + 1, c.y), Cell(c.x - 1, c.y), Cell(c.x, c.y + 1), Cell(c.x, c.y - 1)]
  }

  /** The four candidates are exactly the cells one move away. */
  lemma NeighborsAdjacent(c: Cell, n: Cell)
    ensures n in Neighbors(c) <==> Adjacent(c, n)
  {
  }

  /** The Manhattan distance, the heuristic of the A* search. */
  function Heuristic(a: Cell, b: Cell): (h: nat)
    ensures h == 0 <==> a == b
    ensures Adjacent(a, b) ==> h == 1
  {
    Abs(a.x - b.x) + Abs(a.y - b.y)
  }

  /** One move changes the heuristic by at most one (it is consistent). */
  lemma HeuristicStep(a: Cell, b: Cell, goal: Cell)
    requires Adjacent(a, b)
    ensures Heuristic(a, goal) <= Heuristic(b, goal) + 1
  {
  }

  /** No cell occurs twice. */
  predicate Distinct(s: seq<Cell>) {
    forall i, j :: 0 <= i < j < |s| ==> s[i] != s[j]
  }

  /** Each step of `w` is one move. */
  predicate Steps(w: seq<Cell>) {
    forall i :: 1 <= i < |w| ==> Adjacent(w[i - 1], w[i])
  }

  /** A walk: a non-empty sequence of cells, each step one move, and every
      cell after the first passable. The first cell is not checked: neither
      search ever looks at whether `start` is a wall. */
  predicate IsWalk(grid: Grid, w: seq<Cell>)
    requires WellFormed(grid)
  {
    |w| > 0 && Steps(w) && forall i :: 1 <= i < |w| ==> Passable(grid, w[i])
  }

  predicate IsPath(grid: Grid, start: Cell, end: Cell, p: seq<Cell>)
    requires WellFormed(grid)
  {
    IsWalk(grid, p) && p[0] == start && p[|p| - 1] == end
  }

  ghost predicate Reachable(grid: Grid, start: Cell, end: Cell)
    requires WellFormed(grid)
  {
    exists p :: IsPath(grid, start, end, p)
  }

  /** A path with the fewest cells among all paths between its ends. */
  ghost predicate IsShortestPath(grid: Grid, start: Cell, end: Cell, p: seq<Cell>)
    requires WellFormed(grid)
  {
    IsPath(grid, start, end, p) && forall q :: IsPath(grid, start, end, q) ==> |p| <= |q|
  }

  /** The Manhattan distance never overestimates the number of moves
      (the heuristic is admissible). */
  lemma {:induction false} HeuristicAdmissible(w: seq<Cell>)
    requires |w| > 0 && Steps(w)
    ensures Heuristic(w[0], w[|w| - 1]) <= |w| - 1
  {
    if |w| > 1 {
      var v := w[1..];
      assert Steps(v) by {
        forall i | 1 <= i < |v| ensures Adjacent(v[i - 1], v[i]) {
          assert v[i - 1] == w[i] && v[i] == w[i + 1];
        }
      }
      HeuristicAdmissible(v);
      HeuristicStep(w[0], w[1], w[|w| - 1]);
    }
  }

  /** Every path has at least Manhattan-distance-plus-one cells. */
  lemma PathLowerBound(grid: Grid, start: Cell, end: Cell, p: seq<Cell>)
    requires WellFormed(grid) && IsPath(grid, start, end, p)
    ensures |p| >= Heuristic(start, end) + 1
  {
    HeuristicAdmissible(p);
  }

  /** When start and end coincide, the only shortest path is the one-cell
      path; so both searches return `[start]`. */
  lemma StartIsEnd(grid: Grid, start: Cell, p: seq<Cell>)
    requires WellFormed(grid) && IsShortestPath(grid, start, start, p)
    ensures p == [start]
  {
  }

  /** A walled-in end, or a wall at the end, different from start, cannot
      be reached; so both searches return `[]`. */
  lemma WallAtEnd(grid: Grid, start: Cell, end: Cell)
    requires WellFormed(grid) && start != end && !Passable(grid, end)
    ensures !Reachable(grid, start, end)
  {
  }

  /** A route ignoring walls: first along the row, then along the
      column. */
  function Staircase(a: Cell, b: Cell): (p: seq<Cell>)
    ensures |p| == Heuristic(a, b) + 1
    decreases Heuristic(a, b)
  {
    if a == b then [a]
    else [a] + Staircase(StepToward(a, b), b)
  }

  /** One move from `a` toward `b`: along the row while the columns
      differ, then along the column. */
  function StepToward(a: Cell, b: Cell): (n: Cell)
    requires a != b
    ensures Adjacent(a, n) && Heuristic(n, b) + 1 == Heuristic(a, b)
    ensures Between(a.x, n.x, b.x) && Between(a.y, n.y, b.y)
  {
    if a.x < b.x then Cell(a.x + 1, a.y)
    else if a.x > b.x then Cell(a.x - 1, a.y)
    else if a.y < b.y then Cell(a.x, a.y + 1)
    else Cell(a.x, a.y - 1)
  }

  /** The staircase runs from `a` to `b` one move at a time and stays
      inside the rectangle the two cells span. */
  lemma {:induction false} StaircaseWalk(a: Cell, b: Cell)
    ensures var p := Staircase(a, b);
            && p[0] == a && p[|p| - 1] == b && Steps(p)
            && forall i :: 0 <= i < |p| ==> Between(a.x, p[i].x, b.x) && Between(a.y, p[i].y, b.y)
    decreases Heuristic(a, b)
  {
    if a != b {
      var next := StepToward(a, b);
      StaircaseWalk(next, b);
      var p, rest := Staircase(a, b), Staircase(next, b);
      assert p == [a] + rest;
      forall i | 1 <= i < |p| ensures Adjacent(p[i - 1], p[i]) {
        if i > 1 {
          assert p[i - 1] == rest[i - 2] && p[i] == rest[i - 1];
        }
      }
      forall i | 1 <= i < |p| ensures Between(a.x, p[i].x, b.x) && Between(a.y, p[i].y, b.y) {
        assert p[i] == rest[i - 1];
      }
    }
  }

  predicate Between(lo: int, v: int, hi: int) {
    (lo <= v <= hi) || (hi <= v <= lo)
  }

  /** On a grid without walls every cell of the grid can be reached from
      every other: the staircase between them is a path with
      Manhattan-distance-plus-one cells. */
  lemma OpenGridReachable(grid: Grid, start: Cell, end: Cell)
    requires WellFormed(grid) && InBounds(grid, start) && InBounds(grid, end)
    requires forall y, x :: 0 <= y < Rows(grid) && 0 <= x < Cols(grid) ==> grid[y][x] != 1
    ensures IsPath(grid, start, end, Staircase(start, end))
    ensures |Staircase(start, end)| == Heuristic(start, end) + 1
    ensures Reachable(grid, start, end)
  {
    var s := Staircase(start, end);
    StaircaseWalk(start, end);
    forall i | 1 <= i < |s| ensures Passable(grid, s[i]) {
      assert Between(start.x, s[i].x, end.x) && Between(start.y, s[i].y, end.y);
    }
    assert IsPath(grid, start, end, s);
  }

  /** On a grid without walls, every shortest path between two cells of the
      grid has exactly Manhattan-distance-plus-one cells, and the staircase
      is one of them. */
  lemma OpenGridDistance(grid: Grid, start: Cell, end: Cell, p: seq<Cell>)
    requires WellFormed(grid) && InBounds(grid, start) && InBounds(grid, end)
    requires forall y, x :: 0 <= y < Rows(grid) && 0 <= x < Cols(grid) ==> grid[y][x] != 1
    requires IsShortestPath(grid, start, end, p)
    ensures |p| == Heuristic(start, end) + 1
    ensures IsShortestPath(grid, start, end, Staircase(start, end))
  {
    OpenGridReachable(grid, start, end);
    PathLowerBound(grid, start, end, p);
    forall q | IsPath(grid, start, end, q) ensures |Staircase(start, end)| <= |q| {
      PathLowerBound(grid, start, end, q);
    }
  }
}
