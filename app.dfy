/** The page's state and its two handlers: the board (the grid with its
    start and end cells), the click that toggles a wall, and the run button
    that dispatches on the chosen algorithm's name. */
module App {
  import opened Grid
  import opened Search
  import opened Bfs
  import opened AStar

  /** Every cell holds 0 (open) or 1 (wall). */
  predicate Binary(grid: Grid) {
    forall y, x :: 0 <= y < |grid| && 0 <= x < |grid[y]| ==> grid[y][x] == 0 || grid[y][x] == 1
  }

  /** The grid after a click on cell (x, y): a 0 there becomes 1, anything
      else becomes 0; every other cell and the shape stay as they were. */
  function Flip(grid: Grid, x: int, y: int): (r: Grid)
    requires 0 <= y < |grid| && 0 <= x < |grid[y]|
    ensures |r| == |grid| && forall j :: 0 <= j < |grid| ==> |r[j]| == |grid[j]|
    ensures r[y][x] == 1 <==> grid[y][x] == 0
    ensures r[y][x] == 0 || r[y][x] == 1
    ensures forall j, i :: 0 <= j < |grid| && 0 <= i < |grid[j]| && (j != y || i != x) ==> r[j][i] == grid[j][i]
  {
    grid[y := grid[y][x := if grid[y][x] == 0 then 1 else 0]]
  }

  /** A click keeps the grid rectangular and made of 0s and 1s. */
  lemma FlipKeepsShape(grid: Grid, x: int, y: int)
    requires WellFormed(grid) && 0 <= y < |grid| && 0 <= x < |grid[y]|
    ensures WellFormed(Flip(grid, x, y)) && Cols(Flip(grid, x, y)) == Cols(grid)
    ensures Binary(grid) ==> Binary(Flip(grid, x, y))
  {
  }

  /** Clicking the same cell twice restores a grid of 0s and 1s. */
  lemma FlipTwice(grid: Grid, x: int, y: int)
    requires 0 <= y < |grid| && 0 <= x < |grid[y]| && Binary(grid)
    ensures Flip(Flip(grid, x, y), x, y) == grid
  {
    var r := Flip(Flip(grid, x, y), x, y);
    assert r[y] == grid[y];
  }

  /** Walling in `end` (a click on an open `end` cell, distinct from
      `start`) makes it unreachable, so either search then returns `[]`. */
  lemma FlipBlocksEnd(grid: Grid, start: Cell, end: Cell)
    requires WellFormed(grid) && InBounds(grid, end) && start != end && grid[end.y][end.x] == 0
    ensures WellFormed(Flip(grid, end.x, end.y)) && !Reachable(Flip(grid, end.x, end.y), start, end)
  {
  }

  /** The page's board: the grid the searches read and the clicks change,
      with its fixed start and end cells. */
  class Board {
    var grid: Grid
    const start: Cell
    const end: Cell

    /** A rectangular grid of 0s and 1s with `start` inside it. */
    ghost predicate Valid()
      reads this
    {
      WellFormed(grid) && Binary(grid) && InBounds(grid, start)
    }

    /** A `rows` by `cols` grid of open cells. */
    constructor(rows: nat, cols: nat, start: Cell, end: Cell)
      requires rows > 0 && cols > 0 && 0 <= start.x < cols && 0 <= start.y < rows
      ensures Valid() && this.start == start && this.end == end
      ensures |grid| == rows && Cols(grid) == cols
      ensures forall y, x :: 0 <= y < rows && 0 <= x < cols ==> grid[y][x] == 0
    {
      grid := seq(rows, _ => seq(cols, _ => 0));
      this.start := start;
      this.end := end;
    }

    /** The click handler on cell (x, y): a wall there is removed, an open
        cell becomes a wall, and nothing else on the board changes. */
    method Toggle(x: int, y: int)
      requires Valid() && 0 <= y < |grid| && 0 <= x < |grid[y]|
      modifies this
      ensures Valid()
      ensures grid == Flip(old(grid), x, y)
      ensures IsWall(grid, Cell(x, y)) <==> !IsWall(old(grid), Cell(x, y))
    {
      FlipKeepsShape(grid, x, y);
      if grid[y][x] == 0 {
        grid := grid[y := grid[y][x := 1]];
      } else {
        grid := grid[y := grid[y][x := 0]];
      }
    }

    /** The run handler: "BFS" runs the breadth-first search, "A*" the A*
        search, any other name gives the empty path. The path is the one
        the chosen search's loop produces (which of several shortest paths
        that is depends on the search). Either search returns `[]` exactly
        when `end` cannot be reached, and otherwise a shortest path from
        `start` to `end`. */
    method Run(algorithm: string) returns (path: seq<Cell>)
      requires Valid()
      ensures algorithm != "BFS" && algorithm != "A*" ==> path == []
      ensures algorithm == "BFS" ==> Produces(BfsOutcome(grid, start, end), path, end)
      ensures algorithm == "A*" ==> Produces(AStarOutcome(grid, start, end), path, end)
      ensures algorithm == "BFS" || algorithm == "A*" ==>
                && (path == [] <==> !Reachable(grid, start, end))
                && (path != [] ==> IsShortestPath(grid, start, end, path))
    {
      path := [];
      if algorithm == "BFS" {
        ghost var enqueued, links;
        path, enqueued, links := Bfs.Bfs(grid, start, end);
      } else if algorithm == "A*" {
        ghost var links, g;
        path, links, g := AStar.AStar(grid, start, end);
      }
    }
  }
}
