# Pathfinding visualizer, verified in Dafny

This project models the grid pathfinding engine of a small browser page, `app.js`. The page
keeps a rectangular grid of cells where the value 1 marks a wall. A click toggles a wall, and a
button runs one of two searches from a fixed start cell to a fixed end cell:

- a breadth-first search (`bfs`), which uses a FIFO queue, a visited set and a predecessor map;
- an A* search (`aStar`), which uses the Manhattan heuristic, gScore/fScore tables that start at
  Infinity, an open list scanned for the least fScore, and a strict-improvement relaxation.

Both searches try the neighbours east, west, south, north. Both return the path rebuilt from the
predecessor map by `reconstructPath`, or `[]`.

Modules:

- `Grid` (`grid.dfy`): cells, the grid, the walls, and the four moves. It also holds the
  Manhattan heuristic and what a walk, a path and a shortest path are.
- `Search` (`search.dfy`): what the two searches share.
  - `reconstructPath` as a loop.
  - The bookkeeping both keep: scores, predecessors, and which cells have been expanded.
  - The argument that stopping at `end` gives a shortest path, and that running out of cells
    means `end` is unreachable.
- `Bfs` (`bfs.dfy`): `bfs` as a method with a loop over the queue and an inner loop over the
  four neighbours.
- `AStar` (`astar.dfy`): `aStar` as a method.
  - gScore and fScore are two-dimensional arrays of `Score` (a number of moves, or `Inf`).
  - The open-list choice (`reduce`) and the lookup (`indexOf`) are methods with loops.
  - The relaxation of one neighbour updates the arrays in place.
- `App` (`app.dfy`): the page's board as a class whose grid field the click handler replaces.
  - The wall toggle.
  - The run handler's dispatch on the algorithm name.
- `TieBreak` (`tiebreak.dfy`): both searches worked through on the open 2 by 2 grid. They return
  different shortest paths there, so the run handler's result depends on the name it is given.

Each search's main loop and neighbour loop also have a reference definition as a function of
the loop's state (`Bfs.BfsFrom` with `Bfs.VisitFrom`; `AStar.AStarFrom` with `AStar.RelaxFrom`).
Each method is proved to end where its function ends: with the predecessor map at the moment
`end` is chosen, or with none when the frontier runs empty. The walk back along a predecessor map
is unique (`Search.TraceUnique`), so this fixes exactly which path each search returns. For the
A* neighbour loop, `AStar.RelaxFromNeighbor` and `AStar.RelaxFromFrame` state its effect cell by
cell:

- each neighbour ends with the lower of its own gScore and one more than that of `current`;
- its predecessor changes only on a strict improvement;
- the open list only grows at its end;
- no other cell changes.

Each search is also proved against the same specification:

- The result is `[]` exactly when `end` cannot be reached through open cells. Otherwise it is a
  path from `start` to `end` with the fewest cells among all such paths.
- Every step of a path is one move. Every cell after the first is inside the grid and not a wall.
- When `start == end` the result is `[start]`.
- When `end` is a wall (or outside the grid) and differs from `start`, the result is `[]`.
- BFS queues no cell twice.
- A* keeps `start` at gScore 0. Every predecessor's gScore stays at least one below its
  successor's, and scores only go down. The open list never holds a cell twice. Every table entry
  equals the score it stands for: fScore is gScore plus the Manhattan distance to `end`.

Optimality, for both searches, rests on one lemma (`Search.FrontierCut`). Along any walk from
`start` there is a scored cell whose score is at most its position on the walk, and that cell is
either the walk's last cell or still waiting in the frontier.

- For BFS the frontier is ordered by score.
- For A*, `end` is chosen only when its fScore is no larger than any open cell's fScore. Because
  the Manhattan distance never overestimates (`Grid.HeuristicAdmissible`), no open cell can lead
  to a shorter path.

When several open cells share the least fScore, A* chooses the **last** of them. The `reduce` at
`app.js:108-110` keeps the right-hand element unless the left-hand one is strictly smaller. The
model follows that code, not a "first minimum" reading of it. Both choices give a shortest path,
but not the same one: on the open 2 by 2 grid from (0, 0) to (1, 1), the breadth-first search
returns (0, 0), (1, 0), (1, 1) and A* returns (0, 0), (0, 1), (1, 1) (`TieBreak.SearchesDiffer`).

## Model

| member | source | states |
|---|---|---|
| Grid.SkipTest | app.js:72-78 | a neighbour is skipped exactly when it lies outside columns 0 to the first row's length or rows 0 to the row count, or holds 1; every row has the first row's length, so an unskipped cell is read inside its row |
| Grid.Cells | app.js:41-42 | the cells of the grid are exactly those within `rows` and `cols` |
| Grid.Neighbors | app.js:57-62 | the four candidate moves, east, west, south, north |
| Grid.NeighborsAdjacent | app.js:57-62 | a cell is one of the four candidates exactly when it is one move away |
| Grid.Heuristic | app.js:96 | the Manhattan distance is 0 exactly between equal cells and 1 between adjacent cells |
| Grid.HeuristicStep | app.js:96 | one move changes the Manhattan distance to a goal by at most one (consistency) |
| Grid.HeuristicAdmissible | app.js:96 | along any sequence of moves the Manhattan distance between the ends is at most the number of moves (admissibility) |
| Grid.PathLowerBound | app.js:96 | every path has at least Manhattan-distance-plus-one cells |
| Grid.OpenGridReachable | app.js:96 | on a grid without walls every cell is reachable from every other, along a path of Manhattan-distance-plus-one cells |
| Grid.OpenGridDistance | app.js:96 | on a grid without walls a shortest path has exactly Manhattan-distance-plus-one cells, and the row-then-column staircase is one |
| Grid.StartIsEnd | app.js:53-54 | when start and end coincide the only shortest path is `[start]` |
| Grid.WallAtEnd | app.js:72-78 | an end cell outside the grid or walled, other than start, is unreachable |
| Search.ReconstructPath | app.js:161-168 | the loop ends, and the result runs back along the predecessor map from a cell with no predecessor to `current`, no longer than the rank allows |
| Search.TraceUnique | app.js:161-168 | two walks back along the same predecessor map to the same cell are the same path |
| Search.ProducesUnique | app.js:161-168 | where a search's loop ends fixes its result: at most one path comes out of it |
| Search.TreeRelax | app.js:83-85 | giving a passable neighbour its predecessor and a new or lower score keeps the predecessor tree intact |
| Search.ExpandedKept | app.js:145-149 | lowering or adding one score leaves every other expanded cell expanded |
| Search.FrontierCut | app.js:50-89 | along any walk from start some scored cell has score at most its position, and is the walk's end or still in the frontier |
| Search.TraceIsPath | app.js:161-167 | the walk back from a scored cell is a path from start, no longer than its score plus one |
| Search.OptimalAtGoal | app.js:53-54 | stopping at `end` when no frontier cell promises a shorter route returns a shortest path |
| Search.Exhausted | app.js:89 | an empty frontier without `end` scored means `end` is unreachable |
| Search.CornerCases | app.js:112-113 | a search meeting the contract returns `[start]` when start is end, and `[]` when end is walled |
| Bfs.VisitFromGrows | app.js:72-85 | the neighbour loop only visits new cells inside the grid that are not walls, and changes nothing when it visits none; so each round visits a new cell or shortens the queue |
| Bfs.BfsFromStep | app.js:50-87 | a round whose head is not `end` dequeues it and visits its neighbours, and the main loop goes on from there |
| Bfs.BfsStart | app.js:44-48 | the queue `[start]` with start visited at 0 satisfies the loop invariant |
| Bfs.BfsDequeue | app.js:51 | taking the head off the queue starts its expansion, the rest of the queue in order |
| Bfs.LayeredPush | app.js:83 | appending a cell one level deeper keeps the queue sorted by level, within two levels |
| Bfs.HistoryPush | app.js:83-84 | appending an unvisited cell to the queue and the visited set keeps the queue history free of repeats |
| Bfs.SettledPush | app.js:83-86 | the neighbour just queued is settled, as are those before it |
| Bfs.BfsPush | app.js:83-85 | queuing a passable unvisited neighbour keeps the expansion invariant |
| Bfs.InOrderPush | app.js:83-85 | queuing a new cell one move deeper than the cell being expanded keeps the queue ordered by depth |
| Bfs.BfsSkip | app.js:72-81 | skipping a neighbour outside the grid, walled or visited keeps the expansion invariant |
| Bfs.BfsExpanded | app.js:57-87 | after all four neighbours the loop invariant holds again and the search made progress |
| Bfs.VisitNeighbors | app.js:71-86 | the neighbour loop ends in the queue, visited set and predecessor map `VisitFrom` gives, with every neighbour settled |
| Bfs.BfsHistory | app.js:44-85 | at every round no cell was queued twice, every cell queued after start is passable, and exactly those have a predecessor, one move away and queued before them |
| Bfs.BfsFound | app.js:53-54 | when `end` leaves the queue the walk back from it is a shortest path |
| Bfs.Bfs | app.js:40-90 | the result is the path the main loop's reference definition produces; `[]` exactly when `end` is unreachable, else a shortest path read off the predecessor map; `[start]` when start is end; `[]` for a walled end; no cell queued twice; only passable cells queued after start; exactly those get one predecessor, one move away and queued before them |
| AStar.LessOrder | app.js:101-109 | the `<` on table entries is a strict total order, by value on numbers, with Infinity above every number and not below itself |
| AStar.ReduceIndex | app.js:108-110 | the `reduce` keeps an index of least fScore, and every later index has a strictly larger fScore |
| AStar.ReduceIndexUnique | app.js:108-110 | only one index is least with every later index strictly larger, so that property determines the choice |
| AStar.SelectCurrent | app.js:108-110 | the loop keeps the index the `reduce` keeps over the fScore entries of the open list |
| AStar.EntriesAreFScores | app.js:104-105 | read through the table, the fScore entries of open cells are gScore plus Manhattan distance |
| AStar.FirstIndex | app.js:116 | the first position of the cell, or -1 exactly when it is absent |
| AStar.IndexOf | app.js:116 | the loop returns the first position of the cell, or -1 |
| AStar.Relax | app.js:143-154 | a strictly better route sets predecessor, gScore and fScore = gScore + Manhattan distance, and adds the cell to the open list once; otherwise nothing changes; scores only go down; no repeats in the open list |
| AStar.RelaxFromLowers | app.js:133-154 | the neighbour loop only lowers scores, only scores new cells inside the grid that are not walls, only appends to the open list, and changes nothing when no score changes |
| AStar.RelaxFromFrame | app.js:133-138 | cells not among the remaining neighbours, and walls or cells outside the grid, keep their gScore, predecessor and open-list membership |
| AStar.RelaxFromNeighbor | app.js:143-153 | each passable neighbour ends with the lower of its gScore and one more than `current`'s; its predecessor becomes `current` exactly on a strict improvement and is otherwise kept; it is in the open list afterwards exactly when it was before or was improved |
| AStar.Progress | app.js:107-155 | a round scores a new cell, or lowers a score, or leaves the open list one shorter |
| AStar.PairsShrink | app.js:145-147 | scores that only go down give a smaller termination measure, strictly when one went down |
| AStar.NewTables | app.js:101-105 | the tables are Infinity everywhere except gScore 0 and fScore the Manhattan distance at start |
| AStar.AStarStart | app.js:98-105 | the open list `[start]` with start at gScore 0 satisfies the loop invariant |
| AStar.AStarTree | app.js:98-154 | at every round start keeps gScore 0 and no predecessor, and each predecessor's gScore is at least one below its successor's |
| AStar.AStarFound | app.js:112-113 | when no open cell has a smaller fScore than `end`, the walk back from `end` is a shortest path |
| AStar.AStarFoundResult | app.js:108-113 | when the chosen cell is `end`, the walk back from it meets the whole contract and is what the reference definition produces |
| AStar.AStarExhaustedResult | app.js:158 | when the open list runs empty, `end` is unreachable, is not start, and the reference definition ends with nothing |
| AStar.AStarRemove | app.js:116 | splicing the chosen cell out leaves the other open cells, one fewer, without repeats |
| AStar.DistinctAdd | app.js:151-153 | appending a cell only when absent keeps the open list free of repeats |
| AStar.LoweredStep | app.js:145-147 | adding or lowering one score keeps all scores at or below where the expansion began |
| AStar.SettledLower | app.js:145-149 | the improved neighbour is settled, as are those before it |
| AStar.ClosedButKept | app.js:145-153 | an improvement keeps every expanded cell outside the open list expanded |
| AStar.RelaxImprove | app.js:143-153 | an improving neighbour keeps the expansion invariant |
| AStar.RelaxKeep | app.js:133-145 | a neighbour outside the grid, walled or not improved on keeps the expansion invariant |
| AStar.RelaxStep | app.js:133-154 | trying one neighbour, improved on or not, keeps the expansion invariant |
| AStar.RelaxNeighbors | app.js:118-155 | the neighbour loop ends in exactly the open list, predecessor map and scores `RelaxFrom` gives, every neighbour settled and the tables matching the scores |
| AStar.AStarExpanded | app.js:118-155 | after the four neighbours the loop invariant holds again and the search made progress |
| AStar.AStarFromStep | app.js:107-155 | a round whose chosen cell is not `end` splices it out at its first position and relaxes its neighbours, and the main loop goes on from there |
| AStar.Expand | app.js:116-155 | the new state is the old open list with the chosen cell removed at its first position, then its neighbours relaxed in order (`RelaxFrom`); that is the state the reference definition steps to, it keeps the loop invariant and the search makes progress |
| AStar.AStar | app.js:92-159 | the result is the path the main loop's reference definition produces; `[]` exactly when `end` is unreachable, else a shortest path read off the predecessor map; `[start]` when start is end; `[]` for a walled end; start keeps gScore 0 and no predecessor; each predecessor's gScore is at least one below its successor's |
| App.Flip | app.js:196-200 | the clicked cell becomes a wall exactly when it was open, every other cell and the shape are unchanged |
| App.FlipKeepsShape | app.js:196-200 | a click keeps the grid rectangular and made of 0s and 1s |
| App.FlipTwice | app.js:196-200 | clicking the same cell twice restores the grid |
| App.FlipBlocksEnd | app.js:196-200 | walling an open end cell other than start makes it unreachable |
| App.Board.constructor | app.js:12 | a rows-by-cols grid of open cells |
| App.Board.Toggle | app.js:196-200 | the board's grid becomes the flipped grid: only the clicked cell changes, its wall status inverted |
| App.Board.Run | app.js:180-185 | "BFS" returns what the breadth-first search produces and "A*" what A* produces (`TieBreak.SearchesDiffer` shows the two differ); either is `[]` exactly when end is unreachable and otherwise a shortest path; any other name gives `[]` |
| TieBreak.TieGoesLast | app.js:108-110 | of two open cells with equal fScores the `reduce` keeps the second |
| TieBreak.BfsOnOpenSquare | app.js:40-90 | on the open 2 by 2 grid the breadth-first search returns (0, 0), (1, 0), (1, 1) |
| TieBreak.FirstRound | app.js:118-155 | A* expanding (0, 0) scores (1, 0) then (0, 1) at 1, both from (0, 0) |
| TieBreak.FirstStep | app.js:107-155 | the first round of A* from `[start]` leads to the open list (1, 0), (0, 1) |
| TieBreak.SecondChoice | app.js:108-116 | the second round chooses (0, 1), found at position 1 |
| TieBreak.SecondRound | app.js:118-155 | A* expanding (0, 1) scores (1, 1) at 2 from (0, 1) and does not improve (0, 0) |
| TieBreak.SecondRelax | app.js:116-155 | removing (0, 1) and relaxing its neighbours leaves the open list (1, 0), (1, 1) |
| TieBreak.SecondStep | app.js:107-155 | the second round of A* leads to the open list (1, 0), (1, 1) |
| TieBreak.GoalChosen | app.js:108-113 | the third round chooses (1, 1), the goal, and stops |
| TieBreak.AStarOnOpenSquare | app.js:92-159 | on the open 2 by 2 grid A* ends with (1, 1) reached from (0, 1) |
| TieBreak.SearchesDiffer | app.js:180-185 | on the open 2 by 2 grid the two searches produce different paths: (0, 0), (1, 0), (1, 1) and (0, 0), (0, 1), (1, 1) |

## Left out

- Drawing is not modelled: `drawGrid`, the orange painting of each inspected neighbour inside
  both search loops, and `visualizePath`. They only paint the canvas.
- Event wiring is not modelled: reading the `<select>` value, and the redraw after a run or a
  click. `App.Board.Run` takes the algorithm name as a parameter.
- Pixel-to-cell conversion is not modelled. It divides floating-point mouse coordinates by the
  cell size. `App.Board.Toggle` takes the integer cell coordinates.
- The concrete configuration is left out: a 20 by 20 grid, the cell size, the two walls placed
  at start-up, start (0, 0) and end (10, 8). The board takes its size, start and end as
  parameters; the initial walls can be placed with `Toggle`.
- Cells are keyed by pairs, not by `"x,y"` strings. Infinity is the `Inf` constructor of `Score`.
  JavaScript numbers are exact far beyond any score a grid can produce, so scores are unbounded
  naturals.
- The searches read the grid as a value. In the page they read the same array the click handler
  writes. Handlers run one at a time and the searches never write the grid, so nothing
  observable is lost.
- `indexOf` compares objects by identity; the model compares cells by value. The results agree
  because the open list never holds two equal cells.
- AStar.AStar requires `start` inside the grid. The JavaScript also runs when only the row of
  `start` exists, because assigning past the end of a row grows it. Fixed-size tables cannot
  model that.
- Bfs.Bfs requires a rectangular grid with at least one row. An empty grid makes the
  JavaScript throw; a ragged row would be read past its end as open floor. The page's grid is
  always rectangular.
- AStar.AStar has the same rectangular-grid requirement, for the same reason.
- App.Board.Toggle requires the clicked cell to be inside the grid. A row outside the grid makes
  the JavaScript throw, and a column outside it would grow that row. A click on the canvas
  always lands inside the grid.
