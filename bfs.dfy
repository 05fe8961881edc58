/** The breadth-first search (bfs in app.js). */
module Bfs {
  import opened Grid
  import opened Search

  /** The state bfs carries from one round to the next. */
  datatype Frontier = Frontier(queue: seq<Cell>, visited: set<Cell>, cameFrom: map<Cell, Cell>)

  /** The loop over the neighbours of `current` from the `k`-th on, as a
      function: a neighbour inside the grid, not a wall and not yet visited
      is queued, visited and given `current` as predecessor; any other is
      skipped. */
  function VisitFrom(grid: Grid, current: Cell, k: nat, s: Frontier): Frontier
    requires WellFormed(grid) && k <= 4
    decreases 4 - k
  {
    if k == 4 then s
    else
      var n := Neighbors(current)[k];
      if Passable(grid, n) && n !in s.visited then
        VisitFrom(grid, current, k + 1, Frontier(s.queue + [n], s.visited + {n}, s.cameFrom[n := current]))
      else
        VisitFrom(grid, current, k + 1, s)
  }

  /** Visiting neighbours only adds cells inside the grid, not walls, to
      the visited set, and when it adds none it changes nothing: so each
      round of bfs either visits a new cell of the grid or shortens the
      queue. */
  lemma {:induction false} VisitFromGrows(grid: Grid, current: Cell, k: nat, s: Frontier)
    requires WellFormed(grid) && k <= 4
    ensures var r := VisitFrom(grid, current, k, s);
            && s.visited <= r.visited
            && (forall c :: c in r.visited - s.visited ==> Passable(grid, c))
            && (r.visited == s.visited ==> r == s)
            && (r.visited == s.visited || Cells(grid) - r.visited < Cells(grid) - s.visited)
    decreases 4 - k
  {
    if k < 4 {
      var n := Neighbors(current)[k];
      if Passable(grid, n) && n !in s.visited {
        VisitFromGrows(grid, current, k + 1, Frontier(s.queue + [n], s.visited + {n}, s.cameFrom[n := current]));
      } else {
        VisitFromGrows(grid, current, k + 1, s);
      }
    }
  }

  /** The main loop of bfs from state `s`, as a function: `Some` of the
      predecessor map at the moment `end` comes off the queue, or `None`
      once the queue runs empty. */
  function BfsFrom(grid: Grid, end: Cell, s: Frontier): Option<map<Cell, Cell>>
    requires WellFormed(grid)
    decreases Cells(grid) - s.visited, |s.queue|
  {
    if |s.queue| == 0 then None
    else if s.queue[0] == end then Some(s.cameFrom)
    else
      var s' := Frontier(s.queue[1..], s.visited, s.cameFrom);
      VisitFromGrows(grid, s.queue[0], 0, s');
      BfsFrom(grid, end, VisitFrom(grid, s.queue[0], 0, s'))
  }

  /** Where bfs ends, from the queue `[start]` with `start` visited. */
  function BfsOutcome(grid: Grid, start: Cell, end: Cell): Option<map<Cell, Cell>>
    requires WellFormed(grid)
  {
    BfsFrom(grid, end, Frontier([start], {start}, map[]))
  }

  /** The queue holds scored cells in order of score, all at level `d` or
      `d + 1`, and no cell is scored above `d + 1`: the layering that makes
      the first cell out of the queue one of least score. */
  ghost predicate Layered(queue: seq<Cell>, dist: map<Cell, nat>, d: nat) {
    && (forall c :: c in queue ==> c in dist && d <= dist[c])
    && (forall c :: c in dist ==> dist[c] <= d + 1)
    && (forall i, j :: 0 <= i < j < |queue| ==> dist[queue[i]] <= dist[queue[j]])
  }

  /** `enqueued` records every cell queued so far, in order, starting with
      `start`: no cell twice, exactly the visited cells, and the queue is
      what follows the first `head` of them. */
  ghost predicate History(start: Cell, enqueued: seq<Cell>, head: nat, queue: seq<Cell>, visited: set<Cell>) {
    && |enqueued| > 0 && enqueued[0] == start && Distinct(enqueued)
    && (forall c :: c in enqueued <==> c in visited)
    && head <= |enqueued| && queue == enqueued[head..]
  }

  /** Cells were queued in order of level: every queued cell is scored,
      and a cell queued later is at least as deep as one queued earlier. */
  ghost predicate InOrder(enqueued: seq<Cell>, dist: map<Cell, nat>) {
    && (forall c :: c in enqueued ==> c in dist)
    && (forall i, j :: 0 <= i < j < |enqueued| ==> dist[enqueued[i]] <= dist[enqueued[j]])
  }

  /** Every predecessor in `links` was queued before the cell it leads to. */
  ghost predicate ParentsFirst(enqueued: seq<Cell>, links: map<Cell, Cell>) {
    forall i, j :: (0 <= i < |enqueued| && 0 <= j < |enqueued| && enqueued[j] in links
                    && links[enqueued[j]] == enqueued[i]) ==> i < j
  }

  /** The state of the search at the top of its main loop. `dist` (ghost)
      is the number of moves by which each visited cell was reached. */
  ghost predicate BfsInv(grid: Grid, start: Cell, end: Cell, queue: seq<Cell>, visited: set<Cell>,
                         cameFrom: map<Cell, Cell>, dist: map<Cell, nat>, enqueued: seq<Cell>, head: nat)
    requires WellFormed(grid)
  {
    && visited == dist.Keys
    && SearchTree(grid, start, cameFrom, dist)
    && Closed(grid, queue, dist)
    && (end in visited ==> end in queue)
    && History(start, enqueued, head, queue, visited)
    && (|queue| > 0 ==> queue[0] in dist && Layered(queue, dist, dist[queue[0]]))
  }

  /** The state while the neighbours of `current` (at level `d`) are tried:
      the first `k` of them are settled; `visited0` and `rest` are the
      visited set and the queue just after `current` left it. */
  ghost predicate VisitInv(grid: Grid, start: Cell, end: Cell, current: Cell, d: nat, k: nat,
                           queue: seq<Cell>, visited: set<Cell>, cameFrom: map<Cell, Cell>,
                           dist: map<Cell, nat>, enqueued: seq<Cell>, head: nat,
                           visited0: set<Cell>, rest: seq<Cell>)
    requires WellFormed(grid)
  {
    && k <= 4
    && visited == dist.Keys
    && SearchTree(grid, start, cameFrom, dist)
    && current in dist && dist[current] == d && current !in queue && current != end
    && (forall c :: c in dist && c !in queue && c != current ==> Expanded(grid, dist, c))
    && (forall j :: 0 <= j < k ==> Settled(grid, dist, Neighbors(current)[j], d))
    && (end in visited ==> end in queue)
    && History(start, enqueued, head, queue, visited)
    && Layered(queue, dist, d)
    && visited0 <= visited && (forall c :: c in visited - visited0 ==> InBounds(grid, c))
    && (visited == visited0 ==> queue == rest)
  }

  lemma BfsStart(grid: Grid, start: Cell, end: Cell)
    requires WellFormed(grid)
    ensures BfsInv(grid, start, end, [start], {start}, map[], map[start := 0], [start], 0)
  {
  }

  /** Taking `current` off the front of the queue starts its expansion. */
  lemma BfsDequeue(grid: Grid, start: Cell, end: Cell, queue: seq<Cell>, visited: set<Cell>,
                   cameFrom: map<Cell, Cell>, dist: map<Cell, nat>, enqueued: seq<Cell>, head: nat)
    requires WellFormed(grid)
    requires BfsInv(grid, start, end, queue, visited, cameFrom, dist, enqueued, head)
    requires |queue| > 0 && queue[0] != end
    ensures queue[0] in dist
    ensures VisitInv(grid, start, end, queue[0], dist[queue[0]], 0, queue[1..], visited, cameFrom, dist,
                     enqueued, head + 1, visited, queue[1..])
  {
  }

  /** Queuing a passable, unvisited neighbour settles it. */
  lemma BfsPush(grid: Grid, start: Cell, end: Cell, current: Cell, d: nat, k: nat,
                queue: seq<Cell>, visited: set<Cell>, cameFrom: map<Cell, Cell>,
                dist: map<Cell, nat>, enqueued: seq<Cell>, head: nat,
                visited0: set<Cell>, rest: seq<Cell>, n: Cell)
    requires WellFormed(grid)
    requires VisitInv(grid, start, end, current, d, k, queue, visited, cameFrom, dist, enqueued, head, visited0, rest)
    requires k < 4 && n == Neighbors(current)[k] && Passable(grid, n) && n !in visited
    ensures VisitInv(grid, start, end, current, d, k + 1, queue + [n], visited + {n}, cameFrom[n := current],
                     dist[n := d + 1], enqueued + [n], head, visited0, rest)
  {
    NeighborsAdjacent(current, n);
    TreeRelax(grid, start, cameFrom, dist, current, n, d + 1);
    ExpandedKept(grid, dist, n, d + 1);
    LayeredPush(queue, dist, d, n);
    HistoryPush(start, enqueued, head, queue, visited, n);
    SettledPush(grid, dist, current, d, k, n);
  }

  lemma LayeredPush(queue: seq<Cell>, dist: map<Cell, nat>, d: nat, n: Cell)
    requires Layered(queue, dist, d) && n !in dist
    ensures Layered(queue + [n], dist[n := d + 1], d)
  {
  }

  lemma HistoryPush(start: Cell, enqueued: seq<Cell>, head: nat, queue: seq<Cell>, visited: set<Cell>, n: Cell)
    requires History(start, enqueued, head, queue, visited) && n !in visited
    ensures History(start, enqueued + [n], head, queue + [n], visited + {n})
  {
  }

  lemma InOrderPush(enqueued: seq<Cell>, dist: map<Cell, nat>, d: nat, n: Cell)
    requires InOrder(enqueued, dist) && (forall c :: c in dist ==> dist[c] <= d + 1) && n !in dist
    ensures InOrder(enqueued + [n], dist[n := d + 1])
  {
  }

  lemma SettledPush(grid: Grid, dist: map<Cell, nat>, current: Cell, d: nat, k: nat, n: Cell)
    requires WellFormed(grid) && k < 4 && n == Neighbors(current)[k] && n !in dist
    requires forall j :: 0 <= j < k ==> Settled(grid, dist, Neighbors(current)[j], d)
    ensures forall j :: 0 <= j < k + 1 ==> Settled(grid, dist[n := d + 1], Neighbors(current)[j], d)
  {
  }

  /** A neighbour outside the grid, a wall or already visited is settled
      without change. */
  lemma BfsSkip(grid: Grid, start: Cell, end: Cell, current: Cell, d: nat, k: nat,
                queue: seq<Cell>, visited: set<Cell>, cameFrom: map<Cell, Cell>,
                dist: map<Cell, nat>, enqueued: seq<Cell>, head: nat,
                visited0: set<Cell>, rest: seq<Cell>, n: Cell)
    requires WellFormed(grid)
    requires VisitInv(grid, start, end, current, d, k, queue, visited, cameFrom, dist, enqueued, head, visited0, rest)
    requires k < 4 && n == Neighbors(current)[k] && !(Passable(grid, n) && n !in visited)
    ensures VisitInv(grid, start, end, current, d, k + 1, queue, visited, cameFrom, dist, enqueued, head, visited0, rest)
  {
  }

  /** Once all four neighbours are settled, `current` is expanded and the
      main-loop state holds again; either a new cell was visited or the
      queue is one shorter. */
  lemma BfsExpanded(grid: Grid, start: Cell, end: Cell, current: Cell, d: nat,
                    queue: seq<Cell>, visited: set<Cell>, cameFrom: map<Cell, Cell>,
                    dist: map<Cell, nat>, enqueued: seq<Cell>, head: nat,
                    visited0: set<Cell>, rest: seq<Cell>)
    requires WellFormed(grid)
    requires VisitInv(grid, start, end, current, d, 4, queue, visited, cameFrom, dist, enqueued, head, visited0, rest)
    ensures BfsInv(grid, start, end, queue, visited, cameFrom, dist, enqueued, head)
    ensures Cells(grid) - visited < Cells(grid) - visited0 || (visited == visited0 && queue == rest)
  {
  }

  /** One round of the main loop: when the head of the queue is not
      `end`, it leaves the queue and its neighbours are visited. */
  lemma BfsFromStep(grid: Grid, end: Cell, current: Cell, s: Frontier, s': Frontier)
    requires WellFormed(grid) && current != end
    requires s' == VisitFrom(grid, current, 0, s)
    ensures BfsFrom(grid, end, Frontier([current] + s.queue, s.visited, s.cameFrom)) == BfsFrom(grid, end, s')
  {
    assert ([current] + s.queue)[1..] == s.queue;
  }

  /** What the queue history and the predecessor map say at any round:
      no cell was queued twice, every cell queued after `start` is
      passable, and exactly those cells have a predecessor, one move away
      and queued before them. */
  lemma BfsHistory(grid: Grid, start: Cell, end: Cell, queue: seq<Cell>, visited: set<Cell>,
                   cameFrom: map<Cell, Cell>, dist: map<Cell, nat>, enqueued: seq<Cell>, head: nat)
    requires WellFormed(grid)
    requires BfsInv(grid, start, end, queue, visited, cameFrom, dist, enqueued, head)
    requires InOrder(enqueued, dist)
    ensures |enqueued| > 0 && enqueued[0] == start && Distinct(enqueued)
    ensures forall i :: 1 <= i < |enqueued| ==> Passable(grid, enqueued[i])
    ensures forall c :: c in cameFrom <==> c in enqueued && c != start
    ensures forall c :: c in cameFrom ==> cameFrom[c] in enqueued && Adjacent(cameFrom[c], c)
    ensures ParentsFirst(enqueued, cameFrom)
  {
    forall i | 1 <= i < |enqueued| ensures Passable(grid, enqueued[i]) {
      assert enqueued[i] != start;
    }
    forall i, j | 0 <= i < |enqueued| && 0 <= j < |enqueued| && enqueued[j] in cameFrom
                  && cameFrom[enqueued[j]] == enqueued[i]
      ensures i < j
    {
      assert dist[enqueued[i]] < dist[enqueued[j]];
    }
  }

  /** When `end` is at the front of the queue, the walk back from it is a
      shortest path. */
  lemma BfsFound(grid: Grid, start: Cell, end: Cell, queue: seq<Cell>, visited: set<Cell>,
                 cameFrom: map<Cell, Cell>, dist: map<Cell, nat>, enqueued: seq<Cell>, head: nat,
                 path: seq<Cell>)
    requires WellFormed(grid)
    requires BfsInv(grid, start, end, queue, visited, cameFrom, dist, enqueued, head)
    requires |queue| > 0 && queue[0] == end
    requires IsTrace(cameFrom, path, end) && path[0] in dist && dist[path[0]] + |path| - 1 <= dist[end]
    ensures IsShortestPath(grid, start, end, path)
  {
    OptimalAtGoal(grid, start, end, queue, cameFrom, dist, path);
  }

  /** The loop over the four neighbours of `current`, east, west, south,
      north: each one inside the grid, not a wall and not yet visited is
      queued, marked visited and given `current` as predecessor (and, in
      the ghost state, level `d + 1` and a place in `enqueued`). The new
      state is the one `VisitFrom` gives, and every neighbour is settled. */
  method VisitNeighbors(grid: Grid, start: Cell, end: Cell, current: Cell, ghost d: nat,
                        queue: seq<Cell>, visited: set<Cell>, cameFrom: map<Cell, Cell>,
                        ghost dist: map<Cell, nat>, ghost enqueued: seq<Cell>, ghost head: nat)
    returns (queue': seq<Cell>, visited': set<Cell>, cameFrom': map<Cell, Cell>,
             ghost dist': map<Cell, nat>, ghost enqueued': seq<Cell>)
    requires WellFormed(grid)
    requires VisitInv(grid, start, end, current, d, 0, queue, visited, cameFrom, dist, enqueued, head, visited, queue)
    requires InOrder(enqueued, dist)
    ensures VisitInv(grid, start, end, current, d, 4, queue', visited', cameFrom', dist', enqueued', head, visited, queue)
    ensures InOrder(enqueued', dist')
    ensures Frontier(queue', visited', cameFrom') == VisitFrom(grid, current, 0, Frontier(queue, visited, cameFrom))
  {
    queue', visited', cameFrom', dist', enqueued' := queue, visited, cameFrom, dist, enqueued;
    var neighbors := Neighbors(current);
    var k := 0;
    while k < 4
      invariant VisitInv(grid, start, end, current, d, k, queue', visited', cameFrom', dist', enqueued', head, visited, queue)
      invariant InOrder(enqueued', dist')
      invariant VisitFrom(grid, current, k, Frontier(queue', visited', cameFrom'))
                == VisitFrom(grid, current, 0, Frontier(queue, visited, cameFrom))
    {
      var n := neighbors[k];
      if Passable(grid, n) && n !in visited' {
        BfsPush(grid, start, end, current, d, k, queue', visited', cameFrom', dist', enqueued', head, visited, queue, n);
        InOrderPush(enqueued', dist', d, n);
        queue' := queue' + [n];
        visited' := visited' + {n};
        cameFrom' := cameFrom'[n := current];
        dist' := dist'[n := d + 1];
        enqueued' := enqueued' + [n];
      } else {
        BfsSkip(grid, start, end, current, d, k, queue', visited', cameFrom', dist', enqueued', head, visited, queue, n);
      }
      k := k + 1;
    }
  }

  /** bfs: a FIFO queue seeded with `start`, `start` marked visited up
      front, neighbours tried east, west, south, north; a neighbour outside
      the grid, a wall or already visited is skipped, any other is queued,
      marked visited and given `current` as predecessor. Stops when `end`
      leaves the queue, or returns `[]` when the queue runs empty.

      The result is `[]` exactly when `end` cannot be reached, and otherwise
      a shortest path from `start` to `end`, read off the predecessor map.
      The ghost `enqueued` lists every cell in the order it was queued: no
      cell is queued twice, and every cell queued after `start` is
      passable. The ghost `links` is the final predecessor map: exactly the
      cells queued after `start` have a predecessor, one move away. */
  method Bfs(grid: Grid, start: Cell, end: Cell)
    returns (path: seq<Cell>, ghost enqueued: seq<Cell>, ghost links: map<Cell, Cell>)
    requires WellFormed(grid)
    ensures path == [] <==> !Reachable(grid, start, end)
    ensures path != [] ==> IsShortestPath(grid, start, end, path) && IsTrace(links, path, end)
    ensures start == end ==> path == [start]
    ensures start != end && !Passable(grid, end) ==> path == []
    ensures |enqueued| > 0 && enqueued[0] == start && Distinct(enqueued)
    ensures forall i :: 1 <= i < |enqueued| ==> Passable(grid, enqueued[i])
    ensures forall c :: c in links <==> c in enqueued && c != start
    ensures forall c :: c in links ==> links[c] in enqueued && Adjacent(links[c], c)
    ensures ParentsFirst(enqueued, links)
    ensures Produces(BfsOutcome(grid, start, end), path, end)
  {
    var queue := [start];
    var cameFrom: map<Cell, Cell> := map[];
    var visited: set<Cell> := {start};
    ghost var dist: map<Cell, nat> := map[start := 0];
    enqueued := [start];
    ghost var head := 0;
    BfsStart(grid, start, end);
    ghost var outcome := BfsOutcome(grid, start, end);

    while |queue| > 0
      invariant BfsInv(grid, start, end, queue, visited, cameFrom, dist, enqueued, head)
      invariant InOrder(enqueued, dist)
      invariant BfsFrom(grid, end, Frontier(queue, visited, cameFrom)) == outcome
      decreases Cells(grid) - visited, |queue|
    {
      var current := queue[0];
      if current == end {
        path := ReconstructPath(cameFrom, current, dist);
        BfsFound(grid, start, end, queue, visited, cameFrom, dist, enqueued, head, path);
        CornerCases(grid, start, end, path);
        BfsHistory(grid, start, end, queue, visited, cameFrom, dist, enqueued, head);
        links := cameFrom;
        return;
      }
      BfsDequeue(grid, start, end, queue, visited, cameFrom, dist, enqueued, head);
      queue := queue[1..];
      head := head + 1;

      ghost var d := dist[current];
      ghost var visited0, rest, cameFrom0 := visited, queue, cameFrom;
      queue, visited, cameFrom, dist, enqueued :=
        VisitNeighbors(grid, start, end, current, d, queue, visited, cameFrom, dist, enqueued, head);
      BfsFromStep(grid, end, current, Frontier(rest, visited0, cameFrom0), Frontier(queue, visited, cameFrom));
      BfsExpanded(grid, start, end, current, d, queue, visited, cameFrom, dist, enqueued, head, visited0, rest);
    }

    Exhausted(grid, start, end, dist);
    path := [];
    CornerCases(grid, start, end, path);
    BfsHistory(grid, start, end, queue, visited, cameFrom, dist, enqueued, head);
    links := cameFrom;
  }
}
