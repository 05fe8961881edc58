/** What the two searches have in common: the predecessor map they build,
    the walk back along it (reconstructPath), and the argument that a
    search which stops at the goal has found a shortest path and one which
    runs out of cells has shown the goal unreachable. */
module Search {
  import opened Grid

  datatype Option<T> = None | Some(value: T)

  /** Every predecessor has a strictly smaller rank than the cell it
      precedes, so walking back along `cameFrom` ends. */
  ghost predicate Ranked(cameFrom: map<Cell, Cell>, rank: map<Cell, nat>) {
    forall c :: c in cameFrom ==> c in rank && cameFrom[c] in rank && rank[cameFrom[c]] < rank[c]
  }

  /** `path` is the walk back from `current` along `cameFrom`, written
      forwards: it ends at `current`, each cell is the predecessor of the
      next one, and the first cell has no predecessor. */
  predicate IsTrace(cameFrom: map<Cell, Cell>, path: seq<Cell>, current: Cell) {
    && |path| > 0
    && path[|path| - 1] == current
    && path[0] !in cameFrom
    && forall i :: 1 <= i < |path| ==> path[i] in cameFrom && cameFrom[path[i]] == path[i - 1]
  }

  /** reconstructPath: follow `cameFrom` back from `current`, putting each
      cell in front of the path, until a cell has no predecessor. The ghost
      `rank` is what makes the walk finite. */
  method ReconstructPath(cameFrom: map<Cell, Cell>, current: Cell, ghost rank: map<Cell, nat>)
    returns (path: seq<Cell>)
    requires Ranked(cameFrom, rank) && current in rank
    ensures IsTrace(cameFrom, path, current)
    ensures path[0] in rank && rank[path[0]] + |path| - 1 <= rank[current]
  {
    path := [];
    var cur: Option<Cell> := Some(current);
    while cur.Some?
      invariant cur.Some? ==> cur.value in rank
      invariant path == [] ==> cur == Some(current)
      invariant path != [] ==> path[|path| - 1] == current && path[0] in rank
      invariant path != [] && cur.Some? ==> path[0] in cameFrom && cameFrom[path[0]] == cur.value
      invariant path != [] && cur.None? ==> path[0] !in cameFrom
      invariant forall i :: 1 <= i < |path| ==> path[i] in cameFrom && cameFrom[path[i]] == path[i - 1]
      invariant cur.Some? ==> rank[cur.value] + |path| <= rank[current]
      invariant path != [] ==> rank[path[0]] + |path| - 1 <= rank[current]
      decreases if cur.Some? then rank[cur.value] + 1 else 0
    {
      path := [cur.value] + path;
      cur := if cur.value in cameFrom then Some(cameFrom[cur.value]) else None;
    }
  }

  /** The predecessor map fixes the walk back: two traces to the same cell
      are the same path. */
  lemma {:induction false} TraceUnique(cameFrom: map<Cell, Cell>, p: seq<Cell>, q: seq<Cell>, current: Cell)
    requires IsTrace(cameFrom, p, current) && IsTrace(cameFrom, q, current)
    ensures p == q
    decreases |p|
  {
    if |p| == 1 || |q| == 1 {
      assert current !in cameFrom || (|p| == 1 && |q| == 1);
    } else {
      var prev := cameFrom[current];
      var p', q' := p[..|p| - 1], q[..|q| - 1];
      assert IsTrace(cameFrom, p', prev) && IsTrace(cameFrom, q', prev);
      TraceUnique(cameFrom, p', q', prev);
      assert p == p' + [current] && q == q' + [current];
    }
  }

  /** The result a search returns, given where its loop ended: `None` (the
      frontier ran empty) gives `[]`, and `Some(cameFrom)` (the goal was
      chosen) gives the walk back from `end` along the final `cameFrom`. */
  predicate Produces(outcome: Option<map<Cell, Cell>>, path: seq<Cell>, end: Cell) {
    match outcome
    case None => path == []
    case Some(cameFrom) => IsTrace(cameFrom, path, end)
  }

  /** A search's outcome fixes its result: at most one path is produced
      from it. */
  lemma ProducesUnique(outcome: Option<map<Cell, Cell>>, p: seq<Cell>, q: seq<Cell>, end: Cell)
    requires Produces(outcome, p, end) && Produces(outcome, q, end)
    ensures p == q
  {
    if outcome.Some? {
      TraceUnique(outcome.value, p, q, end);
    }
  }

  /** The bookkeeping both searches keep: `start` has score 0 and no
      predecessor; every other scored cell is passable and has a
      predecessor one move away with a strictly smaller score. */
  ghost predicate SearchTree(grid: Grid, start: Cell, cameFrom: map<Cell, Cell>, score: map<Cell, nat>)
    requires WellFormed(grid)
  {
    && start in score && score[start] == 0
    && cameFrom.Keys == score.Keys - {start}
    && (forall c :: c in score && c != start ==> Passable(grid, c))
    && Ranked(cameFrom, score)
    && (forall c :: c in cameFrom ==> Adjacent(cameFrom[c], c))
  }

  /** Cell `c` has been expanded: each passable neighbour has a score at
      most one more than that of `c`. */
  ghost predicate Expanded(grid: Grid, score: map<Cell, nat>, c: Cell)
    requires WellFormed(grid) && c in score
  {
    forall n :: n in Neighbors(c) && Passable(grid, n) ==> n in score && score[n] <= score[c] + 1
  }

  /** Every scored cell that is no longer waiting in the frontier `open`
      has been expanded. */
  ghost predicate Closed(grid: Grid, open: seq<Cell>, score: map<Cell, nat>)
    requires WellFormed(grid)
  {
    forall c :: c in score && c !in open ==> Expanded(grid, score, c)
  }

  /** Giving a passable cell `n` next to a scored cell `current` the score
      of `current` plus one, when that is new or lower than its score, and
      `current` as predecessor, keeps the bookkeeping intact. */
  lemma TreeRelax(grid: Grid, start: Cell, cameFrom: map<Cell, Cell>, score: map<Cell, nat>, current: Cell, n: Cell, v: nat)
    requires WellFormed(grid) && SearchTree(grid, start, cameFrom, score)
    requires current in score && Passable(grid, n) && Adjacent(current, n)
    requires v == score[current] + 1 && (n !in score || v < score[n])
    ensures SearchTree(grid, start, cameFrom[n := current], score[n := v])
  {
  }

  /** Lowering or adding the score of one cell `n` leaves every other
      expanded cell expanded. */
  lemma ExpandedKept(grid: Grid, score: map<Cell, nat>, n: Cell, v: nat)
    requires WellFormed(grid) && (n !in score || v <= score[n])
    ensures forall c :: c in score && c != n && Expanded(grid, score, c) ==> Expanded(grid, score[n := v], c)
  {
  }

  /** A passable cell `m` is scored at most `d + 1`. */
  ghost predicate Settled(grid: Grid, score: map<Cell, nat>, m: Cell, d: nat)
    requires WellFormed(grid)
  {
    Passable(grid, m) ==> m in score && score[m] <= d + 1
  }

  /** The cut argument behind both searches: along any walk from `start`
      there is a cell whose score is at most its position on the walk, and
      that cell is either the walk's last cell or still in the frontier. */
  lemma {:induction false} FrontierCut(grid: Grid, start: Cell, open: seq<Cell>, score: map<Cell, nat>, w: seq<Cell>)
    returns (i: nat)
    requires WellFormed(grid)
    requires IsWalk(grid, w) && w[0] == start
    requires start in score && score[start] == 0
    requires Closed(grid, open, score)
    ensures i < |w| && w[i] in score && score[w[i]] <= i
    ensures i == |w| - 1 || w[i] in open
  {
    if |w| == 1 {
      return 0;
    }
    var v := w[..|w| - 1];
    assert IsWalk(grid, v) by {
      forall k | 1 <= k < |v| ensures Adjacent(v[k - 1], v[k]) && Passable(grid, v[k]) {
        assert v[k - 1] == w[k - 1] && v[k] == w[k];
      }
    }
    var j := FrontierCut(grid, start, open, score, v);
    if j < |v| - 1 || w[j] in open {
      return j;
    }
    NeighborsAdjacent(w[j], w[j + 1]);
    assert Expanded(grid, score, w[j]);
    return j + 1;
  }

  /** The walk back from a scored cell is a path from `start` to it, with
      at most its score plus one cells. */
  lemma TraceIsPath(grid: Grid, start: Cell, end: Cell, cameFrom: map<Cell, Cell>, score: map<Cell, nat>, path: seq<Cell>)
    requires WellFormed(grid) && SearchTree(grid, start, cameFrom, score) && end in score
    requires IsTrace(cameFrom, path, end)
    requires path[0] in score && score[path[0]] + |path| - 1 <= score[end]
    ensures IsPath(grid, start, end, path)
    ensures |path| <= score[end] + 1
  {
  }

  /** A search that stops at `end` when no frontier cell promises a shorter
      route (score plus Manhattan distance to `end` never below the score of
      `end`) returns a shortest path. The breadth-first search meets this
      with a frontier ordered by score, A* with its choice of the smallest
      fScore. */
  lemma OptimalAtGoal(grid: Grid, start: Cell, end: Cell, open: seq<Cell>, cameFrom: map<Cell, Cell>,
                      score: map<Cell, nat>, path: seq<Cell>)
    requires WellFormed(grid) && SearchTree(grid, start, cameFrom, score)
    requires Closed(grid, open, score)
    requires end in score
    requires forall c :: c in open ==> c in score && score[end] <= score[c] + Heuristic(c, end)
    requires IsTrace(cameFrom, path, end)
    requires path[0] in score && score[path[0]] + |path| - 1 <= score[end]
    ensures IsShortestPath(grid, start, end, path)
  {
    TraceIsPath(grid, start, end, cameFrom, score, path);
    forall q | IsPath(grid, start, end, q) ensures |path| <= |q| {
      var i := FrontierCut(grid, start, open, score, q);
      if i < |q| - 1 {
        var tail := q[i..];
        assert Steps(tail) by {
          forall k | 1 <= k < |tail| ensures Adjacent(tail[k - 1], tail[k]) {
            assert tail[k - 1] == q[i + k - 1] && tail[k] == q[i + k];
          }
        }
        HeuristicAdmissible(tail);
        assert tail[0] == q[i] && tail[|tail| - 1] == end;
        assert score[end] <= score[q[i]] + Heuristic(q[i], end);
      }
      assert score[end] <= |q| - 1;
    }
  }

  /** A search whose frontier has run empty without scoring `end` has shown
      that `end` cannot be reached. */
  lemma Exhausted(grid: Grid, start: Cell, end: Cell, score: map<Cell, nat>)
    requires WellFormed(grid)
    requires start in score && score[start] == 0
    requires Closed(grid, [], score)
    requires end !in score
    ensures !Reachable(grid, start, end)
  {
    forall q | IsPath(grid, start, end, q) ensures false {
      var i := FrontierCut(grid, start, [], score, q);
    }
  }

  /** What the searches' contract implies in the two corner cases: when
      `start` is `end` the result is `[start]`, and when `end` differs from
      `start` and is outside the grid or a wall the result is `[]`. */
  lemma {:induction false} CornerCases(grid: Grid, start: Cell, end: Cell, path: seq<Cell>)
    requires WellFormed(grid)
    requires path == [] <==> !Reachable(grid, start, end)
    requires path != [] ==> IsShortestPath(grid, start, end, path)
    ensures start == end ==> path == [start]
    ensures start != end && !Passable(grid, end) ==> path == []
  {
    if start == end {
      assert IsPath(grid, start, end, [start]);
      StartIsEnd(grid, start, path);
    } else if !Passable(grid, end) {
      WallAtEnd(grid, start, end);
    }
  }
}
