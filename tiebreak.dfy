/** The two searches on the open 2 by 2 grid from (0, 0) to (1, 1). Both
    paths have three cells, but they are different paths: the breadth-first
    search reaches (1, 1) first from (1, 0), the east neighbour it queued
    first, while A* picks the last of the open cells tied on fScore, so it
    expands (0, 1) and reaches (1, 1) from there. The run handler's
    algorithm name is therefore visible in its result. */
module TieBreak {
  import opened Grid
  import opened Search
  import opened Bfs
  import opened AStar

  /** The breadth-first search, round by round: (0, 0) queues (1, 0) and
      (0, 1); (1, 0) queues (1, 1); (0, 1) finds nothing new; (1, 1) is the
      goal. */
  lemma BfsOnOpenSquare(grid: Grid, e: Cell)
    requires grid == [[0, 0], [0, 0]] && e == Cell(1, 1)
    ensures Produces(BfsOutcome(grid, Cell(0, 0), e), [Cell(0, 0), Cell(1, 0), Cell(1, 1)], e)
  {
    assert WellFormed(grid);
    var f0 := Frontier([Cell(0, 0)], {Cell(0, 0)}, map[]);
    assert f0.queue[1..] == [];
    var f1 := VisitFrom(grid, Cell(0, 0), 0, Frontier([], {Cell(0, 0)}, map[]));
    assert f1 == Frontier([Cell(1, 0), Cell(0, 1)], {Cell(0, 0), Cell(1, 0), Cell(0, 1)}, map[Cell(1, 0) := Cell(0, 0), Cell(0, 1) := Cell(0, 0)]);
    var f2 := VisitFrom(grid, Cell(1, 0), 0, Frontier([Cell(0, 1)], f1.visited, f1.cameFrom));
    assert f2 == Frontier([Cell(0, 1), Cell(1, 1)], f1.visited + {Cell(1, 1)}, f1.cameFrom[Cell(1, 1) := Cell(1, 0)]);
    var f3 := VisitFrom(grid, Cell(0, 1), 0, Frontier([Cell(1, 1)], f2.visited, f2.cameFrom));
    assert f3 == Frontier([Cell(1, 1)], f2.visited, f2.cameFrom);
    assert BfsFrom(grid, e, f3) == Some(f2.cameFrom);
    assert BfsFrom(grid, e, f2) == BfsFrom(grid, e, f3);
    assert BfsFrom(grid, e, f1) == BfsFrom(grid, e, f2);
    assert BfsOutcome(grid, Cell(0, 0), e) == BfsFrom(grid, e, f1);
  }

  /** A* expanding (0, 0): both neighbours get gScore 1 and predecessor
      (0, 0), east first. */
  lemma FirstRound()
    ensures RelaxFrom([[0, 0], [0, 0]], Cell(0, 0), 0, State([], map[], map[Cell(0, 0) := 0]))
            == State([Cell(1, 0), Cell(0, 1)], map[Cell(1, 0) := Cell(0, 0), Cell(0, 1) := Cell(0, 0)],
                     map[Cell(0, 0) := 0, Cell(1, 0) := 1, Cell(0, 1) := 1])
  {
    var grid: Grid := [[0, 0], [0, 0]];
    var c := Cell(0, 0);
    var x0 := State([], map[], map[c := 0]);
    var x1 := State([Cell(1, 0)], map[Cell(1, 0) := c], map[c := 0, Cell(1, 0) := 1]);
    var x3 := State([Cell(1, 0), Cell(0, 1)], map[Cell(1, 0) := c, Cell(0, 1) := c], map[c := 0, Cell(1, 0) := 1, Cell(0, 1) := 1]);
    assert RelaxOne(c, Cell(1, 0), x0) == x1;
    assert RelaxOne(c, Cell(0, 1), x1) == x3;
  }

  /** A* expanding (0, 1): (1, 1) gets gScore 2 and predecessor (0, 1);
      (0, 0) is not improved on. */
  lemma SecondRound()
    ensures RelaxFrom([[0, 0], [0, 0]], Cell(0, 1), 0,
                      State([Cell(1, 0)], map[Cell(1, 0) := Cell(0, 0), Cell(0, 1) := Cell(0, 0)],
                            map[Cell(0, 0) := 0, Cell(1, 0) := 1, Cell(0, 1) := 1]))
            == State([Cell(1, 0), Cell(1, 1)],
                     map[Cell(1, 0) := Cell(0, 0), Cell(0, 1) := Cell(0, 0), Cell(1, 1) := Cell(0, 1)],
                     map[Cell(0, 0) := 0, Cell(1, 0) := 1, Cell(0, 1) := 1, Cell(1, 1) := 2])
  {
    var c := Cell(0, 1);
    var x0 := State([Cell(1, 0)], map[Cell(1, 0) := Cell(0, 0), Cell(0, 1) := Cell(0, 0)],
                    map[Cell(0, 0) := 0, Cell(1, 0) := 1, Cell(0, 1) := 1]);
    var x1 := State([Cell(1, 0), Cell(1, 1)],
                    map[Cell(1, 0) := Cell(0, 0), Cell(0, 1) := Cell(0, 0), Cell(1, 1) := Cell(0, 1)],
                    map[Cell(0, 0) := 0, Cell(1, 0) := 1, Cell(0, 1) := 1, Cell(1, 1) := 2]);
    assert RelaxOne(c, Cell(1, 1), x0) == x1;
    assert RelaxOne(c, Cell(0, 0), x1) == x1;
  }

  /** Of two open cells with equal fScores the choice is the second. */
  lemma TieGoesLast(g: map<Cell, nat>, a: Cell, b: Cell, e: Cell)
    requires a in g && b in g && g[a] + Heuristic(a, e) == g[b] + Heuristic(b, e)
    ensures ReduceIndex(FScores([a, b], g, e)) == 1
  {
    var fs := FScores([a, b], g, e);
    assert fs[0] == fs[1];
  }

  /** The first iteration of A*'s loop, from the open list `[start]`. */
  lemma FirstStep(grid: Grid, e: Cell, s0: State, s1: State)
    requires grid == [[0, 0], [0, 0]] && e == Cell(1, 1)
    requires s0 == State([Cell(0, 0)], map[], map[Cell(0, 0) := 0])
    requires s1 == State([Cell(1, 0), Cell(0, 1)], map[Cell(1, 0) := Cell(0, 0), Cell(0, 1) := Cell(0, 0)],
                         map[Cell(0, 0) := 0, Cell(1, 0) := 1, Cell(0, 1) := 1])
    ensures AStarFrom(grid, e, s0) == AStarFrom(grid, e, s1)
  {
    FirstRound();
    AStarFromStep(grid, e, s0, 0, 0, s1);
  }

  /** The second iteration: (1, 0) and (0, 1) both have fScore 2, so
      (0, 1) is expanded. */
  lemma SecondStep(grid: Grid, e: Cell, s1: State, s2: State)
    requires grid == [[0, 0], [0, 0]] && e == Cell(1, 1)
    requires s1 == State([Cell(1, 0), Cell(0, 1)], map[Cell(1, 0) := Cell(0, 0), Cell(0, 1) := Cell(0, 0)],
                         map[Cell(0, 0) := 0, Cell(1, 0) := 1, Cell(0, 1) := 1])
    requires s2 == State([Cell(1, 0), Cell(1, 1)],
                         map[Cell(1, 0) := Cell(0, 0), Cell(0, 1) := Cell(0, 0), Cell(1, 1) := Cell(0, 1)],
                         map[Cell(0, 0) := 0, Cell(1, 0) := 1, Cell(0, 1) := 1, Cell(1, 1) := 2])
    ensures AStarFrom(grid, e, s1) == AStarFrom(grid, e, s2)
  {
    assert WellFormed(grid);
    SecondChoice(e, s1);
    SecondRelax(grid, s1, s2);
    AStarFromStep(grid, e, s1, 1, 1, s2);
  }

  /** The second iteration's choice: the last open cell, (0, 1), which is
      not the goal and sits at position 1. */
  lemma SecondChoice(e: Cell, s1: State)
    requires e == Cell(1, 1)
    requires s1 == State([Cell(1, 0), Cell(0, 1)], map[Cell(1, 0) := Cell(0, 0), Cell(0, 1) := Cell(0, 0)],
                         map[Cell(0, 0) := 0, Cell(1, 0) := 1, Cell(0, 1) := 1])
    ensures |s1.open| > 1 && s1.open[1] == Cell(0, 1) != e
    ensures 1 == ReduceIndex(FScores(s1.open, s1.g, e))
    ensures 1 == FirstIndex(s1.open, Cell(0, 1))
  {
    TieGoesLast(s1.g, Cell(1, 0), Cell(0, 1), e);
  }

  /** The second iteration's relaxation: (0, 1)'s neighbours, with (1, 0)
      left in the open list, give `s2`. */
  lemma SecondRelax(grid: Grid, s1: State, s2: State)
    requires grid == [[0, 0], [0, 0]]
    requires s1 == State([Cell(1, 0), Cell(0, 1)], map[Cell(1, 0) := Cell(0, 0), Cell(0, 1) := Cell(0, 0)],
                         map[Cell(0, 0) := 0, Cell(1, 0) := 1, Cell(0, 1) := 1])
    requires s2 == State([Cell(1, 0), Cell(1, 1)],
                         map[Cell(1, 0) := Cell(0, 0), Cell(0, 1) := Cell(0, 0), Cell(1, 1) := Cell(0, 1)],
                         map[Cell(0, 0) := 0, Cell(1, 0) := 1, Cell(0, 1) := 1, Cell(1, 1) := 2])
    ensures s2 == RelaxFrom(grid, Cell(0, 1), 0, State(s1.open[..1] + s1.open[2..], s1.cameFrom, s1.g))
  {
    SecondRound();
    assert s1.open[..1] + s1.open[2..] == [Cell(1, 0)];
  }

  /** The third iteration: (1, 0) and (1, 1) both have fScore 2, so the
      goal is chosen and the loop ends. */
  lemma GoalChosen(grid: Grid, e: Cell, s2: State)
    requires grid == [[0, 0], [0, 0]] && e == Cell(1, 1)
    requires s2 == State([Cell(1, 0), Cell(1, 1)],
                         map[Cell(1, 0) := Cell(0, 0), Cell(0, 1) := Cell(0, 0), Cell(1, 1) := Cell(0, 1)],
                         map[Cell(0, 0) := 0, Cell(1, 0) := 1, Cell(0, 1) := 1, Cell(1, 1) := 2])
    ensures AStarFrom(grid, e, s2) == Some(s2.cameFrom)
  {
    TieGoesLast(s2.g, Cell(1, 0), Cell(1, 1), e);
  }

  /** A* ends with (1, 1) reached from (0, 1). */
  lemma AStarOnOpenSquare(grid: Grid, e: Cell)
    requires grid == [[0, 0], [0, 0]] && e == Cell(1, 1)
    ensures AStarOutcome(grid, Cell(0, 0), e)
            == Some(map[Cell(1, 0) := Cell(0, 0), Cell(0, 1) := Cell(0, 0), Cell(1, 1) := Cell(0, 1)])
  {
    var s0 := State([Cell(0, 0)], map[], map[Cell(0, 0) := 0]);
    var s1 := State([Cell(1, 0), Cell(0, 1)], map[Cell(1, 0) := Cell(0, 0), Cell(0, 1) := Cell(0, 0)],
                    map[Cell(0, 0) := 0, Cell(1, 0) := 1, Cell(0, 1) := 1]);
    var s2 := State([Cell(1, 0), Cell(1, 1)],
                    map[Cell(1, 0) := Cell(0, 0), Cell(0, 1) := Cell(0, 0), Cell(1, 1) := Cell(0, 1)],
                    map[Cell(0, 0) := 0, Cell(1, 0) := 1, Cell(0, 1) := 1, Cell(1, 1) := 2]);
    FirstStep(grid, e, s0, s1);
    SecondStep(grid, e, s1, s2);
    GoalChosen(grid, e, s2);
  }

  /** The two searches return different shortest paths on this grid: the
      breadth-first search goes east first, A* goes south first. */
  lemma SearchesDiffer(grid: Grid, e: Cell)
    requires grid == [[0, 0], [0, 0]] && e == Cell(1, 1)
    ensures Produces(BfsOutcome(grid, Cell(0, 0), e), [Cell(0, 0), Cell(1, 0), Cell(1, 1)], e)
    ensures Produces(AStarOutcome(grid, Cell(0, 0), e), [Cell(0, 0), Cell(0, 1), Cell(1, 1)], e)
    ensures forall p, q :: Produces(BfsOutcome(grid, Cell(0, 0), e), p, e) && Produces(AStarOutcome(grid, Cell(0, 0), e), q, e) ==> p != q
  {
    BfsOnOpenSquare(grid, e);
    AStarOnOpenSquare(grid, e);
    forall p, q | Produces(BfsOutcome(grid, Cell(0, 0), e), p, e) && Produces(AStarOutcome(grid, Cell(0, 0), e), q, e)
      ensures p != q
    {
      ProducesUnique(BfsOutcome(grid, Cell(0, 0), e), p, [Cell(0, 0), Cell(1, 0), Cell(1, 1)], e);
      ProducesUnique(AStarOutcome(grid, Cell(0, 0), e), q, [Cell(0, 0), Cell(0, 1), Cell(1, 1)], e);
    }
  }
}
