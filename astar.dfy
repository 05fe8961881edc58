/** The A* search (aStar in app.js). */
module AStar {
  import opened Grid
  import opened Search

  /** An entry of the gScore and fScore tables: a number of moves, or
      Infinity, the value every entry starts with. */
  datatype Score = Fin(n: nat) | Inf

  /** The `<` the search applies to table entries: Infinity is above every
      number and not below itself. */
  predicate Less(a: Score, b: Score) {
    match a
    case Inf => false
    case Fin(m) => b.Inf? || m < b.n
  }

  /** `Less` is the `<` of JavaScript numbers with Infinity among them: a
      strict total order, by value on numbers, with Infinity above every
      number. */
  lemma LessOrder(a: Score, b: Score, c: Score)
    ensures !Less(a, a)
    ensures Less(a, b) && Less(b, c) ==> Less(a, c)
    ensures Less(a, b) || Less(b, a) || a == b
    ensures !Less(Inf, a) && (a.Fin? ==> Less(a, Inf))
    ensures a.Fin? && b.Fin? ==> (Less(a, b) <==> a.n < b.n)
  {
  }

  /** The gScore entry of a cell, given the finite scores `g`. */
  function GScore(g: map<Cell, nat>, c: Cell): Score {
    if c in g then Fin(g[c]) else Inf
  }

  /** The fScore entry of a cell: its gScore plus the Manhattan distance to
      `end`, or Infinity. */
  function FScore(g: map<Cell, nat>, c: Cell, end: Cell): Score {
    if c in g then Fin(g[c] + Heuristic(c, end)) else Inf
  }

  /** The two tables agree with the finite scores `g` (ghost): every cell of
      `g` is on the grid, gScore holds its score, fScore its score plus the
      heuristic, and every other entry is Infinity. */
  ghost predicate Tables(grid: Grid, gScore: array2<Score>, fScore: array2<Score>, g: map<Cell, nat>, end: Cell)
    requires WellFormed(grid)
    reads gScore, fScore
  {
    && gScore.Length0 == Rows(grid) && gScore.Length1 == Cols(grid)
    && fScore.Length0 == Rows(grid) && fScore.Length1 == Cols(grid)
    && (forall c :: c in g ==> InBounds(grid, c))
    && (forall y, x {:trigger gScore[y, x]} :: 0 <= y < Rows(grid) && 0 <= x < Cols(grid) ==>
          gScore[y, x] == GScore(g, Cell(x, y)))
    && (forall y, x {:trigger fScore[y, x]} :: 0 <= y < Rows(grid) && 0 <= x < Cols(grid) ==>
          fScore[y, x] == FScore(g, Cell(x, y), end))
  }

  /** The index the `reduce` over a list of fScores keeps: each later
      index replaces the running choice unless the running choice's score
      is strictly smaller. It is an index of least score, and every later
      index has a strictly larger one. */
  function ReduceIndex(fs: seq<Score>): (k: nat)
    requires |fs| > 0
    ensures k < |fs|
    ensures forall j :: 0 <= j < |fs| ==> !Less(fs[j], fs[k])
    ensures forall j :: k < j < |fs| ==> Less(fs[k], fs[j])
  {
    if |fs| == 1 then 0
    else
      var k := ReduceIndex(fs[..|fs| - 1]);
      if Less(fs[k], fs[|fs| - 1]) then k else |fs| - 1
  }

  /** An index of least score with every later score strictly larger is
      the one the `reduce` keeps: there is only one such index. */
  lemma ReduceIndexUnique(fs: seq<Score>, k: nat)
    requires k < |fs|
    requires forall j :: 0 <= j < |fs| ==> !Less(fs[j], fs[k])
    requires forall j :: k < j < |fs| ==> Less(fs[k], fs[j])
    ensures k == ReduceIndex(fs)
  {
  }

  /** The fScores of the open list, in order. */
  function FScores(open: seq<Cell>, g: map<Cell, nat>, end: Cell): seq<Score> {
    seq(|open|, j requires 0 <= j < |open| => FScore(g, open[j], end))
  }

  /** The fScore table entries of the open cells, in order. */
  function Entries(open: seq<Cell>, fScore: array2<Score>): seq<Score>
    requires forall c :: c in open ==> 0 <= c.y < fScore.Length0 && 0 <= c.x < fScore.Length1
    reads fScore
  {
    seq(|open|, j requires 0 <= j < |open| reads fScore => fScore[open[j].y, open[j].x])
  }

  /** The open-list choice, the `reduce` over openSet: starting from the
      first element, each later element replaces the one held unless the
      one held has a strictly smaller fScore. */
  method SelectCurrent(openSet: seq<Cell>, fScore: array2<Score>) returns (k: nat)
    requires |openSet| > 0
    requires forall c :: c in openSet ==> 0 <= c.y < fScore.Length0 && 0 <= c.x < fScore.Length1
    ensures k == ReduceIndex(Entries(openSet, fScore))
  {
    ghost var fs := Entries(openSet, fScore);
    k := 0;
    var i := 1;
    while i < |openSet|
      invariant 1 <= i <= |openSet|
      invariant k == ReduceIndex(fs[..i])
    {
      assert fs[..i + 1][..i] == fs[..i];
      var a, b := openSet[k], openSet[i];
      if !Less(fScore[a.y, a.x], fScore[b.y, b.x]) {
        k := i;
      }
      i := i + 1;
    }
    assert fs[..|openSet|] == fs;
  }

  /** Read through the tables, the fScore entries of the open cells are
      their scores plus the Manhattan distance to `end`. */
  lemma EntriesAreFScores(grid: Grid, gScore: array2<Score>, fScore: array2<Score>, open: seq<Cell>,
                          g: map<Cell, nat>, end: Cell)
    requires WellFormed(grid) && Tables(grid, gScore, fScore, g, end)
    requires forall c :: c in open ==> c in g
    ensures forall c :: c in open ==> 0 <= c.y < fScore.Length0 && 0 <= c.x < fScore.Length1
    ensures Entries(open, fScore) == FScores(open, g, end)
  {
    forall j | 0 <= j < |open| ensures Entries(open, fScore)[j] == FScores(open, g, end)[j] {
      assert open[j] in open;
      assert fScore[open[j].y, open[j].x] == FScore(g, Cell(open[j].x, open[j].y), end);
    }
  }

  /** The first position of `x` in `s`, or -1 when it is absent. */
  function FirstIndex(s: seq<Cell>, x: Cell): (i: int)
    ensures -1 <= i < |s|
    ensures i == -1 <==> x !in s
    ensures 0 <= i ==> s[i] == x && x !in s[..i]
  {
    if |s| == 0 then -1
    else if s[0] == x then 0
    else
      var j := FirstIndex(s[1..], x);
      if j == -1 then -1 else j + 1
  }

  /** indexOf, as a loop over the list. */
  method IndexOf(s: seq<Cell>, x: Cell) returns (i: int)
    ensures i == FirstIndex(s, x)
  {
    i := 0;
    while i < |s|
      invariant 0 <= i <= |s|
      invariant x !in s[..i]
    {
      if s[i] == x {
        return;
      }
      i := i + 1;
    }
    i := -1;
  }

  /** What aStar carries from one neighbour, and from one round, to the
      next: the open list, the predecessor map and the finite gScore
      entries (every other entry is Infinity). */
  datatype State = State(open: seq<Cell>, cameFrom: map<Cell, Cell>, g: map<Cell, nat>)

  /** The relaxation of `n` from `current`, on the state: when one move
      more than the gScore of `current` is below that of `n` (or `n` has
      none), `n` gets that score and `current` as predecessor, and joins
      the open list unless already there. Otherwise nothing changes; so too
      when `current` has no finite gScore, since Infinity plus one is below
      nothing. */
  function RelaxOne(current: Cell, n: Cell, s: State): State {
    if current in s.g && (n !in s.g || s.g[current] + 1 < s.g[n]) then
      State(if n in s.open then s.open else s.open + [n], s.cameFrom[n := current], s.g[n := s.g[current] + 1])
    else
      s
  }

  /** The loop over the neighbours of `current` from the `k`-th on, as a
      function: each one inside the grid and not a wall is relaxed, in the
      order east, west, south, north. */
  function RelaxFrom(grid: Grid, current: Cell, k: nat, s: State): State
    requires WellFormed(grid) && k <= 4
    decreases 4 - k
  {
    if k == 4 then s
    else
      var n := Neighbors(current)[k];
      RelaxFrom(grid, current, k + 1, if Passable(grid, n) then RelaxOne(current, n, s) else s)
  }

  /** The neighbour loop only lowers scores and only scores new cells
      inside the grid and not walls; the open list only grows at its end;
      and when no score changes, nothing does. */
  lemma {:induction false} RelaxFromLowers(grid: Grid, current: Cell, k: nat, s: State)
    requires WellFormed(grid) && k <= 4
    ensures var r := RelaxFrom(grid, current, k, s);
            && Lowered(s.g, r.g)
            && (forall c :: c in r.g && c !in s.g ==> Passable(grid, c))
            && |s.open| <= |r.open| && r.open[..|s.open|] == s.open
            && (r.g == s.g ==> r == s)
    decreases 4 - k
  {
    if k < 4 {
      var n := Neighbors(current)[k];
      var t := if Passable(grid, n) then RelaxOne(current, n, s) else s;
      RelaxFromLowers(grid, current, k + 1, t);
      var r := RelaxFrom(grid, current, k + 1, t);
      assert r.open[..|s.open|] == r.open[..|t.open|][..|s.open|];
      if r.g == s.g {
        assert t.g == s.g by {
          forall c | c in t.g ensures t.g[c] == s.g[c] {}
        }
      }
    }
  }

  /** The neighbour loop leaves alone every cell that is not one of the
      neighbours still to be tried, and every wall or cell outside the grid:
      its gScore, its predecessor and whether it is in the open list stay
      as they were. */
  lemma {:induction false} RelaxFromFrame(grid: Grid, current: Cell, k: nat, s: State, c: Cell)
    requires WellFormed(grid) && k <= 4
    requires c !in Neighbors(current)[k..] || !Passable(grid, c)
    ensures var r := RelaxFrom(grid, current, k, s);
            && (c in r.g <==> c in s.g) && (c in s.g ==> r.g[c] == s.g[c])
            && (c in r.cameFrom <==> c in s.cameFrom) && (c in s.cameFrom ==> r.cameFrom[c] == s.cameFrom[c])
            && (c in r.open <==> c in s.open)
    decreases 4 - k
  {
    if k < 4 {
      var n := Neighbors(current)[k];
      assert Neighbors(current)[k..] == [n] + Neighbors(current)[k + 1..];
      RelaxFromFrame(grid, current, k + 1, if Passable(grid, n) then RelaxOne(current, n, s) else s, c);
    }
  }

  /** What the neighbour loop does to the `j`-th neighbour `n` of a scored
      `current` when `n` is inside the grid and not a wall: `n` ends with
      the lower of its own score and one more than that of `current`, gets
      `current` as predecessor exactly when that is a strict improvement
      (and keeps its old one otherwise), and is in the open list afterwards
      if it was before or was improved. */
  lemma {:induction false} RelaxFromNeighbor(grid: Grid, current: Cell, k: nat, s: State, j: nat)
    requires WellFormed(grid) && k <= j < 4 && current in s.g
    requires Passable(grid, Neighbors(current)[j])
    ensures var n, r, t := Neighbors(current)[j], RelaxFrom(grid, current, k, s), s.g[current] + 1;
            var better := n !in s.g || t < s.g[n];
            && n in r.g && r.g[n] == (if better then t else s.g[n])
            && (better ==> n in r.cameFrom && r.cameFrom[n] == current)
            && (!better ==> (n in r.cameFrom <==> n in s.cameFrom) && (n in s.cameFrom ==> r.cameFrom[n] == s.cameFrom[n]))
            && (n in r.open <==> n in s.open || better)
    decreases 4 - k
  {
    var n := Neighbors(current)[j];
    var m := Neighbors(current)[k];
    var u := if Passable(grid, m) then RelaxOne(current, m, s) else s;
    NeighborsAdjacent(current, m);
    assert current in u.g && u.g[current] == s.g[current];
    if k == j {
      assert n !in Neighbors(current)[k + 1..];
      RelaxFromFrame(grid, current, k + 1, u, n);
    } else {
      assert m != n;
      RelaxFromNeighbor(grid, current, k + 1, u, j);
    }
  }

  /** A round that only lowers scores and only scores new cells of the
      grid makes progress: a new cell is scored, or else a score went down,
      or else nothing changed and the open list is `rest`. */
  lemma Progress(grid: Grid, g0: map<Cell, nat>, g: map<Cell, nat>, rest: seq<Cell>, open: seq<Cell>)
    requires WellFormed(grid)
    requires Lowered(g0, g) && (forall c :: c in g && c !in g0 ==> InBounds(grid, c))
    requires g == g0 ==> open == rest
    ensures || Cells(grid) - g.Keys < Cells(grid) - g0.Keys
            || (Cells(grid) - g.Keys == Cells(grid) - g0.Keys &&
                (Pairs(g) < Pairs(g0) || (Pairs(g) == Pairs(g0) && open == rest)))
  {
    if g.Keys != g0.Keys {
      var n :| n in g && n !in g0;
      assert n in Cells(grid) - g0.Keys;
    } else {
      PairsShrink(g0, g);
    }
  }

  /** The main loop of aStar from state `s`, as a function: `Some` of the
      predecessor map once the open cell the `reduce` keeps is `end`, and
      `None` once the open list runs empty. A round removes the chosen cell
      at its first position and relaxes its neighbours. */
  ghost function AStarFrom(grid: Grid, end: Cell, s: State): Option<map<Cell, Cell>>
    requires WellFormed(grid)
    decreases Cells(grid) - s.g.Keys, Pairs(s.g), |s.open|
  {
    if |s.open| == 0 then None
    else
      var current := s.open[ReduceIndex(FScores(s.open, s.g, end))];
      if current == end then Some(s.cameFrom)
      else
        var idx := FirstIndex(s.open, current);
        var rest := State(s.open[..idx] + s.open[idx + 1..], s.cameFrom, s.g);
        var r := RelaxFrom(grid, current, 0, rest);
        RelaxFromLowers(grid, current, 0, rest);
        Progress(grid, s.g, r.g, rest.open, r.open);
        AStarFrom(grid, end, r)
  }

  /** Where aStar ends, from the open list `[start]` with `start` at
      gScore 0. */
  ghost function AStarOutcome(grid: Grid, start: Cell, end: Cell): Option<map<Cell, Cell>>
    requires WellFormed(grid)
  {
    AStarFrom(grid, end, State([start], map[], map[start := 0]))
  }

  /** The relaxation step for one neighbour: the route through `current`
      costs one move more than `current`; when that is strictly less than
      the neighbour's gScore, the neighbour gets `current` as predecessor,
      the new gScore, fScore = gScore + Manhattan distance to `end`, and is
      appended to the open list unless already there. Otherwise nothing
      changes. gScore entries only ever go down, and an open list without
      repeats stays without repeats. */
  method Relax(grid: Grid, gScore: array2<Score>, fScore: array2<Score>, openSet: seq<Cell>,
               cameFrom: map<Cell, Cell>, ghost g: map<Cell, nat>, current: Cell, neighbor: Cell, end: Cell)
    returns (openSet': seq<Cell>, cameFrom': map<Cell, Cell>, ghost g': map<Cell, nat>)
    requires WellFormed(grid) && gScore != fScore
    requires Tables(grid, gScore, fScore, g, end)
    requires current in g && InBounds(grid, neighbor)
    modifies gScore, fScore
    ensures Tables(grid, gScore, fScore, g', end)
    ensures State(openSet', cameFrom', g') == RelaxOne(current, neighbor, State(openSet, cameFrom, g))
    ensures forall c :: c in g ==> c in g' && g'[c] <= g[c]
    ensures Distinct(openSet) ==> Distinct(openSet')
  {
    assert gScore[current.y, current.x] == GScore(g, Cell(current.x, current.y));
    var tentativeGScore := gScore[current.y, current.x].n + 1;
    assert gScore[neighbor.y, neighbor.x] == GScore(g, Cell(neighbor.x, neighbor.y));
    if Less(Fin(tentativeGScore), gScore[neighbor.y, neighbor.x]) {
      cameFrom' := cameFrom[neighbor := current];
      gScore[neighbor.y, neighbor.x] := Fin(tentativeGScore);
      fScore[neighbor.y, neighbor.x] := Fin(tentativeGScore + Heuristic(neighbor, end));
      g' := g[neighbor := tentativeGScore];
      if neighbor !in openSet {
        openSet' := openSet + [neighbor];
      } else {
        openSet' := openSet;
      }
    } else {
      openSet', cameFrom', g' := openSet, cameFrom, g;
    }
  }

  /** The finite-score entries as (cell, k) pairs for every k below the
      score: a measure that shrinks whenever a score goes down. */
  ghost function Pairs(g: map<Cell, nat>): set<(Cell, nat)> {
    set c, k: nat | c in g && k < g[c] :: (c, k)
  }

  /** Scores that only went down, on the same cells, give fewer pairs;
      strictly fewer when one of them did go down. */
  lemma PairsShrink(g0: map<Cell, nat>, g: map<Cell, nat>)
    requires g.Keys == g0.Keys && forall c :: c in g0 ==> g[c] <= g0[c]
    ensures Pairs(g) <= Pairs(g0)
    ensures g != g0 ==> Pairs(g) < Pairs(g0)
  {
    if g != g0 {
      var c :| c in g && g[c] != g0[c];
      assert (c, g[c]) in Pairs(g0) - Pairs(g);
    }
  }

  /** The state of the search at the top of its main loop, apart from the
      tables (ghost; `g` holds the finite gScore entries). */
  ghost predicate AStarInv(grid: Grid, start: Cell, end: Cell, open: seq<Cell>,
                           cameFrom: map<Cell, Cell>, g: map<Cell, nat>)
    requires WellFormed(grid)
  {
    && SearchTree(grid, start, cameFrom, g)
    && Closed(grid, open, g)
    && (end in g ==> end in open)
    && Distinct(open)
    && (forall c :: c in open ==> c in g)
  }

  /** The state while the neighbours of `current` (gScore `d`) are tried:
      the first `k` of them are settled; `g0` and `rest` are the scores and
      the open list just after `current` left it. */
  ghost predicate RelaxInv(grid: Grid, start: Cell, end: Cell, current: Cell, d: nat, k: nat,
                           open: seq<Cell>, cameFrom: map<Cell, Cell>, g: map<Cell, nat>,
                           g0: map<Cell, nat>, rest: seq<Cell>)
    requires WellFormed(grid)
  {
    && k <= 4
    && SearchTree(grid, start, cameFrom, g)
    && current in g && g[current] == d && current !in open && current != end
    && ClosedBut(grid, open, g, current)
    && SettledUpTo(grid, g, current, d, k)
    && (end in g ==> end in open)
    && Distinct(open)
    && (forall c :: c in open ==> c in g)
    && Lowered(g0, g)
    && (g == g0 ==> open == rest)
  }

  /** Every scored cell outside the open list, other than `current`, has
      been expanded. */
  ghost predicate ClosedBut(grid: Grid, open: seq<Cell>, g: map<Cell, nat>, current: Cell)
    requires WellFormed(grid)
  {
    forall c :: c in g && c !in open && c != current ==> Expanded(grid, g, c)
  }

  /** The first `k` neighbours of `current` are settled. */
  ghost predicate SettledUpTo(grid: Grid, g: map<Cell, nat>, current: Cell, d: nat, k: nat)
    requires WellFormed(grid) && k <= 4
  {
    forall j :: 0 <= j < k ==> Settled(grid, g, Neighbors(current)[j], d)
  }

  /** `g` scores every cell `g0` scores, none higher. */
  ghost predicate Lowered(g0: map<Cell, nat>, g: map<Cell, nat>) {
    g0.Keys <= g.Keys && forall c :: c in g0 ==> g[c] <= g0[c]
  }

  lemma AStarStart(grid: Grid, start: Cell, end: Cell)
    requires WellFormed(grid)
    ensures AStarInv(grid, start, end, [start], map[], map[start := 0])
  {
  }

  /** What the scores and the predecessor map say at any round: `start`
      keeps gScore 0 and no predecessor, and every predecessor's gScore is
      at least one below its successor's. */
  lemma AStarTree(grid: Grid, start: Cell, end: Cell, open: seq<Cell>, cameFrom: map<Cell, Cell>, g: map<Cell, nat>)
    requires WellFormed(grid) && AStarInv(grid, start, end, open, cameFrom, g)
    ensures start in g && g[start] == 0 && start !in cameFrom
    ensures forall c :: c in cameFrom ==> c in g && cameFrom[c] in g && g[cameFrom[c]] + 1 <= g[c]
  {
  }

  /** When the chosen cell is `end`, its fScore is no larger than that of
      any open cell, which is the condition under which the walk back from
      `end` is a shortest path. */
  lemma AStarFound(grid: Grid, start: Cell, end: Cell, open: seq<Cell>, cameFrom: map<Cell, Cell>,
                   g: map<Cell, nat>, path: seq<Cell>)
    requires WellFormed(grid)
    requires AStarInv(grid, start, end, open, cameFrom, g)
    requires end in open
    requires forall j :: 0 <= j < |open| ==> !Less(FScores(open, g, end)[j], FScore(g, end, end))
    requires IsTrace(cameFrom, path, end) && path[0] in g && g[path[0]] + |path| - 1 <= g[end]
    ensures IsShortestPath(grid, start, end, path)
  {
    forall c | c in open ensures c in g && g[end] <= g[c] + Heuristic(c, end) {
      var j :| 0 <= j < |open| && open[j] == c;
      assert !Less(FScores(open, g, end)[j], FScore(g, end, end));
    }
    OptimalAtGoal(grid, start, end, open, cameFrom, g, path);
  }

  /** The search's whole contract at the return where the chosen cell is
      `end` and `path` is the walk back from it. */
  lemma AStarFoundResult(grid: Grid, start: Cell, end: Cell, open: seq<Cell>, cameFrom: map<Cell, Cell>,
                         g: map<Cell, nat>, k: nat, path: seq<Cell>)
    requires WellFormed(grid)
    requires AStarInv(grid, start, end, open, cameFrom, g)
    requires |open| > 0 && k == ReduceIndex(FScores(open, g, end)) && open[k] == end
    requires IsTrace(cameFrom, path, end) && path[0] in g && g[path[0]] + |path| - 1 <= g[end]
    ensures path == [] <==> !Reachable(grid, start, end)
    ensures path != [] ==> IsShortestPath(grid, start, end, path) && IsTrace(cameFrom, path, end)
    ensures start == end ==> path == [start]
    ensures start != end && !Passable(grid, end) ==> path == []
    ensures start in g && g[start] == 0 && start !in cameFrom
    ensures forall c :: c in cameFrom ==> c in g && cameFrom[c] in g && g[cameFrom[c]] + 1 <= g[c]
    ensures Produces(AStarFrom(grid, end, State(open, cameFrom, g)), path, end)
  {
    AStarFound(grid, start, end, open, cameFrom, g, path);
    CornerCases(grid, start, end, path);
    AStarTree(grid, start, end, open, cameFrom, g);
  }

  /** At the return where the open list has run empty: `end` cannot be
      reached, so it is not `start`, and the loop ended with `None`. */
  lemma AStarExhaustedResult(grid: Grid, start: Cell, end: Cell, cameFrom: map<Cell, Cell>, g: map<Cell, nat>)
    requires WellFormed(grid)
    requires AStarInv(grid, start, end, [], cameFrom, g)
    ensures !Reachable(grid, start, end) && start != end
    ensures start in g && g[start] == 0 && start !in cameFrom
    ensures forall c :: c in cameFrom ==> c in g && cameFrom[c] in g && g[cameFrom[c]] + 1 <= g[c]
    ensures AStarFrom(grid, end, State([], cameFrom, g)) == None
  {
    Exhausted(grid, start, end, g);
    AStarTree(grid, start, end, [], cameFrom, g);
  }

  /** Removing the chosen cell `open[idx]` from the open list starts its
      expansion; the open list is one shorter. */
  lemma AStarRemove(grid: Grid, start: Cell, end: Cell, open: seq<Cell>, cameFrom: map<Cell, Cell>,
                    g: map<Cell, nat>, idx: nat)
    requires WellFormed(grid)
    requires AStarInv(grid, start, end, open, cameFrom, g)
    requires idx < |open| && open[idx] != end
    ensures open[idx] in g
    ensures var rest := open[..idx] + open[idx + 1..];
            && |rest| == |open| - 1
            && RelaxInv(grid, start, end, open[idx], g[open[idx]], 0, rest, cameFrom, g, g, rest)
  {
  }

  /** Trying the neighbour `n` of `current` when the route through
      `current` improves on its gScore: `n` gets the new score, `current` as
      predecessor and a place in the open list, and is settled. */
  lemma RelaxImprove(grid: Grid, start: Cell, end: Cell, current: Cell, d: nat, k: nat,
                     open: seq<Cell>, cameFrom: map<Cell, Cell>, g: map<Cell, nat>,
                     g0: map<Cell, nat>, rest: seq<Cell>, n: Cell)
    requires WellFormed(grid)
    requires RelaxInv(grid, start, end, current, d, k, open, cameFrom, g, g0, rest)
    requires k < 4 && n == Neighbors(current)[k]
    requires Passable(grid, n) && (n !in g || d + 1 < g[n])
    ensures RelaxInv(grid, start, end, current, d, k + 1, if n in open then open else open + [n],
                     cameFrom[n := current], g[n := d + 1], g0, rest)
  {
    var open', g' := if n in open then open else open + [n], g[n := d + 1];
    assert SearchTree(grid, start, cameFrom[n := current], g') by {
      NeighborsAdjacent(current, n);
      TreeRelax(grid, start, cameFrom, g, current, n, d + 1);
    }
    assert ClosedBut(grid, open', g', current) by {
      ClosedButKept(grid, open, g, current, n, d + 1);
    }
    assert Lowered(g0, g') && g' != g0 by {
      LoweredStep(g0, g, n, d + 1);
    }
    assert SettledUpTo(grid, g', current, d, k + 1) by {
      SettledLower(grid, g, current, d, k, n);
    }
    assert Distinct(open') by {
      DistinctAdd(open, n);
    }
  }

  /** Adding or lowering one score keeps every score at or below where it
      started, and the scores now differ from where they started. */
  lemma LoweredStep(g0: map<Cell, nat>, g: map<Cell, nat>, n: Cell, v: nat)
    requires Lowered(g0, g) && (n !in g || v < g[n])
    ensures Lowered(g0, g[n := v]) && g[n := v] != g0
  {
  }

  lemma ClosedButKept(grid: Grid, open: seq<Cell>, g: map<Cell, nat>, current: Cell, n: Cell, v: nat)
    requires WellFormed(grid) && ClosedBut(grid, open, g, current) && (n !in g || v <= g[n])
    ensures ClosedBut(grid, if n in open then open else open + [n], g[n := v], current)
  {
  }

  lemma SettledLower(grid: Grid, g: map<Cell, nat>, current: Cell, d: nat, k: nat, n: Cell)
    requires WellFormed(grid) && k < 4 && n == Neighbors(current)[k] && (n !in g || d + 1 < g[n])
    requires SettledUpTo(grid, g, current, d, k)
    ensures SettledUpTo(grid, g[n := d + 1], current, d, k + 1)
  {
  }

  /** Appending a cell only when it is absent keeps the open list free of
      repeats. */
  lemma DistinctAdd(open: seq<Cell>, n: Cell)
    requires Distinct(open)
    ensures Distinct(if n in open then open else open + [n])
  {
  }

  /** Trying the neighbour `n` of `current` settles it, whether the route
      through `current` improves on its gScore or not. */
  lemma RelaxStep(grid: Grid, start: Cell, end: Cell, current: Cell, d: nat, k: nat,
                  open: seq<Cell>, cameFrom: map<Cell, Cell>, g: map<Cell, nat>,
                  g0: map<Cell, nat>, rest: seq<Cell>, n: Cell,
                  open': seq<Cell>, cameFrom': map<Cell, Cell>, g': map<Cell, nat>)
    requires WellFormed(grid)
    requires RelaxInv(grid, start, end, current, d, k, open, cameFrom, g, g0, rest)
    requires k < 4 && n == Neighbors(current)[k]
    requires State(open', cameFrom', g')
             == if Passable(grid, n) then RelaxOne(current, n, State(open, cameFrom, g)) else State(open, cameFrom, g)
    ensures RelaxInv(grid, start, end, current, d, k + 1, open', cameFrom', g', g0, rest)
  {
    if Passable(grid, n) && (n !in g || d + 1 < g[n]) {
      assert open' == (if n in open then open else open + [n]);
      assert cameFrom' == cameFrom[n := current] && g' == g[n := d + 1];
      RelaxImprove(grid, start, end, current, d, k, open, cameFrom, g, g0, rest, n);
    } else {
      assert open' == open && cameFrom' == cameFrom && g' == g;
      RelaxKeep(grid, start, end, current, d, k, open, cameFrom, g, g0, rest, n);
    }
  }

  /** A neighbour outside the grid, a wall, or one the route through
      `current` does not improve on, is settled without change. */
  lemma RelaxKeep(grid: Grid, start: Cell, end: Cell, current: Cell, d: nat, k: nat,
                  open: seq<Cell>, cameFrom: map<Cell, Cell>, g: map<Cell, nat>,
                  g0: map<Cell, nat>, rest: seq<Cell>, n: Cell)
    requires WellFormed(grid)
    requires RelaxInv(grid, start, end, current, d, k, open, cameFrom, g, g0, rest)
    requires k < 4 && n == Neighbors(current)[k]
    requires !(Passable(grid, n) && (n !in g || d + 1 < g[n]))
    ensures RelaxInv(grid, start, end, current, d, k + 1, open, cameFrom, g, g0, rest)
  {
  }

  /** Once all four neighbours are settled, `current` is expanded and the
      main-loop state holds again; either a new cell was scored, or no new
      cell but a lower score, or nothing changed and the open list is one
      shorter: the search makes progress. */
  lemma AStarExpanded(grid: Grid, start: Cell, end: Cell, current: Cell, d: nat,
                      open: seq<Cell>, cameFrom: map<Cell, Cell>, g: map<Cell, nat>,
                      g0: map<Cell, nat>, rest: seq<Cell>)
    requires WellFormed(grid) && InBounds(grid, start)
    requires RelaxInv(grid, start, end, current, d, 4, open, cameFrom, g, g0, rest)
    ensures AStarInv(grid, start, end, open, cameFrom, g)
    ensures || Cells(grid) - g.Keys < Cells(grid) - g0.Keys
            || (Cells(grid) - g.Keys == Cells(grid) - g0.Keys &&
                (Pairs(g) < Pairs(g0) || (Pairs(g) == Pairs(g0) && open == rest)))
  {
    assert Expanded(grid, g, current) by {
      forall m | m in Neighbors(current) && Passable(grid, m) ensures m in g && g[m] <= d + 1 {
        assert Settled(grid, g, m, d);
      }
    }
    Progress(grid, g0, g, rest, open);
  }

  /** The loop over the four neighbours of `current`, east, west, south,
      north: each one inside the grid and not a wall is relaxed. Afterwards
      every neighbour is settled, so `current` is expanded. */
  method RelaxNeighbors(grid: Grid, gScore: array2<Score>, fScore: array2<Score>, start: Cell, end: Cell,
                        current: Cell, ghost d: nat, openSet: seq<Cell>, cameFrom: map<Cell, Cell>,
                        ghost g: map<Cell, nat>, ghost g0: map<Cell, nat>, ghost rest: seq<Cell>)
    returns (openSet': seq<Cell>, cameFrom': map<Cell, Cell>, ghost g': map<Cell, nat>)
    requires WellFormed(grid) && gScore != fScore
    requires Tables(grid, gScore, fScore, g, end)
    requires RelaxInv(grid, start, end, current, d, 0, openSet, cameFrom, g, g0, rest)
    modifies gScore, fScore
    ensures Tables(grid, gScore, fScore, g', end)
    ensures RelaxInv(grid, start, end, current, d, 4, openSet', cameFrom', g', g0, rest)
    ensures State(openSet', cameFrom', g') == RelaxFrom(grid, current, 0, State(openSet, cameFrom, g))
  {
    openSet', cameFrom', g' := openSet, cameFrom, g;
    var neighbors := Neighbors(current);
    var j := 0;
    while j < 4
      invariant Tables(grid, gScore, fScore, g', end)
      invariant RelaxInv(grid, start, end, current, d, j, openSet', cameFrom', g', g0, rest)
      invariant RelaxFrom(grid, current, j, State(openSet', cameFrom', g'))
                == RelaxFrom(grid, current, 0, State(openSet, cameFrom, g))
    {
      var n := neighbors[j];
      ghost var open1, cameFrom1, g1 := openSet', cameFrom', g';
      if Passable(grid, n) {
        openSet', cameFrom', g' := Relax(grid, gScore, fScore, openSet', cameFrom', g', current, n, end);
      }
      RelaxStep(grid, start, end, current, d, j, open1, cameFrom1, g1, g0, rest, n, openSet', cameFrom', g');
      j := j + 1;
    }
  }

  /** One round of the main loop: the chosen cell `s.open[k]` is not
      `end`, so it leaves the open list at its first position `idx` and its
      neighbours are relaxed, giving `r`. */
  lemma AStarFromStep(grid: Grid, end: Cell, s: State, k: nat, idx: int, r: State)
    requires WellFormed(grid) && |s.open| > 0
    requires k == ReduceIndex(FScores(s.open, s.g, end)) && s.open[k] != end
    requires idx == FirstIndex(s.open, s.open[k])
    requires r == RelaxFrom(grid, s.open[k], 0, State(s.open[..idx] + s.open[idx + 1..], s.cameFrom, s.g))
    ensures AStarFrom(grid, end, s) == AStarFrom(grid, end, r)
  {
    var current := s.open[k];
    assert current == s.open[ReduceIndex(FScores(s.open, s.g, end))];
    var rest := State(s.open[..idx] + s.open[idx + 1..], s.cameFrom, s.g);
    assert AStarFrom(grid, end, s) == AStarFrom(grid, end, RelaxFrom(grid, current, 0, rest));
  }

  /** One round of aStar once the chosen cell `openSet[k]` has turned out
      not to be `end`: it is spliced out of the open list at its first
      position, and its neighbours are relaxed. The new state is the one
      AStarFrom steps to, the loop invariant holds again, and the search
      made progress. */
  method Expand(grid: Grid, gScore: array2<Score>, fScore: array2<Score>, start: Cell, end: Cell,
                openSet: seq<Cell>, cameFrom: map<Cell, Cell>, ghost g: map<Cell, nat>, k: nat)
    returns (openSet': seq<Cell>, cameFrom': map<Cell, Cell>, ghost g': map<Cell, nat>)
    requires WellFormed(grid) && InBounds(grid, start) && gScore != fScore
    requires Tables(grid, gScore, fScore, g, end)
    requires AStarInv(grid, start, end, openSet, cameFrom, g)
    requires |openSet| > 0 && k == ReduceIndex(FScores(openSet, g, end)) && openSet[k] != end
    modifies gScore, fScore
    ensures Tables(grid, gScore, fScore, g', end)
    ensures AStarInv(grid, start, end, openSet', cameFrom', g')
    ensures var idx := FirstIndex(openSet, openSet[k]);
            && 0 <= idx
            && State(openSet', cameFrom', g') == RelaxFrom(grid, openSet[k], 0, State(openSet[..idx] + openSet[idx + 1..], cameFrom, g))
    ensures AStarFrom(grid, end, State(openSet', cameFrom', g')) == AStarFrom(grid, end, State(openSet, cameFrom, g))
    ensures || Cells(grid) - g'.Keys < Cells(grid) - g.Keys
            || (Cells(grid) - g'.Keys == Cells(grid) - g.Keys &&
                (Pairs(g') < Pairs(g) || (Pairs(g') == Pairs(g) && |openSet'| < |openSet|)))
  {
    var current := openSet[k];
    var idx := IndexOf(openSet, current);
    AStarRemove(grid, start, end, openSet, cameFrom, g, idx);
    var rest := openSet[..idx] + openSet[idx + 1..];
    ghost var d := g[current];
    openSet', cameFrom', g' := RelaxNeighbors(grid, gScore, fScore, start, end, current, d, rest, cameFrom, g, g, rest);
    AStarFromStep(grid, end, State(openSet, cameFrom, g), k, idx, State(openSet', cameFrom', g'));
    AStarExpanded(grid, start, end, current, d, openSet', cameFrom', g', g, rest);
  }

  /** The two tables as the search sets them up: every entry Infinity,
      except gScore 0 and fScore the Manhattan distance to `end` at
      `start`. */
  method NewTables(grid: Grid, start: Cell, end: Cell) returns (gScore: array2<Score>, fScore: array2<Score>)
    requires WellFormed(grid) && InBounds(grid, start)
    ensures fresh(gScore) && fresh(fScore) && gScore != fScore
    ensures Tables(grid, gScore, fScore, map[start := 0], end)
  {
    var rows, cols := |grid|, |grid[0]|;
    gScore := new Score[rows, cols]((y, x) => Inf);
    gScore[start.y, start.x] := Fin(0);
    fScore := new Score[rows, cols]((y, x) => Inf);
    fScore[start.y, start.x] := Fin(Heuristic(start, end));
  }

  /** aStar: an open list seeded with `start`; gScore and fScore tables
      filled with Infinity except gScore 0 and fScore the Manhattan
      distance at `start`. Each round chooses the open cell of least fScore
      (the last such on a tie), stops if it is `end`, otherwise removes it
      from the open list and relaxes its neighbours east, west, south,
      north, skipping those outside the grid or walls. Returns `[]` when
      the open list runs empty.

      The result is `[]` exactly when `end` cannot be reached, and otherwise
      a shortest path from `start` to `end`, read off the predecessor map.
      The ghost `g` holds the final finite gScore entries and `links` the
      final predecessor map: `start` keeps gScore 0 and no predecessor, and
      every predecessor's gScore is at least one below its successor's,
      which is what makes the walk back from `end` finite. */
  method AStar(grid: Grid, start: Cell, end: Cell)
    returns (path: seq<Cell>, ghost links: map<Cell, Cell>, ghost g: map<Cell, nat>)
    requires WellFormed(grid) && InBounds(grid, start)
    ensures path == [] <==> !Reachable(grid, start, end)
    ensures path != [] ==> IsShortestPath(grid, start, end, path) && IsTrace(links, path, end)
    ensures start == end ==> path == [start]
    ensures start != end && !Passable(grid, end) ==> path == []
    ensures start in g && g[start] == 0 && start !in links
    ensures forall c :: c in links ==> c in g && links[c] in g && g[links[c]] + 1 <= g[c]
    ensures Produces(AStarOutcome(grid, start, end), path, end)
  {
    var openSet := [start];
    var cameFrom: map<Cell, Cell> := map[];
    var gScore, fScore := NewTables(grid, start, end);
    links := map[];
    g := map[start := 0];
    AStarStart(grid, start, end);
    ghost var outcome := AStarOutcome(grid, start, end);

    while |openSet| > 0
      invariant Tables(grid, gScore, fScore, g, end)
      invariant AStarInv(grid, start, end, openSet, cameFrom, g)
      invariant AStarFrom(grid, end, State(openSet, cameFrom, g)) == outcome
      decreases Cells(grid) - g.Keys, Pairs(g), |openSet|
    {
      EntriesAreFScores(grid, gScore, fScore, openSet, g, end);
      var k := SelectCurrent(openSet, fScore);
      var current := openSet[k];
      if current == end {
        path := ReconstructPath(cameFrom, current, g);
        AStarFoundResult(grid, start, end, openSet, cameFrom, g, k, path);
        links := cameFrom;
        return;
      }
      openSet, cameFrom, g := Expand(grid, gScore, fScore, start, end, openSet, cameFrom, g, k);
    }

    path := [];
    AStarExhaustedResult(grid, start, end, cameFrom, g);
    links := cameFrom;
  }
}
