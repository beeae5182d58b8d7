/**
 * The heap-based A* generator `astar` and its helper `process_neighbor`
 * (the module-level copy, which steps with `octile_distance`, and the
 * `AStarApplication` method copy, which steps with `self.heuristic`).
 * Scores are in half-steps; the step cost is a parameter.
 */
module HeapSearch {
  import opened Wrappers
  import opened Grid
  import opened Octile
  import opened Frontier
  import opened PathReconstruction

  /** What one resume of the generator hands back. */
  datatype StepResult =
    | Expanded(cell: Cell)  // `yield current, open_set, came_from`
    | Exhausted             // `yield None, None, None`: the heap ran empty
    | Stopped               // the generator has returned

  /** The search containers: the heap list, `g_score`, `f_score` and `came_from`. */
  datatype SearchState = SearchState(
    open: seq<Entry>,
    g: map<Cell, nat>,
    f: map<Cell, nat>,
    cameFrom: map<Cell, Cell>)

  /** A step cost the engine can use: at least one whole step (two half-steps) between adjacent cells. */
  ghost predicate StepCostOk(cost: (Cell, Cell) -> nat) {
    forall a, b :: Adjacent(a, b) ==> cost(a, b) >= 2
  }

  /** The octile distance is such a step cost: 1 orthogonally, 1.5 diagonally. */
  lemma OctileIsStepCost()
    ensures StepCostOk(OctileTwice)
  {
    forall a, b | Adjacent(a, b) ensures OctileTwice(a, b) >= 2 {
      OctileOfNeighbour(a, b);
    }
  }

  /**
   * `open_set = [(0, start)]`, `g_score = {start: 0}`, `f_score = {start: h(start)}`,
   * `came_from = {}`: start is the only cell scored, at 0 with no predecessor,
   * and the only cell queued.
   */
  function Initial(start: Cell, goal: Cell): (s: SearchState)
    ensures s.g.Keys == {start} && s.g[start] == 0 && s.cameFrom == map[]
    ensures CellsOf(s.open) == {start}
  {
    assert Entry(0, start) in [Entry(0, start)];
    SearchState([Entry(0, start)], map[start := 0], map[start := OctileTwice(start, goal)], map[])
  }

  /** The neighbour is in bounds, holds 0, and is new or strictly cheaper through `cur`. */
  predicate Improves(maze: Maze, cost: (Cell, Cell) -> nat, s: SearchState, cur: Cell, nb: Cell)
    requires Rectangular(maze) && cur in s.g
  {
    Free(maze, nb) && (nb !in s.g || s.g[cur] + cost(cur, nb) < s.g[nb])
  }

  /**
   * `process_neighbor(matrix, current, neighbor, goal, ...)` on the containers.
   * Afterwards a free neighbour is scored and no other cell is newly scored;
   * no score rises; no queued cell loses its entry, and a newly scored cell has one.
   */
  function Relax(maze: Maze, goal: Cell, cost: (Cell, Cell) -> nat, s: SearchState, cur: Cell, nb: Cell): (r: SearchState)
    requires Rectangular(maze) && cur in s.g
    ensures r.g.Keys == s.g.Keys + (if Free(maze, nb) then {nb} else {})
    ensures forall c :: c in s.g ==> r.g[c] <= s.g[c]
    ensures CellsOf(s.open) <= CellsOf(r.open)
    ensures forall c :: c in r.g && c !in s.g ==> c in CellsOf(r.open)
  {
    if Improves(maze, cost, s, cur, nb) then
      var t := s.g[cur] + cost(cur, nb);
      var fn := t + OctileTwice(nb, goal);
      CellsOfAppend(s.open, Entry(fn, nb));
      SearchState(s.open + [Entry(fn, nb)], s.g[nb := t], s.f[nb := fn], s.cameFrom[nb := cur])
    else s
  }

  /**
   * Nothing changes unless the neighbour improves; an improvement sets its
   * g to the tentative score, its f to that plus the octile distance to the
   * goal and its predecessor to `cur`, pushes exactly one entry for it, and
   * leaves every other cell as it was.
   */
  lemma RelaxTouchesOnlyNeighbour(maze: Maze, goal: Cell, cost: (Cell, Cell) -> nat, s: SearchState, cur: Cell, nb: Cell)
    requires Rectangular(maze) && cur in s.g
    ensures var r := Relax(maze, goal, cost, s, cur, nb);
      && (r == s <==> !Improves(maze, cost, s, cur, nb))
      && (forall c :: c != nb ==>
            (c in r.g <==> c in s.g) && (c in r.g ==> r.g[c] == s.g[c])
            && (c in r.f <==> c in s.f) && (c in r.f ==> r.f[c] == s.f[c])
            && (c in r.cameFrom <==> c in s.cameFrom) && (c in r.cameFrom ==> r.cameFrom[c] == s.cameFrom[c]))
      && (Improves(maze, cost, s, cur, nb) ==>
            && r.g[nb] == s.g[cur] + cost(cur, nb)
            && r.cameFrom[nb] == cur
            && r.f[nb] == r.g[nb] + OctileTwice(nb, goal)
            && multiset(r.open) == multiset(s.open) + multiset{Entry(r.f[nb], nb)})
  {
  }

  /**
   * The neighbours of `cur` relaxed in the order of the direction list, from
   * index i on. Afterwards every free one of them is scored, no scored cell
   * is lost, no queued cell is dropped, and every newly scored cell is queued.
   */
  function RelaxFrom(maze: Maze, goal: Cell, cost: (Cell, Cell) -> nat, s: SearchState, cur: Cell, i: nat): (r: SearchState)
    requires Rectangular(maze) && cur in s.g && i <= 8
    ensures s.g.Keys <= r.g.Keys
    ensures forall j :: i <= j < 8 && Free(maze, Shift(cur, Directions[j])) ==> Shift(cur, Directions[j]) in r.g
    ensures CellsOf(s.open) <= CellsOf(r.open)
    ensures forall c :: c in r.g && c !in s.g ==> c in CellsOf(r.open)
    decreases 8 - i
  {
    if i == 8 then s
    else RelaxFrom(maze, goal, cost, Relax(maze, goal, cost, s, cur, Shift(cur, Directions[i])), cur, i + 1)
  }

  /**
   * Start is scored 0 and has no predecessor; the scored cells are start and
   * the cells with a predecessor; f and g score the same cells.
   */
  ghost predicate Shape(start: Cell, s: SearchState) {
    && start in s.g && s.g[start] == 0 && start !in s.cameFrom
    && s.g.Keys == s.cameFrom.Keys + {start}
    && s.f.Keys == s.g.Keys
  }

  /** f is g plus the octile distance to the goal. */
  ghost predicate FIsGPlusH(goal: Cell, s: SearchState) {
    forall c :: c in s.g ==> c in s.f && s.f[c] == s.g[c] + OctileTwice(c, goal)
  }

  /** Every cell with a predecessor is free and adjacent to its predecessor. */
  ghost predicate LinksAdjacentFree(maze: Maze, s: SearchState)
    requires Rectangular(maze)
  {
    forall c :: c in s.cameFrom ==> Free(maze, c) && Adjacent(s.cameFrom[c], c)
  }

  /**
   * Every cell with a predecessor is scored, its predecessor is scored too,
   * and the predecessor's g plus the step cost is at most the cell's own g.
   */
  ghost predicate LinksBounded(cost: (Cell, Cell) -> nat, s: SearchState) {
    forall c :: c in s.cameFrom ==>
      c in s.g && s.cameFrom[c] in s.g && s.g[s.cameFrom[c]] + cost(s.cameFrom[c], c) <= s.g[c]
  }

  /** Every queued cell is scored. */
  ghost predicate QueuedScored(s: SearchState) {
    forall e :: e in s.open ==> e.cell in s.g
  }

  /** The search invariant. */
  ghost predicate ValidState(maze: Maze, start: Cell, goal: Cell, cost: (Cell, Cell) -> nat, s: SearchState) {
    && Rectangular(maze) && StepCostOk(cost)
    && Shape(start, s) && FIsGPlusH(goal, s)
    && LinksAdjacentFree(maze, s) && LinksBounded(cost, s) && QueuedScored(s)
  }

  lemma InitialIsValid(maze: Maze, start: Cell, goal: Cell, cost: (Cell, Cell) -> nat)
    requires Rectangular(maze) && StepCostOk(cost)
    ensures ValidState(maze, start, goal, cost, Initial(start, goal))
  {
  }

  /** Start keeps g 0: no g plus a step cost is below 0, so start never improves. */
  lemma RelaxKeepsShape(maze: Maze, goal: Cell, cost: (Cell, Cell) -> nat, start: Cell, s: SearchState, cur: Cell, nb: Cell)
    requires Rectangular(maze) && cur in s.g && Shape(start, s)
    ensures Shape(start, Relax(maze, goal, cost, s, cur, nb))
    ensures s.g.Keys <= Relax(maze, goal, cost, s, cur, nb).g.Keys
  {
  }

  lemma RelaxKeepsF(maze: Maze, goal: Cell, cost: (Cell, Cell) -> nat, s: SearchState, cur: Cell, nb: Cell)
    requires Rectangular(maze) && cur in s.g && FIsGPlusH(goal, s)
    ensures FIsGPlusH(goal, Relax(maze, goal, cost, s, cur, nb))
  {
  }

  /** A new link joins a free neighbour to `cur`. */
  lemma RelaxKeepsAdjacentFree(maze: Maze, goal: Cell, cost: (Cell, Cell) -> nat, s: SearchState, cur: Cell, nb: Cell)
    requires Rectangular(maze) && cur in s.g && Adjacent(cur, nb) && LinksAdjacentFree(maze, s)
    ensures LinksAdjacentFree(maze, Relax(maze, goal, cost, s, cur, nb))
  {
  }

  /** An improvement only lowers g, so every existing link still satisfies its bound. */
  lemma RelaxKeepsBounded(maze: Maze, goal: Cell, cost: (Cell, Cell) -> nat, s: SearchState, cur: Cell, nb: Cell)
    requires Rectangular(maze) && cur in s.g && cur != nb && LinksBounded(cost, s)
    ensures LinksBounded(cost, Relax(maze, goal, cost, s, cur, nb))
  {
    if Improves(maze, cost, s, cur, nb) {
      var r := Relax(maze, goal, cost, s, cur, nb);
      forall c | c in r.cameFrom
        ensures r.cameFrom[c] in r.g && r.g[r.cameFrom[c]] + cost(r.cameFrom[c], c) <= r.g[c]
      {
        if c != nb {
          var p := s.cameFrom[c];
          assert r.g[p] <= s.g[p];
        }
      }
    }
  }

  lemma RelaxKeepsQueued(maze: Maze, goal: Cell, cost: (Cell, Cell) -> nat, s: SearchState, cur: Cell, nb: Cell)
    requires Rectangular(maze) && cur in s.g && QueuedScored(s)
    ensures QueuedScored(Relax(maze, goal, cost, s, cur, nb))
  {
  }

  /** `process_neighbor` keeps the invariant. */
  lemma RelaxKeepsValid(maze: Maze, start: Cell, goal: Cell, cost: (Cell, Cell) -> nat, s: SearchState, cur: Cell, nb: Cell)
    requires ValidState(maze, start, goal, cost, s) && cur in s.g && Adjacent(cur, nb)
    ensures ValidState(maze, start, goal, cost, Relax(maze, goal, cost, s, cur, nb))
    ensures s.g.Keys <= Relax(maze, goal, cost, s, cur, nb).g.Keys
  {
    RelaxKeepsShape(maze, goal, cost, start, s, cur, nb);
    RelaxKeepsF(maze, goal, cost, s, cur, nb);
    RelaxKeepsAdjacentFree(maze, goal, cost, s, cur, nb);
    RelaxKeepsBounded(maze, goal, cost, s, cur, nb);
    RelaxKeepsQueued(maze, goal, cost, s, cur, nb);
  }

  lemma {:induction false} RelaxFromKeepsValid(maze: Maze, start: Cell, goal: Cell, cost: (Cell, Cell) -> nat, s: SearchState, cur: Cell, i: nat)
    requires ValidState(maze, start, goal, cost, s) && cur in s.g && i <= 8
    ensures ValidState(maze, start, goal, cost, RelaxFrom(maze, goal, cost, s, cur, i))
    ensures s.g.Keys <= RelaxFrom(maze, goal, cost, s, cur, i).g.Keys
    decreases 8 - i
  {
    if i < 8 {
      var nb := Shift(cur, Directions[i]);
      ShiftIsAdjacent(cur, i);
      RelaxKeepsValid(maze, start, goal, cost, s, cur, nb);
      RelaxFromKeepsValid(maze, start, goal, cost, Relax(maze, goal, cost, s, cur, nb), cur, i + 1);
    }
  }

  /** Popping any entry keeps the invariant, and the popped cell is scored. */
  lemma PopKeepsValid(maze: Maze, start: Cell, goal: Cell, cost: (Cell, Cell) -> nat, s: SearchState, k: nat)
    requires ValidState(maze, start, goal, cost, s) && k < |s.open|
    ensures s.open[k].cell in s.g
    ensures ValidState(maze, start, goal, cost, s.(open := RemoveAt(s.open, k)))
  {
    assert s.open[k] in s.open;
    forall e | e in RemoveAt(s.open, k) ensures e.cell in s.g {
      assert e in multiset(RemoveAt(s.open, k));
    }
  }

  /** Under the invariant g strictly drops along every predecessor link, so reconstruction terminates. */
  lemma ValidIsRanked(maze: Maze, cost: (Cell, Cell) -> nat, s: SearchState)
    requires Rectangular(maze) && StepCostOk(cost) && LinksAdjacentFree(maze, s) && LinksBounded(cost, s)
    ensures Ranked(s.cameFrom, s.g)
  {
    forall c | c in s.cameFrom && s.cameFrom[c] in s.cameFrom
      ensures s.g[s.cameFrom[c]] < s.g[c]
    {
      assert cost(s.cameFrom[c], c) >= 2;
    }
  }

  /** Appending a cell adds the cost of the last step. */
  lemma {:induction false} PathCostSnoc(cost: (Cell, Cell) -> nat, p: seq<Cell>, x: Cell)
    requires |p| > 0
    ensures PathCost(cost, p + [x]) == PathCost(cost, p) + cost(p[|p| - 1], x)
  {
    if |p| > 1 {
      assert (p + [x])[1..] == p[1..] + [x];
      PathCostSnoc(cost, p[1..], x);
    }
  }

  /** A scored cell without a predecessor is start. */
  lemma UnlinkedIsStart(start: Cell, s: SearchState, c: Cell)
    requires Shape(start, s) && c in s.g && c !in s.cameFrom
    ensures c == start
  {
    assert c in s.g.Keys;
  }

  /** Every chain of predecessor links ends at start: a predecessor without one of its own is start. */
  ghost predicate Rooted(cameFrom: map<Cell, Cell>, start: Cell) {
    forall c :: c in cameFrom && cameFrom[c] !in cameFrom ==> cameFrom[c] == start
  }

  /** Under the shape invariant, chains end at start, and a scored cell is linked or is start. */
  lemma ShapeIsRooted(start: Cell, s: SearchState, current: Cell)
    requires Shape(start, s) && current in s.g
    requires forall c :: c in s.cameFrom ==> s.cameFrom[c] in s.g
    ensures Rooted(s.cameFrom, start)
    ensures current in s.cameFrom || current == start
  {
    forall c | c in s.cameFrom && s.cameFrom[c] !in s.cameFrom ensures s.cameFrom[c] == start {
      UnlinkedIsStart(start, s, s.cameFrom[c]);
    }
    if current !in s.cameFrom {
      UnlinkedIsStart(start, s, current);
    }
  }

  /**
   * The path rebuilt from start or from a linked cell starts at start, ends
   * at that cell, and follows a predecessor link at every step, the first
   * included, when every chain of links ends at start.
   */
  lemma ChainLinks(cameFrom: map<Cell, Cell>, rank: map<Cell, int>, start: Cell, current: Cell)
    requires Ranked(cameFrom, rank) && Rooted(cameFrom, start)
    requires current in cameFrom || current == start
    ensures var path := Reconstructed(cameFrom, rank, current, start);
      && path[0] == start && path[|path| - 1] == current
      && (forall i :: 1 <= i < |path| ==> path[i] in cameFrom && cameFrom[path[i]] == path[i - 1])
  {
    ReconstructedShape(cameFrom, rank, current, start);
    var path := Reconstructed(cameFrom, rank, current, start);
    forall i | 1 <= i < |path| ensures path[i] in cameFrom && cameFrom[path[i]] == path[i - 1] {
      if i > 1 {
        assert cameFrom[path[(i - 1) + 1]] == path[i - 1];
      }
    }
  }

  /**
   * The rebuilt path is a walk between adjacent cells that crosses only free
   * cells after start.
   */
  lemma ChainIsFreeWalk(maze: Maze, start: Cell, goal: Cell, cost: (Cell, Cell) -> nat, s: SearchState, current: Cell)
    requires ValidState(maze, start, goal, cost, s) && current in s.g
    ensures Ranked(s.cameFrom, s.g)
    ensures var path := Reconstructed(s.cameFrom, s.g, current, start);
      && path[0] == start && path[|path| - 1] == current
      && IsWalk(path)
      && (forall i :: 1 <= i < |path| ==> Free(maze, path[i]))
  {
    ValidIsRanked(maze, cost, s);
    ShapeIsRooted(start, s, current);
    ChainLinks(s.cameFrom, s.g, start, current);
    var path := Reconstructed(s.cameFrom, s.g, current, start);
    forall i | 0 <= i < |path| - 1 ensures Adjacent(path[i], path[i + 1]) {
      assert s.cameFrom[path[i + 1]] == path[i];
    }
  }

  /** The rebuilt path costs no more than the g recorded for its last cell. */
  lemma {:induction false} ChainCostAtMostG(start: Cell, cost: (Cell, Cell) -> nat, s: SearchState, current: Cell)
    requires Ranked(s.cameFrom, s.g) && Rooted(s.cameFrom, start) && LinksBounded(cost, s)
    requires current in s.g && (current in s.cameFrom || current == start)
    ensures PathCost(cost, Reconstructed(s.cameFrom, s.g, current, start)) <= s.g[current]
    decreases if current in s.cameFrom then s.g[current] + 1 else 0
  {
    if current in s.cameFrom {
      var pred := s.cameFrom[current];
      ChainCostAtMostG(start, cost, s, pred);
      ChainLinks(s.cameFrom, s.g, start, pred);
      var before := Reconstructed(s.cameFrom, s.g, pred, start);
      var h := Hops(s.cameFrom, s.g, pred);
      assert Hops(s.cameFrom, s.g, current) == [current] + h;
      assert Reconstructed(s.cameFrom, s.g, current, start) == before + [current] by {
        assert [current] + h + [start] == [current] + (h + [start]);
      }
      PathCostSnoc(cost, before, current);
    } else {
      assert Hops(s.cameFrom, s.g, current) == [];
    }
  }

  /**
   * A walk from `a` to `b` between adjacent cells that enters only free cells
   * after `a`: a route the search may take.
   */
  ghost predicate FreeWalk(maze: Maze, p: seq<Cell>, a: Cell, b: Cell)
    requires Rectangular(maze)
  {
    && |p| > 0 && p[0] == a && p[|p| - 1] == b && IsWalk(p)
    && (forall i :: 1 <= i < |p| ==> Free(maze, p[i]))
  }

  /** Some free walk leads from `a` to `b`. */
  ghost predicate Reachable(maze: Maze, a: Cell, b: Cell)
    requires Rectangular(maze)
  {
    exists p :: FreeWalk(maze, p, a, b)
  }

  /** Every free cell adjacent to `c` is scored. */
  ghost predicate NeighboursScored(maze: Maze, g: map<Cell, nat>, c: Cell)
    requires Rectangular(maze)
  {
    forall b :: Adjacent(c, b) && Free(maze, b) ==> b in g
  }

  /** The cells of `closed` have been expanded: each one's free neighbours are scored. */
  ghost predicate Settled(maze: Maze, g: map<Cell, nat>, closed: set<Cell>)
    requires Rectangular(maze)
  {
    forall c :: c in closed ==> NeighboursScored(maze, g, c)
  }

  /** Every scored cell outside `done` still has an entry in the list. */
  ghost predicate StillQueued(g: map<Cell, nat>, open: seq<Entry>, done: set<Cell>) {
    forall c :: c in g && c !in done ==> c in CellsOf(open)
  }

  /** The cell yielded and not yet expanded, as a set. */
  function PendingCells(pending: Option<Cell>): set<Cell> {
    if pending.Some? then {pending.value} else {}
  }

  /**
   * Relaxing the eight neighbours of `cur` scores every free one, so `cur`
   * joins the expanded cells, and the cells scored meanwhile are queued.
   */
  lemma ExpansionSettles(maze: Maze, goal: Cell, cost: (Cell, Cell) -> nat, s: SearchState, cur: Cell, closed: set<Cell>)
    requires Rectangular(maze) && cur in s.g
    requires Settled(maze, s.g, closed) && StillQueued(s.g, s.open, closed + {cur})
    ensures var r := RelaxFrom(maze, goal, cost, s, cur, 0);
      Settled(maze, r.g, closed + {cur}) && StillQueued(r.g, r.open, closed + {cur})
  {
    var r := RelaxFrom(maze, goal, cost, s, cur, 0);
    forall b | Adjacent(cur, b) && Free(maze, b) ensures b in r.g {
      DirectionsReachNeighbours(cur, b);
    }
    forall c | c in closed ensures NeighboursScored(maze, r.g, c) {
      assert NeighboursScored(maze, s.g, c);
    }
  }

  /** Popping one entry leaves every other scored cell queued once its cell counts as done. */
  lemma PopKeepsQueued(g: map<Cell, nat>, open: seq<Entry>, k: nat, done: set<Cell>)
    requires k < |open| && StillQueued(g, open, done)
    ensures StillQueued(g, RemoveAt(open, k), done + {open[k].cell})
  {
    var rest := RemoveAt(open, k);
    forall c | c in g && c !in done + {open[k].cell} ensures c in CellsOf(rest) {
      var e :| e in open && e.cell == c;
      assert e in multiset(open) && e != open[k];
      assert e in multiset(rest);
    }
  }

  /** A free walk from a scored start stays among the scored cells when all of them are expanded. */
  lemma {:induction false} WalkStaysScored(maze: Maze, g: map<Cell, nat>, closed: set<Cell>, p: seq<Cell>, n: nat)
    requires Rectangular(maze) && |p| > 0 && p[0] in g && IsWalk(p)
    requires forall i :: 1 <= i < |p| ==> Free(maze, p[i])
    requires Settled(maze, g, closed) && g.Keys <= closed
    requires n < |p|
    ensures p[n] in g
    decreases n
  {
    if n > 0 {
      WalkStaysScored(maze, g, closed, p, n - 1);
      assert NeighboursScored(maze, g, p[n - 1]);
      assert Adjacent(p[n - 1], p[n]);
    }
  }

  /**
   * Completeness: once the heap is empty and every scored cell has been
   * expanded, every cell a free walk from start reaches has been expanded.
   * So a goal never expanded is unreachable.
   */
  lemma ExhaustedIsUnreachable(maze: Maze, start: Cell, goal: Cell, g: map<Cell, nat>, closed: set<Cell>)
    requires Rectangular(maze) && start in g
    requires Settled(maze, g, closed) && StillQueued(g, [], closed)
    ensures forall b :: Reachable(maze, start, b) ==> b in closed
    ensures goal !in closed ==> !Reachable(maze, start, goal)
  {
    assert g.Keys <= closed by {
      assert CellsOf([]) == {};
    }
    forall b | Reachable(maze, start, b) ensures b in closed {
      var p :| FreeWalk(maze, p, start, b);
      WalkStaysScored(maze, g, closed, p, |p| - 1);
    }
  }

  /** A scored cell is reachable: the rebuilt chain of links is a free walk to it. */
  lemma ScoredIsReachable(maze: Maze, start: Cell, goal: Cell, cost: (Cell, Cell) -> nat, s: SearchState, c: Cell)
    requires ValidState(maze, start, goal, cost, s) && c in s.g
    ensures Reachable(maze, start, c)
  {
    ChainIsFreeWalk(maze, start, goal, cost, s, c);
    assert FreeWalk(maze, Reconstructed(s.cameFrom, s.g, c, start), start, c);
  }

  /**
   * Where the generator is when resumed: the pending cell, if any, has had
   * its neighbours relaxed, so its free neighbours are scored.
   */
  function AfterResume(maze: Maze, goal: Cell, cost: (Cell, Cell) -> nat, s: SearchState, pending: Option<Cell>): (r: SearchState)
    requires Rectangular(maze) && (pending.Some? ==> pending.value in s.g)
    ensures s.g.Keys <= r.g.Keys
    ensures pending.Some? ==> NeighboursScored(maze, r.g, pending.value)
  {
    if pending.Some? then
      var r := RelaxFrom(maze, goal, cost, s, pending.value, 0);
      assert NeighboursScored(maze, r.g, pending.value) by {
        forall b | Adjacent(pending.value, b) && Free(maze, b) ensures b in r.g {
          DirectionsReachNeighbours(pending.value, b);
        }
      }
      r
    else s
  }

  /**
   * The invariant of a running `astar`: the search invariant on the
   * containers; the pending cell is scored; the expanded cells have their
   * free neighbours scored and the goal is never among them; and, until the
   * generator returns, every scored cell neither expanded nor pending is queued.
   */
  ghost predicate EngineOk(maze: Maze, start: Cell, goal: Cell, cost: (Cell, Cell) -> nat, s: SearchState,
                           pending: Option<Cell>, finished: bool, closed: set<Cell>) {
    && ValidState(maze, start, goal, cost, s)
    && (pending.Some? ==> pending.value in s.g)
    && (finished ==> pending.None?)
    && Settled(maze, s.g, closed) && goal !in closed
    && (!finished ==> StillQueued(s.g, s.open, closed + PendingCells(pending)))
  }

  /** The parts of the invariant for a running generator with nothing pending, put together. */
  lemma SettledIsOk(maze: Maze, start: Cell, goal: Cell, cost: (Cell, Cell) -> nat, s: SearchState, closed: set<Cell>)
    requires ValidState(maze, start, goal, cost, s) && Settled(maze, s.g, closed) && goal !in closed
    requires StillQueued(s.g, s.open, closed)
    ensures EngineOk(maze, start, goal, cost, s, None, false, closed)
  {
    assert closed + PendingCells(None) == closed;
  }

  /** Expanding the pending cell keeps the search invariant and settles that cell. */
  lemma ExpansionKeepsParts(maze: Maze, start: Cell, goal: Cell, cost: (Cell, Cell) -> nat, s: SearchState, cur: Cell, closed: set<Cell>)
    requires EngineOk(maze, start, goal, cost, s, Some(cur), false, closed)
    ensures var r := RelaxFrom(maze, goal, cost, s, cur, 0);
      ValidState(maze, start, goal, cost, r) && Settled(maze, r.g, closed + {cur}) && StillQueued(r.g, r.open, closed + {cur})
  {
    RelaxFromKeepsValid(maze, start, goal, cost, s, cur, 0);
    ExpansionSettles(maze, goal, cost, s, cur, closed);
  }

  /** Expanding the pending cell keeps the invariant, with that cell now expanded. */
  lemma ExpansionKeepsOk(maze: Maze, start: Cell, goal: Cell, cost: (Cell, Cell) -> nat, s: SearchState, cur: Cell, closed: set<Cell>, r: SearchState)
    requires EngineOk(maze, start, goal, cost, s, Some(cur), false, closed) && cur != goal
    requires r == RelaxFrom(maze, goal, cost, s, cur, 0)
    ensures EngineOk(maze, start, goal, cost, r, None, false, closed + {cur})
  {
    ExpansionKeepsParts(maze, start, goal, cost, s, cur, closed);
    SettledIsOk(maze, start, goal, cost, r, closed + {cur});
  }

  /** A pop keeps the invariant, with the popped cell pending, and that cell is reachable. */
  lemma PopKeepsOk(maze: Maze, start: Cell, goal: Cell, cost: (Cell, Cell) -> nat, s: SearchState, k: nat, closed: set<Cell>)
    requires EngineOk(maze, start, goal, cost, s, None, false, closed) && k < |s.open|
    ensures EngineOk(maze, start, goal, cost, s.(open := RemoveAt(s.open, k)), Some(s.open[k].cell), false, closed)
    ensures Reachable(maze, start, s.open[k].cell)
  {
    PopKeepsValid(maze, start, goal, cost, s, k);
    assert closed + PendingCells(None) == closed;
    PopKeepsQueued(s.g, s.open, k, closed);
    ScoredIsReachable(maze, start, goal, cost, s, s.open[k].cell);
  }

  /** Completeness: an empty heap with nothing pending means no free walk reaches the goal. */
  lemma ExhaustionKeepsOk(maze: Maze, start: Cell, goal: Cell, cost: (Cell, Cell) -> nat, s: SearchState, closed: set<Cell>)
    requires EngineOk(maze, start, goal, cost, s, None, false, closed) && s.open == []
    ensures EngineOk(maze, start, goal, cost, s, None, true, closed)
    ensures !Reachable(maze, start, goal)
  {
    assert closed + PendingCells(None) == closed;
    ExhaustedIsUnreachable(maze, start, goal, s.g, closed);
  }

  /**
   * The generator `astar(matrix, start, goal)` as an object that is resumed
   * one step at a time. A step first finishes the work that follows the
   * previous `yield` (the goal test, then the eight neighbours), and then pops
   * the next cell and yields it.
   */
  class Engine {
    const maze: Maze
    const start: Cell
    const goal: Cell
    /** The cost of one move: `octile_distance`, or `self.heuristic` in the application. */
    const stepCost: (Cell, Cell) -> nat
    var open: seq<Entry>
    var gScore: map<Cell, nat>
    var fScore: map<Cell, nat>
    var cameFrom: map<Cell, Cell>
    /** The cell yielded last, whose goal test and expansion run on the next resume. */
    var pending: Option<Cell>
    /** The generator has returned. */
    var finished: bool
    /** The cells whose neighbours have been relaxed. */
    ghost var closed: set<Cell>

    function State(): SearchState
      reads this
    {
      SearchState(open, gScore, fScore, cameFrom)
    }

    ghost predicate Valid()
      reads this
    {
      EngineOk(maze, start, goal, stepCost, State(), pending, finished, closed)
    }

    constructor (maze: Maze, start: Cell, goal: Cell, stepCost: (Cell, Cell) -> nat)
      requires Rectangular(maze) && StepCostOk(stepCost)
      ensures this.maze == maze && this.start == start && this.goal == goal && this.stepCost == stepCost
      ensures State() == Initial(start, goal) && pending == None && !finished
      ensures Valid()
    {
      this.maze := maze;
      this.start := start;
      this.goal := goal;
      this.stepCost := stepCost;
      open := [Entry(0, start)];
      gScore := map[start := 0];
      fScore := map[start := OctileTwice(start, goal)];
      cameFrom := map[];
      pending := None;
      finished := false;
      closed := {};
      new;
      assert State() == Initial(start, goal);
      InitialIsValid(maze, start, goal, stepCost);
    }

    /** `process_neighbor`: relax one neighbour of `cur`. */
    method ProcessNeighbor(cur: Cell, nb: Cell)
      requires Rectangular(maze) && cur in gScore
      modifies this`open, this`gScore, this`fScore, this`cameFrom
      ensures State() == Relax(maze, goal, stepCost, old(State()), cur, nb)
      ensures old(gScore).Keys <= gScore.Keys
    {
      ghost var before := State();
      if Free(maze, nb) {
        var tentative := gScore[cur] + stepCost(cur, nb);
        if nb !in gScore || tentative < gScore[nb] {
          assert Improves(maze, stepCost, before, cur, nb);
          cameFrom := cameFrom[nb := cur];
          gScore := gScore[nb := tentative];
          fScore := fScore[nb := tentative + OctileTwice(nb, goal)];
          open := open + [Entry(fScore[nb], nb)];
        }
      }
      assert State() == Relax(maze, goal, stepCost, before, cur, nb);
    }

    /** `for dx, dy in directions: process_neighbor(...)`. */
    method ExpandNeighbors(cur: Cell)
      requires Rectangular(maze) && cur in gScore
      modifies this`open, this`gScore, this`fScore, this`cameFrom
      ensures State() == RelaxFrom(maze, goal, stepCost, old(State()), cur, 0)
    {
      ghost var before := State();
      for i := 0 to 8
        invariant Rectangular(maze) && cur in gScore
        invariant RelaxFrom(maze, goal, stepCost, State(), cur, i) == RelaxFrom(maze, goal, stepCost, before, cur, 0)
      {
        ProcessNeighbor(cur, Shift(cur, Directions[i]));
      }
    }

    /**
     * The work after `yield current` for a pending cell other than the goal:
     * its neighbours are relaxed, the invariant is kept, and it counts as
     * expanded.
     */
    method ExpandPending(cur: Cell)
      requires Valid() && pending == Some(cur) && cur != goal && !finished
      modifies this`open, this`gScore, this`fScore, this`cameFrom, this`pending, this`closed
      ensures State() == RelaxFrom(maze, goal, stepCost, old(State()), cur, 0)
      ensures closed == old(closed) + {cur} && pending.None?
      ensures Valid()
    {
      ghost var before := State();
      ghost var expanded := closed;
      ExpandNeighbors(cur);
      pending := None;
      closed := closed + {cur};
      ExpansionKeepsOk(maze, start, goal, stepCost, before, cur, expanded, State());
    }

    /**
     * One resume of the generator. Once it has returned it stays returned; a
     * resume after the goal was yielded returns without expanding it; otherwise
     * the pending cell's neighbours are relaxed and the lexicographically
     * smallest `(f, cell)` is popped and yielded, or the None triple is
     * yielded when the heap is empty, after which the generator returns.
     * The None triple comes only when no free walk leads from start to the
     * goal, and every cell yielded is reachable from start.
     */
    method Step() returns (r: StepResult)
      requires Valid()
      modifies this
      ensures Valid()
      ensures r == Exhausted ==> !Reachable(maze, start, goal)
      ensures r.Expanded? ==> Reachable(maze, start, r.cell)
      ensures old(finished) ==> r == Stopped && finished && State() == old(State())
      ensures !old(finished) && old(pending) == Some(goal) ==>
        r == Stopped && finished && State() == old(State())
      ensures !old(finished) && old(pending) != Some(goal) ==>
        var mid := AfterResume(maze, goal, stepCost, old(State()), old(pending));
        && gScore == mid.g && fScore == mid.f && cameFrom == mid.cameFrom
        && (mid.open == [] ==> r == Exhausted && finished && open == [])
        && (mid.open != [] ==>
              var k := MinIndex(mid.open);
              && r == Expanded(mid.open[k].cell)
              && open == RemoveAt(mid.open, k)
              && pending == Some(r.cell) && !finished)
    {
      if finished {
        return Stopped;
      }
      if pending == Some(goal) {
        Finish();
        return Stopped;
      }
      Resume();
      r := Pop();
    }

    /** The work after `yield current` that a resume does before the next pop. */
    method Resume()
      requires Valid() && !finished && pending != Some(goal)
      modifies this`open, this`gScore, this`fScore, this`cameFrom, this`pending, this`closed
      ensures Valid() && !finished && pending.None?
      ensures State() == AfterResume(maze, goal, stepCost, old(State()), old(pending))
    {
      if pending.Some? {
        ExpandPending(pending.value);
      }
    }

    /** The `return` after the goal was yielded: the generator stops with its containers as they are. */
    method Finish()
      requires Valid() && !finished
      modifies this`pending, this`finished
      ensures Valid() && finished && pending.None? && State() == old(State())
    {
      pending := None;
      finished := true;
    }

    /** `heappop(open_set)` and `yield current`, or the None triple on an empty heap. */
    method Pop() returns (r: StepResult)
      requires Valid() && pending.None? && !finished
      modifies this`open, this`pending, this`finished
      ensures Valid()
      ensures r == Exhausted ==> !Reachable(maze, start, goal)
      ensures r.Expanded? ==> Reachable(maze, start, r.cell)
      ensures old(open) == [] ==> r == Exhausted && finished && open == [] && pending.None?
      ensures old(open) != [] ==>
        var k := MinIndex(old(open));
        && r == Expanded(old(open)[k].cell)
        && open == RemoveAt(old(open), k)
        && pending == Some(r.cell) && !finished
    {
      if open == [] {
        ExhaustionKeepsOk(maze, start, goal, stepCost, State(), closed);
        finished := true;
        return Exhausted;
      }
      var k := MinIndex(open);
      var e := open[k];
      PopKeepsOk(maze, start, goal, stepCost, State(), k, closed);
      open := RemoveAt(open, k);
      pending := Some(e.cell);
      r := Expanded(e.cell);
    }
  }
}
