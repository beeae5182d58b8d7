/**
 * The search-facing part of `Visualizer`: the endpoint guard of `visualize`,
 * the report order of `handle_invalid_nodes`, and the loop of
 * `astar_visualized` that consumes the steps of the application's `astar`.
 * Colours, the plot window and the message boxes are not modelled.
 */
module Visualizer {
  import opened Wrappers
  import opened Grid
  import opened Octile
  import opened PathReconstruction
  import opened EndpointChecks
  import opened HeapSearch

  /** The three messages of `handle_invalid_nodes`, in its order. */
  datatype Invalid = EndpointObstacle | StartSurrounded | GoalSurrounded

  /** What the guard of `visualize` decides. */
  datatype Guard =
    | Proceed              // run the search
    | Reject(why: Invalid) // report and run nothing
    | IndexError           // an endpoint read raised, so nothing runs

  /** Some adjacent cell is free: the endpoint is not surrounded. */
  ghost predicate HasFreeNeighbour(m: Maze, c: Cell)
    requires Rectangular(m)
  {
    exists b :: Adjacent(c, b) && Free(m, b)
  }

  /**
   * `visualize` evaluates `end_is_obstacle() or is_surrounded(start) or
   * is_surrounded(goal)` and, when it holds, `handle_invalid_nodes` reports the
   * first of the three that holds. The search runs exactly when both endpoint
   * reads succeed without finding 1 and each endpoint has a free neighbour.
   */
  function CheckEndpoints(m: Maze, start: Cell, goal: Cell): (r: Guard)
    requires Rectangular(m)
    ensures r == IndexError <==> EndIsObstacle(m, start, goal).None?
    ensures r == Reject(EndpointObstacle) <==>
      Holds1(PyRead(m, goal)) || (PyRead(m, goal).Some? && Holds1(PyRead(m, start)))
    ensures r == Reject(StartSurrounded) <==>
      EndIsObstacle(m, start, goal) == Some(false) && !HasFreeNeighbour(m, start)
    ensures r == Reject(GoalSurrounded) <==>
      EndIsObstacle(m, start, goal) == Some(false) && HasFreeNeighbour(m, start) && !HasFreeNeighbour(m, goal)
    ensures r == Proceed <==>
      && PyRead(m, goal).Some? && PyRead(m, start).Some?
      && !Holds1(PyRead(m, goal)) && !Holds1(PyRead(m, start))
      && HasFreeNeighbour(m, start) && HasFreeNeighbour(m, goal)
  {
    match EndIsObstacle(m, start, goal)
    case None => IndexError
    case Some(blocked) =>
      if blocked then Reject(EndpointObstacle)
      else if IsSurrounded(m, start) then Reject(StartSurrounded)
      else if IsSurrounded(m, goal) then Reject(GoalSurrounded)
      else Proceed
  }

  /** How a run of `astar_visualized` ends. */
  datatype Run =
    | NoPath(expanded: seq<Cell>)                   // the `None` step: "No path found"
    | PathFound(path: seq<Cell>, expanded: seq<Cell>) // the goal step and its rebuilt path
    | OutOfFuel(expanded: seq<Cell>)                // the step budget ran out first

  /**
   * `astar_visualized`: take at most `fuel` steps of the search. A `None`
   * step ends the run without a path; a step yielding any other cell than
   * the goal paints it as expanded; the goal step rebuilds the path with
   * `reconstruct_path(came_from, goal, start)` and stops taking steps.
   * The path found starts at start, ends at the goal, moves between adjacent
   * cells and crosses only free cells after start; the goal is never painted
   * as expanded; and when start is the goal the path is `[start]` at once.
   * "No path found" comes only when no free walk leads from start to the
   * goal, and a run that ran out of budget painted one cell per step.
   */
  method AstarVisualized(maze: Maze, start: Cell, goal: Cell, stepCost: (Cell, Cell) -> nat, fuel: nat)
    returns (run: Run)
    requires Rectangular(maze) && StepCostOk(stepCost)
    ensures goal !in run.expanded
    ensures run.PathFound? ==>
      var p := run.path;
      && |p| > 0 && p[0] == start && p[|p| - 1] == goal
      && IsWalk(p)
      && (forall i :: 1 <= i < |p| ==> Free(maze, p[i]))
    ensures start == goal && fuel > 0 ==> run == PathFound([start], [])
    ensures start != goal && fuel > 0 ==> |run.expanded| > 0 && run.expanded[0] == start
    ensures run.NoPath? ==> !Reachable(maze, start, goal)
    ensures run.OutOfFuel? ==> |run.expanded| == fuel
  {
    var e := new Engine(maze, start, goal, stepCost);
    if fuel == 0 {
      return OutOfFuel([]);
    }
    // Nothing is pending on the first resume, so it only pops.
    var r := e.Pop();
    assert r == Expanded(start);
    if start == goal {
      var path := ReconstructPath(e.cameFrom, goal, start, e.gScore);
      return PathFound(path, []);
    }
    run := RunSteps(e, fuel - 1, [start]);
  }

  /**
   * The rest of the loop of `astar_visualized`, after `expanded` cells were
   * painted, with at most `fuel` more steps. Each step paints one cell; the
   * run ends without a path only once the search has returned with an empty
   * heap, and a path found is the one rebuilt from the final links.
   */
  method RunSteps(e: Engine, fuel: nat, expanded: seq<Cell>) returns (run: Run)
    requires e.Valid() && !e.finished && e.pending != Some(e.goal)
    requires e.goal !in expanded && |expanded| > 0
    modifies e
    ensures |run.expanded| >= |expanded| && run.expanded[..|expanded|] == expanded
    ensures e.goal !in run.expanded
    ensures |run.expanded| <= |expanded| + fuel
    ensures run.OutOfFuel? ==> |run.expanded| == |expanded| + fuel
    ensures run.NoPath? ==> e.finished && e.open == [] && !Reachable(e.maze, e.start, e.goal)
    ensures run.PathFound? ==>
      && Ranked(e.cameFrom, e.gScore)
      && run.path == Reconstructed(e.cameFrom, e.gScore, e.goal, e.start)
    ensures run.PathFound? ==>
      var p := run.path;
      && |p| > 0 && p[0] == e.start && p[|p| - 1] == e.goal
      && IsWalk(p)
      && (forall i :: 1 <= i < |p| ==> Free(e.maze, p[i]))
  {
    var painted := expanded;
    var n := 0;
    while n < fuel
      invariant n <= fuel
      invariant e.Valid() && !e.finished && e.pending != Some(e.goal)
      invariant |painted| == |expanded| + n && painted[..|expanded|] == expanded && e.goal !in painted
      decreases fuel - n
    {
      var r := e.Step();
      if !r.Expanded? {
        return NoPath(painted);
      }
      var current := r.cell;
      if current == e.goal {
        ValidIsRanked(e.maze, e.stepCost, e.State());
        ChainIsFreeWalk(e.maze, e.start, e.goal, e.stepCost, e.State(), e.goal);
        var path := ReconstructPath(e.cameFrom, e.goal, e.start, e.gScore);
        return PathFound(path, painted);
      }
      painted := painted + [current];
      n := n + 1;
    }
    return OutOfFuel(painted);
  }

  /** What `visualize` does: report a bad endpoint, or run the search. */
  datatype Outcome =
    | Reported(why: Invalid)
    | Raised
    | Searched(run: Run)

  /**
   * `visualize`: the search runs only when the guard passes; otherwise the
   * first failing check is reported, or the IndexError of an endpoint read
   * propagates.
   */
  method Visualize(maze: Maze, start: Cell, goal: Cell, stepCost: (Cell, Cell) -> nat, fuel: nat)
    returns (o: Outcome)
    requires Rectangular(maze) && StepCostOk(stepCost)
    ensures o.Searched? <==> CheckEndpoints(maze, start, goal) == Proceed
    ensures o.Reported? <==> CheckEndpoints(maze, start, goal).Reject?
    ensures o.Reported? ==> CheckEndpoints(maze, start, goal) == Reject(o.why)
    ensures o.Searched? && o.run.NoPath? ==> !Reachable(maze, start, goal)
    ensures o.Searched? && o.run.PathFound? ==>
      var p := o.run.path;
      && |p| > 0 && p[0] == start && p[|p| - 1] == goal && IsWalk(p)
      && (forall i :: 1 <= i < |p| ==> Free(maze, p[i]))
  {
    var guard := CheckEndpoints(maze, start, goal);
    match guard
    case IndexError => o := Raised;
    case Reject(why) => o := Reported(why);
    case Proceed =>
      var run := AstarVisualized(maze, start, goal, stepCost, fuel);
      o := Searched(run);
  }
}
