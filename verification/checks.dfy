/**
 * The pre-search endpoint checks: whether an endpoint holds an obstacle, and
 * whether a cell has no free cell among its eight neighbours.
 */
module EndpointChecks {
  import opened Wrappers
  import opened Grid

  /**
   * The scan of `is_surrounded` from offset i on: it returns False at the first
   * offset that lands in bounds on a 0 cell and True when none does.
   */
  function SurroundedFrom(m: Maze, node: Cell, i: nat): (r: bool)
    requires Rectangular(m) && i <= 8
    ensures r <==> forall j :: i <= j < 8 ==> !Free(m, Shift(node, Directions[j]))
    decreases 8 - i
  {
    if i == 8 then true
    else if Free(m, Shift(node, Directions[i])) then false
    else SurroundedFrom(m, node, i + 1)
  }

  /**
   * `is_surrounded(matrix, node)`: no adjacent cell is free. Out-of-bounds
   * neighbours count as blocked and the node's own cell is never looked at.
   */
  function IsSurrounded(m: Maze, node: Cell): (r: bool)
    requires Rectangular(m)
    ensures !r <==> exists b :: Adjacent(node, b) && Free(m, b)
  {
    ScanCoversNeighbours(m, node);
    SurroundedFrom(m, node, 0)
  }

  lemma ScanCoversNeighbours(m: Maze, node: Cell)
    requires Rectangular(m)
    ensures SurroundedFrom(m, node, 0) <==> forall b :: Adjacent(node, b) ==> !Free(m, b)
  {
    if SurroundedFrom(m, node, 0) {
      forall b | Adjacent(node, b) ensures !Free(m, b) {
        DirectionsReachNeighbours(node, b);
      }
    } else {
      var j :| 0 <= j < 8 && Free(m, Shift(node, Directions[j]));
      DirectionsReachNeighbours(node, Shift(node, Directions[j]));
    }
  }

  /** The source's cells are 0 or 1; a 1 is an obstacle. */
  predicate Holds1(v: Option<int>) {
    v == Some(1)
  }

  /**
   * `end_obstacle(maze, start, end)` / `end_is_obstacle()`: the goal cell is
   * read first, and only when it is not 1 is the start cell read. A read that
   * raises IndexError gives None.
   */
  function EndIsObstacle(m: Maze, start: Cell, end: Cell): (r: Option<bool>)
    ensures Holds1(PyRead(m, end)) ==> r == Some(true)
    ensures r == Some(true) <==> Holds1(PyRead(m, end)) || (PyRead(m, end).Some? && Holds1(PyRead(m, start)))
    ensures r == None <==> PyRead(m, end).None? || (!Holds1(PyRead(m, end)) && PyRead(m, start).None?)
    ensures Rectangular(m) && InBounds(m, start) && InBounds(m, end) ==>
      r == Some(m[end.row][end.col] == 1 || m[start.row][start.col] == 1)
  {
    match PyRead(m, end)
    case None => None
    case Some(v) =>
      if v == 1 then Some(true)
      else
        match PyRead(m, start)
        case None => None
        case Some(w) => Some(w == 1)
  }
}
