/**
 * The occupancy grid shared by every search in the repository: a list of rows
 * of integers, 0 for a free cell and 1 for an obstacle, addressed by
 * (row, col) tuples.
 */
module Grid {
  import opened Wrappers

  /** A cell coordinate: the `(row, col)` tuple of the source. */
  datatype Cell = Cell(row: int, col: int)

  /** `matrix[row][col]`; 0 is traversable. */
  type Maze = seq<seq<int>>

  /**
   * A grid the searches can index: it has a first row (the source reads
   * `len(matrix[0])`) and every row is as long as that one.
   */
  predicate Rectangular(m: Maze) {
    |m| > 0 && forall i :: 0 <= i < |m| ==> |m[i]| == |m[0]|
  }

  /** `0 <= row < len(matrix) and 0 <= col < len(matrix[0])`. */
  predicate InBounds(m: Maze, c: Cell) {
    0 <= c.row < |m| && 0 <= c.col < |m[0]|
  }

  /** In bounds and holding 0: a cell the searches may enter. */
  predicate Free(m: Maze, c: Cell)
    requires Rectangular(m)
  {
    InBounds(m, c) && m[c.row][c.col] == 0
  }

  /** The eight offsets, in the order the heap and queue searches visit them. */
  const Directions: seq<(int, int)> :=
    [(1, 0), (-1, 0), (0, 1), (0, -1), (1, 1), (-1, -1), (1, -1), (-1, 1)]

  function Shift(c: Cell, d: (int, int)): Cell {
    Cell(c.row + d.0, c.col + d.1)
  }

  /** Two distinct cells that touch orthogonally or diagonally. */
  predicate Adjacent(a: Cell, b: Cell) {
    a != b && -1 <= a.row - b.row <= 1 && -1 <= a.col - b.col <= 1
  }

  /** A diagonal move changes both coordinates. */
  predicate Diagonal(a: Cell, b: Cell) {
    a.row != b.row && a.col != b.col
  }

  /** The eight offsets reach exactly the adjacent cells. */
  lemma DirectionsReachNeighbours(a: Cell, b: Cell)
    ensures Adjacent(a, b) <==> exists i :: 0 <= i < 8 && Shift(a, Directions[i]) == b
  {
    if Adjacent(a, b) {
      var dr, dc := b.row - a.row, b.col - a.col;
      var i := if (dr, dc) == (1, 0) then 0 else if (dr, dc) == (-1, 0) then 1
               else if (dr, dc) == (0, 1) then 2 else if (dr, dc) == (0, -1) then 3
               else if (dr, dc) == (1, 1) then 4 else if (dr, dc) == (-1, -1) then 5
               else if (dr, dc) == (1, -1) then 6 else 7;
      assert Shift(a, Directions[i]) == b;
    }
  }

  /** Each offset moves to an adjacent cell. */
  lemma ShiftIsAdjacent(a: Cell, i: int)
    requires 0 <= i < 8
    ensures Adjacent(a, Shift(a, Directions[i]))
  {
  }

  /**
   * Python list indexing: a non-negative index below the length, or a
   * negative one counted from the end; anything else raises IndexError (None).
   */
  function PyIndex(n: nat, i: int): (k: Option<nat>)
    ensures k.Some? <==> -(n as int) <= i < n
    ensures k.Some? ==> k.value < n && (k.value == i || k.value == n + i)
  {
    if 0 <= i < n then Some(i) else if -(n as int) <= i < 0 then Some(n + i) else None
  }

  /** `maze[c[0]][c[1]]` with Python's indexing; None when it raises. */
  function PyRead(m: Maze, c: Cell): (v: Option<int>)
    ensures Rectangular(m) && InBounds(m, c) ==> v == Some(m[c.row][c.col])
  {
    match PyIndex(|m|, c.row)
    case None => None
    case Some(r) =>
      match PyIndex(|m[r]|, c.col)
      case None => None
      case Some(k) => Some(m[r][k])
  }
}
