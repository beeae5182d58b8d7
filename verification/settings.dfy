/**
 * The checks of the settings dialog and its hand-drawn maze. Every text field
 * is taken already converted: `None` stands for a text that `int(...)` or
 * `float(...)` rejects with ValueError, and a point is the tuple of integers
 * its comma-separated text converts to.
 */
module Settings {
  import opened Wrappers
  import opened Grid

  const DefaultMazeSize: int := 10
  const DefaultStart: seq<int> := [0, 0]
  const DefaultEnd: seq<int> := [DefaultMazeSize - 1, DefaultMazeSize - 1]
  const DefaultHeuristic: string := "octile"

  /** `validateMazeSize`: the converted size, kept only when positive. */
  function ValidateMazeSize(text: Option<int>): (r: Option<int>)
    ensures r.Some? <==> text.Some? && text.value > 0
    ensures r.Some? ==> r.value == text.value
  {
    match text
    case None => None
    case Some(n) => if n <= 0 then None else Some(n)
  }

  /** `validateObstacleDensity`: the converted density, kept only inside [0, 1]. */
  function ValidateObstacleDensity(text: Option<real>): (r: Option<real>)
    ensures r.Some? <==> text.Some? && 0.0 <= text.value <= 1.0
    ensures r.Some? ==> r.value == text.value
  {
    match text
    case None => None
    case Some(d) => if d < 0.0 || d > 1.0 then None else Some(d)
  }

  /**
   * `0 <= p[0] < size and 0 <= p[1] < size`, evaluated the way Python does:
   * left to right, stopping at the first false comparison. `None` is an
   * exception that the dialog does not catch: an index past the end of the
   * tuple (IndexError), or a comparison with a size that failed validation
   * (TypeError, since the size is then `None`).
   */
  function PointInRange(p: seq<int>, size: Option<int>): (r: Option<bool>)
    ensures r == Some(true) <==>
      size.Some? && |p| >= 2 && 0 <= p[0] < size.value && 0 <= p[1] < size.value
    ensures r.None? <==>
      |p| == 0 || (0 <= p[0] && (size.None? || (p[0] < size.value && |p| == 1)))
  {
    if |p| == 0 then None
    else if !(0 <= p[0]) then Some(false)
    else if size.None? then None
    else if !(p[0] < size.value) then Some(false)
    else if |p| == 1 then None
    else if !(0 <= p[1]) then Some(false)
    else Some(p[1] < size.value)
  }

  /** Why `validateStartEndPoints` refuses its inputs, in the order it checks. */
  datatype Refusal = Unparsable | StartOutOfBounds | EndOutOfBounds | SamePoints

  datatype PointCheck =
    | Points(start: seq<int>, end: seq<int>) // both points accepted
    | PointRejected(why: Refusal)          // a ValueError, caught and reported
    | PointRaised                            // an exception that escapes the dialog

  /**
   * `validateStartEndPoints`: both texts are converted first; then the start
   * must lie in the grid, then the end, and finally the two must differ.
   * Each rejection names the first check that failed.
   */
  function ValidateStartEndPoints(size: Option<int>, start: Option<seq<int>>, end: Option<seq<int>>): (r: PointCheck)
    ensures r.Points? <==>
      && start.Some? && end.Some?
      && PointInRange(start.value, size) == Some(true)
      && PointInRange(end.value, size) == Some(true)
      && start.value != end.value
    ensures r.Points? ==> r.start == start.value && r.end == end.value
    ensures r == PointRejected(Unparsable) <==> start.None? || end.None?
    ensures r == PointRejected(StartOutOfBounds) <==>
      start.Some? && end.Some? && PointInRange(start.value, size) == Some(false)
    ensures r == PointRejected(EndOutOfBounds) <==>
      start.Some? && end.Some? && PointInRange(start.value, size) == Some(true)
      && PointInRange(end.value, size) == Some(false)
    ensures r == PointRejected(SamePoints) <==>
      start.Some? && end.Some? && PointInRange(start.value, size) == Some(true)
      && PointInRange(end.value, size) == Some(true) && start.value == end.value
  {
    if start.None? || end.None? then PointRejected(Unparsable)
    else match PointInRange(start.value, size)
      case None => PointRaised
      case Some(false) => PointRejected(StartOutOfBounds)
      case Some(true) =>
        match PointInRange(end.value, size)
        case None => PointRaised
        case Some(false) => PointRejected(EndOutOfBounds)
        case Some(true) =>
          if start.value == end.value then PointRejected(SamePoints)
          else Points(start.value, end.value)
  }

  /** Accepted points are two distinct cells inside a grid of the accepted size. */
  lemma AcceptedPointsFitTheGrid(size: Option<int>, start: Option<seq<int>>, end: Option<seq<int>>)
    requires ValidateStartEndPoints(ValidateMazeSize(size), start, end).Points?
    ensures size.Some? && size.value > 0
    ensures |start.value| >= 2 && |end.value| >= 2
    ensures InBounds(Zeros(size.value), Cell(start.value[0], start.value[1]))
    ensures InBounds(Zeros(size.value), Cell(end.value[0], end.value[1]))
    ensures start.value != end.value
  {
  }

  /** The dialog's default endpoints pass the point check for the default size. */
  lemma DefaultPointsAccepted()
    ensures ValidateStartEndPoints(Some(DefaultMazeSize), Some(DefaultStart), Some(DefaultEnd))
      == Points([0, 0], [9, 9])
  {
  }

  /**
   * `validateInputs` as written: a flag starts true and each failing check
   * clears it; the density is checked only for a random maze; the point
   * check is handed the validated size, `None` when the size was refused.
   */
  method ValidateInputs(size: Option<int>, randomMaze: bool, density: Option<real>,
                        start: Option<seq<int>>, end: Option<seq<int>>)
    returns (r: Option<bool>)
    ensures r.None? <==> ValidateStartEndPoints(ValidateMazeSize(size), start, end).PointRaised?
    ensures r == Some(true) <==>
      && ValidateMazeSize(size).Some?
      && (randomMaze ==> ValidateObstacleDensity(density).Some?)
      && ValidateStartEndPoints(ValidateMazeSize(size), start, end).Points?
  {
    var valid := true;
    var mazeSize := ValidateMazeSize(size);
    if mazeSize.None? {
      valid := false;
    }
    if randomMaze {
      var obstacleDensity := ValidateObstacleDensity(density);
      if obstacleDensity.None? {
        valid := false;
      }
    }
    var points := ValidateStartEndPoints(mazeSize, start, end);
    if points.PointRaised? {
      return None;
    }
    if !points.Points? {
      valid := false;
    }
    return Some(valid);
  }

  /**
   * A refused size reaches the point check as `None`, so any start point with
   * a non-negative first coordinate makes the point check, and with it
   * `validateInputs`, raise TypeError instead of reporting the bad size; for
   * instance size 0 with points 0,0 and 1,1.
   */
  lemma RefusedSizeRaises(size: Option<int>, start: Option<seq<int>>, end: Option<seq<int>>)
    requires ValidateMazeSize(size).None?
    requires start.Some? && end.Some? && |start.value| > 0 && start.value[0] >= 0
    ensures ValidateStartEndPoints(ValidateMazeSize(size), start, end) == PointRaised
  {
  }

  /**
   * `validateInputs` as intended: the points are checked only against a size
   * that passed, so it never raises and accepts exactly when every check does.
   */
  method ValidateInputsIntended(size: Option<int>, randomMaze: bool, density: Option<real>,
                                start: Option<seq<int>>, end: Option<seq<int>>)
    returns (valid: bool)
    ensures valid <==>
      && ValidateMazeSize(size).Some?
      && (randomMaze ==> ValidateObstacleDensity(density).Some?)
      && ValidateStartEndPoints(ValidateMazeSize(size), start, end).Points?
  {
    valid := true;
    var mazeSize := ValidateMazeSize(size);
    if mazeSize.None? {
      return false;
    }
    if randomMaze {
      var obstacleDensity := ValidateObstacleDensity(density);
      if obstacleDensity.None? {
        valid := false;
      }
    }
    var points := ValidateStartEndPoints(mazeSize, start, end);
    if !points.Points? {
      valid := false;
    }
  }

  /** `[[0 for _ in range(n)] for _ in range(n)]`: an n-by-n grid of free cells. */
  function Zeros(n: nat): (m: Maze)
    ensures |m| == n && forall i :: 0 <= i < n ==> |m[i]| == n
    ensures forall i, j :: 0 <= i < n && 0 <= j < n ==> m[i][j] == 0
  {
    seq(n, _ => seq(n, _ => 0))
  }

  /** A grid of n rows of n cells each. */
  predicate Square(m: Maze) {
    forall i :: 0 <= i < |m| ==> |m[i]| == |m|
  }

  /** Every cell is 0 or 1, as the dialog's toggles write them. */
  predicate Binary(m: Maze) {
    forall i, j :: 0 <= i < |m| && 0 <= j < |m[i]| ==> m[i][j] == 0 || m[i][j] == 1
  }

  /** The keys of `mazeCells`: one button per cell of an n-by-n grid. */
  function Buttons(n: nat): (b: set<Cell>)
    ensures forall c :: c in b <==> 0 <= c.row < n && 0 <= c.col < n
  {
    set r, k | 0 <= r < n && 0 <= k < n :: Cell(r, k)
  }

  /** `mazeArray[row][col] = v`. */
  function SetCell(m: Maze, row: nat, col: nat, v: int): (r: Maze)
    requires row < |m| && col < |m[row]|
    ensures |r| == |m| && forall i :: 0 <= i < |m| ==> |r[i]| == |m[i]|
    ensures r[row][col] == v
    ensures forall i, j :: 0 <= i < |m| && 0 <= j < |m[i]| && (i, j) != (row, col) ==> r[i][j] == m[i][j]
  {
    m[row := m[row][col := v]]
  }

  /**
   * Writing one cell of a square 0/1 grid keeps it square and 0/1, stores the
   * value at that cell and leaves every other cell as it was.
   */
  lemma SetCellKeepsGrid(m: Maze, row: nat, col: nat, v: int)
    requires Square(m) && Binary(m) && row < |m| && col < |m|
    requires v == 0 || v == 1
    ensures |SetCell(m, row, col, v)| == |m|
    ensures Square(SetCell(m, row, col, v)) && Binary(SetCell(m, row, col, v))
    ensures SetCell(m, row, col, v)[row][col] == v
    ensures forall i, j :: 0 <= i < |m| && 0 <= j < |m| && (i, j) != (row, col) ==>
      SetCell(m, row, col, v)[i][j] == m[i][j]
  {
  }

  /** The maze-drawing part of `SettingsMenu`. */
  class SettingsMenu {
    /** The grid drawn by hand, `self.mazeArray`. */
    var mazeArray: Maze
    /** The cells that have a toggle button, the keys of `self.mazeCells`. */
    var mazeCells: set<Cell>

    predicate Valid()
      reads this
    {
      Square(mazeArray) && Binary(mazeArray)
      && (mazeCells == {} || mazeCells == Buttons(|mazeArray|))
    }

    /** `__init__` starts with an empty grid and no buttons. */
    constructor ()
      ensures Valid() && mazeArray == [] && mazeCells == {}
    {
      mazeArray := [];
      mazeCells := {};
    }

    /**
     * `insertMaze`: drop the old buttons; a refused size warns and keeps the
     * old grid; an accepted one makes a button per cell and an all-zero grid.
     */
    method InsertMaze(size: Option<int>) returns (accepted: bool)
      requires Valid()
      modifies this
      ensures Valid()
      ensures accepted <==> size.Some? && size.value > 0
      ensures accepted ==> mazeArray == Zeros(size.value) && mazeCells == Buttons(size.value)
      ensures !accepted ==> mazeArray == old(mazeArray) && mazeCells == {}
    {
      mazeCells := {};
      if size.None? || size.value <= 0 {
        return false;
      }
      var n := size.value;
      mazeCells := Buttons(n);
      mazeArray := Zeros(n);
      return true;
    }

    /**
     * `updateMazeCell`: a toggle of a cell with a button writes 1 when checked
     * and 0 otherwise; a cell without a button raises KeyError and nothing
     * changes.
     */
    method UpdateMazeCell(row: int, col: int, checked: bool) returns (raised: bool)
      requires Valid()
      modifies this
      ensures Valid() && mazeCells == old(mazeCells)
      ensures raised <==> Cell(row, col) !in mazeCells
      ensures raised ==> mazeArray == old(mazeArray)
      ensures !raised ==>
        && 0 <= row < |mazeArray| && 0 <= col < |mazeArray|
        && mazeArray == SetCell(old(mazeArray), row, col, if checked then 1 else 0)
    {
      if Cell(row, col) !in mazeCells {
        return true;
      }
      var v := if checked then 1 else 0;
      SetCellKeepsGrid(mazeArray, row, col, v);
      mazeArray := SetCell(mazeArray, row, col, v);
      return false;
    }
  }

  /** A freshly inserted maze is an all-free grid the searches can index. */
  lemma InsertedMazeIsSearchable(n: nat, c: Cell)
    requires n > 0
    ensures Rectangular(Zeros(n)) && Square(Zeros(n)) && Binary(Zeros(n))
    ensures InBounds(Zeros(n), c) ==> Free(Zeros(n), c)
  {
  }
}
