/**
 * The older list-based A* with `Node` parent links. The open list is
 * scanned for the first node of least f; every walkable neighbour of the
 * expanded node becomes a new child with g one more than its parent and h the
 * squared Euclidean distance to the end, and is appended without any
 * duplicate check (the closed-list and open-list loops only `continue` their
 * own iteration). An exhausted open list ends in an error, since `path` was
 * never assigned.
 */
module ListSearch {
  import opened Wrappers
  import opened Grid
  import opened PathReconstruction

  /**
   * A search node. Equality of nodes in the source compares positions only;
   * the model compares `position` fields where the source writes `==`.
   */
  datatype Node = Node(parent: Option<Node>, position: Cell, g: int, h: int, f: int)

  /** The eight offsets in the order this search generates children. */
  const ListOffsets: seq<(int, int)> :=
    [(0, -1), (0, 1), (-1, 0), (1, 0), (-1, -1), (-1, 1), (1, -1), (1, 1)]

  /** Inside the row count and the length of the last row, as the range test reads them. */
  predicate InRange(maze: Maze, c: Cell) {
    |maze| > 0 && 0 <= c.row <= |maze| - 1 && 0 <= c.col <= |maze[|maze| - 1]| - 1
  }

  /** In range, readable without an IndexError, and 0. */
  predicate Walkable(maze: Maze, c: Cell) {
    InRange(maze, c) && c.col < |maze[c.row]| && maze[c.row][c.col] == 0
  }

  /** In range, readable, and not 0: recorded as an obstacle. */
  predicate Blocked(maze: Maze, c: Cell) {
    InRange(maze, c) && c.col < |maze[c.row]| && maze[c.row][c.col] != 0
  }

  /** `(dx ** 2) + (dy ** 2)`. */
  function SqDist(a: Cell, b: Cell): (d: nat)
    ensures d == 0 <==> a == b
  {
    (a.row - b.row) * (a.row - b.row) + (a.col - b.col) * (a.col - b.col)
  }

  /** The neighbour scan: walkable children and obstacles in offset order, or an IndexError. */
  datatype Scan = Scanned(walkable: seq<Cell>, blocked: seq<Cell>) | ScanCrash

  /** In range, but past the end of its own row: reading it raises IndexError. */
  predicate Unreadable(maze: Maze, c: Cell) {
    InRange(maze, c) && c.col >= |maze[c.row]|
  }

  /** The scan after the first n offsets: in range cells are kept as children or obstacles, in offset order. */
  function ScanUpTo(maze: Maze, p: Cell, n: nat): Scan
    requires n <= 8
  {
    if n == 0 then Scanned([], [])
    else
      match ScanUpTo(maze, p, n - 1)
      case ScanCrash => ScanCrash
      case Scanned(w, b) =>
        var c := Shift(p, ListOffsets[n - 1]);
        if !InRange(maze, c) then Scanned(w, b)
        else if c.col >= |maze[c.row]| then ScanCrash
        else if maze[c.row][c.col] != 0 then Scanned(w, b + [c])
        else Scanned(w + [c], b)
  }

  /**
   * The scan after the first n offsets raises exactly when one of those
   * offsets lands in range on a cell its row is too short to hold, and
   * otherwise keeps at most one cell per offset.
   */
  lemma {:induction false} ScanCrashes(maze: Maze, p: Cell, n: nat)
    requires n <= 8
    ensures var r := ScanUpTo(maze, p, n);
      && (r.ScanCrash? <==> exists i :: 0 <= i < n && Unreadable(maze, Shift(p, ListOffsets[i])))
      && (r.Scanned? ==> |r.walkable| + |r.blocked| <= n)
  {
    if n > 0 {
      ScanCrashes(maze, p, n - 1);
      if Unreadable(maze, Shift(p, ListOffsets[n - 1])) {
        assert 0 <= n - 1 < n;
      }
    }
  }

  /** A crash ends the whole scan. */
  lemma {:induction false} CrashPersists(maze: Maze, p: Cell, i: nat, n: nat)
    requires i <= n <= 8 && ScanUpTo(maze, p, i).ScanCrash?
    ensures ScanUpTo(maze, p, n).ScanCrash?
    decreases n - i
  {
    if i < n {
      CrashPersists(maze, p, i, n - 1);
    }
  }

  /**
   * Every child found is an adjacent walkable cell, every obstacle an adjacent
   * blocked one, and every adjacent walkable cell reached by the first n
   * offsets is among the children.
   */
  lemma {:induction false} ScanSound(maze: Maze, p: Cell, n: nat)
    requires n <= 8 && ScanUpTo(maze, p, n).Scanned?
    ensures var s := ScanUpTo(maze, p, n);
      && (forall c :: c in s.walkable ==> Adjacent(p, c) && Walkable(maze, c))
      && (forall c :: c in s.blocked ==> Adjacent(p, c) && Blocked(maze, c))
      && (forall i :: 0 <= i < n && Walkable(maze, Shift(p, ListOffsets[i])) ==>
            Shift(p, ListOffsets[i]) in s.walkable)
  {
    if n > 0 {
      ScanSound(maze, p, n - 1);
      var c := Shift(p, ListOffsets[n - 1]);
      assert Adjacent(p, c);
    }
  }

  /** The child loop of `astar`: the neighbours in order, checked for range and walkability. */
  method ScanNeighbours(maze: Maze, p: Cell) returns (s: Scan)
    ensures s == ScanUpTo(maze, p, 8)
  {
    var walkable: seq<Cell> := [];
    var blocked: seq<Cell> := [];
    for i := 0 to 8
      invariant ScanUpTo(maze, p, i) == Scanned(walkable, blocked)
    {
      var c := Shift(p, ListOffsets[i]);
      if c.row > |maze| - 1 || c.row < 0 || c.col > |maze[|maze| - 1]| - 1 || c.col < 0 {
        continue;
      }
      if c.col >= |maze[c.row]| {
        CrashPersists(maze, p, i + 1, 8);
        return ScanCrash;
      }
      if maze[c.row][c.col] != 0 {
        blocked := blocked + [c];
        continue;
      }
      walkable := walkable + [c];
    }
    s := Scanned(walkable, blocked);
  }

  /** `Node(current_node, position)` with g, h and f filled in. */
  function MakeChild(parent: Node, c: Cell, end: Cell): (n: Node)
    ensures n.parent == Some(parent) && n.position == c
    ensures n.g == parent.g + 1 && n.f == n.g + SqDist(c, end)
  {
    var g := parent.g + 1;
    var h := SqDist(c, end);
    Node(Some(parent), c, g, h, g + h)
  }

  /** The open list with one child per walkable cell appended, in order. */
  function Enqueue(open: seq<Node>, parent: Node, cells: seq<Cell>, end: Cell): seq<Node>
  {
    if cells == [] then open else Enqueue(open, parent, cells[..|cells| - 1], end) + [MakeChild(parent, cells[|cells| - 1], end)]
  }

  /**
   * Every node of the open list stays where it was, and after them the i-th
   * child is made from the i-th walkable cell.
   */
  lemma {:induction false} EnqueueAt(open: seq<Node>, parent: Node, cells: seq<Cell>, end: Cell)
    ensures var r := Enqueue(open, parent, cells, end);
      && |r| == |open| + |cells|
      && (forall i :: 0 <= i < |open| ==> r[i] == open[i])
      && (forall i :: |open| <= i < |r| ==> r[i] == MakeChild(parent, cells[i - |open|], end))
  {
    if cells != [] {
      EnqueueAt(open, parent, cells[..|cells| - 1], end);
    }
  }

  /** Appending children keeps the position of every node already in the open list. */
  lemma EnqueueKeepsPositions(open: seq<Node>, parent: Node, cells: seq<Cell>, end: Cell)
    ensures Positions(open) <= Positions(Enqueue(open, parent, cells, end))
  {
    var r := Enqueue(open, parent, cells, end);
    EnqueueAt(open, parent, cells, end);
    forall c | c in Positions(open) ensures c in Positions(r) {
      var x :| x in open && x.position == c;
      var i :| 0 <= i < |open| && open[i] == x;
      assert r[i] in r;
    }
  }

  /**
   * The loop over `children`: each gets g, h and f and is appended to the
   * open list, in order, whatever the open and closed lists hold.
   */
  method AppendChildren(open: seq<Node>, parent: Node, cells: seq<Cell>, end: Cell) returns (r: seq<Node>)
    ensures r == Enqueue(open, parent, cells, end)
  {
    r := open;
    for j := 0 to |cells|
      invariant r == Enqueue(open, parent, cells[..j], end)
    {
      assert cells[..j + 1][..j] == cells[..j];
      r := r + [MakeChild(parent, cells[j], end)];
    }
    assert cells[..|cells|] == cells;
  }

  /**
   * A node built by the search: f is g plus h; the root sits on start with
   * g, h and f all 0; every other node is a walkable cell adjacent to its
   * parent's, with g one more than its parent and h the squared distance to
   * the end.
   */
  predicate WellFormed(maze: Maze, start: Cell, end: Cell, n: Node)
    decreases n
  {
    && n.f == n.g + n.h
    && match n.parent
       case None => n.position == start && n.g == 0 && n.h == 0
       case Some(p) =>
         && Adjacent(p.position, n.position) && Walkable(maze, n.position)
         && n.g == p.g + 1 && n.h == SqDist(n.position, end)
         && WellFormed(maze, start, end, p)
  }

  /** The positions met walking up the parent links, the node's own first. */
  function Chain(n: Node): seq<Cell>
    decreases n
  {
    match n.parent
    case None => [n.position]
    case Some(p) => [n.position] + Chain(p)
  }

  /**
   * The chain of a well-formed node has g + 1 positions, starts at the node
   * and ends at start, each position's successor is the adjacent cell it was
   * generated from, and every position but the last is walkable.
   */
  lemma {:induction false} ChainShape(maze: Maze, start: Cell, end: Cell, n: Node)
    requires WellFormed(maze, start, end, n)
    ensures var ch := Chain(n);
      && |ch| == n.g + 1 && ch[0] == n.position && ch[|ch| - 1] == start
      && (forall i :: 0 <= i < |ch| - 1 ==> Adjacent(ch[i + 1], ch[i]) && Walkable(maze, ch[i]))
    decreases n
  {
    match n.parent
    case None =>
    case Some(p) =>
      ChainShape(maze, start, end, p);
      var ch := Chain(n);
      assert ch == [n.position] + Chain(p);
      forall i | 0 <= i < |ch| - 1 ensures Adjacent(ch[i + 1], ch[i]) && Walkable(maze, ch[i]) {
        if i > 0 {
          assert ch[i] == Chain(p)[i - 1] && ch[i + 1] == Chain(p)[i];
        }
      }
  }

  /** The positions along the parent links, then `path[::-1]`. */
  method NodePath(n: Node) returns (path: seq<Cell>)
    ensures path == Reverse(Chain(n))
  {
    var walked: seq<Cell> := [];
    var current: Option<Node> := Some(n);
    while current.Some?
      invariant current.Some? ==> walked + Chain(current.value) == Chain(n)
      invariant current.None? ==> walked == Chain(n)
      decreases current
    {
      var node := current.value;
      walked := walked + [node.position];
      current := node.parent;
    }
    path := Reverse(walked);
  }

  /** A path from start to end between adjacent cells, through walkable cells after start. */
  predicate WalkablePath(maze: Maze, start: Cell, end: Cell, path: seq<Cell>) {
    && |path| > 0 && path[0] == start && path[|path| - 1] == end
    && (forall i :: 0 <= i < |path| - 1 ==> Adjacent(path[i], path[i + 1]))
    && (forall i :: 1 <= i < |path| ==> Walkable(maze, path[i]))
  }

  /**
   * The path handed back for a well-formed node: from start to the node,
   * one step per unit of g, between adjacent cells, through walkable cells
   * after start.
   */
  lemma PathShape(maze: Maze, start: Cell, end: Cell, n: Node)
    requires WellFormed(maze, start, end, n)
    ensures var path := Reverse(Chain(n));
      |path| == n.g + 1 && WalkablePath(maze, start, n.position, path)
  {
    ChainShape(maze, start, end, n);
    var ch := Chain(n);
    var path := Reverse(ch);
    var last := |ch| - 1;
    forall i | 0 <= i < |path| - 1 ensures Adjacent(path[i], path[i + 1]) {
      var j := last - 1 - i;
      assert 0 <= j < last && path[i] == ch[j + 1] && path[i + 1] == ch[j];
    }
    forall i | 1 <= i < |path| ensures Walkable(maze, path[i]) {
      var j := last - i;
      assert 0 <= j < last && path[i] == ch[j];
    }
  }

  /**
   * The index of the first node of least f: no node has a smaller f, and
   * every node before it has a strictly larger one.
   */
  function FirstLeast(open: seq<Node>): (k: nat)
    requires |open| > 0
    ensures k < |open|
  {
    if |open| == 1 then 0
    else
      var k := FirstLeast(open[..|open| - 1]);
      if open[|open| - 1].f < open[k].f then |open| - 1 else k
  }

  /** No node has a smaller f than the selected one, and every node before it has a strictly larger one. */
  lemma {:induction false} FirstLeastIsLeast(open: seq<Node>)
    requires |open| > 0
    ensures var k := FirstLeast(open);
      (forall j :: 0 <= j < |open| ==> open[k].f <= open[j].f) &&
      (forall j :: 0 <= j < k ==> open[k].f < open[j].f)
  {
    if |open| > 1 {
      var front := open[..|open| - 1];
      FirstLeastIsLeast(front);
      assert forall j :: 0 <= j < |front| ==> front[j] == open[j];
    }
  }

  /**
   * The selection scan: start at index 0 and move to a later node only when
   * its f is strictly smaller. The result is the first node of least f.
   */
  method SelectMin(open: seq<Node>) returns (index: nat)
    requires |open| > 0
    ensures index == FirstLeast(open)
  {
    index := 0;
    var i := 0;
    while i < |open|
      invariant 0 <= i <= |open| && index < |open| && index <= i
      invariant forall j :: 0 <= j < i ==> open[index].f <= open[j].f
      invariant forall j :: 0 <= j < index ==> open[index].f < open[j].f
    {
      if open[i].f < open[index].f {
        index := i;
      }
      i := i + 1;
    }
    var k := FirstLeast(open);
    FirstLeastIsLeast(open);
    assert !(k < index) && !(index < k);
  }

  /**
   * `open_list.pop(current_index)`: the first node of least f leaves the open
   * list and every other node stays, in order.
   */
  method PopCurrent(open: seq<Node>) returns (current: Node, rest: seq<Node>)
    requires |open| > 0
    ensures current in open
    ensures forall x :: x in open ==> current.f <= x.f
    ensures var k := FirstLeast(open);
      current == open[k] && rest == open[..k] + open[k + 1..]
    ensures multiset(rest) + multiset{current} == multiset(open)
    ensures forall x :: x in rest ==> x in open
  {
    var index := SelectMin(open);
    FirstLeastIsLeast(open);
    current := open[index];
    rest := open[..index] + open[index + 1..];
    assert open == open[..index] + [current] + open[index + 1..];
  }

  /** Children made from adjacent walkable cells of a well-formed node are well-formed. */
  lemma ChildrenWellFormed(maze: Maze, start: Cell, end: Cell, open: seq<Node>, parent: Node, cells: seq<Cell>)
    requires forall x :: x in open ==> WellFormed(maze, start, end, x)
    requires WellFormed(maze, start, end, parent)
    requires forall c :: c in cells ==> Adjacent(parent.position, c) && Walkable(maze, c)
    ensures forall x :: x in Enqueue(open, parent, cells, end) ==> WellFormed(maze, start, end, x)
  {
    var r := Enqueue(open, parent, cells, end);
    EnqueueAt(open, parent, cells, end);
    forall x | x in r ensures WellFormed(maze, start, end, x) {
      var i :| 0 <= i < |r| && r[i] == x;
      if i >= |open| {
        assert cells[i - |open|] in cells;
      }
    }
  }

  /** The goal branch: walk the parent links and reverse. */
  method GoalPath(maze: Maze, start: Cell, end: Cell, current: Node) returns (path: seq<Cell>)
    requires WellFormed(maze, start, end, current) && current.position == end
    ensures WalkablePath(maze, start, end, path)
    ensures current.parent.None? ==> path == [start]
    ensures path == Reverse(Chain(current))
  {
    PathShape(maze, start, end, current);
    path := NodePath(current);
    if current.parent.None? {
      assert Chain(current) == [current.position];
    }
  }

  /**
   * One expansion: scan the neighbours of `current`, record the obstacles
   * and append a child per walkable neighbour; `None` when the scan raises.
   */
  method Expand(maze: Maze, start: Cell, end: Cell, open: seq<Node>, current: Node)
    returns (r: Option<(seq<Node>, seq<Cell>)>)
    requires forall x :: x in open ==> WellFormed(maze, start, end, x)
    requires WellFormed(maze, start, end, current)
    ensures r.None? <==> ScanUpTo(maze, current.position, 8).ScanCrash?
    ensures r.Some? ==>
      var s := ScanUpTo(maze, current.position, 8);
      && r.value.0 == Enqueue(open, current, s.walkable, end)
      && r.value.1 == s.blocked
    ensures r.Some? ==> forall x :: x in r.value.0 ==> WellFormed(maze, start, end, x)
    ensures r.Some? ==> forall c :: c in r.value.1 ==> Blocked(maze, c)
  {
    var scan := ScanNeighbours(maze, current.position);
    if scan.ScanCrash? {
      return None;
    }
    ScanSound(maze, current.position, 8);
    ChildrenWellFormed(maze, start, end, open, current, scan.walkable);
    var next := AppendChildren(open, current, scan.walkable, end);
    return Some((next, scan.blocked));
  }

  /** How `astar(maze, start, end)` ends. */
  datatype ListOutcome =
    | Found(path: seq<Cell>, expanded: seq<Cell>, obstacles: seq<Cell>) // the returned triple
    | NoPathError(expanded: seq<Cell>, obstacles: seq<Cell>)           // the unassigned `path` is read
    | IndexError                                                      // a neighbour read past a short row
    | OutOfFuel(expanded: seq<Cell>, obstacles: seq<Cell>)             // the iteration budget ran out

  /** The lists the main loop carries: `open_list`, `expanded_nodes` and `obstacles`. */
  datatype ListState = ListState(open: seq<Node>, expanded: seq<Cell>, obstacles: seq<Cell>)

  /** What one iteration of the main loop does: end the search, or go on with new lists. */
  datatype Iter = Done(outcome: ListOutcome) | Continue(next: ListState)

  /** The lists before the first iteration: the start node alone, nothing expanded, no obstacles. */
  function StartState(start: Cell): ListState {
    ListState([Node(None, start, 0, 0, 0)], [], [])
  }

  /**
   * One iteration of the main loop on a non-empty open list: the first node
   * of least f is popped and its position recorded as expanded; the end
   * returns the reversed parent chain; an IndexError in the scan ends the
   * search; any other node has its children appended and its obstacles
   * recorded. An iteration that goes on has expanded a node other than end.
   */
  function Iteration(maze: Maze, end: Cell, s: ListState): Iter
    requires s.open != []
  {
    var k := FirstLeast(s.open);
    var current := s.open[k];
    if current.position == end then Done(Found(Reverse(Chain(current)), s.expanded + [end], s.obstacles))
    else
      match ScanUpTo(maze, current.position, 8)
      case ScanCrash => Done(IndexError)
      case Scanned(w, b) =>
        Continue(ListState(Enqueue(s.open[..k] + s.open[k + 1..], current, w, end), s.expanded + [current.position], s.obstacles + b))
  }

  /**
   * The main loop of `astar` from the given lists, with at most `fuel` more
   * iterations: an empty open list ends in the error, and otherwise one
   * iteration runs. Each iteration records one expanded cell, and end is
   * never recorded by a run that ends without a path.
   */
  function ListRun(maze: Maze, end: Cell, s: ListState, fuel: nat): ListOutcome
    decreases fuel
  {
    if s.open == [] then NoPathError(s.expanded, s.obstacles)
    else if fuel == 0 then OutOfFuel(s.expanded, s.obstacles)
    else
      match Iteration(maze, end, s)
      case Done(o) => o
      case Continue(next) => ListRun(maze, end, next, fuel - 1)
  }

  /**
   * An iteration that goes on has expanded a node other than end; one that
   * ends does so with the returned triple, after expanding end, or with the
   * IndexError.
   */
  /** An iteration that goes on records exactly one more expanded cell. */
  lemma IterationGrows(maze: Maze, end: Cell, s: ListState)
    requires s.open != []
    ensures var it := Iteration(maze, end, s); it.Continue? ==> |it.next.expanded| == |s.expanded| + 1
  {
  }

  /** An iteration that goes on does not record end. */
  lemma IterationSkipsEnd(maze: Maze, end: Cell, s: ListState)
    requires s.open != []
    ensures var it := Iteration(maze, end, s); it.Continue? && end !in s.expanded ==> end !in it.next.expanded
  {
  }

  lemma IterationShape(maze: Maze, end: Cell, s: ListState)
    requires s.open != []
    ensures var current := s.open[FirstLeast(s.open)]; var it := Iteration(maze, end, s);
      && (it.Continue? ==> current.position != end && it.next.expanded == s.expanded + [current.position])
      && (it.Done? ==> it.outcome.Found? || it.outcome.IndexError?)
      && (it.Done? && it.outcome.Found? ==> current.position == end && it.outcome.expanded == s.expanded + [end])
  {
  }

  /** An iteration that pops end returns the reversed parent chain. */
  lemma IterationFinds(maze: Maze, end: Cell, s: ListState, current: Node)
    requires s.open != [] && current == s.open[FirstLeast(s.open)] && current.position == end
    ensures Iteration(maze, end, s) == Done(Found(Reverse(Chain(current)), s.expanded + [current.position], s.obstacles))
  {
  }

  /** An iteration whose neighbour scan raises ends in the IndexError. */
  lemma IterationRaises(maze: Maze, end: Cell, s: ListState, current: Node)
    requires s.open != [] && current == s.open[FirstLeast(s.open)] && current.position != end
    requires ScanUpTo(maze, current.position, 8).ScanCrash?
    ensures Iteration(maze, end, s) == Done(IndexError)
  {
  }

  /** An iteration that expands a node other than end goes on with its children appended. */
  lemma IterationExpands(maze: Maze, end: Cell, s: ListState, current: Node, open': seq<Node>, obstacles': seq<Cell>)
    requires s.open != [] && current == s.open[FirstLeast(s.open)] && current.position != end
    requires var k := FirstLeast(s.open); var scan := ScanUpTo(maze, current.position, 8);
      && scan.Scanned?
      && open' == Enqueue(s.open[..k] + s.open[k + 1..], current, scan.walkable, end)
      && obstacles' == s.obstacles + scan.blocked
    ensures Iteration(maze, end, s) == Continue(ListState(open', s.expanded + [current.position], obstacles'))
  {
  }

  /** An empty open list ends in the error, and a spent budget stops the loop. */
  lemma ListRunEnds(maze: Maze, end: Cell, s: ListState, fuel: nat)
    ensures s.open == [] ==> ListRun(maze, end, s, fuel) == NoPathError(s.expanded, s.obstacles)
    ensures s.open != [] && fuel == 0 ==> ListRun(maze, end, s, fuel) == OutOfFuel(s.expanded, s.obstacles)
  {
  }

  /** With budget left and a non-empty open list, the main loop runs one iteration. */
  lemma ListRunStep(maze: Maze, end: Cell, s: ListState, fuel: nat)
    requires s.open != [] && fuel > 0
    ensures var it := Iteration(maze, end, s);
      ListRun(maze, end, s, fuel) == if it.Done? then it.outcome else ListRun(maze, end, it.next, fuel - 1)
  {
  }

  /** Each iteration records one expanded cell, so a run without a path records at most fuel more cells. */
  lemma {:induction false} ListRunShort(maze: Maze, end: Cell, s: ListState, fuel: nat)
    ensures var o := ListRun(maze, end, s, fuel);
      o.NoPathError? ==> |o.expanded| <= |s.expanded| + fuel
    decreases fuel
  {
    ListRunEnds(maze, end, s, fuel);
    if s.open != [] && fuel > 0 {
      ListRunStep(maze, end, s, fuel);
      var it := Iteration(maze, end, s);
      if it.Continue? {
        IterationGrows(maze, end, s);
        ListRunShort(maze, end, it.next, fuel - 1);
      } else {
        IterationShape(maze, end, s);
      }
    }
  }

  /** A run that uses up its budget records exactly fuel more cells. */
  lemma {:induction false} ListRunFull(maze: Maze, end: Cell, s: ListState, fuel: nat)
    ensures var o := ListRun(maze, end, s, fuel);
      o.OutOfFuel? ==> |o.expanded| == |s.expanded| + fuel
    decreases fuel
  {
    ListRunEnds(maze, end, s, fuel);
    if s.open != [] && fuel > 0 {
      ListRunStep(maze, end, s, fuel);
      var it := Iteration(maze, end, s);
      if it.Continue? {
        IterationGrows(maze, end, s);
        ListRunFull(maze, end, it.next, fuel - 1);
      } else {
        IterationShape(maze, end, s);
      }
    }
  }

  /** A run that ends without a path never records end. */
  lemma {:induction false} ListRunMissesEnd(maze: Maze, end: Cell, s: ListState, fuel: nat)
    ensures var o := ListRun(maze, end, s, fuel);
      end !in s.expanded && (o.NoPathError? || o.OutOfFuel?) ==> end !in o.expanded
    decreases fuel
  {
    ListRunEnds(maze, end, s, fuel);
    if s.open != [] && fuel > 0 {
      ListRunStep(maze, end, s, fuel);
      var it := Iteration(maze, end, s);
      if it.Continue? {
        IterationSkipsEnd(maze, end, s);
        ListRunMissesEnd(maze, end, it.next, fuel - 1);
      } else {
        IterationShape(maze, end, s);
      }
    }
  }

  /** A run that finds a path records end last. */
  lemma {:induction false} ListRunEndsAtEnd(maze: Maze, end: Cell, s: ListState, fuel: nat)
    ensures var o := ListRun(maze, end, s, fuel);
      o.Found? ==> |o.expanded| > 0 && o.expanded[|o.expanded| - 1] == end
    decreases fuel
  {
    ListRunEnds(maze, end, s, fuel);
    if s.open != [] && fuel > 0 {
      ListRunStep(maze, end, s, fuel);
      IterationShape(maze, end, s);
      var it := Iteration(maze, end, s);
      if it.Continue? {
        ListRunEndsAtEnd(maze, end, it.next, fuel - 1);
      }
    }
  }

  /**
   * From an open list of well-formed nodes, an iteration that goes on leaves
   * one, and a path it returns is a walkable path from start to end.
   */
  lemma IterationKeepsWellFormed(maze: Maze, start: Cell, end: Cell, s: ListState)
    requires s.open != [] && forall x :: x in s.open ==> WellFormed(maze, start, end, x)
    ensures var it := Iteration(maze, end, s);
      && (it.Continue? ==> forall x :: x in it.next.open ==> WellFormed(maze, start, end, x))
      && (it.Done? && it.outcome.Found? ==> WalkablePath(maze, start, end, it.outcome.path))
  {
    var k := FirstLeast(s.open);
    var current := s.open[k];
    if current.position == end {
      PathShape(maze, start, end, current);
    } else if ScanUpTo(maze, current.position, 8).Scanned? {
      var rest := s.open[..k] + s.open[k + 1..];
      ScanSound(maze, current.position, 8);
      assert forall x :: x in rest ==> x in s.open by {
        assert s.open == s.open[..k] + [current] + s.open[k + 1..];
      }
      ChildrenWellFormed(maze, start, end, rest, current, ScanUpTo(maze, current.position, 8).walkable);
    }
  }

  /** An iteration that goes on records only in-range non-zero cells as obstacles. */
  lemma IterationKeepsObstacles(maze: Maze, end: Cell, s: ListState)
    requires s.open != [] && forall c :: c in s.obstacles ==> Blocked(maze, c)
    ensures var it := Iteration(maze, end, s);
      it.Continue? ==> forall c :: c in it.next.obstacles ==> Blocked(maze, c)
  {
    var current := s.open[FirstLeast(s.open)];
    if current.position != end && ScanUpTo(maze, current.position, 8).Scanned? {
      ScanSound(maze, current.position, 8);
    }
  }

  /** From an open list of well-formed nodes, a path the main loop returns is a walkable path. */
  lemma {:induction false} ListRunFound(maze: Maze, start: Cell, end: Cell, s: ListState, fuel: nat)
    requires forall x :: x in s.open ==> WellFormed(maze, start, end, x)
    ensures var o := ListRun(maze, end, s, fuel);
      o.Found? ==> WalkablePath(maze, start, end, o.path)
    decreases fuel
  {
    ListRunEnds(maze, end, s, fuel);
    if s.open != [] && fuel > 0 {
      ListRunStep(maze, end, s, fuel);
      IterationKeepsWellFormed(maze, start, end, s);
      var it := Iteration(maze, end, s);
      if it.Continue? {
        ListRunFound(maze, start, end, it.next, fuel - 1);
      }
    }
  }

  /** Unless a read raised, every obstacle the main loop records is a real one. */
  lemma {:induction false} ListRunObstacles(maze: Maze, end: Cell, s: ListState, fuel: nat)
    requires forall c :: c in s.obstacles ==> Blocked(maze, c)
    ensures var o := ListRun(maze, end, s, fuel);
      !o.IndexError? ==> forall c :: c in o.obstacles ==> Blocked(maze, c)
    decreases fuel
  {
    ListRunEnds(maze, end, s, fuel);
    if s.open != [] && fuel > 0 {
      ListRunStep(maze, end, s, fuel);
      IterationKeepsObstacles(maze, end, s);
      var it := Iteration(maze, end, s);
      if it.Continue? {
        ListRunObstacles(maze, end, it.next, fuel - 1);
      }
    }
  }

  /** Unless a read raised, the cells expanded before the main loop resumes stay a prefix. */
  lemma {:induction false} ListRunPrefix(maze: Maze, end: Cell, s: ListState, fuel: nat)
    ensures var o := ListRun(maze, end, s, fuel);
      !o.IndexError? ==> |o.expanded| >= |s.expanded| && o.expanded[..|s.expanded|] == s.expanded
    decreases fuel
  {
    ListRunEnds(maze, end, s, fuel);
    if s.open != [] && fuel > 0 {
      IterationShape(maze, end, s);
      ListRunStep(maze, end, s, fuel);
      var it := Iteration(maze, end, s);
      var o := ListRun(maze, end, s, fuel);
      if it.Continue? {
        ListRunPrefix(maze, end, it.next, fuel - 1);
      }
      if !o.IndexError? {
        ExtendedPicks(o.expanded, s.expanded, s.open[FirstLeast(s.open)].position);
      }
    }
  }

  /** Unless a read raised, an iteration that runs records the node the selection scan picks. */
  lemma ListRunPicks(maze: Maze, end: Cell, s: ListState, fuel: nat)
    requires s.open != [] && fuel > 0
    ensures var o := ListRun(maze, end, s, fuel);
      !o.IndexError? ==> |o.expanded| > |s.expanded| && o.expanded[|s.expanded|] == s.open[FirstLeast(s.open)].position
  {
    IterationShape(maze, end, s);
    var it := Iteration(maze, end, s);
    var o := ListRun(maze, end, s, fuel);
    var picked := s.open[FirstLeast(s.open)].position;
    if it.Continue? {
      ListRunPrefix(maze, end, it.next, fuel - 1);
      if !o.IndexError? {
        ExtendedPicks(o.expanded, s.expanded, picked);
      }
    } else if o.Found? {
      ExtendedPicks(o.expanded, s.expanded, picked);
    }
  }

  /** A sequence that starts with `xs + [x]` starts with xs and holds x just after it. */
  lemma ExtendedPicks(ys: seq<Cell>, xs: seq<Cell>, x: Cell)
    requires |ys| >= |xs| + 1 && ys[..|xs| + 1] == xs + [x]
    ensures |ys| > |xs| && ys[|xs|] == x && ys[..|xs|] == xs
  {
    assert ys[|xs|] == ys[..|xs| + 1][|xs|];
    assert ys[..|xs|] == ys[..|xs| + 1][..|xs|];
  }

  /** Each adjacent cell is reached by one of the eight offsets of the child loop. */
  lemma OffsetsReachNeighbours(a: Cell, b: Cell)
    requires Adjacent(a, b)
    ensures exists i :: 0 <= i < 8 && Shift(a, ListOffsets[i]) == b
  {
    var dr, dc := b.row - a.row, b.col - a.col;
    var i := if (dr, dc) == (0, -1) then 0 else if (dr, dc) == (0, 1) then 1
             else if (dr, dc) == (-1, 0) then 2 else if (dr, dc) == (1, 0) then 3
             else if (dr, dc) == (-1, -1) then 4 else if (dr, dc) == (-1, 1) then 5
             else if (dr, dc) == (1, -1) then 6 else 7;
    assert Shift(a, ListOffsets[i]) == b;
  }

  /** The positions of the nodes in an open list. */
  function Positions(open: seq<Node>): (ps: set<Cell>)
    ensures forall x :: x in open ==> x.position in ps
    ensures forall c :: c in ps ==> exists x :: x in open && x.position == c
  {
    set x | x in open :: x.position
  }

  /** Every walkable neighbour of an expanded cell was expanded too or still has a node in the open list. */
  ghost predicate NeighboursPending(maze: Maze, expanded: seq<Cell>, open: seq<Node>) {
    forall p, q :: p in expanded && Adjacent(p, q) && Walkable(maze, q) ==> q in expanded || q in Positions(open)
  }

  /** A walkable neighbour of the expanded node gets a child node. */
  lemma ChildForNeighbour(maze: Maze, end: Cell, rest: seq<Node>, current: Node, w: seq<Cell>, q: Cell)
    requires ScanUpTo(maze, current.position, 8).Scanned? && w == ScanUpTo(maze, current.position, 8).walkable
    requires Adjacent(current.position, q) && Walkable(maze, q)
    ensures q in Positions(Enqueue(rest, current, w, end))
  {
    ScanSound(maze, current.position, 8);
    OffsetsReachNeighbours(current.position, q);
    var i :| 0 <= i < |w| && w[i] == q;
    var r := Enqueue(rest, current, w, end);
    EnqueueAt(rest, current, w, end);
    assert r[|rest| + i] in r;
  }

  /** A node other than the popped one stays in the open list. */
  lemma OtherNodeStays(open: seq<Node>, k: nat, q: Cell)
    requires k < |open| && q in Positions(open) && q != open[k].position
    ensures q in Positions(open[..k] + open[k + 1..])
  {
    var x :| x in open && x.position == q;
    assert open == open[..k] + [open[k]] + open[k + 1..];
    assert x in open[..k] + open[k + 1..];
  }

  /**
   * Expanding the first node of least f keeps every walkable neighbour of an
   * expanded cell pending: those of the new cell become its children, and
   * the others keep their nodes, or were the popped node's own cell.
   */
  lemma ExpansionKeepsPending(maze: Maze, end: Cell, open: seq<Node>, expanded: seq<Cell>, current: Node, w: seq<Cell>)
    requires open != [] && current == open[FirstLeast(open)]
    requires NeighboursPending(maze, expanded, open)
    requires ScanUpTo(maze, current.position, 8).Scanned? && w == ScanUpTo(maze, current.position, 8).walkable
    ensures var k := FirstLeast(open);
      NeighboursPending(maze, expanded + [current.position], Enqueue(open[..k] + open[k + 1..], current, w, end))
  {
    var k := FirstLeast(open);
    var rest := open[..k] + open[k + 1..];
    EnqueueKeepsPositions(rest, current, w, end);
    forall p, q | p in expanded + [current.position] && Adjacent(p, q) && Walkable(maze, q)
      ensures q in expanded + [current.position] || q in Positions(Enqueue(rest, current, w, end))
    {
      if p == current.position {
        ChildForNeighbour(maze, end, rest, current, w, q);
      } else if q != current.position && q !in expanded {
        OtherNodeStays(open, k, q);
      }
    }
  }

  /** An iteration that goes on keeps every walkable neighbour of an expanded cell pending. */
  lemma IterationKeepsPending(maze: Maze, end: Cell, s: ListState)
    requires s.open != [] && NeighboursPending(maze, s.expanded, s.open)
    ensures var it := Iteration(maze, end, s);
      it.Continue? ==> NeighboursPending(maze, it.next.expanded, it.next.open)
  {
    var current := s.open[FirstLeast(s.open)];
    if current.position != end && ScanUpTo(maze, current.position, 8).Scanned? {
      ExpansionKeepsPending(maze, end, s.open, s.expanded, current, ScanUpTo(maze, current.position, 8).walkable);
    }
  }

  /**
   * A main loop that ends with the open list exhausted leaves the expanded
   * cells closed under walkable neighbours.
   */
  lemma {:induction false} ListRunExhausts(maze: Maze, end: Cell, s: ListState, fuel: nat)
    requires NeighboursPending(maze, s.expanded, s.open)
    ensures var o := ListRun(maze, end, s, fuel);
      o.NoPathError? ==> NeighboursPending(maze, o.expanded, [])
    decreases fuel
  {
    ListRunEnds(maze, end, s, fuel);
    if s.open != [] && fuel > 0 {
      ListRunStep(maze, end, s, fuel);
      IterationKeepsPending(maze, end, s);
      var it := Iteration(maze, end, s);
      if it.Continue? {
        ListRunExhausts(maze, end, it.next, fuel - 1);
      }
    }
  }

  /** A walkable path from an expanded start stays among expanded cells closed under walkable neighbours. */
  lemma {:induction false} PathStaysExpanded(maze: Maze, start: Cell, end: Cell, path: seq<Cell>, expanded: seq<Cell>, n: nat)
    requires WalkablePath(maze, start, end, path) && NeighboursPending(maze, expanded, [])
    requires start in expanded && n < |path|
    ensures path[n] in expanded
    decreases n
  {
    if n > 0 {
      PathStaysExpanded(maze, start, end, path, expanded, n - 1);
      assert Adjacent(path[n - 1], path[n]) && Walkable(maze, path[n]);
      assert Positions([]) == {};
    }
  }

  /**
   * The main loop started from the start node alone: a path found is a
   * walkable path from start to end, which was the last cell expanded;
   * unless a read raised, the obstacles are real ones and start is the first
   * cell expanded; the error of an exhausted open list comes only after end
   * was never expanded; a run out of budget expanded one cell per iteration;
   * and when start is end the result is `[start]` at once.
   */
  lemma ListRunFromRoot(maze: Maze, start: Cell, end: Cell, fuel: nat)
    ensures var o := ListRun(maze, end, StartState(start), fuel);
      && (o.NoPathError? ==> end !in o.expanded && |o.expanded| <= fuel)
      && (o.OutOfFuel? ==> |o.expanded| == fuel)
      && (o.Found? ==> WalkablePath(maze, start, end, o.path) && |o.expanded| > 0 && o.expanded[|o.expanded| - 1] == end)
      && (!o.IndexError? ==> forall c :: c in o.obstacles ==> Blocked(maze, c))
      && (!o.IndexError? && fuel > 0 ==> |o.expanded| > 0 && o.expanded[0] == start)
      && (start == end && fuel > 0 ==> o == Found([start], [start], []))
  {
    var root := Node(None, start, 0, 0, 0);
    ListRunShort(maze, end, StartState(start), fuel);
    ListRunFull(maze, end, StartState(start), fuel);
    ListRunMissesEnd(maze, end, StartState(start), fuel);
    ListRunEndsAtEnd(maze, end, StartState(start), fuel);
    ListRunFound(maze, start, end, StartState(start), fuel);
    ListRunObstacles(maze, end, StartState(start), fuel);
    if fuel > 0 {
      ListRunPicks(maze, end, StartState(start), fuel);
      if start == end {
        assert Reverse(Chain(root)) == [start];
      }
    }
  }

  /**
   * Completeness of the list search: the error of an exhausted open list
   * comes only when no walkable path leads from start to end.
   */
  lemma ListRunNoPath(maze: Maze, start: Cell, end: Cell, fuel: nat)
    ensures ListRun(maze, end, StartState(start), fuel).NoPathError? ==>
      forall path :: !WalkablePath(maze, start, end, path)
  {
    var o := ListRun(maze, end, StartState(start), fuel);
    if o.NoPathError? {
      ListRunExhausts(maze, end, StartState(start), fuel);
      ListRunFromRoot(maze, start, end, fuel);
      forall path | WalkablePath(maze, start, end, path) ensures false {
        PathStaysExpanded(maze, start, end, path, o.expanded, |path| - 1);
      }
    }
  }

  /**
   * The `while len(open_list) > 0` loop of `astar`, from the given lists,
   * with at most `fuel` iterations: it ends as the main loop says.
   */
  method MainLoop(maze: Maze, start: Cell, end: Cell, init: ListState, fuel: nat) returns (o: ListOutcome)
    requires forall x :: x in init.open ==> WellFormed(maze, start, end, x)
    ensures o == ListRun(maze, end, init, fuel)
  {
    var open, expanded, obstacles := init.open, init.expanded, init.obstacles;
    var n := 0;
    while n < fuel && |open| > 0
      invariant n <= fuel
      invariant forall x :: x in open ==> WellFormed(maze, start, end, x)
      invariant ListRun(maze, end, ListState(open, expanded, obstacles), fuel - n) == ListRun(maze, end, init, fuel)
      decreases fuel - n
    {
      ghost var s := ListState(open, expanded, obstacles);
      ghost var left: nat := fuel - n;
      ListRunStep(maze, end, s, left);
      var current, rest := PopCurrent(open);
      expanded := expanded + [current.position];
      if current.position == end {
        var path := GoalPath(maze, start, end, current);
        IterationFinds(maze, end, s, current);
        return Found(path, expanded, obstacles);
      }
      var next := Expand(maze, start, end, rest, current);
      if next.None? {
        IterationRaises(maze, end, s, current);
        return IndexError;
      }
      IterationExpands(maze, end, s, current, next.value.0, obstacles + next.value.1);
      open := next.value.0;
      obstacles := obstacles + next.value.1;
      n := n + 1;
      assert fuel - n == left - 1;
    }
    if |open| == 0 {
      return NoPathError(expanded, obstacles);
    }
    return OutOfFuel(expanded, obstacles);
  }

  /**
   * `astar(maze, start, end)`, with at most `fuel` iterations of the main loop.
   * A returned path runs from start to end between adjacent cells and
   * through walkable cells after start, and end is the last cell expanded;
   * every obstacle recorded is an in-range non-zero cell; the first cell
   * expanded is start; when start is end the result is `[start]` at once.
   * The error of an exhausted open list comes only after end was never
   * expanded, and only when no walkable path leads from start to end; a run
   * out of budget expanded one cell per iteration.
   */
  method ListAstar(maze: Maze, start: Cell, end: Cell, fuel: nat) returns (o: ListOutcome)
    ensures o == ListRun(maze, end, StartState(start), fuel)
    ensures o.NoPathError? ==> end !in o.expanded && |o.expanded| <= fuel
    ensures o.NoPathError? ==> forall path :: !WalkablePath(maze, start, end, path)
    ensures o.OutOfFuel? ==> |o.expanded| == fuel
    ensures o.Found? ==>
      WalkablePath(maze, start, end, o.path) && |o.expanded| > 0 && o.expanded[|o.expanded| - 1] == end
    ensures !o.IndexError? ==> forall c :: c in o.obstacles ==> Blocked(maze, c)
    ensures !o.IndexError? && fuel > 0 ==> |o.expanded| > 0 && o.expanded[0] == start
    ensures start == end && fuel > 0 ==> o == Found([start], [start], [])
  {
    ListRunFromRoot(maze, start, end, fuel);
    ListRunNoPath(maze, start, end, fuel);
    o := MainLoop(maze, start, end, StartState(start), fuel);
  }
}
