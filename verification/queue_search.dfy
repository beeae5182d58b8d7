/**
 * `queueastar`: the same search over a `PriorityQueue`, with a membership
 * set `open_set_hash` mirroring the queued cells. A cell already queued is
 * not queued again, even when its g improves, so the queue never holds a
 * cell twice (its entry may then carry a stale f).
 */
module QueueSearch {
  import opened Wrappers
  import opened Grid
  import opened Octile
  import opened Frontier
  import opened HeapSearch

  /** The containers of `queueastar`: the queue, `open_set_hash`, `g_score`, `f_score`, `came_from`. */
  datatype QueueState = QueueState(
    open: seq<Entry>,
    hash: set<Cell>,
    g: map<Cell, nat>,
    f: map<Cell, nat>,
    cameFrom: map<Cell, Cell>)

  function Scores(q: QueueState): SearchState {
    SearchState(q.open, q.g, q.f, q.cameFrom)
  }

  /** No cell has two entries. */
  predicate UniqueCells(s: seq<Entry>) {
    forall i, j :: 0 <= i < j < |s| ==> s[i].cell != s[j].cell
  }

  /**
   * `open_set.put((0, start))`, `open_set_hash = {start}`, and the score maps
   * as in the heap search: start is the only cell scored and queued, and the
   * set mirrors the queue.
   */
  function InitialQueue(start: Cell, goal: Cell): (q: QueueState)
    ensures q.g.Keys == {start} && q.g[start] == 0 && q.cameFrom == map[]
    ensures q.hash == CellsOf(q.open) == {start}
  {
    assert Entry(0, start) in [Entry(0, start)];
    QueueState([Entry(0, start)], {start}, map[start := 0], map[start := OctileTwice(start, goal)], map[])
  }

  /**
   * The body of the neighbour loop of `queueastar`. Afterwards a free
   * neighbour is scored and no other cell is newly scored; `open_set_hash`
   * only grows, holds every newly scored cell, and keeps mirroring the queue.
   */
  function RelaxQueued(maze: Maze, goal: Cell, cost: (Cell, Cell) -> nat, q: QueueState, cur: Cell, nb: Cell): (r: QueueState)
    requires Rectangular(maze) && cur in q.g
    ensures r.g.Keys == q.g.Keys + (if Free(maze, nb) then {nb} else {})
    ensures q.hash <= r.hash
    ensures forall c :: c in r.g && c !in q.g ==> c in r.hash
    ensures q.hash == CellsOf(q.open) ==> r.hash == CellsOf(r.open)
  {
    if Improves(maze, cost, Scores(q), cur, nb) then
      var t := q.g[cur] + cost(cur, nb);
      var fn := t + OctileTwice(nb, goal);
      var g', f', came' := q.g[nb := t], q.f[nb := fn], q.cameFrom[nb := cur];
      CellsOfAppend(q.open, Entry(fn, nb));
      if nb !in q.hash then QueueState(q.open + [Entry(fn, nb)], q.hash + {nb}, g', f', came')
      else QueueState(q.open, q.hash, g', f', came')
    else q
  }

  /** The scores change exactly as in `process_neighbor`; only the push is conditional. */
  lemma RelaxQueuedScores(maze: Maze, goal: Cell, cost: (Cell, Cell) -> nat, q: QueueState, cur: Cell, nb: Cell)
    requires Rectangular(maze) && cur in q.g
    ensures var r := RelaxQueued(maze, goal, cost, q, cur, nb);
      var h := Relax(maze, goal, cost, Scores(q), cur, nb);
      && r.g == h.g && r.f == h.f && r.cameFrom == h.cameFrom
      && (r.open == h.open <==> !Improves(maze, cost, Scores(q), cur, nb) || nb !in q.hash)
      && (r.open != q.open ==> r.open == h.open)
  {
  }

  /** A neighbour that does not improve leaves the state as it was. */
  lemma RelaxQueuedIdle(maze: Maze, goal: Cell, cost: (Cell, Cell) -> nat, q: QueueState, cur: Cell, nb: Cell)
    requires Rectangular(maze) && cur in q.g && !Improves(maze, cost, Scores(q), cur, nb)
    ensures RelaxQueued(maze, goal, cost, q, cur, nb) == q
  {
  }

  /** An improved neighbour that is already queued keeps its single, now stale, entry. */
  lemma QueuedCellIsNotPushedAgain(maze: Maze, goal: Cell, cost: (Cell, Cell) -> nat, q: QueueState, cur: Cell, nb: Cell)
    requires Rectangular(maze) && cur in q.g && nb in q.g
    requires Improves(maze, cost, Scores(q), cur, nb) && nb in q.hash
    ensures var r := RelaxQueued(maze, goal, cost, q, cur, nb);
      r.open == q.open && r.hash == q.hash && r.g[nb] < q.g[nb]
  {
  }

  /**
   * The neighbour loop of `queueastar` from offset i on. Afterwards every
   * free neighbour is scored, no scored cell is lost, and `open_set_hash`
   * only grows, holds every newly scored cell, and keeps mirroring the queue.
   */
  function RelaxQueuedFrom(maze: Maze, goal: Cell, cost: (Cell, Cell) -> nat, q: QueueState, cur: Cell, i: nat): (r: QueueState)
    requires Rectangular(maze) && cur in q.g && i <= 8
    ensures q.g.Keys <= r.g.Keys
    ensures forall j :: i <= j < 8 && Free(maze, Shift(cur, Directions[j])) ==> Shift(cur, Directions[j]) in r.g
    ensures q.hash <= r.hash
    ensures forall c :: c in r.g && c !in q.g ==> c in r.hash
    ensures q.hash == CellsOf(q.open) ==> r.hash == CellsOf(r.open)
    decreases 8 - i
  {
    if i == 8 then q
    else RelaxQueuedFrom(maze, goal, cost, RelaxQueued(maze, goal, cost, q, cur, Shift(cur, Directions[i])), cur, i + 1)
  }

  /** When the queue is empty, so is `open_set_hash`. */
  lemma EmptyQueueEmptyHash(q: QueueState)
    requires q.hash == CellsOf(q.open) && q.open == []
    ensures q.hash == {}
  {
  }

  lemma UniqueAppend(s: seq<Entry>, e: Entry)
    requires UniqueCells(s) && e.cell !in CellsOf(s)
    ensures UniqueCells(s + [e])
  {
    var r := s + [e];
    forall i, j | 0 <= i < j < |r| ensures r[i].cell != r[j].cell {
      if j == |s| {
        assert r[i] in s;
      }
    }
  }

  /** Entry i of the shortened list is entry i, or i + 1 from k on, of the original. */
  lemma RemoveAtIndex(s: seq<Entry>, k: nat)
    requires k < |s|
    ensures forall i :: 0 <= i < |RemoveAt(s, k)| ==> RemoveAt(s, k)[i] == s[if i < k then i else i + 1]
  {
    assert RemoveAt(s, k) == s[..k] + s[k + 1..];
  }

  /** Removing an entry leaves entries of the original, none for the removed cell. */
  lemma RemoveAtEntries(s: seq<Entry>, k: nat)
    requires UniqueCells(s) && k < |s|
    ensures UniqueCells(RemoveAt(s, k))
    ensures forall x :: x in RemoveAt(s, k) ==> x in s && x.cell != s[k].cell
  {
    RemoveAtIndex(s, k);
    var r := RemoveAt(s, k);
    forall x | x in r ensures x in s && x.cell != s[k].cell {
      var i :| 0 <= i < |r| && r[i] == x;
    }
  }

  lemma UniqueRemoveAt(s: seq<Entry>, k: nat)
    requires UniqueCells(s) && k < |s|
    ensures UniqueCells(RemoveAt(s, k))
    ensures CellsOf(RemoveAt(s, k)) == CellsOf(s) - {s[k].cell}
    ensures forall x :: x in RemoveAt(s, k) ==> x in s
  {
    RemoveAtEntries(s, k);
    RemoveAtIndex(s, k);
    var r := RemoveAt(s, k);
    forall c | c in CellsOf(s) - {s[k].cell} ensures c in CellsOf(r) {
      var x :| x in s && x.cell == c;
      var i :| 0 <= i < |s| && s[i] == x;
      assert r[if i < k then i else i - 1] == x;
    }
  }

  /** Replacing the queue by one whose entries were all queued before keeps the invariant. */
  lemma ValidStateNarrowOpen(maze: Maze, start: Cell, goal: Cell, cost: (Cell, Cell) -> nat, s: SearchState, open: seq<Entry>)
    requires ValidState(maze, start, goal, cost, s)
    requires forall e :: e in open ==> e.cell in s.g
    ensures ValidState(maze, start, goal, cost, s.(open := open))
  {
  }

  /** The heap-search invariant on the scores, and `open_set_hash` is exactly the set of queued cells, each queued once. */
  ghost predicate ValidQueue(maze: Maze, start: Cell, goal: Cell, cost: (Cell, Cell) -> nat, q: QueueState) {
    && ValidState(maze, start, goal, cost, Scores(q))
    && q.hash == CellsOf(q.open)
    && UniqueCells(q.open)
  }

  lemma InitialQueueIsValid(maze: Maze, start: Cell, goal: Cell, cost: (Cell, Cell) -> nat)
    requires Rectangular(maze) && StepCostOk(cost)
    ensures ValidQueue(maze, start, goal, cost, InitialQueue(start, goal))
  {
    assert CellsOf([Entry(0, start)]) == {start} by {
      assert Entry(0, start) in [Entry(0, start)];
    }
  }

  /** A push is exactly `process_neighbor`'s push, and the cell joins `open_set_hash`. */
  lemma PushIsRelax(maze: Maze, goal: Cell, cost: (Cell, Cell) -> nat, q: QueueState, cur: Cell, nb: Cell)
    requires Rectangular(maze) && cur in q.g
    requires Improves(maze, cost, Scores(q), cur, nb) && nb !in q.hash
    ensures var r := RelaxQueued(maze, goal, cost, q, cur, nb);
      && Scores(r) == Relax(maze, goal, cost, Scores(q), cur, nb)
      && r.open == q.open + [Entry(r.f[nb], nb)]
      && r.hash == q.hash + {nb}
  {
  }

  /** Without a push only the scores change, exactly as in `process_neighbor`. */
  lemma NoPushIsRelax(maze: Maze, goal: Cell, cost: (Cell, Cell) -> nat, q: QueueState, cur: Cell, nb: Cell)
    requires Rectangular(maze) && cur in q.g
    requires Improves(maze, cost, Scores(q), cur, nb) && nb in q.hash
    ensures var r := RelaxQueued(maze, goal, cost, q, cur, nb);
      && Scores(r) == Relax(maze, goal, cost, Scores(q), cur, nb).(open := q.open)
      && r.open == q.open && r.hash == q.hash
  {
  }

  /** An improvement of a cell not yet queued pushes it and adds it to `open_set_hash`. */
  lemma PushKeepsValid(maze: Maze, start: Cell, goal: Cell, cost: (Cell, Cell) -> nat, q: QueueState, cur: Cell, nb: Cell)
    requires ValidQueue(maze, start, goal, cost, q) && cur in q.g && Adjacent(cur, nb)
    requires Improves(maze, cost, Scores(q), cur, nb) && nb !in q.hash
    ensures ValidQueue(maze, start, goal, cost, RelaxQueued(maze, goal, cost, q, cur, nb))
  {
    var r := RelaxQueued(maze, goal, cost, q, cur, nb);
    RelaxKeepsValid(maze, start, goal, cost, Scores(q), cur, nb);
    PushIsRelax(maze, goal, cost, q, cur, nb);
    CellsOfAppend(q.open, Entry(r.f[nb], nb));
    UniqueAppend(q.open, Entry(r.f[nb], nb));
  }

  /** An improvement of a cell already queued updates its scores and leaves queue and set alone. */
  lemma NoPushKeepsValid(maze: Maze, start: Cell, goal: Cell, cost: (Cell, Cell) -> nat, q: QueueState, cur: Cell, nb: Cell)
    requires ValidQueue(maze, start, goal, cost, q) && cur in q.g && Adjacent(cur, nb)
    requires Improves(maze, cost, Scores(q), cur, nb) && nb in q.hash
    ensures ValidQueue(maze, start, goal, cost, RelaxQueued(maze, goal, cost, q, cur, nb))
  {
    var h := Relax(maze, goal, cost, Scores(q), cur, nb);
    RelaxKeepsValid(maze, start, goal, cost, Scores(q), cur, nb);
    NoPushIsRelax(maze, goal, cost, q, cur, nb);
    ValidStateNarrowOpen(maze, start, goal, cost, h, q.open);
  }

  lemma RelaxQueuedKeepsValid(maze: Maze, start: Cell, goal: Cell, cost: (Cell, Cell) -> nat, q: QueueState, cur: Cell, nb: Cell)
    requires ValidQueue(maze, start, goal, cost, q) && cur in q.g && Adjacent(cur, nb)
    ensures ValidQueue(maze, start, goal, cost, RelaxQueued(maze, goal, cost, q, cur, nb))
    ensures q.g.Keys <= RelaxQueued(maze, goal, cost, q, cur, nb).g.Keys
  {
    if Improves(maze, cost, Scores(q), cur, nb) {
      if nb !in q.hash {
        PushKeepsValid(maze, start, goal, cost, q, cur, nb);
      } else {
        NoPushKeepsValid(maze, start, goal, cost, q, cur, nb);
      }
    }
  }

  lemma {:induction false} RelaxQueuedFromKeepsValid(maze: Maze, start: Cell, goal: Cell, cost: (Cell, Cell) -> nat, q: QueueState, cur: Cell, i: nat)
    requires ValidQueue(maze, start, goal, cost, q) && cur in q.g && i <= 8
    ensures ValidQueue(maze, start, goal, cost, RelaxQueuedFrom(maze, goal, cost, q, cur, i))
    ensures q.g.Keys <= RelaxQueuedFrom(maze, goal, cost, q, cur, i).g.Keys
    decreases 8 - i
  {
    if i < 8 {
      var nb := Shift(cur, Directions[i]);
      DirectionsReachNeighbours(cur, nb);
      RelaxQueuedKeepsValid(maze, start, goal, cost, q, cur, nb);
      RelaxQueuedFromKeepsValid(maze, start, goal, cost, RelaxQueued(maze, goal, cost, q, cur, nb), cur, i + 1);
    }
  }

  /** `open_set.get()` of the entry at index k, then `open_set_hash.remove(current)`. */
  function PopAt(q: QueueState, k: nat): (r: QueueState)
    requires k < |q.open|
    ensures multiset(r.open) + multiset{q.open[k]} == multiset(q.open)
    ensures r.hash == q.hash - {q.open[k].cell}
    ensures r.g == q.g && r.f == q.f && r.cameFrom == q.cameFrom
  {
    QueueState(RemoveAt(q.open, k), q.hash - {q.open[k].cell}, q.g, q.f, q.cameFrom)
  }

  /** `open_set.get()` then `open_set_hash.remove(current)`: the set still mirrors the queue. */
  lemma QueuePopKeepsValid(maze: Maze, start: Cell, goal: Cell, cost: (Cell, Cell) -> nat, q: QueueState, k: nat)
    requires ValidQueue(maze, start, goal, cost, q) && k < |q.open|
    ensures q.open[k].cell in q.hash && q.open[k].cell in q.g
    ensures ValidQueue(maze, start, goal, cost, PopAt(q, k))
  {
    UniqueRemoveAt(q.open, k);
    ValidStateNarrowOpen(maze, start, goal, cost, Scores(q), RemoveAt(q.open, k));
    assert Scores(q).(open := RemoveAt(q.open, k)) == Scores(PopAt(q, k));
  }

  /**
   * Relaxing the eight neighbours of `cur` scores every free one, so `cur`
   * joins the expanded cells, and the cells scored meanwhile are queued.
   */
  lemma QueueExpansionSettles(maze: Maze, goal: Cell, cost: (Cell, Cell) -> nat, q: QueueState, cur: Cell, closed: set<Cell>)
    requires Rectangular(maze) && cur in q.g && q.hash == CellsOf(q.open)
    requires Settled(maze, q.g, closed) && StillQueued(q.g, q.open, closed + {cur})
    ensures var r := RelaxQueuedFrom(maze, goal, cost, q, cur, 0);
      Settled(maze, r.g, closed + {cur}) && StillQueued(r.g, r.open, closed + {cur})
  {
    var r := RelaxQueuedFrom(maze, goal, cost, q, cur, 0);
    forall b | Adjacent(cur, b) && Free(maze, b) ensures b in r.g {
      DirectionsReachNeighbours(cur, b);
    }
    forall c | c in closed ensures NeighboursScored(maze, r.g, c) {
      assert NeighboursScored(maze, q.g, c);
    }
  }

  /**
   * Where `queueastar` is when resumed: the pending cell, if any, has had its
   * neighbours relaxed, so its free neighbours are scored.
   */
  function QueueAfterResume(maze: Maze, goal: Cell, cost: (Cell, Cell) -> nat, q: QueueState, pending: Option<Cell>): (r: QueueState)
    requires Rectangular(maze) && (pending.Some? ==> pending.value in q.g)
    ensures q.g.Keys <= r.g.Keys
    ensures pending.Some? ==> NeighboursScored(maze, r.g, pending.value)
  {
    if pending.Some? then
      var r := RelaxQueuedFrom(maze, goal, cost, q, pending.value, 0);
      assert NeighboursScored(maze, r.g, pending.value) by {
        forall b | Adjacent(pending.value, b) && Free(maze, b) ensures b in r.g {
          DirectionsReachNeighbours(pending.value, b);
        }
      }
      r
    else q
  }

  /**
   * The invariant of a running `queueastar`: the queue invariant on the
   * containers; the pending cell is scored; the expanded cells have their
   * free neighbours scored and the goal is never among them; and, until the
   * generator returns, every scored cell neither expanded nor pending is queued.
   */
  ghost predicate QueueEngineOk(maze: Maze, start: Cell, goal: Cell, cost: (Cell, Cell) -> nat, q: QueueState,
                                pending: Option<Cell>, finished: bool, closed: set<Cell>) {
    && StepCostOk(cost) && ValidQueue(maze, start, goal, cost, q)
    && (pending.Some? ==> pending.value in q.g)
    && (finished ==> pending.None?)
    && Settled(maze, q.g, closed) && goal !in closed
    && (!finished ==> StillQueued(q.g, q.open, closed + PendingCells(pending)))
  }

  /** The parts of the invariant for a running `queueastar` with nothing pending, put together. */
  lemma QueueSettledIsOk(maze: Maze, start: Cell, goal: Cell, cost: (Cell, Cell) -> nat, q: QueueState, closed: set<Cell>)
    requires StepCostOk(cost) && ValidQueue(maze, start, goal, cost, q)
    requires Settled(maze, q.g, closed) && goal !in closed && StillQueued(q.g, q.open, closed)
    ensures QueueEngineOk(maze, start, goal, cost, q, None, false, closed)
  {
    assert closed + PendingCells(None) == closed;
  }

  /** Expanding the pending cell keeps the queue invariant and settles that cell. */
  lemma QueueExpansionKeepsParts(maze: Maze, start: Cell, goal: Cell, cost: (Cell, Cell) -> nat, q: QueueState, cur: Cell, closed: set<Cell>)
    requires QueueEngineOk(maze, start, goal, cost, q, Some(cur), false, closed)
    ensures var r := RelaxQueuedFrom(maze, goal, cost, q, cur, 0);
      ValidQueue(maze, start, goal, cost, r) && Settled(maze, r.g, closed + {cur}) && StillQueued(r.g, r.open, closed + {cur})
  {
    RelaxQueuedFromKeepsValid(maze, start, goal, cost, q, cur, 0);
    QueueExpansionSettles(maze, goal, cost, q, cur, closed);
  }

  /** Expanding the pending cell keeps the invariant, with that cell now expanded. */
  lemma QueueExpansionKeepsOk(maze: Maze, start: Cell, goal: Cell, cost: (Cell, Cell) -> nat, q: QueueState, cur: Cell, closed: set<Cell>, r: QueueState)
    requires QueueEngineOk(maze, start, goal, cost, q, Some(cur), false, closed) && cur != goal
    requires r == RelaxQueuedFrom(maze, goal, cost, q, cur, 0)
    ensures QueueEngineOk(maze, start, goal, cost, r, None, false, closed + {cur})
  {
    QueueExpansionKeepsParts(maze, start, goal, cost, q, cur, closed);
    QueueSettledIsOk(maze, start, goal, cost, r, closed + {cur});
  }

  /** A pop keeps the invariant, with the popped cell pending, and that cell is reachable. */
  lemma QueuePopKeepsOk(maze: Maze, start: Cell, goal: Cell, cost: (Cell, Cell) -> nat, q: QueueState, k: nat, closed: set<Cell>)
    requires QueueEngineOk(maze, start, goal, cost, q, None, false, closed) && k < |q.open|
    ensures QueueEngineOk(maze, start, goal, cost, PopAt(q, k), Some(q.open[k].cell), false, closed)
    ensures Reachable(maze, start, q.open[k].cell)
  {
    QueuePopKeepsValid(maze, start, goal, cost, q, k);
    assert closed + PendingCells(None) == closed;
    PopKeepsQueued(q.g, q.open, k, closed);
    ScoredIsReachable(maze, start, goal, cost, Scores(q), q.open[k].cell);
  }

  /** Completeness: an empty queue with nothing pending means no free walk reaches the goal. */
  lemma QueueExhaustionKeepsOk(maze: Maze, start: Cell, goal: Cell, cost: (Cell, Cell) -> nat, q: QueueState, closed: set<Cell>)
    requires QueueEngineOk(maze, start, goal, cost, q, None, false, closed) && q.open == []
    ensures QueueEngineOk(maze, start, goal, cost, q, None, true, closed)
    ensures q.hash == {} && !Reachable(maze, start, goal)
  {
    assert closed + PendingCells(None) == closed;
    ExhaustedIsUnreachable(maze, start, goal, q.g, closed);
    EmptyQueueEmptyHash(q);
  }

  /** The generator `queueastar(matrix, start, goal)`, resumed one step at a time. */
  class QueueEngine {
    const maze: Maze
    const start: Cell
    const goal: Cell
    /** The step cost, fixed to the octile distance by the constructor. */
    const stepCost: (Cell, Cell) -> nat
    var open: seq<Entry>
    var openSetHash: set<Cell>
    var gScore: map<Cell, nat>
    var fScore: map<Cell, nat>
    var cameFrom: map<Cell, Cell>
    /** The cell yielded last, whose goal test and expansion run on the next resume. */
    var pending: Option<Cell>
    /** The generator has returned. */
    var finished: bool
    /** The cells whose neighbours have been relaxed. */
    ghost var closed: set<Cell>

    function State(): QueueState
      reads this
    {
      QueueState(open, openSetHash, gScore, fScore, cameFrom)
    }

    ghost predicate Valid()
      reads this
    {
      QueueEngineOk(maze, start, goal, stepCost, State(), pending, finished, closed)
    }

    constructor (maze: Maze, start: Cell, goal: Cell)
      requires Rectangular(maze)
      ensures this.maze == maze && this.start == start && this.goal == goal && stepCost == OctileTwice
      ensures State() == InitialQueue(start, goal) && pending == None && !finished
      ensures Valid()
    {
      this.maze := maze;
      this.start := start;
      this.goal := goal;
      stepCost := OctileTwice;
      open := [Entry(0, start)];
      openSetHash := {start};
      gScore := map[start := 0];
      fScore := map[start := OctileTwice(start, goal)];
      cameFrom := map[];
      pending := None;
      finished := false;
      closed := {};
      new;
      assert State() == InitialQueue(start, goal);
      OctileIsStepCost();
      InitialQueueIsValid(maze, start, goal, stepCost);
    }

    /** The body of the neighbour loop of `queueastar`, for one neighbour. */
    method ProcessQueued(cur: Cell, nb: Cell)
      requires Rectangular(maze) && cur in gScore
      modifies this`open, this`openSetHash, this`gScore, this`fScore, this`cameFrom
      ensures State() == RelaxQueued(maze, goal, stepCost, old(State()), cur, nb)
      ensures old(gScore).Keys <= gScore.Keys
    {
      ghost var before := State();
      if Free(maze, nb) {
        var tentative := gScore[cur] + stepCost(cur, nb);
        if nb !in gScore || tentative < gScore[nb] {
          assert Improves(maze, stepCost, Scores(before), cur, nb);
          cameFrom := cameFrom[nb := cur];
          gScore := gScore[nb := tentative];
          fScore := fScore[nb := tentative + OctileTwice(nb, goal)];
          if nb !in openSetHash {
            open := open + [Entry(fScore[nb], nb)];
            openSetHash := openSetHash + {nb};
          }
        } else {
          RelaxQueuedIdle(maze, goal, stepCost, before, cur, nb);
        }
      } else {
        RelaxQueuedIdle(maze, goal, stepCost, before, cur, nb);
      }
    }

    /** The neighbour loop of `queueastar` for the cell `cur`. */
    method ExpandNeighbors(cur: Cell)
      requires Rectangular(maze) && cur in gScore
      modifies this`open, this`openSetHash, this`gScore, this`fScore, this`cameFrom
      ensures State() == RelaxQueuedFrom(maze, goal, stepCost, old(State()), cur, 0)
    {
      ghost var before := State();
      for i := 0 to 8
        invariant Rectangular(maze) && cur in gScore
        invariant RelaxQueuedFrom(maze, goal, stepCost, State(), cur, i) == RelaxQueuedFrom(maze, goal, stepCost, before, cur, 0)
      {
        ProcessQueued(cur, Shift(cur, Directions[i]));
      }
    }

    /**
     * The work after `yield current` for a pending cell other than the goal:
     * its neighbours are relaxed, the invariant is kept, and it counts as
     * expanded.
     */
    method ExpandPending(cur: Cell)
      requires Valid() && pending == Some(cur) && cur != goal && !finished
      modifies this`open, this`openSetHash, this`gScore, this`fScore, this`cameFrom, this`pending, this`closed
      ensures State() == RelaxQueuedFrom(maze, goal, stepCost, old(State()), cur, 0)
      ensures closed == old(closed) + {cur} && pending.None?
      ensures Valid()
    {
      ghost var before := State();
      ghost var expanded := closed;
      ExpandNeighbors(cur);
      pending := None;
      closed := closed + {cur};
      QueueExpansionKeepsOk(maze, start, goal, stepCost, before, cur, expanded, State());
    }

    /**
     * One resume of `queueastar`: as in the heap search, except that a cell
     * already queued is not queued again and the popped cell also leaves
     * `open_set_hash`. The None triple comes only when no free walk leads
     * from start to the goal, and every cell yielded is reachable from start.
     */
    method Step() returns (r: StepResult)
      requires Valid()
      modifies this
      ensures Valid()
      ensures r == Exhausted ==> !Reachable(maze, start, goal)
      ensures r.Expanded? ==> Reachable(maze, start, r.cell)
      ensures old(finished) ==> r == Stopped && finished && State() == old(State())
      ensures !old(finished) && old(pending) == Some(goal) ==>
        r == Stopped && finished && State() == old(State())
      ensures !old(finished) && old(pending) != Some(goal) ==>
        var mid := QueueAfterResume(maze, goal, stepCost, old(State()), old(pending));
        && gScore == mid.g && fScore == mid.f && cameFrom == mid.cameFrom
        && (mid.open == [] ==> r == Exhausted && finished && open == [] && openSetHash == {})
        && (mid.open != [] ==>
              var k := MinIndex(mid.open);
              && r == Expanded(mid.open[k].cell)
              && open == RemoveAt(mid.open, k)
              && openSetHash == mid.hash - {r.cell}
              && pending == Some(r.cell) && !finished)
    {
      if finished {
        return Stopped;
      }
      if pending == Some(goal) {
        Finish();
        return Stopped;
      }
      Resume();
      r := Pop();
    }

    /** The work after `yield current` that a resume does before the next pop. */
    method Resume()
      requires Valid() && !finished && pending != Some(goal)
      modifies this`open, this`openSetHash, this`gScore, this`fScore, this`cameFrom, this`pending, this`closed
      ensures Valid() && !finished && pending.None?
      ensures State() == QueueAfterResume(maze, goal, stepCost, old(State()), old(pending))
    {
      if pending.Some? {
        ExpandPending(pending.value);
      }
    }

    /** The `return` after the goal was yielded: the generator stops with its containers as they are. */
    method Finish()
      requires Valid() && !finished
      modifies this`pending, this`finished
      ensures Valid() && finished && pending.None? && State() == old(State())
    {
      pending := None;
      finished := true;
    }

    /** `open_set.get()` and `open_set_hash.remove(current)`, or the None triple on an empty queue. */
    method Pop() returns (r: StepResult)
      requires Valid() && pending.None? && !finished
      modifies this`open, this`openSetHash, this`pending, this`finished
      ensures Valid()
      ensures r == Exhausted ==> !Reachable(maze, start, goal)
      ensures r.Expanded? ==> Reachable(maze, start, r.cell)
      ensures old(open) == [] ==> r == Exhausted && finished && open == [] && openSetHash == {} && pending.None?
      ensures old(open) != [] ==>
        var k := MinIndex(old(open));
        && r == Expanded(old(open)[k].cell)
        && open == RemoveAt(old(open), k)
        && openSetHash == old(openSetHash) - {r.cell}
        && pending == Some(r.cell) && !finished
    {
      if open == [] {
        QueueExhaustionKeepsOk(maze, start, goal, stepCost, State(), closed);
        finished := true;
        return Exhausted;
      }
      r := PopMin();
    }

    /** `current = open_set.get()[1]` and `open_set_hash.remove(current)` on a non-empty queue. */
    method PopMin() returns (r: StepResult)
      requires Valid() && pending.None? && !finished && open != []
      modifies this`open, this`openSetHash, this`pending
      ensures Valid()
      ensures var k := MinIndex(old(open));
        && r == Expanded(old(open)[k].cell)
        && State() == PopAt(old(State()), k)
        && pending == Some(r.cell)
      ensures Reachable(maze, start, r.cell)
    {
      var k := MinIndex(open);
      var e := open[k];
      QueuePopKeepsOk(maze, start, goal, stepCost, State(), k, closed);
      var next := PopAt(State(), k);
      open, openSetHash := next.open, next.hash;
      pending := Some(e.cell);
      r := Expanded(e.cell);
    }
  }
}
