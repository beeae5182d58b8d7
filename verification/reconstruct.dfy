/**
 * `reconstruct_path(came_from, current, start)`: follow predecessor links from
 * `current` while it is a key of `came_from`, append `start`, and reverse.
 */
module PathReconstruction {
  import opened Grid

  /**
   * A rank that every key of `came_from` carries and that strictly drops along
   * each link staying inside the map: the walk of `reconstruct_path` is then
   * finite (it loops for ever on a cyclic map).
   */
  ghost predicate Ranked(cameFrom: map<Cell, Cell>, rank: map<Cell, int>) {
    (forall c :: c in cameFrom ==> c in rank && rank[c] >= 0)
    && (forall c :: c in cameFrom && cameFrom[c] in cameFrom ==> rank[cameFrom[c]] < rank[c])
  }

  /** The keys visited by the walk from `current`, in the order visited. */
  ghost function Hops(cameFrom: map<Cell, Cell>, rank: map<Cell, int>, current: Cell): seq<Cell>
    requires Ranked(cameFrom, rank)
    decreases if current in cameFrom then rank[current] + 1 else 0
  {
    if current in cameFrom then [current] + Hops(cameFrom, rank, cameFrom[current]) else []
  }

  /** The walk is a chain of predecessor links that ends at the first cell outside the map. */
  lemma {:induction false} HopsAreLinks(cameFrom: map<Cell, Cell>, rank: map<Cell, int>, current: Cell)
    requires Ranked(cameFrom, rank)
    ensures var h := Hops(cameFrom, rank, current);
      && (forall i :: 0 <= i < |h| ==> h[i] in cameFrom)
      && (|h| == 0 <==> current !in cameFrom)
      && (|h| > 0 ==> h[0] == current && cameFrom[h[|h| - 1]] !in cameFrom)
      && (forall i :: 0 <= i < |h| - 1 ==> h[i + 1] == cameFrom[h[i]])
    decreases if current in cameFrom then rank[current] + 1 else 0
  {
    if current in cameFrom {
      var next := cameFrom[current];
      HopsAreLinks(cameFrom, rank, next);
      var t := Hops(cameFrom, rank, next);
      var h := Hops(cameFrom, rank, current);
      assert h == [current] + t;
      forall i | 0 <= i < |h| - 1 ensures h[i + 1] == cameFrom[h[i]] {
        if i > 0 { assert h[i] == t[i - 1] && h[i + 1] == t[i]; }
        else if |t| > 0 { assert h[1] == t[0] == next; }
      }
    }
  }

  /** A sequence read backwards. */
  function Reverse<T>(s: seq<T>): (r: seq<T>)
    ensures |r| == |s|
    ensures forall i :: 0 <= i < |s| ==> r[i] == s[|s| - 1 - i]
  {
    if s == [] then [] else Reverse(s[1..]) + [s[0]]
  }

  /** The list `reconstruct_path` returns: the visited keys and `start`, reversed. */
  ghost function Reconstructed(cameFrom: map<Cell, Cell>, rank: map<Cell, int>, current: Cell, start: Cell): seq<Cell>
    requires Ranked(cameFrom, rank)
  {
    Reverse(Hops(cameFrom, rank, current) + [start])
  }

  /**
   * The reconstructed list begins with `start`; it ends with `current` when
   * `current` is a key and is `[start]` otherwise; it has one element per hop
   * plus one; after the first element each cell is the predecessor-map image
   * of the next, and the second element's predecessor lies outside the map.
   */
  lemma ReconstructedShape(cameFrom: map<Cell, Cell>, rank: map<Cell, int>, current: Cell, start: Cell)
    requires Ranked(cameFrom, rank)
    ensures var path := Reconstructed(cameFrom, rank, current, start);
      && |path| == |Hops(cameFrom, rank, current)| + 1
      && path[0] == start
      && (current in cameFrom ==> path[|path| - 1] == current)
      && (current !in cameFrom ==> path == [start])
      && (forall i :: 1 <= i < |path| ==> path[i] in cameFrom)
      && (forall i :: 1 <= i < |path| - 1 ==> cameFrom[path[i + 1]] == path[i])
      && (|path| > 1 ==> cameFrom[path[1]] !in cameFrom)
  {
    HopsAreLinks(cameFrom, rank, current);
    var h := Hops(cameFrom, rank, current);
    var path := Reconstructed(cameFrom, rank, current, start);
    var n := |h|;
    forall i | 1 <= i < |path| ensures path[i] == h[n - i] {
    }
    forall i | 1 <= i < |path| - 1 ensures cameFrom[path[i + 1]] == path[i] {
      assert path[i] == h[n - i] && path[i + 1] == h[n - i - 1];
    }
    if current !in cameFrom {
      assert h == [];
    }
  }

  /** The loop of `reconstruct_path`: append each visited key, then `start`, then reverse in place. */
  method ReconstructPath(cameFrom: map<Cell, Cell>, current: Cell, start: Cell, ghost rank: map<Cell, int>)
    returns (path: seq<Cell>)
    requires Ranked(cameFrom, rank)
    ensures path == Reconstructed(cameFrom, rank, current, start)
    ensures path[0] == start
    ensures current in cameFrom ==> path[|path| - 1] == current
    ensures current !in cameFrom ==> path == [start]
    ensures forall i :: 1 <= i < |path| ==> path[i] in cameFrom
    ensures forall i :: 1 <= i < |path| - 1 ==> cameFrom[path[i + 1]] == path[i]
  {
    path := [];
    var cur := current;
    while cur in cameFrom
      invariant path + Hops(cameFrom, rank, cur) == Hops(cameFrom, rank, current)
      decreases if cur in cameFrom then rank[cur] + 1 else 0
    {
      assert Hops(cameFrom, rank, cur) == [cur] + Hops(cameFrom, rank, cameFrom[cur]);
      path := path + [cur];
      cur := cameFrom[cur];
    }
    path := path + [start];
    path := Reverse(path);
    ReconstructedShape(cameFrom, rank, current, start);
  }
}
