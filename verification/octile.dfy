/**
 * `octile_distance`: max(dx, dy) + (1 - 1/2) * min(dx, dy). All scores of the
 * searches are multiples of one half, so the model counts in half-steps:
 * a distance d is represented by the integer 2 * d.
 */
module Octile {
  import opened Grid

  function Abs(x: int): nat {
    if x < 0 then -x else x
  }

  function Max(a: int, b: int): int {
    if a < b then b else a
  }

  function Min(a: int, b: int): int {
    if a < b then a else b
  }

  /** Twice the octile distance between two cells. */
  function OctileTwice(a: Cell, b: Cell): (d: nat)
    ensures d as real / 2.0 ==
      Max(Abs(a.row - b.row), Abs(a.col - b.col)) as real
      + (1.0 - 1.0 / 2.0) * Min(Abs(a.row - b.row), Abs(a.col - b.col)) as real
  {
    var dx := Abs(a.row - b.row);
    var dy := Abs(a.col - b.col);
    2 * Max(dx, dy) + Min(dx, dy)
  }

  lemma OctileSymmetric(a: Cell, b: Cell)
    ensures OctileTwice(a, b) == OctileTwice(b, a)
  {
  }

  lemma OctileZeroIffSame(a: Cell, b: Cell)
    ensures OctileTwice(a, b) == 0 <==> a == b
  {
  }

  /** One orthogonal step costs 1 (two half-steps), one diagonal step 1.5 (three). */
  lemma OctileOfNeighbour(a: Cell, b: Cell)
    requires Adjacent(a, b)
    ensures OctileTwice(a, b) == if Diagonal(a, b) then 3 else 2
  {
  }

  /** Twice the octile distance is the sum of the L1 and the L-infinity norms. */
  lemma OctileAsNorms(a: Cell, b: Cell)
    ensures OctileTwice(a, b) ==
      Abs(a.row - b.row) + Abs(a.col - b.col) + Max(Abs(a.row - b.row), Abs(a.col - b.col))
  {
  }

  lemma MaxAbsSubadditive(x1: int, y1: int, x2: int, y2: int)
    ensures Max(Abs(x1 + x2), Abs(y1 + y2)) <= Max(Abs(x1), Abs(y1)) + Max(Abs(x2), Abs(y2))
  {
  }

  /** Being a sum of two norms, the octile distance obeys the triangle inequality. */
  lemma OctileTriangle(a: Cell, b: Cell, c: Cell)
    ensures OctileTwice(a, c) <= OctileTwice(a, b) + OctileTwice(b, c)
  {
    var x1, y1 := a.row - b.row, a.col - b.col;
    var x2, y2 := b.row - c.row, b.col - c.col;
    assert a.row - c.row == x1 + x2 && a.col - c.col == y1 + y2;
    OctileAsNorms(a, b);
    OctileAsNorms(b, c);
    OctileAsNorms(a, c);
    MaxAbsSubadditive(x1, y1, x2, y2);
  }

  /** A sequence of cells in which each consecutive pair is adjacent. */
  predicate IsWalk(p: seq<Cell>) {
    forall i :: 0 <= i < |p| - 1 ==> Adjacent(p[i], p[i + 1])
  }

  /** Sum of a step cost along consecutive pairs of a sequence of cells. */
  function PathCost(cost: (Cell, Cell) -> nat, p: seq<Cell>): nat {
    if |p| < 2 then 0 else cost(p[0], p[1]) + PathCost(cost, p[1..])
  }

  /**
   * The octile heuristic never overestimates: the octile-costed length of any
   * walk is at least the octile distance between its ends.
   */
  lemma {:induction false} OctileAdmissible(p: seq<Cell>)
    requires |p| > 0 && IsWalk(p)
    ensures OctileTwice(p[0], p[|p| - 1]) <= PathCost(OctileTwice, p)
  {
    if |p| > 1 {
      var q := p[1..];
      assert IsWalk(q) by {
        forall i | 0 <= i < |q| - 1 ensures Adjacent(q[i], q[i + 1]) {
          assert q[i] == p[i + 1] && q[i + 1] == p[i + 2];
        }
      }
      OctileAdmissible(q);
      assert q[0] == p[1] && q[|q| - 1] == p[|p| - 1];
      var cost: (Cell, Cell) -> nat := OctileTwice;
      assert PathCost(cost, p) == cost(p[0], p[1]) + PathCost(cost, q);
      assert cost(p[0], p[1]) == OctileTwice(p[0], p[1]);
      OctileTriangle(p[0], p[1], p[|p| - 1]);
    }
  }
}
