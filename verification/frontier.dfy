/**
 * The open set of the heap search: a list of `(f, cell)` entries. `heapq`
 * compares the tuples, so a pop takes the lexicographic minimum of
 * (f, row, col); the heap arrangement of the list itself is not modelled.
 */
module Frontier {
  import opened Grid

  /** One heap entry `(f, (row, col))`, f in half-steps. */
  datatype Entry = Entry(f: int, cell: Cell)

  /** Python's tuple order on `(f, (row, col))`. */
  predicate LexLe(a: Entry, b: Entry) {
    a.f < b.f || (a.f == b.f && (a.cell.row < b.cell.row || (a.cell.row == b.cell.row && a.cell.col <= b.cell.col)))
  }

  /** The tuple order is total and antisymmetric: ties are broken deterministically. */
  lemma LexLeTotalOrder(a: Entry, b: Entry, c: Entry)
    ensures LexLe(a, b) || LexLe(b, a)
    ensures LexLe(a, b) && LexLe(b, a) ==> a == b
    ensures LexLe(a, b) && LexLe(b, c) ==> LexLe(a, c)
  {
  }

  /** `heappop` of a non-empty list: the index of an entry no larger than any other. */
  function MinIndex(s: seq<Entry>): (k: nat)
    requires |s| > 0
    ensures k < |s|
    ensures forall j :: 0 <= j < |s| ==> LexLe(s[k], s[j])
  {
    if |s| == 1 then 0
    else
      var k' := MinIndex(s[1..]);
      if LexLe(s[0], s[1 + k']) then 0 else 1 + k'
  }

  /** The list left after removing the entry at index k. */
  function RemoveAt(s: seq<Entry>, k: nat): (r: seq<Entry>)
    requires k < |s|
    ensures multiset(r) == multiset(s) - multiset{s[k]}
    ensures |r| == |s| - 1
  {
    assert s == s[..k] + [s[k]] + s[k + 1..];
    s[..k] + s[k + 1..]
  }

  /** Whatever index is chosen, the popped entry is the unique minimum. */
  lemma PoppedEntryIsDetermined(s: seq<Entry>, k: nat, e: Entry)
    requires k < |s| && e in s
    requires forall j :: 0 <= j < |s| ==> LexLe(s[k], s[j])
    requires forall j :: 0 <= j < |s| ==> LexLe(e, s[j])
    ensures e == s[k]
  {
    var i :| 0 <= i < |s| && s[i] == e;
    LexLeTotalOrder(e, s[k], s[k]);
  }

  /** The cells that have an entry in the list. */
  function CellsOf(s: seq<Entry>): set<Cell> {
    set e | e in s :: e.cell
  }

  lemma CellsOfAppend(s: seq<Entry>, e: Entry)
    ensures CellsOf(s + [e]) == CellsOf(s) + {e.cell}
  {
    forall x | x in s + [e] ensures x in s || x == e { }
  }

  /** A list holding every entry of another holds every one of its cells. */
  lemma CellsOfGrows(s: seq<Entry>, t: seq<Entry>)
    requires multiset(s) <= multiset(t)
    ensures CellsOf(s) <= CellsOf(t)
  {
    forall c | c in CellsOf(s) ensures c in CellsOf(t) {
      var e :| e in s && e.cell == c;
      assert e in multiset(s);
    }
  }
}
