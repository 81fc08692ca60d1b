/**
 Nodes kept in rows of different lengths: their places, and what it means that no
 node has two of them.
 */
module Places {

  ghost function Members<X>(s: seq<X>): set<X> {
    set x | x in s
  }

  ghost predicate NoDuplicates<X>(s: seq<X>) {
    forall i, j :: 0 <= i < j < |s| ==> s[i] != s[j]
  }

  ghost predicate IsPlace<X>(ts: seq<seq<X>>, c: int, r: int) {
    0 <= c < |ts| && 0 <= r < |ts[c]|
  }

  /** No node occurs twice. */
  ghost predicate Distinct<X>(ts: seq<seq<X>>) {
    forall c, r, c', r' {:trigger IsPlace(ts, c, r), IsPlace(ts, c', r')} ::
      IsPlace(ts, c, r) && IsPlace(ts, c', r') && ts[c][r] == ts[c'][r'] ==> c == c' && r == r'
  }

  lemma SamePlace<X>(ts: seq<seq<X>>, c: nat, r: nat, c': nat, r': nat)
    requires Distinct(ts) && c < |ts| && r < |ts[c]| && c' < |ts| && r' < |ts[c']|
    ensures ts[c][r] == ts[c'][r'] <==> c == c' && r == r'
  {
    assert IsPlace(ts, c, r) && IsPlace(ts, c', r');
  }

  ghost function AllNodes<X>(ts: seq<seq<X>>): set<X> {
    set c, r | 0 <= c < |ts| && 0 <= r < |ts[c]| :: ts[c][r]
  }

  lemma InAllNodes<X>(ts: seq<seq<X>>, c: nat, r: nat)
    requires c < |ts| && r < |ts[c]|
    ensures ts[c][r] in AllNodes(ts)
  {
  }

  /** The nodes of the rows before `c` and those of row `c` before position `j`. */
  ghost function Below<X>(ts: seq<seq<X>>, c: nat, j: nat): set<X> {
    set b, r | 0 <= b < |ts| && 0 <= r < |ts[b]| && (b < c || (b == c && r < j)) :: ts[b][r]
  }

  lemma BelowStep<X>(ts: seq<seq<X>>, c: nat, j: nat)
    requires Distinct(ts) && c < |ts| && j < |ts[c]|
    ensures Below(ts, c, j + 1) == Below(ts, c, j) + {ts[c][j]}
    ensures ts[c][j] !in Below(ts, c, j)
  {
    forall b, r | 0 <= b < |ts| && 0 <= r < |ts[b]| && ts[b][r] == ts[c][j]
      ensures b == c && r == j
    {
      SamePlace(ts, b, r, c, j);
    }
    assert ts[c][j] in Below(ts, c, j + 1);
  }

  lemma BelowPart<X>(ts: seq<seq<X>>, c: nat, j: nat)
    ensures Below(ts, c, j) <= AllNodes(ts)
  {
  }

  lemma BelowRow<X>(ts: seq<seq<X>>, c: nat)
    requires c < |ts|
    ensures Below(ts, c, |ts[c]|) == Below(ts, c + 1, 0)
  {
  }

  lemma BelowAll<X>(ts: seq<seq<X>>)
    ensures Below(ts, 0, 0) == {} && Below(ts, |ts|, 0) == AllNodes(ts)
  {
  }
}
