/**
 The shape of a skip list, apart from its pointers. Column 0 holds the head
 nodes and column c > 0 the nodes of the c-th element, each from the bottom row
 up. Row r links the columns taller than r.
 */
module Towers {
  import opened Basics
  import opened Places

  /** The next column after `c` that reaches row `r`, or the number of columns. */
  function NextCol<X>(ts: seq<seq<X>>, c: nat, r: nat): (d: nat)
    requires c < |ts|
    ensures c < d <= |ts|
    ensures d < |ts| ==> r < |ts[d]|
    ensures forall k :: c < k < d ==> |ts[k]| <= r
    decreases |ts| - c
  {
    if c + 1 == |ts| || r < |ts[c + 1]| then c + 1 else NextCol(ts, c + 1, r)
  }

  lemma NextColIs<X>(ts: seq<seq<X>>, c: nat, r: nat, d: nat)
    requires c < d <= |ts|
    requires d < |ts| ==> r < |ts[d]|
    requires forall k :: c < k < d ==> |ts[k]| <= r
    ensures NextCol(ts, c, r) == d
  {
  }

  // ---------- a column grows by one node ----------

  function Grown<X>(ts: seq<seq<X>>, k: nat, x: X): seq<seq<X>>
    requires k < |ts|
  {
    ts[k := ts[k] + [x]]
  }

  lemma GrownNext<X>(ts: seq<seq<X>>, k: nat, x: X, c: nat, r: nat)
    requires k < |ts| && c < |ts|
    ensures NextCol(Grown(ts, k, x), c, r) ==
            if r == |ts[k]| && c < k < NextCol(ts, c, r) then k else NextCol(ts, c, r)
  {
    var ts' := Grown(ts, k, x);
    assert forall j :: 0 <= j < |ts| && j != k ==> ts'[j] == ts[j];
    NextColIs(ts', c, r, if r == |ts[k]| && c < k < NextCol(ts, c, r) then k else NextCol(ts, c, r));
  }

  lemma GrownDistinct<X>(ts: seq<seq<X>>, k: nat, x: X)
    requires k < |ts| && Distinct(ts) && x !in AllNodes(ts)
    ensures Distinct(Grown(ts, k, x))
    ensures AllNodes(Grown(ts, k, x)) == AllNodes(ts) + {x}
  {
    var ts' := Grown(ts, k, x);
    assert ts'[k][|ts[k]|] == x;
    forall c, r, c', r' | IsPlace(ts', c, r) && IsPlace(ts', c', r') && ts'[c][r] == ts'[c'][r']
      ensures c == c' && r == r'
    {
      if IsPlace(ts, c, r) && IsPlace(ts, c', r') {
        SamePlace(ts, c, r, c', r');
      }
    }
    forall n | n in AllNodes(ts) + {x}
      ensures n in AllNodes(ts')
    {
      if n in AllNodes(ts) {
        var c, r :| 0 <= c < |ts| && 0 <= r < |ts[c]| && ts[c][r] == n;
        assert ts'[c][r] == n;
      }
    }
  }

  lemma GrownTwice<X>(ts: seq<seq<X>>, k: nat, x: X, y: X)
    requires 0 < k < |ts|
    ensures |Grown(ts, 0, x)| == |Grown(Grown(ts, 0, x), k, y)| == |ts|
    ensures Grown(Grown(ts, 0, x), k, y)[k] == ts[k] + [y]
  {
  }

  // ---------- an empty column appears ----------

  function Opened<X>(ts: seq<seq<X>>, k: nat): seq<seq<X>>
    requires k <= |ts|
  {
    ts[..k] + [[]] + ts[k..]
  }

  lemma OpenedNext<X>(ts: seq<seq<X>>, k: nat, c: nat, r: nat)
    requires k <= |ts| && c <= |ts| && c != k
    ensures NextCol(Opened(ts, k), c, r) ==
            var d := NextCol(ts, if c < k then c else c - 1, r);
            if d < k then d else d + 1
  {
    var ts' := Opened(ts, k);
    var d := NextCol(ts, if c < k then c else c - 1, r);
    assert forall j :: 0 <= j < k ==> ts'[j] == ts[j];
    assert forall j {:trigger ts'[j]} :: k < j < |ts'| ==> ts'[j] == ts[j - 1];
    NextColIs(ts', c, r, if d < k then d else d + 1);
  }

  /** Column `c` under its number once an empty column `k` is there. */
  function Shifted(c: nat, k: nat): nat {
    if c < k then c else c + 1
  }

  lemma OpenedAt<X>(ts: seq<seq<X>>, k: nat, c: nat)
    requires k <= |ts| && c <= |ts|
    ensures c != k ==> Opened(ts, k)[c] == ts[if c < k then c else c - 1]
    ensures c < |ts| ==> Opened(ts, k)[Shifted(c, k)] == ts[c]
    ensures Opened(ts, k)[k] == []
  {
  }

  lemma OpenedNodes<X>(ts: seq<seq<X>>, k: nat)
    requires k <= |ts|
    ensures AllNodes(Opened(ts, k)) == AllNodes(ts)
  {
    var ts' := Opened(ts, k);
    forall n | n in AllNodes(ts)
      ensures n in AllNodes(ts')
    {
      var c, r :| 0 <= c < |ts| && 0 <= r < |ts[c]| && ts[c][r] == n;
      OpenedAt(ts, k, c);
      assert ts'[Shifted(c, k)][r] == n;
    }
    forall n | n in AllNodes(ts')
      ensures n in AllNodes(ts)
    {
      var c, r :| 0 <= c < |ts'| && 0 <= r < |ts'[c]| && ts'[c][r] == n;
      OpenedAt(ts, k, c);
    }
  }

  lemma OpenedDistinct<X>(ts: seq<seq<X>>, k: nat)
    requires k <= |ts| && Distinct(ts)
    ensures Distinct(Opened(ts, k))
  {
    var ts' := Opened(ts, k);
    forall c, r, c', r' | IsPlace(ts', c, r) && IsPlace(ts', c', r') && ts'[c][r] == ts'[c'][r']
      ensures c == c' && r == r'
    {
      OpenedAt(ts, k, c);
      OpenedAt(ts, k, c');
      SamePlace(ts, if c < k then c else c - 1, r, if c' < k then c' else c' - 1, r');
    }
  }

  lemma ClosedDistinct<X>(ts: seq<seq<X>>, k: nat)
    requires k <= |ts| && Distinct(Opened(ts, k))
    ensures Distinct(ts)
  {
    var ts' := Opened(ts, k);
    forall c, r, c', r' | IsPlace(ts, c, r) && IsPlace(ts, c', r') && ts[c][r] == ts[c'][r']
      ensures c == c' && r == r'
    {
      OpenedAt(ts, k, c);
      OpenedAt(ts, k, c');
      SamePlace(ts', Shifted(c, k), r, Shifted(c', k), r');
    }
  }

  // ---------- the highest node of a column goes ----------

  /** The column that row `r` visits just before column `k`. */
  function PrevCol<X>(ts: seq<seq<X>>, k: nat, r: nat): (pc: nat)
    requires 0 < k <= |ts| && r < |ts[0]|
    ensures pc < k && r < |ts[pc]| && k <= NextCol(ts, pc, r)
    ensures k < |ts| && r < |ts[k]| ==> NextCol(ts, pc, r) == k
  {
    if r < |ts[k - 1]| then k - 1 else PrevCol(ts, k - 1, r)
  }

  function Shrunk<X>(ts: seq<seq<X>>, k: nat): seq<seq<X>>
    requires k < |ts| && ts[k] != []
  {
    ts[k := ts[k][..|ts[k]| - 1]]
  }

  lemma ShrunkNext<X>(ts: seq<seq<X>>, k: nat, c: nat, q: nat)
    requires k < |ts| && ts[k] != [] && c < |ts|
    ensures NextCol(Shrunk(ts, k), c, q) ==
            if q + 1 == |ts[k]| && NextCol(ts, c, q) == k then NextCol(ts, k, q) else NextCol(ts, c, q)
  {
    var ts' := Shrunk(ts, k);
    assert forall j :: 0 <= j < |ts| && j != k ==> ts'[j] == ts[j];
    NextColIs(ts', c, q, if q + 1 == |ts[k]| && NextCol(ts, c, q) == k then NextCol(ts, k, q) else NextCol(ts, c, q));
  }

  lemma ShrunkDistinct<X>(ts: seq<seq<X>>, k: nat)
    requires k < |ts| && ts[k] != [] && Distinct(ts)
    ensures Distinct(Shrunk(ts, k))
    ensures AllNodes(Shrunk(ts, k)) == AllNodes(ts) - {ts[k][|ts[k]| - 1]}
  {
    var ts', r := Shrunk(ts, k), |ts[k]| - 1;
    assert forall c, q {:trigger ts'[c][q]} :: 0 <= c < |ts'| && 0 <= q < |ts'[c]| ==> q < |ts[c]| && ts'[c][q] == ts[c][q];
    forall c, q, c', q' | IsPlace(ts', c, q) && IsPlace(ts', c', q') && ts'[c][q] == ts'[c'][q']
      ensures c == c' && q == q'
    {
      SamePlace(ts, c, q, c', q');
    }
    forall c, q | IsPlace(ts', c, q)
      ensures ts'[c][q] != ts[k][r]
    {
      SamePlace(ts, c, q, k, r);
    }
    forall n | n in AllNodes(ts) && n != ts[k][r]
      ensures n in AllNodes(ts')
    {
      var c, q :| 0 <= c < |ts| && 0 <= q < |ts[c]| && ts[c][q] == n;
      assert ts'[c][q] == n;
    }
  }

  // ---------- a whole column goes ----------

  lemma DroppedNext<X>(ts: seq<seq<X>>, k: nat, c: nat, r: nat)
    requires c < k < |ts| && NextCol(ts, c, r) != k
    ensures NextCol(Dropped(ts, k), c, r) ==
            var d := NextCol(ts, c, r); if d < k then d else d - 1
  {
    var ts' := Dropped(ts, k);
    var d := NextCol(ts, c, r);
    assert forall j :: 0 <= j < k ==> ts'[j] == ts[j];
    assert forall j {:trigger ts'[j]} :: k <= j < |ts'| ==> ts'[j] == ts[j + 1];
    NextColIs(ts', c, r, if d < k then d else d - 1);
  }

  // ---------- a column cut down to some height ----------

  function Cut<X>(ts: seq<seq<X>>, c: nat, h: nat): seq<seq<X>>
    requires c < |ts| && h <= |ts[c]|
  {
    ts[c := ts[c][..h]]
  }

  lemma CutSize<X>(ts: seq<seq<X>>, c: nat, h: nat)
    requires c < |ts| && h <= |ts[c]|
    ensures |Cut(ts, c, h)| == |ts|
  {
  }

  lemma CutStep<X>(ts: seq<seq<X>>, c: nat, h: nat)
    requires c < |ts| && 0 < h <= |ts[c]|
    ensures Shrunk(Cut(ts, c, h), c) == Cut(ts, c, h - 1)
  {
    assert ts[c][..h][..h - 1] == ts[c][..h - 1];
  }

  lemma CutFull<X>(ts: seq<seq<X>>, c: nat)
    requires c < |ts|
    ensures Cut(ts, c, |ts[c]|) == ts
  {
    assert ts[c][..|ts[c]|] == ts[c];
  }

  lemma CutDropped<X>(ts: seq<seq<X>>, c: nat)
    requires c < |ts|
    ensures Opened(Dropped(ts, c), c) == Cut(ts, c, 0)
  {
  }
}
