/**
 The nodes of a skip list and the one-node changes made to their links. The
 proofs work on views: maps that hold the link fields of a set of nodes.
 */
module SkipNodes {
  import opened Basics
  import opened Places
  import opened Towers

  class Node<T> {
    var data: Option<T>
    var next: Node?<T>
    var prev: Node?<T>
    var down: Node?<T>
    var up: Node?<T>

    constructor ()
    {
      data, next, prev, down, up := None, null, null, null, null;
    }
  }

  datatype Links<T> = Links(data: Option<T>, next: Node?<T>, prev: Node?<T>, down: Node?<T>, up: Node?<T>)

  type View<T> = map<Node<T>, Links<T>>

  ghost function LinksOf<T>(n: Node<T>): Links<T>
    reads n
  {
    Links(n.data, n.next, n.prev, n.down, n.up)
  }

  ghost function ViewOf<T>(ns: set<Node<T>>): View<T>
    reads ns
  {
    map n | n in ns :: LinksOf(n)
  }

  lemma ViewKeys<T>(ns: set<Node<T>>)
    ensures ViewOf(ns).Keys == ns
  {
  }

  /**
   The links of the node at column `c` and row `r`. The column `open` is being taken
   apart: the `up` link of its highest node is stale.
   */
  ghost predicate NodeLinked<T>(ts: seq<seq<Node<T>>>, v: View<T>, c: nat, r: nat, open: int)
    requires c < |ts| && r < |ts[c]|
  {
    var n := ts[c][r];
    var d := NextCol(ts, c, r);
    && n in v
    && v[n].next == (if d < |ts| then ts[d][r] else null)
    && (d < |ts| ==> ts[d][r] in v && v[ts[d][r]].prev == n)
    && v[n].down == (if r == 0 then null else ts[c][r - 1])
    && (r + 1 < |ts[c]| ==> v[n].up == ts[c][r + 1])
    && (r + 1 == |ts[c]| && c != open ==> v[n].up == null)
    && (c == 0 ==> v[n].prev == null)
  }

  ghost predicate Linked<T>(ts: seq<seq<Node<T>>>, v: View<T>, open: int)
  {
    forall c, r {:trigger NodeLinked(ts, v, c, r, open)} ::
      0 <= c < |ts| && 0 <= r < |ts[c]| ==> NodeLinked(ts, v, c, r, open)
  }

  // ---------- a node is put in ----------

  /** Column `pc` is where row `r` passes column `k`. */
  ghost predicate Passes<X>(ts: seq<seq<X>>, pc: nat, k: nat, r: nat)
  {
    pc < k < |ts| && r < |ts[pc]| && k < NextCol(ts, pc, r)
  }

  function TopOf<T>(column: seq<Node<T>>): Node?<T> {
    if column == [] then null else column[|column| - 1]
  }

  /** What row `r` holds after column `pc`. */
  function After<T>(ts: seq<seq<Node<T>>>, pc: nat, r: nat): Node?<T>
    requires pc < |ts|
  {
    var d := NextCol(ts, pc, r);
    if d < |ts| then ts[d][r] else null
  }

  /** `v'` is `v` with `tmp` put between `m` and `nx` and above `p`. */
  ghost predicate Spliced<T>(v: View<T>, v': View<T>, m: Node<T>, tmp: Node<T>, p: Node?<T>, nx: Node?<T>)
  {
    && v'.Keys == v.Keys + {tmp}
    && v'[tmp].next == nx && v'[tmp].prev == m && v'[tmp].down == p && v'[tmp].up == null
    && forall n :: n in v && n != tmp ==>
         v'[n] == Links(v[n].data,
                        if n == m then tmp else v[n].next,
                        if n == nx then tmp else v[n].prev,
                        v[n].down,
                        if n == p then tmp else v[n].up)
  }

  lemma SplicedNode<T>(ts: seq<seq<Node<T>>>, v: View<T>, v': View<T>, pc: nat, k: nat, tmp: Node<T>, c: nat, q: nat)
    requires k < |ts| && Distinct(ts) && tmp !in AllNodes(ts) && Passes(ts, pc, k, |ts[k]|)
    requires Spliced(v, v', ts[pc][|ts[k]|], tmp, TopOf(ts[k]), After(ts, pc, |ts[k]|))
    requires c < |ts| && q < |ts[c]| && NodeLinked(ts, v, c, q, -1)
    ensures NodeLinked(Grown(ts, k, tmp), v', c, q, -1)
  {
    var r := |ts[k]|;
    GrownNext(ts, k, tmp, c, q);
    assert Grown(ts, k, tmp)[c][q] == ts[c][q];
    SamePlace(ts, c, q, pc, r);
    if r > 0 {
      SamePlace(ts, c, q, k, r - 1);
    }
    var nx := NextCol(ts, pc, r);
    if nx < |ts| {
      SamePlace(ts, c, q, nx, r);
      if NextCol(ts, c, q) < |ts| {
        SamePlace(ts, NextCol(ts, c, q), q, nx, r);
      }
    }
  }

  lemma SplicedTop<T>(ts: seq<seq<Node<T>>>, v: View<T>, v': View<T>, pc: nat, k: nat, tmp: Node<T>)
    requires k < |ts| && Distinct(ts) && tmp !in AllNodes(ts) && Passes(ts, pc, k, |ts[k]|)
    requires Spliced(v, v', ts[pc][|ts[k]|], tmp, TopOf(ts[k]), After(ts, pc, |ts[k]|))
    requires NodeLinked(ts, v, pc, |ts[k]|, -1)
    ensures NodeLinked(Grown(ts, k, tmp), v', k, |ts[k]|, -1)
  {
    var r := |ts[k]|;
    GrownNext(ts, k, tmp, k, r);
    NextColIs(ts, k, r, NextCol(ts, pc, r));
  }

  /** Splicing the new node into its row keeps all links in order. */
  lemma SplicedLinked<T>(ts: seq<seq<Node<T>>>, v: View<T>, v': View<T>, pc: nat, k: nat, tmp: Node<T>)
    requires k < |ts| && Distinct(ts) && tmp !in AllNodes(ts) && Passes(ts, pc, k, |ts[k]|)
    requires Spliced(v, v', ts[pc][|ts[k]|], tmp, TopOf(ts[k]), After(ts, pc, |ts[k]|))
    requires Linked(ts, v, -1)
    ensures Linked(Grown(ts, k, tmp), v', -1)
  {
    var ts' := Grown(ts, k, tmp);
    forall c, q | 0 <= c < |ts'| && 0 <= q < |ts'[c]|
      ensures NodeLinked(ts', v', c, q, -1)
    {
      if c == k && q == |ts[k]| {
        assert NodeLinked(ts, v, pc, |ts[k]|, -1);
        SplicedTop(ts, v, v', pc, k, tmp);
      } else {
        assert NodeLinked(ts, v, c, q, -1);
        SplicedNode(ts, v, v', pc, k, tmp, c, q);
      }
    }
  }

  // ---------- the highest node of a column is taken out ----------

  /** `v'` is `v` with the node between `m` and `nx` bypassed. */
  ghost predicate Bypassed<T>(v: View<T>, v': View<T>, m: Node<T>, p: Node<T>, nx: Node?<T>)
  {
    && v'.Keys == v.Keys
    && forall n :: n in v && n != p ==>
         v'[n] == v[n].(next := if n == m then nx else v[n].next, prev := if n == nx then m else v[n].prev)
  }

  lemma BypassedNode<T>(ts: seq<seq<Node<T>>>, v: View<T>, v': View<T>, k: nat, c: nat, q: nat, open: int)
    requires 0 < k < |ts| && ts[k] != [] && |ts[k]| <= |ts[0]| && Distinct(ts) && (open == -1 || open == k)
    requires var r := |ts[k]| - 1;
             Bypassed(v, v', ts[PrevCol(ts, k, r)][r], ts[k][r], After(ts, k, r))
    requires c < |ts| && q < |ts[c]| && !(c == k && q + 1 == |ts[k]|)
    requires NodeLinked(ts, v, c, q, open) && NodeLinked(ts, v, k, |ts[k]| - 1, open)
    ensures NodeLinked(Shrunk(ts, k), v', c, q, k)
  {
    var r := |ts[k]| - 1;
    var pc := PrevCol(ts, k, r);
    ShrunkNext(ts, k, c, q);
    assert Shrunk(ts, k)[c][q] == ts[c][q];
    SamePlace(ts, c, q, pc, r);
    SamePlace(ts, c, q, k, r);
    var d := NextCol(ts, c, q);
    if d < |ts| {
      SamePlace(ts, d, q, k, r);
    }
    var nx := NextCol(ts, k, r);
    if nx < |ts| {
      SamePlace(ts, c, q, nx, r);
      SamePlace(ts, k, r, nx, r);
      if d < |ts| {
        SamePlace(ts, d, q, nx, r);
      }
    }
    if d == k && q == r {
      NextColIs(ts, c, q, k);
      assert c == pc;
    }
  }

  /** Bypassing a node in its row keeps the other links in order. */
  lemma BypassedLinked<T>(ts: seq<seq<Node<T>>>, v: View<T>, v': View<T>, k: nat, open: int)
    requires 0 < k < |ts| && ts[k] != [] && |ts[k]| <= |ts[0]| && Distinct(ts) && (open == -1 || open == k)
    requires var r := |ts[k]| - 1;
             Bypassed(v, v', ts[PrevCol(ts, k, r)][r], ts[k][r], After(ts, k, r))
    requires Linked(ts, v, open)
    ensures Linked(Shrunk(ts, k), v', k)
  {
    var ts' := Shrunk(ts, k);
    forall c, q | 0 <= c < |ts'| && 0 <= q < |ts'[c]|
      ensures NodeLinked(ts', v', c, q, k)
    {
      assert NodeLinked(ts, v, c, q, open);
      assert NodeLinked(ts, v, k, |ts[k]| - 1, open);
      BypassedNode(ts, v, v', k, c, q, open);
    }
  }

  // ---------- columns without nodes ----------

  lemma OpenedNode<T>(ts: seq<seq<Node<T>>>, v: View<T>, k: nat, c: nat, q: nat)
    requires 0 < k <= |ts| && c < |ts| && q < |ts[c]|
    ensures NodeLinked(ts, v, c, q, -1) <==> NodeLinked(Opened(ts, k), v, Shifted(c, k), q, -1)
  {
    OpenedNext(ts, k, Shifted(c, k), q);
    var d := NextCol(ts, c, q);
    assert Opened(ts, k)[Shifted(c, k)] == ts[c];
    if d < |ts| {
      assert Opened(ts, k)[Shifted(d, k)] == ts[d];
    }
  }

  /** A column without nodes comes unnoticed. */
  lemma OpenedLinked<T>(ts: seq<seq<Node<T>>>, v: View<T>, k: nat)
    requires 0 < k <= |ts| && Linked(ts, v, -1)
    ensures Linked(Opened(ts, k), v, -1)
  {
    var ts' := Opened(ts, k);
    forall c, q | 0 <= c < |ts'| && 0 <= q < |ts'[c]|
      ensures NodeLinked(ts', v, c, q, -1)
    {
      var b := if c < k then c else c - 1;
      assert NodeLinked(ts, v, b, q, -1);
      OpenedNode(ts, v, k, b, q);
    }
  }

  /** A column without nodes goes unnoticed. */
  lemma ClosedLinked<T>(ts: seq<seq<Node<T>>>, v: View<T>, k: nat)
    requires 0 < k <= |ts| && Linked(Opened(ts, k), v, k)
    ensures Linked(ts, v, -1)
  {
    forall c, q | 0 <= c < |ts| && 0 <= q < |ts[c]|
      ensures NodeLinked(ts, v, c, q, -1)
    {
      assert NodeLinked(Opened(ts, k), v, Shifted(c, k), q, k);
      OpenedNode(ts, v, k, c, q);
    }
  }

  // ---------- rows come and go at the top ----------

  /** `v'` is `v` with the head node `m` put above `top`. */
  ghost predicate Raised<T>(v: View<T>, v': View<T>, m: Node<T>, top: Node?<T>)
  {
    && v'.Keys == v.Keys + {m}
    && v'[m] == Links(None, null, null, top, null)
    && forall n :: n in v && n != m ==> v'[n] == v[n].(up := if n == top then m else v[n].up)
  }

  lemma RaisedLinked<T>(ts: seq<seq<Node<T>>>, v: View<T>, v': View<T>, m: Node<T>)
    requires ts != [] && Distinct(ts) && m !in AllNodes(ts) && Linked(ts, v, -1)
    requires forall c :: 0 < c < |ts| ==> |ts[c]| <= |ts[0]|
    requires Raised(v, v', m, TopOf(ts[0]))
    ensures Linked(Grown(ts, 0, m), v', -1)
  {
    var ts' := Grown(ts, 0, m);
    forall c, q | 0 <= c < |ts'| && 0 <= q < |ts'[c]|
      ensures NodeLinked(ts', v', c, q, -1)
    {
      GrownNext(ts, 0, m, c, q);
      if c == 0 && q == |ts[0]| {
        NextColIs(ts', 0, q, |ts|);
      } else {
        assert NodeLinked(ts, v, c, q, -1);
        assert ts'[c][q] == ts[c][q];
        if |ts[0]| > 0 {
          SamePlace(ts, c, q, 0, |ts[0]| - 1);
        }
      }
    }
  }

  /** `v'` is `v` with the head node below `p` made the top. */
  ghost predicate Lowered<T>(v: View<T>, v': View<T>, p: Node<T>, top: Node?<T>)
  {
    && v'.Keys == v.Keys
    && forall n :: n in v && n != p ==> v'[n] == v[n].(up := if n == top then null else v[n].up)
  }

  lemma LoweredLinked<T>(ts: seq<seq<Node<T>>>, v: View<T>, v': View<T>)
    requires ts != [] && ts[0] != [] && Distinct(ts) && Linked(ts, v, -1)
    requires NextCol(ts, 0, |ts[0]| - 1) == |ts|
    requires Lowered(v, v', ts[0][|ts[0]| - 1], TopOf(Shrunk(ts, 0)[0]))
    ensures Linked(Shrunk(ts, 0), v', -1)
  {
    var ts' := Shrunk(ts, 0);
    var h := |ts[0]| - 1;
    forall c, q | 0 <= c < |ts'| && 0 <= q < |ts'[c]|
      ensures NodeLinked(ts', v', c, q, -1)
    {
      ShrunkNext(ts, 0, c, q);
      assert NodeLinked(ts, v, c, q, -1);
      assert ts'[c][q] == ts[c][q];
      SamePlace(ts, c, q, 0, h);
      if h > 0 {
        SamePlace(ts, c, q, 0, h - 1);
      }
      var d := NextCol(ts, c, q);
      if d < |ts| {
        SamePlace(ts, d, q, 0, h);
      }
    }
  }
}
