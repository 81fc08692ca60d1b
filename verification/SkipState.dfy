/**
 What a skip list keeps between the writes to its nodes, as predicates over the
 towers, a view of the links, and the queue of nodes for reuse.
 */
module SkipState {
  import opened Basics
  import opened Places
  import opened Towers
  import opened SkipNodes

  /** Each allocated node is linked, queued for reuse, or in the hands of the running operation. */
  ghost predicate Accounted<T>(ts: seq<seq<Node<T>>>, v: View<T>, q: seq<Node<T>>, loose: set<Node<T>>) {
    && NoDuplicates(q)
    && AllNodes(ts) !! Members(q) !! loose
    && v.Keys == AllNodes(ts) + Members(q) + loose
  }

  ghost predicate Wired<T>(ts: seq<seq<Node<T>>>, v: View<T>, q: seq<Node<T>>, open: int, loose: set<Node<T>>) {
    && Distinct(ts)
    && Linked(ts, v, open)
    && Accounted(ts, v, q, loose)
  }

  /** What the nodes of column `c` hold: the head nodes nothing, the others their element. */
  function DataAt<T>(es: seq<T>, c: nat): Option<T>
    requires c <= |es|
  {
    if c == 0 then None else Some(es[c - 1])
  }

  ghost predicate Filled<T>(ts: seq<seq<Node<T>>>, v: View<T>, es: seq<T>)
  {
    && |ts| == |es| + 1
    && forall c, r {:trigger IsPlace(ts, c, r)} :: IsPlace(ts, c, r) ==>
         ts[c][r] in v && v[ts[c][r]].data == DataAt(es, c)
  }

  /** The rows: as many as the head is tall, and no column is taller. */
  ghost predicate Shaped<T>(ts: seq<seq<Node<T>>>, height: nat, top: Node?<T>, bottom: Node?<T>)
  {
    && ts != []
    && |ts[0]| == height
    && top == TopOf(ts[0])
    && (height > 0 ==> bottom == ts[0][0])
    && forall c :: 0 < c < |ts| ==> |ts[c]| <= height
  }

  lemma ShapedBottom<T>(ts: seq<seq<Node<T>>>, bottom: Node?<T>)
    requires Shaped(ts, 0, null, bottom)
    ensures Shaped(ts, 0, null, null)
  {
  }

  ghost predicate SameData<T>(v: View<T>, v': View<T>) {
    forall n :: n in v && n in v' ==> v[n].data == v'[n].data
  }

  lemma FilledSame<T>(ts: seq<seq<Node<T>>>, v: View<T>, v': View<T>, es: seq<T>)
    requires Filled(ts, v, es) && v.Keys <= v'.Keys && SameData(v, v')
    ensures Filled(ts, v', es)
  {
  }

  lemma SameDataRefl<T>(v: View<T>)
    ensures SameData(v, v)
  {
  }

  lemma SameDataTrans<T>(v0: View<T>, v1: View<T>, v2: View<T>)
    requires SameData(v0, v1) && SameData(v1, v2) && v0.Keys == v1.Keys
    ensures SameData(v0, v2)
  {
  }

  lemma WiredDistinct<T>(ts: seq<seq<Node<T>>>, v: View<T>, q: seq<Node<T>>, open: int, loose: set<Node<T>>)
    requires Wired(ts, v, q, open, loose)
    ensures Distinct(ts)
  {
  }

  // ---------- nodes are taken and queued ----------

  lemma LinkedMore<T>(ts: seq<seq<Node<T>>>, v: View<T>, v': View<T>, open: int)
    requires Linked(ts, v, open)
    requires forall n :: n in v ==> n in v' && v'[n] == v[n]
    ensures Linked(ts, v', open)
  {
    forall c, r | 0 <= c < |ts| && 0 <= r < |ts[c]|
      ensures NodeLinked(ts, v', c, r, open)
    {
      assert NodeLinked(ts, v, c, r, open);
    }
  }

  lemma QueuedPush<T>(q: seq<Node<T>>, p: Node<T>)
    requires NoDuplicates(q) && p !in Members(q)
    ensures NoDuplicates(q + [p]) && Members(q + [p]) == Members(q) + {p}
  {
    assert forall i :: 0 <= i < |q| ==> q[i] in Members(q);
  }

  lemma QueuedPop<T>(q: seq<Node<T>>)
    requires NoDuplicates(q) && q != []
    ensures
      var q', p := q[..|q| - 1], q[|q| - 1];
      NoDuplicates(q') && p !in Members(q') && Members(q) == Members(q') + {p}
  {
  }

  lemma AccountedLoose<T>(ts: seq<seq<Node<T>>>, v: View<T>, q: seq<Node<T>>, loose: set<Node<T>>, n: Node<T>)
    requires Accounted(ts, v, q, loose) && n in loose
    ensures n in v && n !in AllNodes(ts)
  {
  }

  lemma TopOfEmpty<T>()
    ensures TopOf<T>([]) == null
  {
  }

  lemma TopOfNull<T>(column: seq<Node<T>>)
    ensures TopOf(column) == null <==> column == []
  {
  }

  lemma TopOfAppended<T>(column: seq<Node<T>>, x: Node<T>)
    requires column != [] && column[|column| - 1] == x
    ensures TopOf(column) == x
  {
  }

  lemma GrownTop<T>(ts: seq<seq<Node<T>>>, k: nat, x: Node<T>)
    requires k < |ts|
    ensures TopOf(Grown(ts, k, x)[k]) == x && |Grown(ts, k, x)[k]| == |ts[k]| + 1
    ensures Grown(ts, k, x)[k][0] == if ts[k] == [] then x else ts[k][0]
    ensures TopOf(ts[k]) == null <==> ts[k] == []
  {
  }

  // ---------- steps ----------

  lemma SplicedWired<T>(ts: seq<seq<Node<T>>>, v: View<T>, v': View<T>, q: seq<Node<T>>, loose: set<Node<T>>,
                        pc: nat, k: nat, tmp: Node<T>)
    requires Wired(ts, v, q, -1, loose) && tmp in loose
    requires k < |ts| && Passes(ts, pc, k, |ts[k]|)
    requires Spliced(v, v', ts[pc][|ts[k]|], tmp, TopOf(ts[k]), After(ts, pc, |ts[k]|))
    ensures Wired(Grown(ts, k, tmp), v', q, -1, loose - {tmp})
  {
    SplicedLinked(ts, v, v', pc, k, tmp);
    GrownDistinct(ts, k, tmp);
  }

  lemma FilledGrown<T>(ts: seq<seq<Node<T>>>, v: View<T>, v': View<T>, es: seq<T>, k: nat, tmp: Node<T>)
    requires Filled(ts, v, es) && k < |ts| && tmp !in AllNodes(ts)
    requires v'.Keys == v.Keys + {tmp} && v'[tmp].data == DataAt(es, k)
    requires forall n :: n in v && n != tmp ==> v'[n].data == v[n].data
    ensures Filled(Grown(ts, k, tmp), v', es)
  {
    var ts' := Grown(ts, k, tmp);
    forall c: nat, r: nat | IsPlace<Node<T>>(ts', c, r)
      ensures ts'[c][r] in v' && v'[ts'[c][r]].data == DataAt(es, c)
    {
      if IsPlace(ts, c, r) {
        assert ts'[c][r] == ts[c][r];
      }
    }
  }

  lemma RaisedWired<T>(ts: seq<seq<Node<T>>>, v: View<T>, v': View<T>, q: seq<Node<T>>, loose: set<Node<T>>, m: Node<T>)
    requires Wired(ts, v, q, -1, loose) && m in loose
    requires ts != [] && forall c :: 0 < c < |ts| ==> |ts[c]| <= |ts[0]|
    requires Raised(v, v', m, TopOf(ts[0]))
    ensures Wired(Grown(ts, 0, m), v', q, -1, loose - {m})
  {
    RaisedLinked(ts, v, v', m);
    GrownDistinct(ts, 0, m);
  }

  lemma BypassedWired<T>(ts: seq<seq<Node<T>>>, v: View<T>, v': View<T>, q: seq<Node<T>>, k: nat, open: int)
    requires 0 < k < |ts| && ts[k] != [] && |ts[k]| <= |ts[0]| && (open == -1 || open == k)
    requires Wired(ts, v, q, open, {})
    requires var r := |ts[k]| - 1;
             Bypassed(v, v', ts[PrevCol(ts, k, r)][r], ts[k][r], After(ts, k, r))
    ensures Wired(Shrunk(ts, k), v', q + [ts[k][|ts[k]| - 1]], k, {})
  {
    BypassedLinked(ts, v, v', k, open);
    ShrunkDistinct(ts, k);
    var p := ts[k][|ts[k]| - 1];
    assert p in AllNodes(ts);
    QueuedPush(q, p);
  }

  lemma LoweredWired<T>(ts: seq<seq<Node<T>>>, v: View<T>, v': View<T>, q: seq<Node<T>>)
    requires Wired(ts, v, q, -1, {})
    requires ts != [] && ts[0] != [] && NextCol(ts, 0, |ts[0]| - 1) == |ts|
    requires Lowered(v, v', ts[0][|ts[0]| - 1], TopOf(Shrunk(ts, 0)[0]))
    ensures Wired(Shrunk(ts, 0), v', q + [ts[0][|ts[0]| - 1]], -1, {})
  {
    LoweredLinked(ts, v, v');
    ShrunkDistinct(ts, 0);
    var p := ts[0][|ts[0]| - 1];
    assert p in AllNodes(ts);
    QueuedPush(q, p);
  }

  lemma FilledCut<T>(ts: seq<seq<Node<T>>>, v: View<T>, es: seq<T>, c: nat, h: nat)
    requires Filled(ts, v, es) && c < |ts| && h <= |ts[c]|
    ensures Filled(Cut(ts, c, h), v, es)
  {
    var ts' := Cut(ts, c, h);
    forall b: nat, r: nat | IsPlace<Node<T>>(ts', b, r)
      ensures ts'[b][r] in v && v[ts'[b][r]].data == DataAt(es, b)
    {
      assert IsPlace(ts, b, r);
    }
  }

  lemma ClosedWired<T>(ts: seq<seq<Node<T>>>, v: View<T>, q: seq<Node<T>>, k: nat)
    requires 0 < k < |ts| && Wired(Cut(ts, k, 0), v, q, k, {})
    ensures Wired(Dropped(ts, k), v, q, -1, {})
  {
    CutDropped(ts, k);
    ClosedLinked(Dropped(ts, k), v, k);
    ClosedDistinct(Dropped(ts, k), k);
    OpenedNodes(Dropped(ts, k), k);
  }

  lemma FilledDropped<T>(ts: seq<seq<Node<T>>>, v: View<T>, es: seq<T>, k: nat)
    requires 0 < k < |ts| && Filled(ts, v, es)
    ensures Filled(Dropped(ts, k), v, Dropped(es, k - 1))
  {
    var ts' := Dropped(ts, k);
    forall c: nat, r: nat | IsPlace<Node<T>>(ts', c, r)
      ensures ts'[c][r] in v && v[ts'[c][r]].data == DataAt(Dropped(es, k - 1), c)
    {
      assert IsPlace(ts, if c < k then c else c + 1, r);
    }
  }

  lemma OpenedWired<T>(ts: seq<seq<Node<T>>>, v: View<T>, q: seq<Node<T>>, k: nat)
    requires 0 < k <= |ts| && Wired(ts, v, q, -1, {})
    ensures Wired(Opened(ts, k), v, q, -1, {})
  {
    OpenedLinked(ts, v, k);
    OpenedDistinct(ts, k);
    OpenedNodes(ts, k);
  }

  lemma FilledOpened<T>(ts: seq<seq<Node<T>>>, v: View<T>, es: seq<T>, k: nat, x: T)
    requires 0 < k <= |ts| && Filled(ts, v, es)
    ensures Filled(Opened(ts, k), v, es[..k - 1] + [x] + es[k - 1..])
  {
    var ts' := Opened(ts, k);
    forall c: nat, r: nat | IsPlace<Node<T>>(ts', c, r)
      ensures ts'[c][r] in v && v[ts'[c][r]].data == DataAt(es[..k - 1] + [x] + es[k - 1..], c)
    {
      OpenedAt(ts, k, c);
      assert IsPlace(ts, if c < k then c else c - 1, r);
    }
  }

  /** What the head node of an empty top row tells. */
  lemma EmptyTop<T>(ts: seq<seq<Node<T>>>, v: View<T>, q: seq<Node<T>>, height: nat, top: Node<T>, bottom: Node?<T>)
    requires Wired(ts, v, q, -1, {}) && Shaped(ts, height, top, bottom)
    ensures height > 0 && top in v
    ensures v[top].down != top && (v[top].down != null ==> v[top].down in v)
  {
    assert NodeLinked(ts, v, 0, height - 1, -1);
    if height > 1 {
      assert NodeLinked(ts, v, 0, height - 2, -1);
      SamePlace(ts, 0, height - 1, 0, height - 2);
    }
  }

  /** The top row is empty exactly when its head node has no successor. */
  lemma TopRow<T>(ts: seq<seq<Node<T>>>, v: View<T>, q: seq<Node<T>>, height: nat, top: Node?<T>, bottom: Node?<T>)
    requires Wired(ts, v, q, -1, {}) && Shaped(ts, height, top, bottom)
    ensures ts != [] && |ts[0]| == height && (top == null <==> height == 0) && top == TopOf(ts[0])
    ensures top != null ==> top in v && (v[top].next == null <==> NextCol(ts, 0, height - 1) == |ts|)
  {
    if height > 0 {
      assert NodeLinked(ts, v, 0, height - 1, -1);
    }
  }

  lemma CutTop<T>(ts: seq<seq<Node<T>>>, h: nat)
    requires ts != [] && Distinct(ts) && h <= |ts[0]| && TopOf(Cut(ts, 0, h)[0]) == TopOf(ts[0])
    ensures h == |ts[0]|
  {
    if 0 < h < |ts[0]| {
      SamePlace(ts, 0, |ts[0]| - 1, 0, h - 1);
    }
  }

  /** What giving up an empty top row leaves. */
  lemma LoweredState<T>(ts: seq<seq<Node<T>>>, v: View<T>, v': View<T>, q: seq<Node<T>>,
                        height: nat, top: Node<T>, bottom: Node?<T>)
    requires Wired(ts, v, q, -1, {}) && Shaped(ts, height, top, bottom)
    requires top in v && v[top].next == null && Lowered(v, v', top, v[top].down)
    ensures height > 0 && ts != [] && ts[0] != []
    ensures Wired(Shrunk(ts, 0), v', q + [top], -1, {})
    ensures Shaped(Shrunk(ts, 0), height - 1, v[top].down, bottom)
  {
    assert NodeLinked(ts, v, 0, height - 1, -1);
    LoweredWired(ts, v, v', q);
  }

  /** The top of an open column and the node below it. */
  lemma ColumnTop<T>(ts: seq<seq<Node<T>>>, v: View<T>, q: seq<Node<T>>, open: int, k: nat, j: nat)
    requires 0 < k < |ts| && 0 < j <= |ts[k]|
    requires Wired(Cut(ts, k, j), v, q, open, {})
    ensures ts[k][j - 1] in v
    ensures v[ts[k][j - 1]].down == if j == 1 then null else ts[k][j - 2]
  {
    assert NodeLinked(Cut(ts, k, j), v, k, j - 1, open);
  }

  /** The neighbours of the highest node of a column. */
  lemma Neighbours<T>(ts: seq<seq<Node<T>>>, v: View<T>, q: seq<Node<T>>, open: int, k: nat)
    requires 0 < k < |ts| && ts[k] != [] && |ts[k]| <= |ts[0]|
    requires Wired(ts, v, q, open, {})
    ensures
      var r := |ts[k]| - 1;
      var p := ts[k][r];
      && p in v && v[p].next == After(ts, k, r)
      && v[p].prev == ts[PrevCol(ts, k, r)][r] && v[p].prev in v && v[p].prev != p
      && (v[p].next != null ==> v[p].next in v)
  {
    var r := |ts[k]| - 1;
    var pc := PrevCol(ts, k, r);
    assert NodeLinked(ts, v, pc, r, open);
    assert NodeLinked(ts, v, k, r, open);
    SamePlace(ts, pc, r, k, r);
  }

  /** Every element has a node in the bottom row. */
  ghost predicate NoGaps<T>(ts: seq<seq<Node<T>>>) {
    forall c :: 0 < c < |ts| ==> ts[c] != []
  }

  /** Everything a skip list keeps, but for the order of its elements. */
  ghost predicate Good<T>(ts: seq<seq<Node<T>>>, v: View<T>, q: seq<Node<T>>, es: seq<T>,
                          height: nat, top: Node?<T>, bottom: Node?<T>)
  {
    && Wired(ts, v, q, -1, {})
    && Shaped(ts, height, top, bottom)
    && Filled(ts, v, es)
    && NoGaps(ts)
    && (height == 0 ==> bottom == null)
    && (height > 0 ==> NextCol(ts, 0, height - 1) < |ts|)
  }

  /** The height of the highest column behind the sentinels, and 1 if there is none. */
  ghost predicate Tallest<T>(ts: seq<seq<Node<T>>>, h: nat) {
    && 1 <= h
    && (forall c :: 0 < c < |ts| ==> |ts[c]| <= h)
    && (h == 1 || exists c :: 0 < c < |ts| && |ts[c]| == h)
  }

  lemma HeightIsTallest<T>(ts: seq<seq<Node<T>>>, v: View<T>, q: seq<Node<T>>, es: seq<T>,
                           height: nat, top: Node?<T>, bottom: Node?<T>)
    requires Good(ts, v, q, es, height, top, bottom)
    ensures Tallest(ts, if height == 0 then 1 else height)
  {
    hide Wired, Filled;
    if height > 0 {
      var c := NextCol(ts, 0, height - 1);
      assert 0 < c < |ts| && |ts[c]| == height;
    }
  }

  lemma GoodParts<T>(ts: seq<seq<Node<T>>>, v: View<T>, q: seq<Node<T>>, es: seq<T>, k: nat,
                     height: nat, top: Node?<T>, bottom: Node?<T>)
    requires Good(ts, v, q, es, height, top, bottom) && 0 < k < |ts|
    ensures |ts| == |es| + 1 && ts[k] != [] && |ts[k]| <= |ts[0]|
    ensures Wired(ts, v, q, -1, {}) && Linked(ts, v, -1) && Filled(ts, v, es) && NoGaps(ts)
    ensures Shaped(Dropped(ts, k), height, top, bottom)
  {
  }

  /** The state after a column has been taken out and empty rows at the top given up. */
  lemma RemovedGood<T>(ts: seq<seq<Node<T>>>, v0: View<T>, v1: View<T>, v2: View<T>, q: seq<Node<T>>, es: seq<T>, k: nat, h: nat,
                       top: Node?<T>, bottom: Node?<T>)
    requires 0 < k < |ts| && Filled(ts, v0, es) && NoGaps(ts)
    requires v0.Keys == v1.Keys == v2.Keys && SameData(v0, v1) && SameData(v1, v2)
    requires h <= |Dropped(ts, k)[0]|
    requires Wired(Cut(Dropped(ts, k), 0, h), v2, q, -1, {})
    requires Shaped(Cut(Dropped(ts, k), 0, h), h, top, bottom)
    requires h == 0 ==> bottom == null
    requires h > 0 ==> NextCol(Cut(Dropped(ts, k), 0, h), 0, h - 1) < |Dropped(ts, k)|
    ensures Good(Cut(Dropped(ts, k), 0, h), v2, q, Dropped(es, k - 1), h, top, bottom)
  {
    hide Wired, Shaped;
    FilledSame(ts, v0, v2, es);
    FilledDropped(ts, v2, es, k);
    FilledCut(Dropped(ts, k), v2, Dropped(es, k - 1), 0, h);
  }

  /** What the links of the node at column `c` and row `r` lead to. */
  lemma Step<T>(ts: seq<seq<Node<T>>>, v: View<T>, q: seq<Node<T>>, es: seq<T>,
                height: nat, top: Node?<T>, bottom: Node?<T>, c: nat, r: nat)
    requires Good(ts, v, q, es, height, top, bottom) && c < |ts| && r < |ts[c]|
    ensures
      var n := ts[c][r];
      var d := NextCol(ts, c, r);
      && |ts| == |es| + 1
      && n in v && v[n].next == After(ts, c, r) && v[n].data == DataAt(es, c)
      && (d < |ts| ==> ts[d][r] in v && v[ts[d][r]].data == Some(es[d - 1]))
      && v[n].down == (if r == 0 then null else ts[c][r - 1])
      && (r == 0 ==> d == c + 1)
  {
    var d := NextCol(ts, c, r);
    assert NodeLinked(ts, v, c, r, -1);
    assert IsPlace(ts, c, r);
    if d < |ts| {
      assert IsPlace(ts, d, r);
    }
  }

  /** Where a walk begins: at the top of the head column, unless the list is empty. */
  lemma Start<T>(ts: seq<seq<Node<T>>>, v: View<T>, q: seq<Node<T>>, es: seq<T>,
                 height: nat, top: Node?<T>, bottom: Node?<T>)
    requires Good(ts, v, q, es, height, top, bottom)
    ensures ts != [] && |ts| == |es| + 1 && |ts[0]| == height
    ensures if height == 0 then top == null && es == [] else top == ts[0][height - 1]
    ensures forall c :: 0 < c < |ts| ==> 0 < |ts[c]| <= height
  {
    assert |ts| > 1 ==> 0 < |ts[1]| <= height;
  }

  lemma BottomIs<T>(ts: seq<seq<Node<T>>>, v: View<T>, q: seq<Node<T>>, es: seq<T>,
                    height: nat, top: Node?<T>, bottom: Node?<T>)
    requires Good(ts, v, q, es, height, top, bottom)
    ensures ts != [] && bottom == if height == 0 then null else ts[0][0]
  {
  }

  // ---------- all nodes are queued ----------

  /** Part of the nodes has been queued after `q0`. */
  ghost predicate Queueing<T>(ts: seq<seq<Node<T>>>, q0: seq<Node<T>>, q: seq<Node<T>>, c: nat, j: nat) {
    && Distinct(ts) && AllNodes(ts) !! Members(q0)
    && NoDuplicates(q) && Members(q) == Members(q0) + Below(ts, c, j)
  }

  lemma QueueingStep<T>(ts: seq<seq<Node<T>>>, q0: seq<Node<T>>, q: seq<Node<T>>, c: nat, j: nat)
    requires Queueing(ts, q0, q, c, j) && c < |ts| && j < |ts[c]|
    ensures Queueing(ts, q0, q + [ts[c][j]], c, j + 1)
  {
    BelowStep(ts, c, j);
    assert ts[c][j] in AllNodes(ts);
    QueuedPush(q, ts[c][j]);
  }

  lemma QueueingColumn<T>(ts: seq<seq<Node<T>>>, q0: seq<Node<T>>, q: seq<Node<T>>, c: nat)
    requires c < |ts| && Queueing(ts, q0, q, c, |ts[c]|)
    ensures Queueing(ts, q0, q, c + 1, 0)
  {
    assert Below(ts, c, |ts[c]|) == Below(ts, c + 1, 0);
  }

  lemma QueueingStart<T>(ts: seq<seq<Node<T>>>, v: View<T>, q: seq<Node<T>>)
    requires Wired(ts, v, q, -1, {})
    ensures Queueing(ts, q, q, 0, 0)
  {
    assert Below(ts, 0, 0) == {};
  }

  lemma QueueingDone<T>(ts: seq<seq<Node<T>>>, v: View<T>, q0: seq<Node<T>>, q: seq<Node<T>>)
    requires Wired(ts, v, q0, -1, {}) && Queueing(ts, q0, q, |ts|, 0)
    ensures Good([[]], v, q, [], 0, null, null)
  {
    assert Below(ts, |ts|, 0) == AllNodes(ts);
    var none: seq<seq<Node<T>>> := [[]];
    assert AllNodes(none) == {};
  }

  lemma GoodQueueing<T>(ts: seq<seq<Node<T>>>, v: View<T>, q: seq<Node<T>>, es: seq<T>,
                        height: nat, top: Node?<T>, bottom: Node?<T>)
    requires Good(ts, v, q, es, height, top, bottom)
    ensures Queueing(ts, q, q, 0, 0) && Linked(ts, v, -1)
  {
    QueueingStart(ts, v, q);
  }

  lemma UpIs<T>(ts: seq<seq<Node<T>>>, v: View<T>, c: nat, j: nat)
    requires Linked(ts, v, -1) && c < |ts| && j < |ts[c]|
    ensures ts[c][j] in v && v[ts[c][j]].up == if j + 1 < |ts[c]| then ts[c][j + 1] else null
  {
    assert NodeLinked(ts, v, c, j, -1);
  }

  /** The bottom row visits the columns one after the other. */
  lemma BottomRow<T>(ts: seq<seq<Node<T>>>, v: View<T>, q: seq<Node<T>>, es: seq<T>,
                     height: nat, top: Node?<T>, bottom: Node?<T>, c: nat)
    requires Good(ts, v, q, es, height, top, bottom) && c < |ts| && ts[c] != []
    ensures ts[c][0] in v
    ensures if c + 1 < |ts| then ts[c + 1] != [] && v[ts[c][0]].next == ts[c + 1][0] else v[ts[c][0]].next == null
  {
    assert NodeLinked(ts, v, c, 0, -1);
  }

  lemma EmptyGood<T>(ts: seq<seq<Node<T>>>, v: View<T>, q0: seq<Node<T>>, q: seq<Node<T>>, es: seq<T>,
                     height: nat, top: Node?<T>, bottom: Node?<T>, c: nat)
    requires Good(ts, v, q0, es, height, top, bottom) && Queueing(ts, q0, q, c, 0)
    requires c == |ts| || (height == 0 && c == 0)
    ensures Good([[]], v, q, [], 0, null, null)
    ensures Members(q) == v.Keys && NoDuplicates(q)
  {
    if c != |ts| {
      Start(ts, v, q0, es, height, top, bottom);
      assert Below(ts, 0, 0) == Below(ts, |ts|, 0) == {};
    }
    QueueingDone(ts, v, q0, q);
  }

  lemma {:induction false} NoDuplicatesCount<T>(q: seq<Node<T>>)
    requires NoDuplicates(q)
    ensures |q| == |Members(q)|
  {
    if q != [] {
      NoDuplicatesCount(q[..|q| - 1]);
      QueuedPop(q);
    }
  }
}
