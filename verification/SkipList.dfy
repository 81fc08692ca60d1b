/**
 The skip list of `apr_skiplist.c`, without secondary indexes.
 */
module SkipLists {
  import opened Basics
  import opened Places
  import opened Towers
  import opened SkipNodes
  import opened SkipState
  import opened SkipInsert
  import opened SortedSeqs

  /** Takes `p` out of its row. */
  method Bypass<T>(p: Node<T>, ghost ns: set<Node<T>>)
    requires p in ns && p.prev != null && p.prev in ns && p.prev != p
    requires p.next != null ==> p.next in ns
    modifies ns
    ensures Bypassed(old(ViewOf(ns)), ViewOf(ns), old(p.prev), p, old(p.next))
    ensures SameData(old(ViewOf(ns)), ViewOf(ns))
  {
    p.prev.next := p.next;
    if p.next != null {
      p.next.prev := p.prev;
    }
  }

  /** Makes the head node below `p` the top. */
  method Behead<T>(p: Node<T>, ghost ns: set<Node<T>>) returns (top: Node?<T>)
    requires p in ns && p.down != p && (p.down != null ==> p.down in ns)
    modifies ns
    ensures top == old(p.down)
    ensures Lowered(old(ViewOf(ns)), ViewOf(ns), p, top)
    ensures SameData(old(ViewOf(ns)), ViewOf(ns))
  {
    top := p.down;
    if top != null {
      top.up := null;
    }
  }

  /** Puts `tmp` after `m` in its row and above `p` in its column. */
  method Splice<T>(m: Node<T>, tmp: Node<T>, p: Node?<T>, data: T, ghost ns: set<Node<T>>)
    requires m in ns && tmp in ns && m != tmp && (p != null ==> p in ns && p != tmp)
    requires m.next != null ==> m.next in ns && m.next != tmp
    modifies ns
    ensures Spliced(old(ViewOf(ns)), ViewOf(ns), m, tmp, p, old(m.next))
    ensures tmp in ViewOf(ns) && ViewOf(ns)[tmp].data == Some(data)
  {
    tmp.next := m.next;
    if m.next != null {
      m.next.prev := tmp;
    }
    m.next := tmp;
    tmp.prev := m;
    tmp.up := null;
    tmp.down := p;
    if p != null {
      p.up := tmp;
    }
    tmp.data := Some(data);
  }

  /** Makes `m` a head node above `top`, alone in its row. */
  method RaiseHead<T>(m: Node<T>, top: Node?<T>, ghost ns: set<Node<T>>)
    requires m in ns && (top != null ==> top in ns && top != m)
    modifies ns
    ensures ViewOf(ns) == RaisedView(old(ViewOf(ns)), m, top) && m.next == null
  {
    m.up, m.prev := null, null;
    m.next := null;
    m.down := top;
    m.data := None;
    if top != null {
      top.up := m;
    }
  }

  /** Puts the head node `m` above `top`, with `tmp` after it and above `p`. */
  method Raise<T>(m: Node<T>, tmp: Node<T>, top: Node?<T>, p: Node?<T>, data: T, ghost ns: set<Node<T>>)
    requires m in ns && tmp in ns && m != tmp
    requires top != null ==> top in ns && top != m && top != tmp
    requires p != null ==> p in ns && p != m && p != tmp
    modifies ns
    ensures Spliced(RaisedView(old(ViewOf(ns)), m, top), ViewOf(ns), m, tmp, p, null)
    ensures tmp in ViewOf(ns) && ViewOf(ns)[tmp].data == Some(data)
  {
    hide RaisedView, Spliced;
    RaiseHead(m, top, ns);
    Splice(m, tmp, p, data, ns);
  }

  class SkipList<T(!new)> {
    const compare: (T, T) -> int
    var height: nat
    var preheight: nat
    var size: nat
    var top: Node?<T>
    var bottom: Node?<T>
    var stackQ: seq<Node<T>>
    var nodesQ: seq<Node<T>>

    ghost var towers: seq<seq<Node<T>>>
    ghost var elems: seq<T>
    ghost var pool: set<Node<T>>   // every node ever allocated

    ghost predicate Valid()
      reads this, pool
    {
      && Good(towers, ViewOf(pool), nodesQ, elems, height, top, bottom)
      && size == |elems|
      && Order(compare)
      && Sorted(compare, elems)
    }

    constructor (cmp: (T, T) -> int)
      requires Order(cmp)
      ensures Valid() && elems == [] && compare == cmp && stackQ == [] && preheight == 0
      ensures pool == {}
    {
      compare := cmp;
      height, preheight, size := 0, 0, 0;
      top, bottom := null, null;
      stackQ, nodesQ := [], [];
      towers, elems, pool := [[]], [], {};
    }

    lemma NextIs(v: View<T>, m: Node<T>)
      requires v == ViewOf(pool) && m in v
      ensures m in pool && m.next == v[m].next
    {
    }

    /** Takes the highest node of column `k` out of its row. */
    method Unlink(p: Node<T>, ghost ts: seq<seq<Node<T>>>, ghost k: nat, ghost open: int)
      requires 0 < k < |ts| && ts[k] != [] && |ts[k]| <= |ts[0]| && p == ts[k][|ts[k]| - 1]
      requires Wired(ts, ViewOf(pool), nodesQ, open, {}) && (open == -1 || open == k)
      modifies pool, this`nodesQ
      ensures Wired(Shrunk(ts, k), ViewOf(pool), nodesQ, k, {})
      ensures SameData(old(ViewOf(pool)), ViewOf(pool))
      ensures nodesQ == old(nodesQ) + [p]
    {
      hide Wired, Linked, Distinct, Bypassed, SameData;
      ghost var v := ViewOf(pool);
      Neighbours(ts, v, nodesQ, open, k);
      Bypass(p, pool);
      BypassedWired(ts, v, ViewOf(pool), nodesQ, k, open);
      nodesQ := nodesQ + [p];
    }

    /** Gives up the top row, which is empty. */
    method LowerOnce(ghost ts: seq<seq<Node<T>>>)
      requires Wired(ts, ViewOf(pool), nodesQ, -1, {}) && Shaped(ts, height, top, bottom)
      requires top != null && top.next == null
      modifies pool, this`top, this`height, this`nodesQ
      ensures height == old(height) - 1 && ts != [] && ts[0] != []
      ensures Wired(Shrunk(ts, 0), ViewOf(pool), nodesQ, -1, {}) && Shaped(Shrunk(ts, 0), height, top, bottom)
      ensures SameData(old(ViewOf(pool)), ViewOf(pool))
    {
      hide Wired, Shaped, Lowered, SameData, Shrunk;
      var p := top;
      ghost var v := ViewOf(pool);
      EmptyTop(ts, v, nodesQ, height, top, bottom);
      top := Behead(p, pool);
      LoweredState(ts, v, ViewOf(pool), nodesQ, height, p, bottom);
      nodesQ := nodesQ + [p];
      height := height - 1;
    }

    /** Gives up the rows at the top that have become empty. */
    method LowerTop(ghost ts: seq<seq<Node<T>>>) returns (ghost h: nat)
      requires Wired(ts, ViewOf(pool), nodesQ, -1, {}) && Shaped(ts, height, top, bottom)
      modifies pool, this`top, this`bottom, this`height, this`nodesQ
      ensures h == height <= |ts[0]|
      ensures Wired(Cut(ts, 0, h), ViewOf(pool), nodesQ, -1, {})
      ensures Shaped(Cut(ts, 0, h), height, top, bottom)
      ensures SameData(old(ViewOf(pool)), ViewOf(pool))
      ensures height == 0 ==> bottom == null
      ensures height > 0 ==> NextCol(Cut(ts, 0, h), 0, height - 1) < |ts|
      ensures top == old(top) ==> h == |ts[0]|
    {
      hide Wired, Shaped, ViewOf, SameData, Distinct, TopOf, Cut, Shrunk, NextCol;
      ghost var v0, top0 := ViewOf(pool), top;
      WiredDistinct(ts, v0, nodesQ, -1, {});
      TopRow(ts, v0, nodesQ, height, top, bottom);
      h := |ts[0]|;
      CutFull(ts, 0);
      SameDataRefl(v0);
      ViewKeys(pool);
      while top != null && top.next == null
        invariant h == height <= |ts[0]|
        invariant Wired(Cut(ts, 0, h), ViewOf(pool), nodesQ, -1, {})
        invariant Shaped(Cut(ts, 0, h), height, top, bottom)
        invariant SameData(v0, ViewOf(pool))
        decreases height
      {
        ghost var v := ViewOf(pool);
        ViewKeys(pool);
        TopRow(Cut(ts, 0, h), v, nodesQ, height, top, bottom);
        CutStep(ts, 0, h);
        LowerOnce(Cut(ts, 0, h));
        SameDataTrans(v0, v, ViewOf(pool));
        h := h - 1;
      }
      LowerTopEnds(ts, h, top0);
      if top == null {
        ShapedBottom(Cut(ts, 0, h), bottom);
        bottom := null;
      }
    }

    lemma LowerTopEnds(ts: seq<seq<Node<T>>>, h: nat, top0: Node?<T>)
      requires ts != [] && Distinct(ts) && h == height <= |ts[0]| && top0 == TopOf(ts[0])
      requires Wired(Cut(ts, 0, h), ViewOf(pool), nodesQ, -1, {})
      requires Shaped(Cut(ts, 0, h), height, top, bottom)
      requires top != null ==> top.next != null
      ensures top == null <==> height == 0
      ensures height > 0 ==> NextCol(Cut(ts, 0, h), 0, height - 1) < |ts|
      ensures top == top0 ==> h == |ts[0]|
    {
      hide Wired, Shaped, Distinct, Cut;
      TopRow(Cut(ts, 0, h), ViewOf(pool), nodesQ, height, top, bottom);
      CutSize(ts, 0, h);
      if top == top0 {
        CutTop(ts, h);
      }
    }

    /** Takes column `k` apart from its highest node `m0` down. */
    method UnlinkColumn(m0: Node<T>, ghost k: nat)
      requires 0 < k < |towers| && towers[k] != [] && |towers[k]| <= |towers[0]| && m0 == TopOf(towers[k])
      requires Wired(towers, ViewOf(pool), nodesQ, -1, {})
      modifies pool, this`nodesQ
      ensures Wired(Dropped(towers, k), ViewOf(pool), nodesQ, -1, {})
      ensures SameData(old(ViewOf(pool)), ViewOf(pool))
    {
      hide Wired;
      var m: Node?<T> := m0;
      ghost var j: nat := |towers[k]|;
      CutFull(towers, k);
      while m != null
        invariant j <= |towers[k]| && m == if j == 0 then null else towers[k][j - 1]
        invariant Wired(Cut(towers, k, j), ViewOf(pool), nodesQ, if j == |towers[k]| then -1 else k, {})
        invariant SameData(old(ViewOf(pool)), ViewOf(pool))
        decreases j
      {
        var p := m;
        ColumnTop(towers, ViewOf(pool), nodesQ, if j == |towers[k]| then -1 else k, k, j);
        m := m.down;
        CutStep(towers, k, j);
        Unlink(p, Cut(towers, k, j), k, if j == |towers[k]| then -1 else k);
        j := j - 1;
      }
      ClosedWired(towers, ViewOf(pool), nodesQ, k);
    }

    /** Climbs to the top of the column of `m0`. */
    method TopOfColumn(m0: Node<T>, ghost k: nat, ghost r0: nat) returns (m: Node<T>)
      requires Linked(towers, ViewOf(pool), -1) && k < |towers| && r0 < |towers[k]| && m0 == towers[k][r0]
      ensures m == TopOf(towers[k])
    {
      m := m0;
      ghost var r := r0;
      assert NodeLinked(towers, ViewOf(pool), k, r, -1);
      while m.up != null
        invariant r < |towers[k]| && m == towers[k][r]
        invariant NodeLinked(towers, ViewOf(pool), k, r, -1)
        decreases |towers[k]| - r
      {
        m, r := m.up, r + 1;
        assert NodeLinked(towers, ViewOf(pool), k, r, -1);
      }
    }

    /** `skiplist_height` */
    function RealHeight(): nat
      reads this
    {
      if height == 0 then 1 else height
    }

    /** Takes column `k` out, and the rows that this leaves empty. */
    method TakeOut(m0: Node<T>, ghost k: nat) returns (ghost h: nat)
      requires Good(towers, ViewOf(pool), nodesQ, elems, height, top, bottom)
      requires 0 < k < |towers| == |elems| + 1 && m0 == TopOf(towers[k])
      modifies pool, this`top, this`bottom, this`height, this`nodesQ
      ensures h <= |Dropped(towers, k)[0]|
      ensures Good(Cut(Dropped(towers, k), 0, h), ViewOf(pool), nodesQ, Dropped(elems, k - 1), height, top, bottom)
      ensures top == old(top) ==> h == |Dropped(towers, k)[0]|
    {
      hide Good, Wired, Linked, Shaped, SameData, NextCol, Dropped, Cut;
      ghost var v0 := ViewOf(pool);
      GoodParts(towers, v0, nodesQ, elems, k, height, top, bottom);
      UnlinkColumn(m0, k);
      ghost var v1 := ViewOf(pool);
      h := LowerTop(Dropped(towers, k));
      RemovedGood(towers, v0, v1, ViewOf(pool), nodesQ, elems, k, h, top, bottom);
    }

    /**
     `skiplisti_remove`, given any node of the column. Only when the top row changes
     do other columns than `k` change.
     */
    method RemoveNode(m0: Node<T>, ghost k: nat, ghost r0: nat) returns (h: nat)
      requires Valid() && 0 < k < |towers| && r0 < |towers[k]| && m0 == towers[k][r0]
      modifies pool, this`top, this`bottom, this`height, this`size, this`nodesQ, this`towers, this`elems
      ensures Valid()
      ensures elems == Dropped(old(elems), k - 1)
      ensures top == old(top) ==> towers == Dropped(old(towers), k)
      ensures h == RealHeight() && Tallest(towers, h)
    {
      hide Good, Wired, Linked, Shaped, SameData, NextCol, Order, Sorted, Tallest;
      GoodParts(towers, ViewOf(pool), nodesQ, elems, k, height, top, bottom);
      var m := TopOfColumn(m0, k, r0);
      ghost var h' := TakeOut(m, k);
      size := size - 1;
      CutFull(Dropped(towers, k), 0);
      DroppedSorted(compare, elems, k - 1);
      towers, elems := Cut(Dropped(towers, k), 0, h'), Dropped(elems, k - 1);
      h := RealHeight();
      HeightIsTallest(towers, ViewOf(pool), nodesQ, elems, height, top, bottom);
    }

    /** What the links of the node at column `c` and row `r` lead to. */
    lemma StepHere(c: nat, r: nat)
      requires Good(towers, ViewOf(pool), nodesQ, elems, height, top, bottom) && c < |towers| && r < |towers[c]|
      ensures
        var n := towers[c][r];
        var d := NextCol(towers, c, r);
        && |towers| == |elems| + 1
        && n in pool && n.data == DataAt(elems, c)
        && n.next == (if d < |towers| then towers[d][r] else null)
        && (d < |towers| ==> d > c && r < |towers[d]| && towers[d][r] in pool && towers[d][r].data == Some(elems[d - 1]))
        && n.down == (if r == 0 then null else towers[c][r - 1])
        && (r == 0 ==> d == c + 1)
    {
      Step(towers, ViewOf(pool), nodesQ, elems, height, top, bottom, c, r);
    }

    /** From any node of a column down to its node in the bottom row. */
    method Descend(m0: Node<T>, ghost c: nat, ghost f0: nat) returns (m: Node<T>)
      requires Good(towers, ViewOf(pool), nodesQ, elems, height, top, bottom)
      requires 0 < c < |towers| == |elems| + 1 && f0 < |towers[c]| && m0 == towers[c][f0]
      ensures m == towers[c][0] && m in pool && m.data == Some(elems[c - 1])
    {
      hide Good, NextCol, ViewOf;
      m := m0;
      ghost var f: nat := f0;
      StepHere(c, f);
      while m.down != null
        invariant f < |towers[c]| && m == towers[c][f]
        invariant m in pool && m.down == (if f == 0 then null else towers[c][f - 1])
        invariant m.data == Some(elems[c - 1])
        decreases f
      {
        m, f := m.down, f - 1;
        StepHere(c, f);
      }
    }

    /**
     `skiplisti_find_compare`. Which of several equal elements is found is open, unless
     the last one is asked for.
     */
    method FindCompare(probe: T -> int, last: bool) returns (ret: Node?<T>, ghost c: nat)
      requires Valid() && Searchable(probe, elems)
      ensures ret == null ==> forall i :: 0 <= i < |elems| ==> probe(elems[i]) != 0
      ensures ret != null ==> 0 < c < |towers| == |elems| + 1 && towers[c] != [] && ret == towers[c][0]
      ensures ret != null ==> ret in pool && ret.data == Some(elems[c - 1]) && probe(elems[c - 1]) == 0
      ensures ret != null && last ==> forall i :: c <= i < |elems| ==> probe(elems[i]) != 0
    {
      hide Good, NextCol, Order, Sorted, ViewOf;
      var m, found := top, null;
      Start(towers, ViewOf(pool), nodesQ, elems, height, top, bottom);
      c := 0;
      ghost var r: int := height - 1;
      ghost var f: nat := 0;
      while m != null
        invariant c < |towers| && -1 <= r < |towers[c]|
        invariant m == if r < 0 then null else towers[c][r]
        invariant c > 0 ==> if found == null then probe(elems[c - 1]) > 0 else probe(elems[c - 1]) == 0
        invariant found != null ==> c > 0 && f < |towers[c]| && found == towers[c][f]
        invariant r < 0 && c < |elems| ==> probe(elems[c]) < 0
        decreases r, |towers| - c
      {
        StepHere(c, r);
        if m.next != null {
          var compared := probe(m.next.data.value);
          if compared == 0 {
            m := m.next;
            found := m;
            c, f := NextCol(towers, c, r), r;
            if !last {
              break;
            }
            continue;
          }
          if compared > 0 {
            m := m.next;
            c := NextCol(towers, c, r);
            continue;
          }
        }
        m := m.down;
        r := r - 1;
      }
      if found == null {
        return null, c;
      }
      ret := Descend(found, c, f);
    }

    /** `skiplist_new_node`: a queued node if there is one, otherwise a new one. */
    method NewNode(ghost ts: seq<seq<Node<T>>>, ghost loose: set<Node<T>>) returns (m: Node<T>)
      requires Accounted(ts, ViewOf(pool), nodesQ, loose)
      modifies this`nodesQ, this`pool
      ensures Accounted(ts, ViewOf(pool), nodesQ, loose + {m})
      ensures m !in loose && m !in AllNodes(ts)
      ensures Extends(old(ViewOf(pool)), ViewOf(pool)) && old(pool) <= pool && fresh(pool - old(pool))
      ensures if old(nodesQ) == [] then nodesQ == [] && fresh(m) else nodesQ + [m] == old(nodesQ)
    {
      if |nodesQ| > 0 {
        QueuedPop(nodesQ);
        m := nodesQ[|nodesQ| - 1];
        nodesQ := nodesQ[..|nodesQ| - 1];
      } else {
        m := new Node();
        pool := pool + {m};
      }
    }

    /** The coin flips: any height the flips can lead to. */
    method ChooseHeight() returns (nh: nat)
      ensures 1 <= nh
      ensures if preheight > 0 then nh <= preheight else nh <= RealHeight() + 1
    {
      nh := 1;
      var coin: bool := *;
      if preheight > 0 {
        while nh < preheight && coin
          invariant 1 <= nh <= preheight
        {
          nh := nh + 1;
          coin := *;
        }
      } else {
        while nh <= RealHeight() && coin
          invariant 1 <= nh <= RealHeight() + 1
        {
          nh := nh + 1;
          coin := *;
        }
      }
    }

    /** Inserts one more node of column `k` after `m`. */
    method LinkOne(m: Node<T>, p: Node?<T>, data: T, ghost ts: seq<seq<Node<T>>>, ghost es: seq<T>, ghost k: nat,
                   ghost cs: seq<nat>, ghost L: nat)
      returns (tmp: Node<T>)
      requires Growing(ts, ViewOf(pool), nodesQ, es, {}, k, height, top, bottom)
      requires Ready(ts, k, stackQ, cs, L) && stackQ != [] && m == stackQ[|stackQ| - 1]
      requires L <= height && 0 < k <= |es| && es[k - 1] == data && p == TopOf(ts[k])
      modifies pool, this`nodesQ, this`pool
      ensures Growing(Grown(ts, k, tmp), ViewOf(pool), nodesQ, es, {}, k, height, top, bottom)
      ensures old(pool) <= pool && fresh(pool - old(pool))
    {
      hide Growing, Spliced, NextCol, Passes, After, Extends, Accounted, Grown, TopOf, Ready;
      ReadySizes(ts, k, stackQ, cs, L);
      ghost var pc := cs[|stackQ| - 1];
      GrowingAccounted(ts, ViewOf(pool), nodesQ, es, {}, k, height, top, bottom);
      ghost var v, q := ViewOf(pool), nodesQ;
      tmp := NewNode(ts, {});
      assert {} + {tmp} == {tmp};
      GrowingTaken(ts, v, ViewOf(pool), q, nodesQ, es, {}, {tmp}, k, height, top, bottom);
      v := ViewOf(pool);
      ReadyTop(ts, v, nodesQ, es, {tmp}, k, height, top, bottom, stackQ, cs, L);
      GrowingAccounted(ts, v, nodesQ, es, {tmp}, k, height, top, bottom);
      AccountedLoose(ts, v, nodesQ, {tmp}, tmp);
      Splice(m, tmp, p, data, pool);
      GrowingSpliced(ts, v, ViewOf(pool), nodesQ, es, {tmp}, pc, k, tmp, height, top, bottom);
      assert {tmp} - {tmp} == {};
    }

    /** Pops the stack and inserts one node after each node popped, from the bottom row up. */
    method PopAndLink(data: T, ghost ts0: seq<seq<Node<T>>>, ghost es: seq<T>, ghost k: nat, ghost cs: seq<nat>, ghost L: nat)
      returns (p: Node?<T>, ret: Node?<T>, ghost ts: seq<seq<Node<T>>>)
      requires Growing(ts0, ViewOf(pool), nodesQ, es, {}, k, height, top, bottom)
      requires Ready(ts0, k, stackQ, cs, L) && ts0[k] == []
      requires L <= height && 0 < k <= |es| && es[k - 1] == data
      modifies pool, this`stackQ, this`nodesQ, this`pool
      ensures Growing(ts, ViewOf(pool), nodesQ, es, {}, k, height, top, bottom)
      ensures k < |ts| && |ts[k]| == L && p == TopOf(ts[k]) && ret == (if L == 0 then null else ts[k][0])
      ensures stackQ == [] && old(pool) <= pool && fresh(pool - old(pool))
    {
      hide Growing, Grown, TopOf;
      p, ret, ts := null, null, ts0;
      TopOfEmpty<T>();
      while |stackQ| > 0
        invariant Growing(ts, ViewOf(pool), nodesQ, es, {}, k, height, top, bottom)
        invariant Ready(ts, k, stackQ, cs, L)
        invariant p == TopOf(ts[k]) && ret == (if ts[k] == [] then null else ts[k][0])
        invariant old(pool) <= pool && fresh(pool - old(pool))
        decreases |stackQ|
      {
        var tmp := LinkOne(stackQ[|stackQ| - 1], p, data, ts, es, k, cs, L);
        ReadyGrown(ts, k, stackQ, cs, L, tmp);
        GrownTop(ts, k, tmp);
        ts := Grown(ts, k, tmp);
        if p == null {
          ret := tmp;
        }
        p := tmp;
        stackQ := stackQ[..|stackQ| - 1];
      }
    }

    /** Two nodes for a new row. */
    method TakeTwo(ghost ts: seq<seq<Node<T>>>, ghost es: seq<T>, ghost k: nat) returns (m: Node<T>, tmp: Node<T>)
      requires Growing(ts, ViewOf(pool), nodesQ, es, {}, k, height, top, bottom)
      modifies this`nodesQ, this`pool
      ensures Growing(ts, ViewOf(pool), nodesQ, es, {m, tmp}, k, height, top, bottom)
      ensures m != tmp && old(pool) <= pool && fresh(pool - old(pool))
    {
      hide Growing, Extends, Accounted;
      GrowingAccounted(ts, ViewOf(pool), nodesQ, es, {}, k, height, top, bottom);
      ghost var v, q := ViewOf(pool), nodesQ;
      m := NewNode(ts, {});
      assert {} + {m} == {m};
      ghost var v1 := ViewOf(pool);
      tmp := NewNode(ts, {m});
      assert {m} + {tmp} == {m, tmp};
      ExtendsTwice(v, v1, ViewOf(pool));
      GrowingTaken(ts, v, ViewOf(pool), q, nodesQ, es, {}, {m, tmp}, k, height, top, bottom);
    }

    /** Adds one row on top, holding a head node and one more node of column `k`. */
    method RaiseOne(p: Node?<T>, data: T, ghost ts: seq<seq<Node<T>>>, ghost es: seq<T>, ghost k: nat)
      returns (tmp: Node<T>, ghost ts': seq<seq<Node<T>>>)
      requires Growing(ts, ViewOf(pool), nodesQ, es, {}, k, height, top, bottom)
      requires 0 < k <= |es| && k < |ts| && es[k - 1] == data && |ts[k]| == height && p == TopOf(ts[k])
      modifies pool, this`nodesQ, this`pool, this`top, this`bottom, this`height
      ensures Growing(ts', ViewOf(pool), nodesQ, es, {}, k, height, top, bottom)
      ensures height == old(height) + 1 && k < |ts'| && ts'[k] == ts[k] + [tmp]
      ensures old(pool) <= pool && fresh(pool - old(pool))
    {
      hide Growing, Spliced, NextCol, Accounted, TopOf, RaisedView, Grown, ViewOf, LinksOf;
      var m;
      m, tmp := TakeTwo(ts, es, k);
      ghost var v := ViewOf(pool);
      GrowingAccounted(ts, v, nodesQ, es, {m, tmp}, k, height, top, bottom);
      AccountedLoose(ts, v, nodesQ, {m, tmp}, m);
      AccountedLoose(ts, v, nodesQ, {m, tmp}, tmp);
      ViewKeys(pool);
      Raise(m, tmp, top, p, data, pool);
      ghost var v' := ViewOf(pool);
      GrowingRaised(ts, v, v', nodesQ, es, k, m, tmp, height, top, bottom);
      GrownTwice(ts, k, m, tmp);
      ts' := Grown(Grown(ts, 0, m), k, tmp);
      if top == null {
        bottom := m;
      }
      top := m;
      height := height + 1;
      assert ViewOf(pool) == v';
    }

    /** Grows the list until it has `nh` rows, all the new ones holding column `k` alone. */
    method RaiseTo(nh: nat, p0: Node?<T>, ret0: Node?<T>, data: T, ghost ts0: seq<seq<Node<T>>>, ghost es: seq<T>, ghost k: nat)
      returns (ret: Node?<T>, ghost ts: seq<seq<Node<T>>>)
      requires Growing(ts0, ViewOf(pool), nodesQ, es, {}, k, height, top, bottom)
      requires 0 < k <= |es| && k < |ts0| && es[k - 1] == data
      requires |ts0[k]| == (if nh < height then nh else height) && p0 == TopOf(ts0[k])
      requires ret0 == if ts0[k] == [] then null else ts0[k][0]
      modifies pool, this`nodesQ, this`pool, this`top, this`bottom, this`height
      ensures Growing(ts, ViewOf(pool), nodesQ, es, {}, k, height, top, bottom)
      ensures k < |ts| && |ts[k]| == nh && ret == (if nh == 0 then null else ts[k][0])
      ensures old(pool) <= pool && fresh(pool - old(pool))
    {
      hide Growing, TopOf;
      var p := p0;
      ret, ts := ret0, ts0;
      while height < nh
        invariant Growing(ts, ViewOf(pool), nodesQ, es, {}, k, height, top, bottom)
        invariant k < |ts| && |ts[k]| == (if nh < height then nh else height) && p == TopOf(ts[k])
        invariant ret == if ts[k] == [] then null else ts[k][0]
        invariant old(pool) <= pool && fresh(pool - old(pool))
        decreases nh - height
      {
        TopOfNull(ts[k]);
        var tmp;
        tmp, ts := RaiseOne(p, data, ts, es, k);
        TopOfAppended(ts[k], tmp);
        if p == null {
          ret := tmp;
        }
        p := tmp;
      }
    }

    /** The walk of an insertion has come to `m`, at column `c` and row `r`. */
    ghost predicate Walking(data: T, add: int, nh: nat, m: Node?<T>, ch: int, c: nat, r: int, cs: seq<nat>, L: nat)
      reads this, pool
    {
      && Good(towers, ViewOf(pool), nodesQ, elems, height, top, bottom)
      && c < |towers| == |elems| + 1 && -1 <= r < |towers[c]| && r < height
      && m == (if r < 0 then null else towers[c][r])
      && (m != null ==> ch == r + 1)
      && L == (if nh < height then nh else height)
      && |stackQ| == |cs| == (if r + 1 < L then L - 1 - r else 0)
      && Stacked(compare, towers, elems, data, stackQ, cs, L, c)
      && (c > 0 ==> compare(data, elems[c - 1]) > 0 || (add > 0 && compare(data, elems[c - 1]) == 0))
      && (r < 0 && c < |elems| ==> compare(data, elems[c]) < 0)
    }

    lemma WalkingStart(data: T, add: int, nh: nat)
      requires Good(towers, ViewOf(pool), nodesQ, elems, height, top, bottom) && stackQ == []
      ensures Walking(data, add, nh, top, RealHeight(), 0, height - 1, [], if nh < height then nh else height)
    {
      hide Good, Stacked, ViewOf;
      Start(towers, ViewOf(pool), nodesQ, elems, height, top, bottom);
      StackedEmpty(compare, towers, elems, data, if nh < height then nh else height);
    }

    /** What the walk sees ahead in its row. */
    lemma WalkingAt(data: T, add: int, nh: nat, m: Node<T>, ch: int, c: nat, r: int, cs: seq<nat>, L: nat)
      requires Walking(data, add, nh, m, ch, c, r, cs, L)
      ensures m in pool && 0 <= r && c < |towers| == |elems| + 1 && r < |towers[c]| && m == towers[c][r]
      ensures
        var d := NextCol(towers, c, r);
        && m.next == (if d < |towers| then towers[d][r] else null)
        && (d < |towers| ==> m.next in pool && m.next.data == Some(elems[d - 1]))
    {
      hide Good, Stacked, ViewOf, NextCol;
      StepHere(c, r);
    }

    lemma WalkingRight(data: T, add: int, nh: nat, m: Node<T>, ch: int, c: nat, r: nat, cs: seq<nat>, L: nat)
      requires Walking(data, add, nh, m, ch, c, r, cs, L)
      requires var d := NextCol(towers, c, r);
               d < |towers| && (compare(data, elems[d - 1]) > 0 || (add > 0 && compare(data, elems[d - 1]) == 0))
      ensures m in pool && Walking(data, add, nh, m.next, ch, NextCol(towers, c, r), r, cs, L)
    {
      hide Good, Stacked, ViewOf, NextCol;
      StepHere(c, r);
      StackedRight(compare, towers, elems, data, stackQ, cs, L, c, NextCol(towers, c, r));
    }

    /** Down one row, after `m` has been pushed on the stack if the new column reaches its row. */
    method Down(data: T, ghost add: int, nh: nat, m: Node<T>, ch: int, ghost c: nat, ghost r: nat, ghost cs: seq<nat>, ghost L: nat)
      returns (m': Node?<T>, ghost cs': seq<nat>)
      requires Walking(data, add, nh, m, ch, c, r, cs, L)
      requires var d := NextCol(towers, c, r); d < |towers| ==> compare(data, elems[d - 1]) < 0
      modifies this`stackQ
      ensures Walking(data, add, nh, m', ch - 1, c, r - 1, cs', L)
    {
      hide Good, Stacked, ViewOf, NextCol;
      StepHere(c, r);
      cs' := cs;
      if ch <= nh {
        StackedPush(compare, towers, elems, data, stackQ, cs, L, c);
        stackQ := stackQ + [m];
        cs' := cs + [c];
      }
      m' := m.down;
    }

    /** Replacing: removes the element after `m`, which is equal to `data`; if that changes the top row the walk starts again. */
    method RemoveNext(data: T, add: int, nh: nat, m: Node<T>, ch: int, ghost c: nat, ghost r: nat, ghost cs: seq<nat>, ghost L: nat)
      returns (m': Node?<T>, ch': int, ghost c': nat, ghost r': int, ghost cs': seq<nat>, ghost L': nat)
      requires Valid() && Walking(data, add, nh, m, ch, c, r, cs, L)
      requires var d := NextCol(towers, c, r); d < |towers| && compare(data, elems[d - 1]) == 0
      modifies pool, this`top, this`bottom, this`height, this`size, this`nodesQ, this`towers, this`elems, this`stackQ
      ensures Valid() && |elems| + 1 == |old(elems)|
      ensures Without(compare, data, elems) == Without(compare, data, old(elems))
      ensures Walking(data, add, nh, m', ch', c', r', cs', L')
    {
      hide Good, NextCol, Order, Sorted, ViewOf, Stacked, Without;
      StepHere(c, r);
      Start(towers, ViewOf(pool), nodesQ, elems, height, top, bottom);
      ghost var d := NextCol(towers, c, r);
      StackedDropped(compare, towers, elems, data, stackQ, cs, L, c, d);
      WithoutDropped(compare, data, elems, d - 1);
      var top0 := top;
      var _ := RemoveNode(m.next, d, r);
      Start(towers, ViewOf(pool), nodesQ, elems, height, top, bottom);
      if top0 != top {
        stackQ := [];
        WalkingStart(data, add, nh);
        return top, RealHeight(), 0, height - 1, [], if nh < height then nh else height;
      }
      return m, ch, c, r, cs, L;
    }

    /**
     The walk of `insert_compare`. It ends below the bottom row, with the nodes to insert
     after on the stack, or with `dup` when the element is there and must not be doubled.
     */
    method Walk(data: T, add: int, nh: nat) returns (dup: bool, ghost c: nat, ghost cs: seq<nat>, ghost L: nat)
      requires Valid() && stackQ == [] && 1 <= nh
      modifies pool, this`top, this`bottom, this`height, this`size, this`nodesQ, this`towers, this`elems, this`stackQ
      ensures Valid()
      ensures dup ==> add == 0 && HasEqual(compare, data, elems) && stackQ == []
      ensures add >= 0 ==> elems == old(elems) && towers == old(towers) && nodesQ == old(nodesQ) && ViewOf(pool) == old(ViewOf(pool))
      ensures add < 0 ==> elems == Without(compare, data, old(elems))
      ensures !dup && add <= 0 ==> !HasEqual(compare, data, elems)
      ensures !dup ==>
                && c < |towers| && c == Slot(compare, data, elems)
                && L == (if nh < height then nh else height) && |stackQ| == L
                && Stacked(compare, towers, elems, data, stackQ, cs, L, c)
    {
      hide Good, NextCol, Order, Sorted, ViewOf, Stacked, Without, Walking;
      var ch := RealHeight();
      var m := top;
      WalkingStart(data, add, nh);
      dup, c, cs, L := false, 0, [], if nh < height then nh else height;
      ghost var r: int := height - 1;
      while m != null
        invariant Valid()
        invariant Walking(data, add, nh, m, ch, c, r, cs, L)
        invariant add >= 0 ==> elems == old(elems) && towers == old(towers) && nodesQ == old(nodesQ) && ViewOf(pool) == old(ViewOf(pool))
        invariant Without(compare, data, elems) == Without(compare, data, old(elems))
        decreases |elems|, r, |towers| - c
      {
        WalkingAt(data, add, nh, m, ch, c, r, cs, L);
        if m.next != null {
          var compared := compare(data, m.next.data.value);
          if compared == 0 {
            if add == 0 {
              stackQ := [];
              return true, c, cs, L;
            }
            if add < 0 {
              m, ch, c, r, cs, L := RemoveNext(data, add, nh, m, ch, c, r, cs, L);
              continue;
            }
          }
          if compared >= 0 {
            WalkingRight(data, add, nh, m, ch, c, r, cs, L);
            m := m.next;
            c := NextCol(towers, c, r);
            continue;
          }
        }
        m, cs := Down(data, add, nh, m, ch, c, r, cs, L);
        ch := ch - 1;
        r := r - 1;
      }
      WalkingEnds(data, add, nh, ch, c, r, cs, L);
    }

    lemma WalkingEnds(data: T, add: int, nh: nat, ch: int, c: nat, r: int, cs: seq<nat>, L: nat)
      requires Valid() && 1 <= nh && Walking(data, add, nh, null, ch, c, r, cs, L)
      ensures c < |towers| && c == Slot(compare, data, elems)
      ensures L == (if nh < height then nh else height) && |stackQ| == L
      ensures Stacked(compare, towers, elems, data, stackQ, cs, L, c)
      ensures add <= 0 ==> !HasEqual(compare, data, elems) && Without(compare, data, elems) == elems
    {
      hide Good, NextCol, Order, Sorted, ViewOf, Stacked, Without;
      WalkEnds(compare, data, elems, c, add > 0);
    }

    /** The end of `insert_compare`: links the new column in. */
    method InsertAt(data: T, nh: nat, ghost c: nat, ghost cs: seq<nat>, ghost L: nat) returns (ret: Node?<T>)
      requires Valid() && 1 <= nh && c < |towers| && c == Slot(compare, data, elems)
      requires L == (if nh < height then nh else height) && |stackQ| == L
      requires Stacked(compare, towers, elems, data, stackQ, cs, L, c)
      modifies pool, this`top, this`bottom, this`height, this`size, this`nodesQ, this`pool, this`towers, this`elems, this`stackQ
      ensures Valid() && stackQ == [] && old(pool) <= pool && fresh(pool - old(pool))
      ensures elems == Inserted(compare, data, old(elems))
      ensures c + 1 < |towers| && |towers[c + 1]| == nh && ret == towers[c + 1][0]
    {
      hide Good, Order, Sorted, ViewOf, Stacked, Growing, Opened;
      ghost var es := Inserted(compare, data, elems);
      ghost var k := c + 1;
      ReadyOpened(compare, towers, elems, data, stackQ, cs, L, c);
      GrowingOpened(towers, ViewOf(pool), nodesQ, elems, k, data, height, top, bottom);
      InsertedSorted(compare, data, elems);
      ghost var ts;
      var p;
      p, ret, ts := PopAndLink(data, Opened(towers, k), es, k, cs, L);
      ret, ts := RaiseTo(nh, p, ret, data, ts, es, k);
      GrowingDone(ts, ViewOf(pool), nodesQ, es, k, height, top, bottom);
      size := size + 1;
      towers, elems := ts, es;
    }

    /**
     `insert_compare`: `add` is 1 to add after all equal elements, 0 to insert only what
     is not there, and -1 to replace all equal elements.
     */
    method InsertCompare(data: T, add: int) returns (ret: Node?<T>)
      requires Valid() && stackQ == [] && -1 <= add <= 1
      modifies pool, this`top, this`bottom, this`height, this`size, this`nodesQ, this`pool, this`towers, this`elems, this`stackQ
      ensures Valid() && stackQ == [] && old(pool) <= pool && fresh(pool - old(pool))
      ensures ret == null <==> add == 0 && HasEqual(compare, data, old(elems))
      ensures ret == null ==>
                && elems == old(elems) && towers == old(towers) && nodesQ == old(nodesQ)
                && pool == old(pool) && ViewOf(pool) == old(ViewOf(pool))
      ensures ret != null ==>
                elems == Inserted(compare, data, if add < 0 then Without(compare, data, old(elems)) else old(elems))
      ensures ret != null ==> var k := Slot(compare, data, elems); 0 < k < |towers| && towers[k] != [] && ret == towers[k][0]
    {
      hide Good, Order, Sorted, ViewOf, Stacked, Without;
      var nh := ChooseHeight();
      var dup;
      ghost var c, cs, L;
      dup, c, cs, L := Walk(data, add, nh);
      if dup {
        return null;
      }
      ghost var es := elems;
      ret := InsertAt(data, nh, c, cs, L);
      InsertedSlot(compare, data, es);
    }

    /** `apr_skiplist_insert` */
    method Insert(data: T) returns (ret: Node?<T>)
      requires Valid() && stackQ == []
      modifies pool, this`top, this`bottom, this`height, this`size, this`nodesQ, this`pool, this`towers, this`elems, this`stackQ
      ensures Valid() && stackQ == []
      ensures old(pool) <= pool && fresh(pool - old(pool))
      ensures ret == null <==> HasEqual(compare, data, old(elems))
      ensures elems == if ret == null then old(elems) else Inserted(compare, data, old(elems))
    {
      ret := InsertCompare(data, 0);
    }

    /** `apr_skiplist_add` */
    method Add(data: T) returns (ret: Node?<T>)
      requires Valid() && stackQ == []
      modifies pool, this`top, this`bottom, this`height, this`size, this`nodesQ, this`pool, this`towers, this`elems, this`stackQ
      ensures Valid() && stackQ == [] && ret != null
      ensures old(pool) <= pool && fresh(pool - old(pool))
      ensures elems == Inserted(compare, data, old(elems))
    {
      ret := InsertCompare(data, 1);
    }

    /** `apr_skiplist_replace` */
    method Replace(data: T) returns (ret: Node?<T>)
      requires Valid() && stackQ == []
      modifies pool, this`top, this`bottom, this`height, this`size, this`nodesQ, this`pool, this`towers, this`elems, this`stackQ
      ensures Valid() && stackQ == [] && ret != null
      ensures old(pool) <= pool && fresh(pool - old(pool))
      ensures elems == Inserted(compare, data, Without(compare, data, old(elems)))
      ensures var k := Slot(compare, data, elems);
        && 0 < k && elems[k - 1] == data
        && (forall i :: 0 <= i < |elems| ==> (compare(data, elems[i]) == 0 <==> i == k - 1))
    {
      ret := InsertCompare(data, -1);
      OnlyEqual(compare, data, old(elems));
    }

    /** `apr_skiplist_find` and `apr_skiplist_last`, with the key comparison as `probe`. */
    method Find(probe: T -> int, last: bool) returns (data: Option<T>, iter: Node?<T>)
      requires Valid() && Searchable(probe, elems)
      ensures data.None? <==> forall i :: 0 <= i < |elems| ==> probe(elems[i]) != 0
      ensures data.None? <==> iter == null
      ensures data.Some? ==>
                exists i :: 0 <= i < |elems| && data == Some(elems[i]) && probe(elems[i]) == 0
                            && (last ==> forall j :: i < j < |elems| ==> probe(elems[j]) != 0)
    {
      ghost var c;
      iter, c := FindCompare(probe, last);
      if iter == null {
        return None, null;
      }
      data := iter.data;
      assert data == Some(elems[c - 1]);
    }

    /** `apr_skiplist_remove`: takes out some element that the key finds. */
    method Remove(probe: T -> int) returns (h: nat, ghost i: nat)
      requires Valid() && Searchable(probe, elems)
      modifies pool, this`top, this`bottom, this`height, this`size, this`nodesQ, this`towers, this`elems
      ensures Valid()
      ensures h == 0 <==> forall j :: 0 <= j < |old(elems)| ==> probe(old(elems)[j]) != 0
      ensures h == 0 ==> elems == old(elems)
      ensures h != 0 ==>
                && i < |old(elems)| && probe(old(elems)[i]) == 0
                && elems == Dropped(old(elems), i) && h == RealHeight() && Tallest(towers, h)
    {
      hide Good, Order, Sorted, Tallest;
      var m;
      ghost var c;
      m, c := FindCompare(probe, false);
      i := 0;
      if m == null {
        return 0, 0;
      }
      i := c - 1;
      h := RemoveNode(m, c, 0);
    }

    /** `apr_skiplist_getlist`: the node of the first element. */
    method GetList() returns (m: Node?<T>)
      requires Valid()
      ensures m == null <==> elems == []
      ensures m != null ==> |towers| == |elems| + 1 && towers[1] != [] && m == towers[1][0] && m in pool && m.data == Some(elems[0])
    {
      hide Good, NextCol, Order, Sorted, ViewOf;
      Start(towers, ViewOf(pool), nodesQ, elems, height, top, bottom);
      BottomIs(towers, ViewOf(pool), nodesQ, elems, height, top, bottom);
      if bottom == null {
        return null;
      }
      StepHere(0, 0);
      m := bottom.next;
      if m != null {
        StepHere(1, 0);
      }
    }

    /** `apr_skiplist_pop`: the smallest element, the one added first among equals. */
    method Pop() returns (data: Option<T>)
      requires Valid()
      modifies pool, this`top, this`bottom, this`height, this`size, this`nodesQ, this`towers, this`elems
      ensures Valid()
      ensures if old(elems) == [] then data == None && elems == []
              else data == Some(old(elems)[0]) && elems == old(elems)[1..]
    {
      var m := GetList();
      if m == null {
        return None;
      }
      data := m.data;
      assert Dropped(elems, 0) == elems[1..];
      var _ := RemoveNode(m, 1, 0);
    }

    /** `apr_skiplist_peek` */
    method Peek() returns (data: Option<T>)
      requires Valid()
      ensures data == if elems == [] then None else Some(elems[0])
    {
      var m := GetList();
      return if m == null then None else m.data;
    }

    /** Queues the nodes of column `c` for reuse, from the bottom row up. */
    method QueueColumn(m0: Node<T>, ghost q0: seq<Node<T>>, ghost c: nat)
      requires Linked(towers, ViewOf(pool), -1) && c < |towers| && towers[c] != [] && m0 == towers[c][0]
      requires Queueing(towers, q0, nodesQ, c, 0)
      modifies this`nodesQ
      ensures Queueing(towers, q0, nodesQ, c + 1, 0)
    {
      hide Queueing, NextCol, Linked;
      var m: Node?<T> := m0;
      ghost var j: nat := 0;
      while m != null
        invariant j <= |towers[c]| && m == if j < |towers[c]| then towers[c][j] else null
        invariant Queueing(towers, q0, nodesQ, c, j)
        decreases |towers[c]| - j
      {
        UpIs(towers, ViewOf(pool), c, j);
        var u := m.up;
        QueueingStep(towers, q0, nodesQ, c, j);
        nodesQ := nodesQ + [m];
        m := u;
        j := j + 1;
      }
      QueueingColumn(towers, q0, nodesQ, c);
    }

    /** `apr_skiplist_remove_all`: every node, the head nodes too, is queued for reuse. */
    method RemoveAll()
      requires Valid()
      modifies this`top, this`bottom, this`height, this`size, this`nodesQ, this`towers, this`elems
      ensures Valid() && elems == [] && height == 0
      ensures Members(nodesQ) == pool && |nodesQ| == |pool|
    {
      hide Good, NextCol, Order, Sorted, ViewOf, Queueing, Linked;
      ghost var v := ViewOf(pool);
      ghost var q0 := nodesQ;
      GoodQueueing(towers, v, q0, elems, height, top, bottom);
      Start(towers, v, nodesQ, elems, height, top, bottom);
      BottomIs(towers, v, nodesQ, elems, height, top, bottom);
      var m := bottom;
      ghost var c: nat := 0;
      while m != null
        invariant c <= |towers| == |elems| + 1
        invariant Good(towers, v, q0, elems, height, top, bottom) && ViewOf(pool) == v
        invariant Linked(towers, v, -1) && Queueing(towers, q0, nodesQ, c, 0)
        invariant if m == null then c == |towers| || (height == 0 && c == 0) else c < |towers| && towers[c] != [] && m == towers[c][0]
        decreases |towers| - c
      {
        BottomRow(towers, v, q0, elems, height, top, bottom, c);
        NextIs(v, m);
        var p := m.next;
        QueueColumn(m, q0, c);
        m := p;
        c := c + 1;
      }
      EmptyGood(towers, v, q0, nodesQ, elems, height, top, bottom, c);
      NoDuplicatesCount(nodesQ);
      ViewKeys(pool);
      top, bottom := null, null;
      height, size := 0, 0;
      towers, elems := [[]], [];
      assert Sorted(compare, elems) by { SortedEmpty(compare); }
    }

  }
}
