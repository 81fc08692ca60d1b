/**
 The bookkeeping of an insertion: the stack of nodes to insert after, filled on
 the way down, and the new column growing as the stack is popped.
 */
module SkipInsert {
  import opened Basics
  import opened Places
  import opened Towers
  import opened SkipNodes
  import opened SkipState
  import opened SortedSeqs

  /**
   On the way down, `stack[i]` is the last node of row `L - 1 - i` that does not
   follow `x`; it stands in column `cs[i]`, never right of the walk's column `c`.
   */
  ghost predicate Stacked<T>(cmp: (T, T) -> int, ts: seq<seq<Node<T>>>, es: seq<T>, x: T,
                             stack: seq<Node<T>>, cs: seq<nat>, L: nat, c: nat)
  {
    && |ts| == |es| + 1
    && |stack| == |cs| <= L
    && forall i {:trigger cs[i]} :: 0 <= i < |cs| ==> StackedAt(cmp, ts, es, x, stack[i], cs[i], L - 1 - i, c)
  }

  ghost predicate StackedAt<T>(cmp: (T, T) -> int, ts: seq<seq<Node<T>>>, es: seq<T>, x: T,
                               n: Node<T>, b: nat, q: nat, c: nat)
    requires |ts| == |es| + 1
  {
    && b <= c && b < |ts| && q < |ts[b]| && n == ts[b][q]
    && var d := NextCol(ts, b, q);
       d < |ts| ==> cmp(x, es[d - 1]) < 0
  }

  lemma StackedEmpty<T>(cmp: (T, T) -> int, ts: seq<seq<Node<T>>>, es: seq<T>, x: T, L: nat)
    requires |ts| == |es| + 1
    ensures Stacked(cmp, ts, es, x, [], [], L, 0)
  {
  }

  lemma StackedRight<T>(cmp: (T, T) -> int, ts: seq<seq<Node<T>>>, es: seq<T>, x: T,
                        stack: seq<Node<T>>, cs: seq<nat>, L: nat, c: nat, c': nat)
    requires Stacked(cmp, ts, es, x, stack, cs, L, c) && c <= c'
    ensures Stacked(cmp, ts, es, x, stack, cs, L, c')
  {
  }

  lemma StackedPush<T>(cmp: (T, T) -> int, ts: seq<seq<Node<T>>>, es: seq<T>, x: T,
                       stack: seq<Node<T>>, cs: seq<nat>, L: nat, c: nat)
    requires Stacked(cmp, ts, es, x, stack, cs, L, c) && |stack| < L
    requires c < |ts| && L - 1 - |cs| < |ts[c]|
    requires var d := NextCol(ts, c, L - 1 - |cs|); d < |ts| ==> cmp(x, es[d - 1]) < 0
    ensures Stacked(cmp, ts, es, x, stack + [ts[c][L - 1 - |cs|]], cs + [c], L, c)
  {
  }

  /** Taking out an equal element to the right leaves the stack valid. */
  lemma StackedDropped<T>(cmp: (T, T) -> int, ts: seq<seq<Node<T>>>, es: seq<T>, x: T,
                          stack: seq<Node<T>>, cs: seq<nat>, L: nat, c: nat, k: nat)
    requires Stacked(cmp, ts, es, x, stack, cs, L, c)
    requires c < k < |ts| && cmp(x, es[k - 1]) == 0
    ensures Stacked(cmp, Dropped(ts, k), Dropped(es, k - 1), x, stack, cs, L, c)
  {
    forall i | 0 <= i < |cs|
      ensures StackedAt(cmp, Dropped(ts, k), Dropped(es, k - 1), x, stack[i], cs[i], L - 1 - i, c)
    {
      assert StackedAt(cmp, ts, es, x, stack[i], cs[i], L - 1 - i, c);
      DroppedNext(ts, k, cs[i], L - 1 - i);
    }
  }

  /** The stack once the new column `k` has `L - |stack|` nodes. */
  ghost predicate Ready<T>(ts: seq<seq<Node<T>>>, k: nat, stack: seq<Node<T>>, cs: seq<nat>, L: nat)
  {
    && k < |ts| && |stack| <= |cs| && |stack| + |ts[k]| == L
    && forall i {:trigger cs[i]} :: 0 <= i < |stack| ==>
         Passes(ts, cs[i], k, L - 1 - i) && stack[i] == ts[cs[i]][L - 1 - i]
  }

  lemma ReadySizes<T>(ts: seq<seq<Node<T>>>, k: nat, stack: seq<Node<T>>, cs: seq<nat>, L: nat)
    requires Ready(ts, k, stack, cs, L)
    ensures k < |ts| && |stack| <= |cs| && |stack| + |ts[k]| == L
  {
  }

  lemma ReadyOpened<T>(cmp: (T, T) -> int, ts: seq<seq<Node<T>>>, es: seq<T>, x: T,
                       stack: seq<Node<T>>, cs: seq<nat>, L: nat, c: nat)
    requires Stacked(cmp, ts, es, x, stack, cs, L, c) && |stack| == L
    requires c < |ts| && c == Slot(cmp, x, es)
    ensures Ready(Opened(ts, c + 1), c + 1, stack, cs, L)
  {
    var ts' := Opened(ts, c + 1);
    OpenedAt(ts, c + 1, c + 1);
    forall i | 0 <= i < |stack|
      ensures Passes(ts', cs[i], c + 1, L - 1 - i) && stack[i] == ts'[cs[i]][L - 1 - i]
    {
      assert StackedAt(cmp, ts, es, x, stack[i], cs[i], L - 1 - i, c);
      OpenedNext(ts, c + 1, cs[i], L - 1 - i);
      OpenedAt(ts, c + 1, cs[i]);
      var d := NextCol(ts, cs[i], L - 1 - i);
      assert d > c;
    }
  }

  lemma ReadyGrown<T>(ts: seq<seq<Node<T>>>, k: nat, stack: seq<Node<T>>, cs: seq<nat>, L: nat, tmp: Node<T>)
    requires Ready(ts, k, stack, cs, L) && stack != []
    ensures Ready(Grown(ts, k, tmp), k, stack[..|stack| - 1], cs, L)
  {
    var ts' := Grown(ts, k, tmp);
    forall i | 0 <= i < |stack| - 1
      ensures Passes(ts', cs[i], k, L - 1 - i) && stack[i] == ts'[cs[i]][L - 1 - i]
    {
      GrownNext(ts, k, tmp, cs[i], L - 1 - i);
    }
  }

  ghost predicate RowUsed<X>(ts: seq<seq<X>>, r: int) {
    exists c :: 0 < c < |ts| && r < |ts[c]|
  }

  lemma RowUsedNext<X>(ts: seq<seq<X>>, r: nat)
    requires ts != []
    ensures RowUsed(ts, r) <==> NextCol(ts, 0, r) < |ts|
  {
  }

  /** A list with the column `k` under construction, from empty to as tall as the head. */
  ghost predicate Growing<T>(ts: seq<seq<Node<T>>>, v: View<T>, q: seq<Node<T>>, es: seq<T>, loose: set<Node<T>>, k: nat,
                             height: nat, top: Node?<T>, bottom: Node?<T>)
  {
    && Wired(ts, v, q, -1, loose)
    && Shaped(ts, height, top, bottom)
    && Filled(ts, v, es)
    && 0 < k < |ts|
    && (forall c :: 0 < c < |ts| && c != k ==> ts[c] != [])
    && (height > 0 ==> RowUsed(ts, height - 1))
  }

  lemma GrowingOpened<T>(ts: seq<seq<Node<T>>>, v: View<T>, q: seq<Node<T>>, es: seq<T>, k: nat, x: T,
                         height: nat, top: Node?<T>, bottom: Node?<T>)
    requires Good(ts, v, q, es, height, top, bottom) && 0 < k <= |ts|
    ensures Growing(Opened(ts, k), v, q, es[..k - 1] + [x] + es[k - 1..], {}, k, height, top, bottom)
    ensures Opened(ts, k)[k] == []
  {
    OpenedWired(ts, v, q, k);
    FilledOpened(ts, v, es, k, x);
    var ts' := Opened(ts, k);
    forall c | 0 <= c < |ts'| && c != k
      ensures ts'[c] == ts[if c < k then c else c - 1]
    {
      OpenedAt(ts, k, c);
    }
    OpenedAt(ts, k, k);
    if height > 0 {
      var d := NextCol(ts, 0, height - 1);
      OpenedAt(ts, k, d);
      assert ts'[Shifted(d, k)] == ts[d];
    }
  }

  ghost predicate Extends<T>(v: View<T>, v': View<T>) {
    v.Keys <= v'.Keys && forall n :: n in v ==> v'[n] == v[n]
  }

  lemma ExtendsTwice<T>(v0: View<T>, v1: View<T>, v2: View<T>)
    requires Extends(v0, v1) && Extends(v1, v2)
    ensures Extends(v0, v2)
  {
  }

  /** Popping one node off the stack and linking `tmp` after it. */
  lemma GrowingSpliced<T>(ts: seq<seq<Node<T>>>, v: View<T>, v': View<T>, q: seq<Node<T>>, es: seq<T>, loose: set<Node<T>>,
                          pc: nat, k: nat, tmp: Node<T>, height: nat, top: Node?<T>, bottom: Node?<T>)
    requires Growing(ts, v, q, es, loose, k, height, top, bottom) && tmp in loose
    requires Passes(ts, pc, k, |ts[k]|) && |ts[k]| < height
    requires Spliced(v, v', ts[pc][|ts[k]|], tmp, TopOf(ts[k]), After(ts, pc, |ts[k]|))
    requires tmp in v' && v'[tmp].data == DataAt(es, k)
    ensures Growing(Grown(ts, k, tmp), v', q, es, loose - {tmp}, k, height, top, bottom)
  {
    SplicedWired(ts, v, v', q, loose, pc, k, tmp);
    FilledGrown(ts, v, v', es, k, tmp);
    var ts' := Grown(ts, k, tmp);
    if height > 0 {
      var c :| 0 < c < |ts| && height - 1 < |ts[c]|;
      assert height - 1 < |ts'[c]|;
    }
  }

  /** A new top row with the head node `m`; the row is used once `tmp` is in. */
  function RaisedView<T>(v: View<T>, m: Node<T>, top: Node?<T>): View<T> {
    map n | n in v.Keys + {m} ::
      if n == m then Links(None, null, null, top, null)
      else v[n].(up := if n == top then m else v[n].up)
  }

  lemma GrowingRaised<T>(ts: seq<seq<Node<T>>>, v: View<T>, v': View<T>, q: seq<Node<T>>, es: seq<T>,
                         k: nat, m: Node<T>, tmp: Node<T>, height: nat, top: Node?<T>, bottom: Node?<T>)
    requires Growing(ts, v, q, es, {m, tmp}, k, height, top, bottom) && m != tmp
    requires |ts[k]| == height
    requires Spliced(RaisedView(v, m, top), v', m, tmp, TopOf(ts[k]), null)
    requires tmp in v' && v'[tmp].data == DataAt(es, k)
    ensures Growing(Grown(Grown(ts, 0, m), k, tmp), v', q, es, {}, k, height + 1, m, if height == 0 then m else bottom)
  {
    var v1 := RaisedView(v, m, top);
    var ts1 := Grown(ts, 0, m);
    assert Raised(v, v1, m, top);
    RaisedWired(ts, v, v1, q, {m, tmp}, m);
    assert {m, tmp} - {m} == {tmp};
    FilledGrown(ts, v, v1, es, 0, m);
    NextColIs(ts1, 0, height, |ts|);
    SplicedWired(ts1, v1, v', q, {tmp}, 0, k, tmp);
    assert {tmp} - {tmp} == {};
    FilledGrown(ts1, v1, v', es, k, tmp);
    assert height < |Grown(ts1, k, tmp)[k]|;
  }

  lemma GrowingDone<T>(ts: seq<seq<Node<T>>>, v: View<T>, q: seq<Node<T>>, es: seq<T>, k: nat,
                       height: nat, top: Node?<T>, bottom: Node?<T>)
    requires Growing(ts, v, q, es, {}, k, height, top, bottom) && ts[k] != []
    ensures Good(ts, v, q, es, height, top, bottom)
  {
    assert |ts[k]| <= height;
    RowUsedNext(ts, height - 1);
  }

  /** A node has been taken for use. */
  lemma GrowingTaken<T>(ts: seq<seq<Node<T>>>, v: View<T>, v': View<T>, q: seq<Node<T>>, q': seq<Node<T>>, es: seq<T>,
                        loose: set<Node<T>>, loose': set<Node<T>>, k: nat, height: nat, top: Node?<T>, bottom: Node?<T>)
    requires Growing(ts, v, q, es, loose, k, height, top, bottom)
    requires Extends(v, v') && Accounted(ts, v', q', loose')
    ensures Growing(ts, v', q', es, loose', k, height, top, bottom)
  {
    LinkedMore(ts, v, v', -1);
    FilledSame(ts, v, v', es);
  }

  lemma GrowingAccounted<T>(ts: seq<seq<Node<T>>>, v: View<T>, q: seq<Node<T>>, es: seq<T>, loose: set<Node<T>>, k: nat,
                            height: nat, top: Node?<T>, bottom: Node?<T>)
    requires Growing(ts, v, q, es, loose, k, height, top, bottom)
    ensures Accounted(ts, v, q, loose) && 0 < k < |ts| == |es| + 1
    ensures |ts[0]| == height && |ts[k]| <= height
    ensures top != null ==> top in v && top !in loose
    ensures TopOf(ts[k]) != null ==> TopOf(ts[k]) in v && TopOf(ts[k]) !in loose
    ensures top == TopOf(ts[0]) && (top == null <==> height == 0)
  {
    if height > 0 {
      assert IsPlace(ts, 0, height - 1);
      assert ts[0][height - 1] in AllNodes(ts);
    }
    if ts[k] != [] {
      assert IsPlace(ts, k, |ts[k]| - 1);
      assert ts[k][|ts[k]| - 1] in AllNodes(ts);
    }
  }

  /** The node on top of the stack and its place in its row. */
  lemma ReadyTop<T>(ts: seq<seq<Node<T>>>, v: View<T>, q: seq<Node<T>>, es: seq<T>, loose: set<Node<T>>, k: nat,
                    height: nat, top: Node?<T>, bottom: Node?<T>, stack: seq<Node<T>>, cs: seq<nat>, L: nat)
    requires Growing(ts, v, q, es, loose, k, height, top, bottom)
    requires Ready(ts, k, stack, cs, L) && stack != [] && L <= height
    ensures
      var m, pc := stack[|stack| - 1], cs[|stack| - 1];
      && Passes(ts, pc, k, |ts[k]|) && |ts[k]| < height && m == ts[pc][|ts[k]|]
      && m in v && m !in loose && v[m].next == After(ts, pc, |ts[k]|)
      && (v[m].next != null ==> v[m].next in v && v[m].next !in loose)
  {
    var i := |stack| - 1;
    var m, pc := stack[i], cs[i];
    assert Passes(ts, pc, k, L - 1 - i);
    assert NodeLinked(ts, v, pc, |ts[k]|, -1);
    assert m in AllNodes(ts);
    var d := NextCol(ts, pc, |ts[k]|);
    if d < |ts| {
      assert ts[d][|ts[k]|] in AllNodes(ts);
    }
  }

  /** Where the walk ends is where the element belongs. */
  lemma WalkEnds<T(!new)>(cmp: (T, T) -> int, x: T, es: seq<T>, c: nat, equals: bool)
    requires Order(cmp) && Sorted(cmp, es) && c <= |es|
    requires c > 0 ==> cmp(x, es[c - 1]) > 0 || (equals && cmp(x, es[c - 1]) == 0)
    requires c < |es| ==> cmp(x, es[c]) < 0
    ensures c == Slot(cmp, x, es)
    ensures !equals ==> !HasEqual(cmp, x, es) && Without(cmp, x, es) == es
  {
    hide Order, Sorted;
    SortedSearchable(cmp, x, es);
    var probe := y => cmp(x, y);
    assert forall i :: 0 <= i < |es| ==> probe(es[i]) == cmp(x, es[i]);
    SlotIs(cmp, x, es, c);
    if !equals {
      WithoutNothing(cmp, x, es);
    }
  }
}
