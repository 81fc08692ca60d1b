/**
 Whole runs of a skip list: adding any elements in any order and popping until the
 list is empty gives them back sorted, equal ones in the order they were added.
 */
module SkipSort {
  import opened Basics
  import opened SortedSeqs
  import opened SkipLists

  /** The elements of `s` that compare equal to `y`, in order. */
  function Equals<T>(cmp: (T, T) -> int, y: T, s: seq<T>): seq<T> {
    if s == [] then []
    else (if cmp(y, s[0]) == 0 then [s[0]] else []) + Equals(cmp, y, s[1..])
  }

  /** The list after `xs` has been added one after the other. */
  function Added<T>(cmp: (T, T) -> int, xs: seq<T>): seq<T> {
    if xs == [] then [] else Inserted(cmp, xs[|xs| - 1], Added(cmp, xs[..|xs| - 1]))
  }

  lemma EqualsMore<T>(cmp: (T, T) -> int, y: T, s: seq<T>)
    requires s != []
    ensures Equals(cmp, y, s) == (if cmp(y, s[0]) == 0 then [s[0]] else []) + Equals(cmp, y, s[1..])
  {
  }

  lemma {:induction false} EqualsAppend<T>(cmp: (T, T) -> int, y: T, s: seq<T>, t: seq<T>)
    ensures Equals(cmp, y, s + t) == Equals(cmp, y, s) + Equals(cmp, y, t)
  {
    if s == [] {
      assert s + t == t;
    } else {
      hide Equals;
      var first := if cmp(y, s[0]) == 0 then [s[0]] else [];
      EqualsAppend(cmp, y, s[1..], t);
      assert (s + t)[0] == s[0] && (s + t)[1..] == s[1..] + t;
      EqualsMore(cmp, y, s);
      EqualsMore(cmp, y, s + t);
      Regroup(first, Equals(cmp, y, s[1..]), Equals(cmp, y, t));
    }
  }

  lemma {:induction false} EqualsNone<T>(cmp: (T, T) -> int, y: T, s: seq<T>)
    requires forall i :: 0 <= i < |s| ==> cmp(y, s[i]) != 0
    ensures Equals(cmp, y, s) == []
  {
    if s != [] {
      EqualsNone(cmp, y, s[1..]);
    }
  }

  /** Insertion puts an element after all its equals and moves no others. */
  lemma InsertedStable<T(!new)>(cmp: (T, T) -> int, y: T, x: T, s: seq<T>)
    requires Order(cmp) && Sorted(cmp, s)
    ensures Equals(cmp, y, Inserted(cmp, x, s)) == Equals(cmp, y, s) + (if cmp(y, x) == 0 then [x] else [])
  {
    hide *;
    var k := Slot(cmp, x, s);
    if cmp(y, x) == 0 {
      NoneFollow(cmp, y, x, s, k);
    }
    EqualsBetween(cmp, y, s[..k], x, s[k..]);
    EqualsAppend(cmp, y, s[..k], s[k..]);
    CutAndJoined(s, k);
    InsertedIs(cmp, x, s);
  }

  lemma InsertedIs<T>(cmp: (T, T) -> int, x: T, s: seq<T>)
    ensures var k := Slot(cmp, x, s); Inserted(cmp, x, s) == s[..k] + [x] + s[k..]
  {
  }

  /** An element put in the middle, with none of its equals behind it. */
  lemma EqualsBetween<T>(cmp: (T, T) -> int, y: T, before: seq<T>, x: T, after: seq<T>)
    requires cmp(y, x) == 0 ==> Equals(cmp, y, after) == []
    ensures Equals(cmp, y, before + [x] + after)
      == Equals(cmp, y, before) + Equals(cmp, y, after) + (if cmp(y, x) == 0 then [x] else [])
  {
    hide Equals;
    EqualsAppend(cmp, y, before + [x], after);
    EqualsAppend(cmp, y, before, [x]);
    EqualsOne(cmp, y, x);
    Regroup(Equals(cmp, y, before), Equals(cmp, y, [x]), Equals(cmp, y, after));
  }

  lemma NoneFollow<T(!new)>(cmp: (T, T) -> int, y: T, x: T, s: seq<T>, k: nat)
    requires Order(cmp) && Sorted(cmp, s) && cmp(y, x) == 0 && k <= |s| && (k < |s| ==> cmp(x, s[k]) < 0)
    ensures Equals(cmp, y, s[k..]) == []
  {
    hide *;
    forall i | 0 <= i < |s[k..]|
      ensures cmp(y, s[k..][i]) != 0
    {
      FollowsEqual(cmp, y, x, s, k, k + i);
    }
    EqualsNone(cmp, y, s[k..]);
  }

  lemma EqualsOne<T>(cmp: (T, T) -> int, y: T, x: T)
    ensures Equals(cmp, y, [x]) == if cmp(y, x) == 0 then [x] else []
  {
  }

  lemma FollowsEqual<T(!new)>(cmp: (T, T) -> int, y: T, x: T, s: seq<T>, k: nat, i: nat)
    requires Order(cmp) && Sorted(cmp, s) && cmp(y, x) == 0 && k <= i < |s| && cmp(x, s[k]) < 0
    ensures cmp(y, s[i]) < 0
  {
    OrderAt(cmp, s[k], x, y) by { Flip(cmp, y, x); }
    if k < i {
      OrderAt(cmp, x, s[k], s[i]);
    }
    assert cmp(x, s[i]) < 0;
    OrderAt(cmp, s[i], y, x);
  }

  lemma InsertedMultiset<T>(cmp: (T, T) -> int, x: T, s: seq<T>)
    ensures multiset(Inserted(cmp, x, s)) == multiset(s) + multiset{x}
  {
    var k := Slot(cmp, x, s);
    assert s == s[..k] + s[k..];
  }

  /** What adding `xs` leaves: sorted, nothing lost, nothing made up, and stable. */
  lemma {:induction false} AddedSortsStably<T(!new)>(cmp: (T, T) -> int, xs: seq<T>)
    requires Order(cmp)
    ensures Sorted(cmp, Added(cmp, xs))
    ensures multiset(Added(cmp, xs)) == multiset(xs)
    ensures forall y :: Equals(cmp, y, Added(cmp, xs)) == Equals(cmp, y, xs)
  {
    if xs != [] {
      hide Order, Sorted, Inserted, Equals;
      var x, rest := xs[|xs| - 1], xs[..|xs| - 1];
      AddedSortsStably(cmp, rest);
      InsertedSorted(cmp, x, Added(cmp, rest));
      InsertedMultiset(cmp, x, Added(cmp, rest));
      assert xs == rest + [x];
      forall y
        ensures Equals(cmp, y, Added(cmp, xs)) == Equals(cmp, y, xs)
      {
        InsertedStable(cmp, y, x, Added(cmp, rest));
        EqualsAppend(cmp, y, rest, [x]);
        EqualsOne(cmp, y, x);
      }
    }
  }

  /** Adds all of `xs` to the list. */
  method AddAll<T(!new)>(list: SkipList<T>, xs: seq<T>)
    requires list.Valid() && list.stackQ == [] && list.elems == []
    modifies list, list.pool
    ensures list.Valid() && list.stackQ == [] && list.elems == Added(list.compare, xs)
    ensures old(list.pool) <= list.pool && fresh(list.pool - old(list.pool))
  {
    var i := 0;
    while i < |xs|
      invariant 0 <= i <= |xs|
      invariant list.Valid() && list.stackQ == []
      invariant old(list.pool) <= list.pool && fresh(list.pool - old(list.pool))
      invariant list.elems == Added(list.compare, xs[..i])
    {
      var _ := list.Add(xs[i]);
      assert xs[..i + 1][..i] == xs[..i];
      i := i + 1;
    }
    assert xs[..i] == xs;
  }

  /** Pops until nothing is left. */
  method PopAll<T(!new)>(list: SkipList<T>) returns (out: seq<T>)
    requires list.Valid()
    modifies list, list.pool
    ensures list.Valid() && list.elems == [] && out == old(list.elems)
  {
    out := [];
    var data := list.Pop();
    while data.Some?
      invariant list.Valid() && list.pool == old(list.pool)
      invariant out + (if data.Some? then [data.value] + list.elems else []) == old(list.elems)
      invariant data.None? ==> list.elems == []
      decreases if data.Some? then 1 + |list.elems| else 0
    {
      out := out + [data.value];
      data := list.Pop();
    }
  }

  /** Adds all of `xs` to an empty list and pops until nothing is left. */
  method SortByPopping<T(!new)>(cmp: (T, T) -> int, xs: seq<T>) returns (out: seq<T>)
    requires Order(cmp)
    ensures Sorted(cmp, out) && multiset(out) == multiset(xs)
    ensures forall y :: Equals(cmp, y, out) == Equals(cmp, y, xs)
  {
    var list := new SkipList<T>(cmp);
    AddAll(list, xs);
    AddedSortsStably(cmp, xs);
    out := PopAll(list);
  }
}
