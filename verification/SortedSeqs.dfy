/**
 Sequences kept sorted by a comparison function that returns a negative, zero
 or positive int. Elements that compare equal may differ.
 */
module SortedSeqs {

  /** The comparison function is a total preorder. */
  ghost predicate Order<T(!new)>(cmp: (T, T) -> int) {
    && (forall x, y :: cmp(x, y) > 0 <==> cmp(y, x) < 0)
    && (forall x, y, z :: cmp(x, y) <= 0 && cmp(y, z) <= 0 ==> cmp(x, z) <= 0)
  }

  ghost predicate Sorted<T>(cmp: (T, T) -> int, s: seq<T>) {
    forall i, j :: 0 <= i < j < |s| ==> cmp(s[i], s[j]) <= 0
  }

  /** The sign of `probe` never rises along `s`: a key that can be searched for. */
  ghost predicate Searchable<T>(probe: T -> int, s: seq<T>) {
    forall i, j :: 0 <= i < j < |s| ==>
      (probe(s[j]) >= 0 ==> probe(s[i]) >= 0) && (probe(s[j]) > 0 ==> probe(s[i]) > 0)
  }

  lemma OrderAt<T(!new)>(cmp: (T, T) -> int, x: T, y: T, z: T)
    requires Order(cmp) && cmp(y, z) <= 0
    ensures cmp(x, z) >= 0 ==> cmp(x, y) >= 0
    ensures cmp(x, z) > 0 ==> cmp(x, y) > 0
  {
    if cmp(x, z) >= 0 {
      assert cmp(z, x) <= 0;
      assert cmp(y, x) <= 0;
    }
  }

  /** Comparing with a fixed element can be searched for in a sorted sequence. */
  lemma SortedSearchable<T(!new)>(cmp: (T, T) -> int, x: T, s: seq<T>)
    requires Order(cmp) && Sorted(cmp, s)
    ensures Searchable(y => cmp(x, y), s)
  {
    forall i, j | 0 <= i < j < |s|
      ensures cmp(x, s[j]) >= 0 ==> cmp(x, s[i]) >= 0
      ensures cmp(x, s[j]) > 0 ==> cmp(x, s[i]) > 0
    {
      OrderAt(cmp, x, s[i], s[j]);
    }
  }

  ghost predicate HasEqual<T>(cmp: (T, T) -> int, x: T, s: seq<T>) {
    exists i :: 0 <= i < |s| && cmp(x, s[i]) == 0
  }

  /** How many elements at the front of `s` do not follow `x`. */
  function Slot<T>(cmp: (T, T) -> int, x: T, s: seq<T>): (k: nat)
    ensures k <= |s|
    ensures forall i :: 0 <= i < k ==> cmp(x, s[i]) >= 0
    ensures k < |s| ==> cmp(x, s[k]) < 0
  {
    if s == [] || cmp(x, s[0]) < 0 then 0 else
      var k := Slot(cmp, x, s[1..]);
      assert forall i :: 0 < i < k + 1 ==> s[i] == s[1..][i - 1];
      k + 1
  }

  /** `x` put after everything it does not precede. */
  function Inserted<T>(cmp: (T, T) -> int, x: T, s: seq<T>): seq<T> {
    var k := Slot(cmp, x, s);
    s[..k] + [x] + s[k..]
  }

  /** The elements that do not compare equal to `x`. */
  function Without<T>(cmp: (T, T) -> int, x: T, s: seq<T>): seq<T> {
    if s == [] then []
    else if cmp(x, s[0]) == 0 then Without(cmp, x, s[1..])
    else [s[0]] + Without(cmp, x, s[1..])
  }

  lemma SlotIs<T>(cmp: (T, T) -> int, x: T, s: seq<T>, k: nat)
    requires k <= |s|
    requires forall i :: 0 <= i < k ==> cmp(x, s[i]) >= 0
    requires k < |s| ==> cmp(x, s[k]) < 0
    ensures Slot(cmp, x, s) == k
  {
  }

  lemma Flip<T(!new)>(cmp: (T, T) -> int, x: T, y: T)
    requires Order(cmp)
    ensures cmp(x, y) >= 0 <==> cmp(y, x) <= 0
  {
  }

  lemma InsertedSorted<T(!new)>(cmp: (T, T) -> int, x: T, s: seq<T>)
    requires Order(cmp) && Sorted(cmp, s)
    ensures Sorted(cmp, Inserted(cmp, x, s))
  {
    hide Order;
    var k := Slot(cmp, x, s);
    var t := Inserted(cmp, x, s);
    forall i, j | 0 <= i < j < |t|
      ensures cmp(t[i], t[j]) <= 0
    {
      if j == k {
        Flip(cmp, x, s[i]);
      } else if i == k {
        if j - 1 > k {
          OrderAt(cmp, x, s[k], s[j - 1]);
        }
      }
    }
  }

  lemma DroppedSorted<T>(cmp: (T, T) -> int, s: seq<T>, i: nat)
    requires Sorted(cmp, s) && i < |s|
    ensures Sorted(cmp, s[..i] + s[i + 1..])
  {
  }

  lemma {:induction false} WithoutDropped<T>(cmp: (T, T) -> int, x: T, s: seq<T>, i: nat)
    requires i < |s| && cmp(x, s[i]) == 0
    ensures Without(cmp, x, s[..i] + s[i + 1..]) == Without(cmp, x, s)
    decreases i
  {
    if i == 0 {
      assert s[..0] + s[1..] == s[1..];
    } else {
      WithoutDropped(cmp, x, s[1..], i - 1);
      var t := s[..i] + s[i + 1..];
      assert t[1..] == s[1..][..i - 1] + s[1..][i..];
    }
  }

  lemma {:induction false} WithoutNothing<T>(cmp: (T, T) -> int, x: T, s: seq<T>)
    requires !HasEqual(cmp, x, s)
    ensures Without(cmp, x, s) == s
  {
    if s != [] {
      assert forall i :: 0 <= i < |s[1..]| ==> s[1..][i] == s[i + 1];
      WithoutNothing(cmp, x, s[1..]);
    }
  }

  /** What is left compares unequal to `x` and was there before. */
  lemma {:induction false} WithoutElements<T>(cmp: (T, T) -> int, x: T, s: seq<T>)
    ensures forall y :: y in Without(cmp, x, s) <==> y in s && cmp(x, y) != 0
  {
    if s != [] {
      WithoutElements(cmp, x, s[1..]);
      assert s == [s[0]] + s[1..];
    }
  }

  /** The inserted element is the last of those it does not precede. */
  lemma InsertedSlot<T(!new)>(cmp: (T, T) -> int, x: T, s: seq<T>)
    requires Order(cmp)
    ensures Slot(cmp, x, Inserted(cmp, x, s)) == Slot(cmp, x, s) + 1
  {
    var k := Slot(cmp, x, s);
    assert cmp(x, x) == 0 by { Flip(cmp, x, x); }
    SlotIs(cmp, x, Inserted(cmp, x, s), k + 1);
  }

  /** After replacing, the new element is the only one that compares equal. */
  lemma OnlyEqual<T(!new)>(cmp: (T, T) -> int, x: T, s: seq<T>)
    requires Order(cmp)
    ensures var es := Inserted(cmp, x, Without(cmp, x, s));
      var k := Slot(cmp, x, es);
      && 0 < k && es[k - 1] == x
      && (forall i :: 0 <= i < |es| ==> (cmp(x, es[i]) == 0 <==> i == k - 1))
  {
    var rest := Without(cmp, x, s);
    var n := Slot(cmp, x, rest);
    WithoutElements(cmp, x, s);
    InsertedSlot(cmp, x, rest);
    hide Without, Slot;
    Flip(cmp, x, x);
    forall i | 0 <= i < |rest|
      ensures cmp(x, rest[i]) != 0
    {
      assert rest[i] in rest;
    }
  }

  lemma SortedEmpty<T>(cmp: (T, T) -> int)
    ensures Sorted(cmp, [])
  {
  }
}
