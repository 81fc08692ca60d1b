/**
 Walking all entries of a hash table. A position (c, j) splits the places of the
 chains: the ones below have been visited, the others lie ahead.
 */
module HashIteration {
  import opened Places
  import opened HashChains

  /**
   An iterator with fields `next` and `index` is at position (c, j): it has either
   loaded bucket `c`, or is about to. Only what lies ahead must still be linked.
   */
  ghost predicate Ahead<V>(chains: seq<seq<Entry<V>>>, arr: seq<Entry?<V>>, v: View<V>, next: Entry?<V>, index: nat, c: nat, j: nat) {
    && |arr| == |chains| && c <= |chains|
    && (if c < |chains| then j <= |chains[c]| else j == 0)
    && ((index == c && j == 0 && next == null) ||
        (c < |chains| && index == c + 1 && next == if j < |chains[c]| then chains[c][j] else null))
    && (forall b, i {:trigger LinkAt(chains[b], v, i)} ::
          c <= b < |chains| && 0 <= i < |chains[b]| && (b == c ==> j <= i) ==> LinkAt(chains[b], v, i))
    && (forall b {:trigger arr[b]} :: index <= b < |chains| ==> arr[b] == Head(chains[b]))
  }

  /** A fresh iterator has everything ahead. */
  lemma AheadStart<V>(chains: seq<seq<Entry<V>>>, arr: seq<Entry?<V>>, v: View<V>)
    requires |arr| == |chains| && forall b :: 0 <= b < |chains| ==> arr[b] == Head(chains[b]) && Chained(chains[b], v)
    ensures Ahead(chains, arr, v, null, 0, 0, 0)
  {
    forall b: nat, i: nat | b < |chains| && i < |chains[b]|
      ensures LinkAt(chains[b], v, i)
    {
      assert Chained(chains[b], v);
    }
  }

  /** An exhausted bucket is left behind. */
  lemma AheadLoad<V>(chains: seq<seq<Entry<V>>>, arr: seq<Entry?<V>>, v: View<V>, index: nat, c: nat, j: nat)
    requires Ahead(chains, arr, v, null, index, c, j) && index < |chains|
    ensures
      var c' := if index == c then c else c + 1;
      && c' == index < |chains| && arr[index] == Head(chains[index])
      && Ahead(chains, arr, v, arr[index], index + 1, c', 0)
      && Below(chains, c', 0) == Below(chains, c, j)
      && (index == c ==> j == 0)
  {
    if index != c {
      BelowRow(chains, c);
    }
  }

  lemma AheadEnd<V>(chains: seq<seq<Entry<V>>>, arr: seq<Entry?<V>>, v: View<V>, index: nat, c: nat, j: nat)
    requires Ahead(chains, arr, v, null, index, c, j) && index >= |chains|
    ensures Below(chains, c, j) == AllNodes(chains)
  {
    BelowAll(chains);
    if c < |chains| {
      BelowRow(chains, c);
    }
  }

  /** The next entry is visited. */
  lemma AheadVisit<V>(chains: seq<seq<Entry<V>>>, arr: seq<Entry?<V>>, v: View<V>, next: Entry<V>, index: nat, c: nat, j: nat)
    requires Ahead(chains, arr, v, next, index, c, j)
    ensures c < |chains| && j < |chains[c]| && next == chains[c][j] && next in v
    ensures Ahead(chains, arr, v, v[next].next, index, c, j + 1)
  {
    assert LinkAt(chains[c], v, j);
  }

  /** Links of entries already visited may change. */
  lemma AheadSame<V>(chains: seq<seq<Entry<V>>>, arr: seq<Entry?<V>>, v: View<V>, v': View<V>, next: Entry?<V>, index: nat, c: nat, j: nat)
    requires Ahead(chains, arr, v, next, index, c, j) && Distinct(chains) && v'.Keys == v.Keys
    requires forall e :: e in v && e !in Below(chains, c, j) ==> v'[e].next == v[e].next
    ensures Ahead(chains, arr, v', next, index, c, j)
  {
    forall b: nat, i: nat | c <= b < |chains| && i < |chains[b]| && (b == c ==> j <= i)
      ensures LinkAt(chains[b], v', i)
    {
      assert LinkAt(chains[b], v, i);
      assert chains[b][i] !in Below(chains, c, j) by {
        forall b', i' | 0 <= b' < |chains| && 0 <= i' < |chains[b']| && chains[b'][i'] == chains[b][i]
          ensures b' == b && i' == i
        {
          SamePlace(chains, b', i', b, i);
        }
      }
    }
  }
}
