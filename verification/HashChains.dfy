/**
 The chains of a hash table: each bucket holds a linked list of entries. A view
 is a map that holds the fields of a set of entries; a table is described by the
 sequence of its chains, one per bucket.
 */
module HashChains {
  import opened Basics
  import opened HashFunctions
  import opened Places

  class Entry<V> {
    var next: Entry?<V>
    var hash: nat
    var key: Key
    var val: Option<V>   // None is the NULL pointer

    constructor (hash: nat, key: Key, val: Option<V>)
      ensures this.next == null && this.hash == hash && this.key == key && this.val == val
    {
      next := null;
      this.hash, this.key, this.val := hash, key, val;
    }
  }

  datatype Fields<V> = Fields(next: Entry?<V>, hash: nat, key: Key, val: Option<V>)

  type View<V> = map<Entry<V>, Fields<V>>

  ghost function FieldsOf<V>(e: Entry<V>): Fields<V>
    reads e
  {
    Fields(e.next, e.hash, e.key, e.val)
  }

  ghost function ViewOf<V>(es: set<Entry<V>>): View<V>
    reads es
  {
    map e | e in es :: FieldsOf(e)
  }

  lemma ViewKeys<V>(es: set<Entry<V>>)
    ensures ViewOf(es).Keys == es
  {
  }

  // ---------- one chain ----------

  function Head<V>(ch: seq<Entry<V>>): Entry?<V> {
    if ch == [] then null else ch[0]
  }

  ghost predicate LinkAt<V>(ch: seq<Entry<V>>, v: View<V>, i: nat)
    requires i < |ch|
  {
    ch[i] in v && v[ch[i]].next == if i + 1 < |ch| then ch[i + 1] else null
  }

  /** The entries of `ch` are linked one to the next, and the last to nothing. */
  ghost predicate Chained<V>(ch: seq<Entry<V>>, v: View<V>) {
    forall i {:trigger LinkAt(ch, v, i)} :: 0 <= i < |ch| ==> LinkAt(ch, v, i)
  }

  lemma ChainedTail<V>(ch: seq<Entry<V>>, v: View<V>)
    requires ch != [] && Chained(ch, v)
    ensures ch[0] in v && v[ch[0]].next == Head(ch[1..]) && Chained(ch[1..], v)
  {
    assert LinkAt(ch, v, 0);
    forall i | 0 <= i < |ch[1..]|
      ensures LinkAt(ch[1..], v, i)
    {
      assert LinkAt(ch, v, i + 1);
    }
  }

  lemma ChainedCons<V>(e: Entry<V>, ch: seq<Entry<V>>, v: View<V>)
    requires Chained(ch, v) && e in v && v[e].next == Head(ch)
    ensures Chained([e] + ch, v)
  {
    forall i | 0 <= i < |ch| + 1
      ensures LinkAt([e] + ch, v, i)
    {
      if i > 0 {
        assert LinkAt(ch, v, i - 1);
      }
    }
  }

  /** Only the `next` links of the chain's own entries matter. */
  lemma ChainedSame<V>(ch: seq<Entry<V>>, v: View<V>, v': View<V>)
    requires Chained(ch, v)
    requires forall i :: 0 <= i < |ch| && ch[i] in v ==> ch[i] in v' && v'[ch[i]].next == v[ch[i]].next
    ensures Chained(ch, v')
  {
    forall i | 0 <= i < |ch|
      ensures LinkAt(ch, v', i)
    {
      assert LinkAt(ch, v, i);
    }
  }

  /** `e` after the last entry. */
  lemma ChainedAppend<V>(ch: seq<Entry<V>>, v: View<V>, v': View<V>, e: Entry<V>)
    requires Chained(ch, v) && NoDuplicates(ch) && e !in ch
    requires e in v' && v'[e].next == null
    requires forall i :: 0 <= i < |ch| && ch[i] in v ==>
               ch[i] in v' && v'[ch[i]].next == if i + 1 == |ch| then e else v[ch[i]].next
    ensures Chained(ch + [e], v')
  {
    forall i | 0 <= i < |ch| + 1
      ensures LinkAt(ch + [e], v', i)
    {
      if i < |ch| {
        assert LinkAt(ch, v, i);
      }
    }
  }

  /** The entry at `i` taken out; the one before it is linked to the one after. */
  lemma ChainedWithout<V>(ch: seq<Entry<V>>, v: View<V>, v': View<V>, i: nat)
    requires Chained(ch, v) && i < |ch|
    requires forall j :: 0 <= j < |ch| && j != i && ch[j] in v ==>
               ch[j] in v' && v'[ch[j]].next == if j + 1 == i then Head(ch[i + 1..]) else v[ch[j]].next
    ensures Chained(Dropped(ch, i), v')
  {
    forall j | 0 <= j < |ch| - 1
      ensures LinkAt(Dropped(ch, i), v', j)
    {
      assert LinkAt(ch, v, if j < i then j else j + 1);
    }
  }

  // ---------- all chains ----------

  /** The number of entries. */
  function Total<X>(chains: seq<seq<X>>): nat {
    if chains == [] then 0 else |chains[0]| + Total(chains[1..])
  }

  lemma {:induction false} TotalUpdate<X>(chains: seq<seq<X>>, b: nat, ch: seq<X>)
    requires b < |chains|
    ensures Total(chains[b := ch]) == Total(chains) - |chains[b]| + |ch|
  {
    var us := chains[b := ch];
    if b == 0 {
      assert us[1..] == chains[1..];
    } else {
      TotalUpdate(chains[1..], b - 1, ch);
      assert us[1..] == chains[1..][b - 1 := ch];
    }
  }

  lemma {:induction false} TotalEmpty<X>(chains: seq<seq<X>>)
    ensures Total(chains) == 0 <==> forall b :: 0 <= b < |chains| ==> chains[b] == []
  {
    if chains != [] {
      TotalEmpty(chains[1..]);
      assert forall b :: 0 <= b < |chains[1..]| ==> chains[1..][b] == chains[b + 1];
      if Total(chains) == 0 {
        assert forall b :: 0 < b < |chains| ==> chains[b] == chains[1..][b - 1];
      }
    }
  }

  // ---------- the table ----------

  ghost predicate HasKey<V>(ch: seq<Entry<V>>, v: View<V>, k: Key) {
    exists i :: 0 <= i < |ch| && ch[i] in v && v[ch[i]].key == k
  }

  /** The bucket of a key: its hash under the mask. */
  function BucketOf(hashOf: Key -> nat, max: nat, k: Key): (b: nat)
    ensures b <= max
  {
    And(hashOf(k), max)
  }

  ghost predicate EntryOk<V>(chains: seq<seq<Entry<V>>>, v: View<V>, hashOf: Key -> nat, M: map<Key, Option<V>>, b: nat, i: nat)
    requires |chains| > 0 && b < |chains| && i < |chains[b]|
  {
    var e := chains[b][i];
    && e in v
    && v[e].hash == hashOf(v[e].key)
    && BucketOf(hashOf, |chains| - 1, v[e].key) == b
    && v[e].key in M && M[v[e].key] == v[e].val
  }

  /** No two entries hold the same key. */
  ghost predicate UniqueKeys<V>(chains: seq<seq<Entry<V>>>, v: View<V>) {
    forall b, i, j {:trigger IsPlace(chains, b, i), IsPlace(chains, b, j)} ::
      IsPlace(chains, b, i) && IsPlace(chains, b, j) && i != j && chains[b][i] in v && chains[b][j] in v ==>
        v[chains[b][i]].key != v[chains[b][j]].key
  }

  /** The chains hold exactly the pairs of `M`, each in the bucket of its key. */
  ghost predicate Holds<V>(chains: seq<seq<Entry<V>>>, v: View<V>, hashOf: Key -> nat, M: map<Key, Option<V>>) {
    && |chains| > 0
    && (forall b, i {:trigger IsPlace(chains, b, i)} :: IsPlace(chains, b, i) ==> EntryOk(chains, v, hashOf, M, b, i))
    && UniqueKeys(chains, v)
    && (forall k :: k in M ==> HasKey(chains[BucketOf(hashOf, |chains| - 1, k)], v, k))
  }

  ghost predicate Slots<V>(chains: seq<seq<Entry<V>>>, arr: seq<Entry?<V>>, v: View<V>) {
    && |arr| == |chains|
    && forall b {:trigger chains[b]} :: 0 <= b < |chains| ==> arr[b] == Head(chains[b]) && Chained(chains[b], v)
  }

  /** Different places hold different entries, since their keys or their buckets differ. */
  lemma HoldsDistinct<V>(chains: seq<seq<Entry<V>>>, v: View<V>, hashOf: Key -> nat, M: map<Key, Option<V>>)
    requires Holds(chains, v, hashOf, M)
    ensures Distinct(chains)
  {
    forall b, i, b', i' | IsPlace(chains, b, i) && IsPlace(chains, b', i') && chains[b][i] == chains[b'][i']
      ensures b == b' && i == i'
    {
      assert EntryOk(chains, v, hashOf, M, b, i) && EntryOk(chains, v, hashOf, M, b', i');
    }
  }

  /** A key is in the table exactly when its own chain has it. */
  lemma HoldsKey<V>(chains: seq<seq<Entry<V>>>, v: View<V>, hashOf: Key -> nat, M: map<Key, Option<V>>, k: Key)
    requires Holds(chains, v, hashOf, M)
    ensures k in M <==> HasKey(chains[BucketOf(hashOf, |chains| - 1, k)], v, k)
  {
    var b := BucketOf(hashOf, |chains| - 1, k);
    if HasKey(chains[b], v, k) {
      var i :| 0 <= i < |chains[b]| && chains[b][i] in v && v[chains[b][i]].key == k;
      assert IsPlace(chains, b, i);
    }
  }
}
