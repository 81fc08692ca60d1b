/**
 Growing a hash table: every entry is moved, in place, from its old chain to the
 front of its new one.
 */
module HashRelink {
  import opened Basics
  import opened HashFunctions
  import opened Places
  import opened HashChains
  import opened HashState
  import opened HashIteration

  /** The fields but for `next`. */
  ghost predicate SameContent<V>(v: View<V>, v': View<V>) {
    v'.Keys == v.Keys && forall e :: e in v ==> v'[e] == v[e].(next := v'[e].next)
  }

  /** Each entry is in the bucket of its key. */
  ghost predicate InBuckets<V>(nc: seq<seq<Entry<V>>>, v: View<V>, hashOf: Key -> nat) {
    && |nc| > 0
    && forall b, i {:trigger IsPlace(nc, b, i)} :: IsPlace(nc, b, i) ==>
         nc[b][i] in v && BucketOf(hashOf, |nc| - 1, v[nc[b][i]].key) == b
  }

  /** The entries visited so far are in the new chains `nc`, the others where they were. */
  ghost predicate Relinked<V>(chains: seq<seq<Entry<V>>>, v0: View<V>, v: View<V>, nc: seq<seq<Entry<V>>>, narr: seq<Entry?<V>>,
                              visited: set<Entry<V>>, hashOf: Key -> nat)
  {
    && SameContent(v0, v)
    && (forall e :: e in v0 && e !in visited ==> v[e].next == v0[e].next)
    && Slots(nc, narr, v)
    && Distinct(nc) && AllNodes(nc) == visited
    && InBuckets(nc, v, hashOf)
  }

  lemma RelinkedNothing<V>(chains: seq<seq<Entry<V>>>, v: View<V>, nc: seq<seq<Entry<V>>>, narr: seq<Entry?<V>>, hashOf: Key -> nat)
    requires |nc| == |narr| > 0
    requires forall b :: 0 <= b < |nc| ==> nc[b] == [] && narr[b] == null
    ensures Relinked(chains, v, v, nc, narr, {}, hashOf)
  {
    assert AllNodes(nc) == {};
  }

  /** `v'` is `v` with `e` linked to `nx`. */
  ghost predicate NextSet<V>(v: View<V>, v': View<V>, e: Entry<V>, nx: Entry?<V>) {
    && v'.Keys == v.Keys
    && forall n :: n in v ==> v'[n] == if n == e then v[n].(next := nx) else v[n]
  }

  /** The new chains with `e` in front of chain `b`. */
  function Pushed<V>(nc: seq<seq<Entry<V>>>, b: nat, e: Entry<V>): seq<seq<Entry<V>>>
    requires b < |nc|
  {
    nc[b := [e] + nc[b]]
  }

  lemma PushedSlots<V>(v: View<V>, v': View<V>, nc: seq<seq<Entry<V>>>, narr: seq<Entry?<V>>, e: Entry<V>, b: nat)
    requires Slots(nc, narr, v) && b < |nc| && e in v && e !in AllNodes(nc) && NextSet(v, v', e, narr[b])
    ensures Slots(Pushed(nc, b, e), narr[b := e], v')
  {
    var us := Pushed(nc, b, e);
    forall c | 0 <= c < |us|
      ensures Chained(us[c], v')
    {
      forall i | 0 <= i < |nc[c]|
        ensures nc[c][i] != e
      {
        assert nc[c][i] in AllNodes(nc);
      }
      ChainedSame(nc[c], v, v');
      if c == b {
        ChainedCons(e, nc[b], v');
      }
    }
  }

  lemma PushedDistinct<V>(nc: seq<seq<Entry<V>>>, e: Entry<V>, b: nat)
    requires Distinct(nc) && b < |nc| && e !in AllNodes(nc)
    ensures Distinct(Pushed(nc, b, e)) && AllNodes(Pushed(nc, b, e)) == AllNodes(nc) + {e}
  {
    var us := Pushed(nc, b, e);
    PlacesOfUpdate(nc, b, [e] + nc[b]);
    ChainPlaces(nc, b);
    MembersAppend(nc[b], e);
    forall c, i, c', i' | IsPlace(us, c, i) && IsPlace(us, c', i') && us[c][i] == us[c'][i']
      ensures c == c' && i == i'
    {
      PushedPlace(nc, b, e, c, i);
      PushedPlace(nc, b, e, c', i');
      if !(c == b && i == 0) && !(c' == b && i' == 0) {
        SamePlace(nc, c, if c == b then i - 1 else i, c', if c' == b then i' - 1 else i');
      }
    }
  }

  lemma PushedBuckets<V>(v: View<V>, v': View<V>, nc: seq<seq<Entry<V>>>, nx: Entry?<V>, hashOf: Key -> nat, e: Entry<V>, b: nat)
    requires InBuckets(nc, v, hashOf) && b < |nc| && e in v && e !in AllNodes(nc)
    requires b == BucketOf(hashOf, |nc| - 1, v[e].key) && NextSet(v, v', e, nx)
    ensures InBuckets(Pushed(nc, b, e), v', hashOf)
  {
    var us := Pushed(nc, b, e);
    forall c: nat, i: nat | IsPlace(us, c, i)
      ensures us[c][i] in v' && BucketOf(hashOf, |us| - 1, v'[us[c][i]].key) == c
    {
      PushedPlace(nc, b, e, c, i);
    }
  }

  lemma RelinkStep<V>(chains: seq<seq<Entry<V>>>, v0: View<V>, v: View<V>, v': View<V>, nc: seq<seq<Entry<V>>>, narr: seq<Entry?<V>>,
                      visited: set<Entry<V>>, hashOf: Key -> nat, e: Entry<V>, b: nat)
    requires Relinked(chains, v0, v, nc, narr, visited, hashOf) && e in v && e !in visited
    requires b < |nc| == |narr| && b == BucketOf(hashOf, |nc| - 1, v[e].key)
    requires NextSet(v, v', e, narr[b])
    ensures Relinked(chains, v0, v', Pushed(nc, b, e), narr[b := e], visited + {e}, hashOf)
  {
    hide Slots, Distinct, InBuckets, Pushed;
    PushedSlots(v, v', nc, narr, e, b);
    PushedDistinct(nc, e, b);
    PushedBuckets(v, v', nc, narr[b], hashOf, e, b);
  }

  /** What stands at a place after `e` has been pushed onto chain `b`. */
  lemma PushedPlace<V>(nc: seq<seq<Entry<V>>>, b: nat, e: Entry<V>, c: int, i: int)
    requires b < |nc| && e !in AllNodes(nc) && IsPlace(Pushed(nc, b, e), c, i)
    ensures
      var us := Pushed(nc, b, e);
      if c == b && i == 0 then us[c][i] == e
      else var i' := if c == b then i - 1 else i;
           IsPlace(nc, c, i') && us[c][i] == nc[c][i'] && us[c][i] != e
  {
    if !(c == b && i == 0) {
      var i' := if c == b then i - 1 else i;
      assert IsPlace(nc, c, i');
      assert nc[c][i'] in AllNodes(nc);
    }
  }

  /** Once every entry has been moved, the new chains hold the same map. */
  lemma RelinkDone<V>(chains: seq<seq<Entry<V>>>, arr: seq<Entry?<V>>, v0: View<V>, v: View<V>, nc: seq<seq<Entry<V>>>, narr: seq<Entry?<V>>,
                      hashOf: Key -> nat, M: map<Key, Option<V>>, freed: seq<Entry<V>>, free: Entry?<V>)
    requires Tabled(chains, arr, v0, hashOf, M, freed, free)
    requires Relinked(chains, v0, v, nc, narr, AllNodes(chains), hashOf)
    ensures Tabled(nc, narr, v, hashOf, M, freed, free)
    ensures Total(nc) == Total(chains)
  {
    RelinkHolds(chains, v0, v, nc, narr, hashOf, M);
    forall i | 0 <= i < |freed|
      ensures freed[i] !in AllNodes(chains)
    {
      assert freed[i] in Members(freed);
    }
    ChainedSame(freed, v0, v);
    HoldsDistinct(chains, v0, hashOf, M);
    TotalCounts(chains);
    TotalCounts(nc);
  }

  lemma RelinkHolds<V>(chains: seq<seq<Entry<V>>>, v0: View<V>, v: View<V>, nc: seq<seq<Entry<V>>>, narr: seq<Entry?<V>>,
                       hashOf: Key -> nat, M: map<Key, Option<V>>)
    requires Holds(chains, v0, hashOf, M)
    requires Relinked(chains, v0, v, nc, narr, AllNodes(chains), hashOf)
    ensures Holds(nc, v, hashOf, M)
  {
    forall b: nat, i: nat | IsPlace(nc, b, i)
      ensures EntryOk(nc, v, hashOf, M, b, i)
    {
      var c, j := OldPlace(chains, nc, b, i);
      assert EntryOk(chains, v0, hashOf, M, c, j);
    }
    forall b: nat, i: nat, j: nat | IsPlace(nc, b, i) && IsPlace(nc, b, j) && i != j
      ensures v[nc[b][i]].key != v[nc[b][j]].key
    {
      var c, k := OldPlace(chains, nc, b, i);
      var c', k' := OldPlace(chains, nc, b, j);
      assert EntryOk(chains, v0, hashOf, M, c, k) && EntryOk(chains, v0, hashOf, M, c', k');
      SamePlace(nc, b, i, b, j);
    }
    forall k | k in M
      ensures HasKey(nc[BucketOf(hashOf, |nc| - 1, k)], v, k)
    {
      var c := BucketOf(hashOf, |chains| - 1, k);
      var j :| 0 <= j < |chains[c]| && chains[c][j] in v0 && v0[chains[c][j]].key == k;
      assert chains[c][j] in AllNodes(nc);
      var b, i :| 0 <= b < |nc| && 0 <= i < |nc[b]| && nc[b][i] == chains[c][j];
      assert IsPlace(nc, b, i);
    }
  }

  lemma OldPlace<V>(chains: seq<seq<Entry<V>>>, nc: seq<seq<Entry<V>>>, b: nat, i: nat) returns (c: nat, j: nat)
    requires AllNodes(nc) == AllNodes(chains) && IsPlace(nc, b, i)
    ensures IsPlace(chains, c, j) && chains[c][j] == nc[b][i]
  {
    assert nc[b][i] in AllNodes(chains);
    c, j :| 0 <= c < |chains| && 0 <= j < |chains[c]| && chains[c][j] == nc[b][i];
  }

  // ---------- counting ----------

  lemma {:induction false} MembersCount<V>(ch: seq<Entry<V>>)
    requires NoDuplicates(ch)
    ensures |Members(ch)| == |ch|
  {
    if ch != [] {
      MembersTail(ch);
      MembersCount(ch[1..]);
    }
  }

  /** The lengths of the chains add up to the number of entries. */
  lemma {:induction false} TotalCounts<V>(chains: seq<seq<Entry<V>>>)
    requires Distinct(chains)
    ensures Total(chains) == |AllNodes(chains)|
  {
    if chains == [] {
      assert AllNodes(chains) == {};
    } else {
      var rest := chains[1..];
      FirstRow(chains);
      TotalCounts(rest);
      MembersCount(chains[0]);
    }
  }

  lemma FirstRow<V>(chains: seq<seq<Entry<V>>>)
    requires chains != [] && Distinct(chains)
    ensures AllNodes(chains) == Members(chains[0]) + AllNodes(chains[1..])
    ensures Members(chains[0]) !! AllNodes(chains[1..])
    ensures NoDuplicates(chains[0]) && Distinct(chains[1..])
  {
    var rest := chains[1..];
    forall c, i | 0 <= c < |rest| && 0 <= i < |rest[c]|
      ensures rest[c][i] == chains[c + 1][i] && rest[c][i] in AllNodes(chains)
    {
      assert chains[c + 1][i] in AllNodes(chains);
    }
    forall e | e in AllNodes(chains)
      ensures e in Members(chains[0]) + AllNodes(rest)
    {
      var c, i :| 0 <= c < |chains| && 0 <= i < |chains[c]| && chains[c][i] == e;
      if c > 0 {
        assert rest[c - 1][i] == e;
      }
    }
    forall c, i, j | 0 <= c < |rest| && 0 <= i < |rest[c]| && 0 <= j < |chains[0]|
      ensures rest[c][i] != chains[0][j]
    {
      SamePlace(chains, c + 1, i, 0, j);
    }
    forall i, j | 0 <= i < j < |chains[0]|
      ensures chains[0][i] != chains[0][j]
    {
      SamePlace(chains, 0, i, 0, j);
    }
    forall c, i, c', i' | IsPlace(rest, c, i) && IsPlace(rest, c', i') && rest[c][i] == rest[c'][i']
      ensures c == c' && i == i'
    {
      SamePlace(chains, c + 1, i, c' + 1, i');
    }
  }

  // ---------- one step of the walk ----------

  ghost predicate EntriesHashed<V>(chains: seq<seq<Entry<V>>>, v: View<V>, hashOf: Key -> nat) {
    forall e :: e in AllNodes(chains) ==> e in v && v[e].hash == hashOf(v[e].key)
  }

  lemma HoldsHashed<V>(chains: seq<seq<Entry<V>>>, v: View<V>, hashOf: Key -> nat, M: map<Key, Option<V>>)
    requires Holds(chains, v, hashOf, M)
    ensures EntriesHashed(chains, v, hashOf)
  {
    forall e | e in AllNodes(chains)
      ensures e in v && v[e].hash == hashOf(v[e].key)
    {
      var b, i :| 0 <= b < |chains| && 0 <= i < |chains[b]| && chains[b][i] == e;
      assert IsPlace(chains, b, i);
      assert EntryOk(chains, v, hashOf, M, b, i);
    }
  }

  lemma HashKept<V>(chains: seq<seq<Entry<V>>>, v0: View<V>, v: View<V>, nc: seq<seq<Entry<V>>>, narr: seq<Entry?<V>>,
                    visited: set<Entry<V>>, hashOf: Key -> nat, e: Entry<V>)
    requires Relinked(chains, v0, v, nc, narr, visited, hashOf) && EntriesHashed(chains, v0, hashOf) && e in AllNodes(chains)
    ensures e in v && v[e].hash == hashOf(v[e].key) && |nc| == |narr| > 0
  {
  }

  lemma StillAhead<V>(chains: seq<seq<Entry<V>>>, arr: seq<Entry?<V>>, v: View<V>, v': View<V>, e: Entry<V>, nx: Entry?<V>,
                      next: Entry?<V>, index: nat, c: nat, j: nat)
    requires Ahead(chains, arr, v, next, index, c, j + 1) && Distinct(chains)
    requires c < |chains| && j < |chains[c]| && e == chains[c][j] && NextSet(v, v', e, nx)
    ensures Ahead(chains, arr, v', next, index, c, j + 1)
  {
    BelowStep(chains, c, j);
    AheadSame(chains, arr, v, v', next, index, c, j + 1);
  }

  lemma PushedSize<V>(nc: seq<seq<Entry<V>>>, b: nat, e: Entry<V>)
    requires b < |nc|
    ensures |Pushed(nc, b, e)| == |nc|
  {
  }

  // ---------- deleting while walking ----------

  /** The entry just visited has been deleted: the walk goes on with what has taken its place in the chain. */
  lemma AheadAfterDelete<V>(chains: seq<seq<Entry<V>>>, arr: seq<Entry?<V>>, v: View<V>, next: Entry?<V>, index: nat, c: nat,
                            j: nat, arr': seq<Entry?<V>>, v': View<V>)
    requires c < |chains| && j < |chains[c]| && Ahead(chains, arr, v, next, index, c, j + 1)
    requires Slots(chains[c := Dropped(chains[c], j)], arr', v')
    ensures Ahead(chains[c := Dropped(chains[c], j)], arr', v', next, index, c, j)
  {
    var us := chains[c := Dropped(chains[c], j)];
    forall b: nat, i: nat | b < |us| && i < |us[b]|
      ensures LinkAt(us[b], v', i)
    {
      assert Chained(us[b], v');
    }
  }

  /** What has been visited before it stays, and it alone is gone. */
  lemma NodesAfterDelete<X>(chains: seq<seq<X>>, c: nat, j: nat)
    requires Distinct(chains) && c < |chains| && j < |chains[c]|
    ensures var us := chains[c := Dropped(chains[c], j)];
      && Below(us, c, j) == Below(chains, c, j)
      && AllNodes(us) == AllNodes(chains) - {chains[c][j]}
  {
    var us := chains[c := Dropped(chains[c], j)];
    forall b, r | IsPlace(us, b, r)
      ensures var r' := if b == c && r >= j then r + 1 else r;
        IsPlace(chains, b, r') && us[b][r] == chains[b][r'] && us[b][r] != chains[c][j]
    {
      SamePlace(chains, b, if b == c && r >= j then r + 1 else r, c, j);
    }
    forall b, r | IsPlace(chains, b, r) && !(b == c && r == j)
      ensures var r' := if b == c && r > j then r - 1 else r; IsPlace(us, b, r') && us[b][r'] == chains[b][r]
    {
    }
    forall x | x in Below(us, c, j)
      ensures x in Below(chains, c, j)
    {
      var b, r :| 0 <= b < |us| && 0 <= r < |us[b]| && (b < c || (b == c && r < j)) && us[b][r] == x;
      assert IsPlace(us, b, r);
    }
    forall x | x in Below(chains, c, j)
      ensures x in Below(us, c, j)
    {
      var b, r :| 0 <= b < |chains| && 0 <= r < |chains[b]| && (b < c || (b == c && r < j)) && chains[b][r] == x;
      assert IsPlace(chains, b, r);
    }
    forall x | x in AllNodes(us)
      ensures x in AllNodes(chains) - {chains[c][j]}
    {
      var b, r :| 0 <= b < |us| && 0 <= r < |us[b]| && us[b][r] == x;
      assert IsPlace(us, b, r);
    }
    forall x | x in AllNodes(chains) && x != chains[c][j]
      ensures x in AllNodes(us)
    {
      var b, r :| 0 <= b < |chains| && 0 <= r < |chains[b]| && chains[b][r] == x;
      assert IsPlace(chains, b, r);
    }
  }

  // ---------- the number of keys ----------

  ghost function KeysOf<V>(es: set<Entry<V>>, v: View<V>): set<Key> {
    set e | e in es && e in v :: v[e].key
  }

  lemma {:induction false} KeysCount<V>(es: set<Entry<V>>, v: View<V>)
    requires forall e :: e in es ==> e in v
    requires forall e, f :: e in es && f in es && v[e].key == v[f].key ==> e == f
    ensures |KeysOf(es, v)| == |es|
  {
    if es == {} {
      assert KeysOf(es, v) == {};
    } else {
      var e :| e in es;
      var rest := es - {e};
      KeysCount(rest, v);
      assert KeysOf(es, v) == KeysOf(rest, v) + {v[e].key};
    }
  }

  /** The table has as many entries as its map has keys. */
  lemma TotalIsSize<V>(chains: seq<seq<Entry<V>>>, v: View<V>, hashOf: Key -> nat, M: map<Key, Option<V>>)
    requires Holds(chains, v, hashOf, M)
    ensures Total(chains) == |M|
  {
    HoldsDistinct(chains, v, hashOf, M);
    TotalCounts(chains);
    var es := AllNodes(chains);
    forall e | e in es
      ensures e in v && v[e].key in M
    {
      var b, i := EntryPlace(chains, e);
      assert EntryOk(chains, v, hashOf, M, b, i);
    }
    forall e, f | e in es && f in es && v[e].key == v[f].key
      ensures e == f
    {
      var b, i := EntryPlace(chains, e);
      var c, j := EntryPlace(chains, f);
      assert EntryOk(chains, v, hashOf, M, b, i) && EntryOk(chains, v, hashOf, M, c, j);
    }
    KeysCount(es, v);
    forall k | k in M
      ensures k in KeysOf(es, v)
    {
      var b := BucketOf(hashOf, |chains| - 1, k);
      var i :| 0 <= i < |chains[b]| && chains[b][i] in v && v[chains[b][i]].key == k;
      InAllNodes(chains, b, i);
    }
    assert KeysOf(es, v) == M.Keys;
  }

  lemma EntryPlace<V>(chains: seq<seq<Entry<V>>>, e: Entry<V>) returns (b: nat, i: nat)
    requires e in AllNodes(chains)
    ensures IsPlace(chains, b, i) && chains[b][i] == e
  {
    b, i :| 0 <= b < |chains| && 0 <= i < |chains[b]| && chains[b][i] == e;
  }

  /** Whoever has seen all entries has seen all pairs. */
  lemma AllSeen<V>(chains: seq<seq<Entry<V>>>, v: View<V>, hashOf: Key -> nat, M: map<Key, Option<V>>, comp: (Key, Option<V>) -> bool)
    requires Holds(chains, v, hashOf, M)
    requires forall e :: e in AllNodes(chains) && e in v ==> comp(v[e].key, v[e].val)
    ensures forall k :: k in M ==> comp(k, M[k])
  {
    forall k | k in M
      ensures comp(k, M[k])
    {
      var b := BucketOf(hashOf, |chains| - 1, k);
      var i :| 0 <= i < |chains[b]| && chains[b][i] in v && v[chains[b][i]].key == k;
      assert IsPlace(chains, b, i);
      assert EntryOk(chains, v, hashOf, M, b, i);
      InAllNodes(chains, b, i);
    }
  }

  // ---------- a new entry in front of its chain ----------

  /** `v'` is `v` with the new entry `e` in front of the chain that starts with `nx`. */
  ghost predicate Fronted<V>(v: View<V>, v': View<V>, e: Entry<V>, nx: Entry?<V>) {
    && e !in v && v'.Keys == v.Keys + {e}
    && v'[e].next == nx
    && forall n :: n in v ==> v'[n] == v[n]
  }

  lemma FrontedHolds<V>(chains: seq<seq<Entry<V>>>, v: View<V>, v': View<V>, hashOf: Key -> nat, M: map<Key, Option<V>>,
                        b: nat, e: Entry<V>, nx: Entry?<V>)
    requires Holds(chains, v, hashOf, M) && b < |chains| && e !in AllNodes(chains) && Fronted(v, v', e, nx)
    requires v'[e].hash == hashOf(v'[e].key) && b == BucketOf(hashOf, |chains| - 1, v'[e].key)
    requires v'[e].key !in M
    ensures Holds(Pushed(chains, b, e), v', hashOf, M[v'[e].key := v'[e].val])
  {
    var us := Pushed(chains, b, e);
    var M' := M[v'[e].key := v'[e].val];
    forall c: nat, i: nat | IsPlace(us, c, i)
      ensures EntryOk(us, v', hashOf, M', c, i) && (us[c][i] == e || v'[us[c][i]].key != v'[e].key)
    {
      FrontedEntry(chains, v, v', hashOf, M, b, e, nx, c, i);
    }
    forall c: nat, i: nat, j: nat | IsPlace(us, c, i) && IsPlace(us, c, j) && i != j
      ensures v'[us[c][i]].key != v'[us[c][j]].key
    {
      PushedPlace(chains, b, e, c, i);
      PushedPlace(chains, b, e, c, j);
      FrontedEntry(chains, v, v', hashOf, M, b, e, nx, c, i);
      FrontedEntry(chains, v, v', hashOf, M, b, e, nx, c, j);
    }
    forall k | k in M'
      ensures HasKey(us[BucketOf(hashOf, |us| - 1, k)], v', k)
    {
      var c := BucketOf(hashOf, |us| - 1, k);
      if k == v'[e].key {
        assert us[c][0] == e;
      } else {
        var i :| 0 <= i < |chains[c]| && chains[c][i] in v && v[chains[c][i]].key == k;
        assert us[c][if c == b then i + 1 else i] == chains[c][i];
      }
    }
  }

  lemma FrontedEntry<V>(chains: seq<seq<Entry<V>>>, v: View<V>, v': View<V>, hashOf: Key -> nat, M: map<Key, Option<V>>,
                        b: nat, e: Entry<V>, nx: Entry?<V>, c: nat, i: nat)
    requires Holds(chains, v, hashOf, M) && b < |chains| && e !in AllNodes(chains) && Fronted(v, v', e, nx)
    requires v'[e].hash == hashOf(v'[e].key) && b == BucketOf(hashOf, |chains| - 1, v'[e].key)
    requires v'[e].key !in M && IsPlace(Pushed(chains, b, e), c, i)
    ensures EntryOk(Pushed(chains, b, e), v', hashOf, M[v'[e].key := v'[e].val], c, i)
    ensures Pushed(chains, b, e)[c][i] == e || v'[Pushed(chains, b, e)[c][i]].key != v'[e].key
  {
    PushedPlace(chains, b, e, c, i);
    if !(c == b && i == 0) {
      assert EntryOk(chains, v, hashOf, M, c, if c == b then i - 1 else i);
    }
  }

  lemma FrontedSlots<V>(chains: seq<seq<Entry<V>>>, arr: seq<Entry?<V>>, v: View<V>, v': View<V>, b: nat, e: Entry<V>)
    requires Slots(chains, arr, v) && b < |chains| && Fronted(v, v', e, arr[b])
    ensures Slots(Pushed(chains, b, e), arr[b := e], v')
  {
    var us := Pushed(chains, b, e);
    forall c | 0 <= c < |us|
      ensures Chained(us[c], v')
    {
      ChainedSame(chains[c], v, v');
      if c == b {
        ChainedCons(e, chains[b], v');
      }
    }
  }

  lemma TabledFronted<V>(chains: seq<seq<Entry<V>>>, arr: seq<Entry?<V>>, v: View<V>, v': View<V>, hashOf: Key -> nat,
                         M: map<Key, Option<V>>, b: nat, e: Entry<V>)
    requires Tabled(chains, arr, v, hashOf, M, [], null) && b < |chains| == |arr| && Fronted(v, v', e, arr[b])
    requires v'[e].hash == hashOf(v'[e].key) && b == BucketOf(hashOf, |chains| - 1, v'[e].key)
    requires v'[e].key !in M
    ensures Tabled(Pushed(chains, b, e), arr[b := e], v', hashOf, M[v'[e].key := v'[e].val], [], null)
    ensures Total(Pushed(chains, b, e)) == Total(chains) + 1
  {
    HoldsDistinct(chains, v, hashOf, M);
    PushedDistinct(chains, e, b);
    FrontedHolds(chains, v, v', hashOf, M, b, e, arr[b]);
    FrontedSlots(chains, arr, v, v', b, e);
    ChainedNone(v');
    TotalUpdate(chains, b, [e] + chains[b]);
  }
}
