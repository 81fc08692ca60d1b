/**
 What each operation of the hash table does to its chains, as lemmas about views.
 */
module HashState {
  import opened Basics
  import opened HashFunctions
  import opened Places
  import opened HashChains

  /** The list of recycled entries: all that are not in a chain. */
  ghost predicate Recycled<V>(chains: seq<seq<Entry<V>>>, v: View<V>, freed: seq<Entry<V>>, free: Entry?<V>) {
    && free == Head(freed)
    && Chained(freed, v)
    && NoDuplicates(freed)
    && AllNodes(chains) !! Members(freed)
    && v.Keys == AllNodes(chains) + Members(freed)
  }

  lemma MembersAppend<V>(ch: seq<Entry<V>>, e: Entry<V>)
    ensures Members(ch + [e]) == Members(ch) + {e} == Members([e] + ch)
  {
  }

  lemma MembersTail<V>(ch: seq<Entry<V>>)
    requires NoDuplicates(ch) && ch != []
    ensures Members(ch) == Members(ch[1..]) + {ch[0]} && ch[0] !in Members(ch[1..]) && NoDuplicates(ch[1..])
  {
    assert ch == [ch[0]] + ch[1..];
  }

  lemma WithoutAt<X>(s: seq<X>, i: nat, j: nat)
    requires i < |s| && j < |s| && j != i
    ensures Dropped(s, i)[if j > i then j - 1 else j] == s[j]
  {
  }

  lemma WithoutLength<X>(s: seq<X>, i: nat)
    requires i < |s|
    ensures |Dropped(s, i)| == |s| - 1
  {
  }

  lemma MembersWithout<V>(ch: seq<Entry<V>>, i: nat)
    requires NoDuplicates(ch) && i < |ch|
    ensures Members(ch) == Members(Dropped(ch, i)) + {ch[i]} && ch[i] !in Members(Dropped(ch, i))
  {
    forall e | e in Members(ch) && e != ch[i]
      ensures e in Members(Dropped(ch, i))
    {
      var j :| 0 <= j < |ch| && ch[j] == e;
      WithoutAt(ch, i, j);
    }
    forall j | 0 <= j < |ch| - 1
      ensures Dropped(ch, i)[j] in Members(ch) && Dropped(ch, i)[j] != ch[i]
    {
      assert Dropped(ch, i)[j] == ch[if j < i then j else j + 1];
    }
  }

  lemma PlacesOfUpdate<V>(chains: seq<seq<Entry<V>>>, b: nat, ch: seq<Entry<V>>)
    requires b < |chains|
    ensures AllNodes(chains[b := ch]) == AllNodes(chains[b := []]) + Members(ch)
  {
    var us, vs := chains[b := ch], chains[b := []];
    forall e | e in AllNodes(us)
      ensures e in AllNodes(vs) + Members(ch)
    {
      var c, i :| 0 <= c < |us| && 0 <= i < |us[c]| && us[c][i] == e;
      if c != b {
        assert vs[c][i] == e;
      }
    }
    forall e | e in AllNodes(vs)
      ensures e in AllNodes(us)
    {
      var c, i :| 0 <= c < |vs| && 0 <= i < |vs[c]| && vs[c][i] == e;
      assert us[c][i] == e;
    }
    forall e | e in Members(ch)
      ensures e in AllNodes(us)
    {
      var i :| 0 <= i < |ch| && ch[i] == e;
      assert us[b][i] == e;
    }
  }

  lemma ChainPlaces<V>(chains: seq<seq<Entry<V>>>, b: nat)
    requires b < |chains|
    ensures AllNodes(chains) == AllNodes(chains[b := []]) + Members(chains[b])
  {
    PlacesOfUpdate(chains, b, chains[b]);
    assert chains[b := chains[b]] == chains;
  }

  lemma ChainApart<V>(chains: seq<seq<Entry<V>>>, b: nat)
    requires b < |chains| && Distinct(chains)
    ensures AllNodes(chains[b := []]) !! Members(chains[b]) && NoDuplicates(chains[b])
  {
    var vs := chains[b := []];
    forall c, i, j | 0 <= c < |vs| && 0 <= i < |vs[c]| && 0 <= j < |chains[b]|
      ensures vs[c][i] != chains[b][j]
    {
      SamePlace(chains, c, i, b, j);
    }
    forall i, j | 0 <= i < j < |chains[b]|
      ensures chains[b][i] != chains[b][j]
    {
      SamePlace(chains, b, i, b, j);
    }
  }

  // ---------- a value is replaced ----------

  ghost predicate ValueSet<V>(v: View<V>, v': View<V>, e: Entry<V>, x: Option<V>) {
    && v'.Keys == v.Keys
    && forall n :: n in v ==> v'[n] == if n == e then v[n].(val := x) else v[n]
  }

  lemma ValueSetHolds<V>(chains: seq<seq<Entry<V>>>, v: View<V>, v': View<V>, hashOf: Key -> nat, M: map<Key, Option<V>>,
                         b: nat, i: nat, x: Option<V>)
    requires Holds(chains, v, hashOf, M) && IsPlace(chains, b, i) && ValueSet(v, v', chains[b][i], x)
    ensures chains[b][i] in v && Holds(chains, v', hashOf, M[v[chains[b][i]].key := x])
  {
    var e := chains[b][i];
    var M' := M[v[e].key := x];
    forall c: nat, j: nat | IsPlace(chains, c, j)
      ensures EntryOk(chains, v', hashOf, M', c, j)
    {
      assert EntryOk(chains, v, hashOf, M, c, j) && EntryOk(chains, v, hashOf, M, b, i);
      if c == b && j != i {
        assert v[chains[b][j]].key != v[e].key;
      }
    }
    forall k | k in M'
      ensures HasKey(chains[BucketOf(hashOf, |chains| - 1, k)], v', k)
    {
      assert EntryOk(chains, v, hashOf, M, b, i);
      HasKeySame(chains[BucketOf(hashOf, |chains| - 1, k)], v, v', k);
    }
  }

  lemma HasKeySame<V>(ch: seq<Entry<V>>, v: View<V>, v': View<V>, k: Key)
    requires HasKey(ch, v, k) && forall e :: e in ch && e in v ==> e in v' && v'[e].key == v[e].key
    ensures HasKey(ch, v', k)
  {
  }

  /** The links are as they were. */
  ghost predicate SameLinks<V>(v: View<V>, v': View<V>) {
    v'.Keys == v.Keys && forall n :: n in v ==> v'[n].next == v[n].next
  }

  lemma SameLinksTable<V>(chains: seq<seq<Entry<V>>>, arr: seq<Entry?<V>>, v: View<V>, v': View<V>, freed: seq<Entry<V>>, free: Entry?<V>)
    requires SameLinks(v, v') && Slots(chains, arr, v) && Recycled(chains, v, freed, free)
    ensures Slots(chains, arr, v') && Recycled(chains, v', freed, free)
  {
    ChainedSame(freed, v, v');
    forall b | 0 <= b < |chains|
      ensures Chained(chains[b], v')
    {
      ChainedSame(chains[b], v, v');
    }
  }

  // ---------- an entry is added at the end of its chain ----------

  /** `v'` is `v` with the entry `e` linked after the last entry of `ch`. */
  ghost predicate LinkedLast<V>(v: View<V>, v': View<V>, ch: seq<Entry<V>>, e: Entry<V>) {
    && v'.Keys == v.Keys + {e}
    && v'[e].next == null
    && forall n :: n in v && n != e ==>
         v'[n] == if ch != [] && n == ch[|ch| - 1] then v[n].(next := e) else v[n]
  }

  lemma AddedHolds<V>(chains: seq<seq<Entry<V>>>, v: View<V>, v': View<V>, hashOf: Key -> nat, M: map<Key, Option<V>>,
                      b: nat, e: Entry<V>)
    requires Holds(chains, v, hashOf, M) && b < |chains| && e !in AllNodes(chains)
    requires LinkedLast(v, v', chains[b], e)
    requires v'[e].hash == hashOf(v'[e].key) && b == BucketOf(hashOf, |chains| - 1, v'[e].key)
    requires v'[e].key !in M
    ensures Holds(chains[b := chains[b] + [e]], v', hashOf, M[v'[e].key := v'[e].val])
  {
    var us := chains[b := chains[b] + [e]];
    var M' := M[v'[e].key := v'[e].val];
    forall c: nat, i: nat | IsPlace(us, c, i)
      ensures EntryOk(us, v', hashOf, M', c, i)
    {
      if IsPlace(chains, c, i) {
        assert EntryOk(chains, v, hashOf, M, c, i);
        assert us[c][i] == chains[c][i];
        assert chains[c][i] in AllNodes(chains);
      }
    }
    forall c: nat, i: nat, j: nat | IsPlace(us, c, i) && IsPlace(us, c, j) && i != j
      ensures v'[us[c][i]].key != v'[us[c][j]].key
    {
      assert EntryOk(us, v', hashOf, M', c, i) && EntryOk(us, v', hashOf, M', c, j);
      if IsPlace(chains, c, i) {
        assert EntryOk(chains, v, hashOf, M, c, i);
        assert us[c][i] == chains[c][i] && chains[c][i] in AllNodes(chains);
      }
      if IsPlace(chains, c, j) {
        assert EntryOk(chains, v, hashOf, M, c, j);
        assert us[c][j] == chains[c][j] && chains[c][j] in AllNodes(chains);
      }
    }
    forall k | k in M'
      ensures HasKey(us[BucketOf(hashOf, |us| - 1, k)], v', k)
    {
      var c := BucketOf(hashOf, |us| - 1, k);
      if k == v'[e].key {
        assert us[c][|us[c]| - 1] == e;
      } else {
        var i :| 0 <= i < |chains[c]| && chains[c][i] in v && v[chains[c][i]].key == k;
        assert us[c][i] == chains[c][i] && chains[c][i] in AllNodes(chains);
      }
    }
  }

  lemma AddedSlots<V>(chains: seq<seq<Entry<V>>>, arr: seq<Entry?<V>>, v: View<V>, v': View<V>, b: nat, e: Entry<V>)
    requires Slots(chains, arr, v) && Distinct(chains) && b < |chains| && e !in AllNodes(chains)
    requires LinkedLast(v, v', chains[b], e)
    ensures Slots(chains[b := chains[b] + [e]], if chains[b] == [] then arr[b := e] else arr, v')
  {
    var us := chains[b := chains[b] + [e]];
    ChainApart(chains, b);
    ChainPlaces(chains, b);
    forall c | 0 <= c < |us|
      ensures Chained(us[c], v')
    {
      if c == b {
        ChainedAppend(chains[b], v, v', e);
      } else {
        forall i | 0 <= i < |chains[c]|
          ensures chains[c][i] != e && (chains[b] != [] ==> chains[c][i] != chains[b][|chains[b]| - 1])
        {
          assert chains[c][i] in AllNodes(chains);
          if chains[b] != [] {
            SamePlace(chains, c, i, b, |chains[b]| - 1);
          }
        }
        ChainedSame(chains[c], v, v');
      }
    }
  }

  /** The new entry was the first recycled one, or is new altogether. */
  lemma AddedRecycled<V>(chains: seq<seq<Entry<V>>>, v: View<V>, v': View<V>, freed: seq<Entry<V>>, free: Entry?<V>, b: nat, e: Entry<V>)
    requires Recycled(chains, v, freed, free) && Distinct(chains) && b < |chains|
    requires if freed != [] then e == freed[0] else e !in v
    requires LinkedLast(v, v', chains[b], e)
    ensures
      var freed' := if freed == [] then [] else freed[1..];
      Recycled(chains[b := chains[b] + [e]], v', freed', Head(freed'))
  {
    hide Chained, NoDuplicates;
    var freed' := if freed == [] then [] else freed[1..];
    AddedPlaces(chains, v, freed, free, b, e);
    if freed != [] {
      ChainedTail(freed, v);
    } else {
      ChainedNone(v);
    }
    forall i | 0 <= i < |freed'|
      ensures freed'[i] != e && (chains[b] != [] ==> freed'[i] != chains[b][|chains[b]| - 1])
    {
      assert freed'[i] in Members(freed');
      if chains[b] != [] {
        assert chains[b][|chains[b]| - 1] in AllNodes(chains);
      }
    }
    ChainedSame(freed', v, v');
  }

  lemma ChainedNone<V>(v: View<V>)
    ensures Chained([], v) && NoDuplicates<V>([])
  {
  }

  lemma AddedPlaces<V>(chains: seq<seq<Entry<V>>>, v: View<V>, freed: seq<Entry<V>>, free: Entry?<V>, b: nat, e: Entry<V>)
    requires Recycled(chains, v, freed, free) && b < |chains|
    requires if freed != [] then e == freed[0] else e !in v
    ensures
      var freed' := if freed == [] then [] else freed[1..];
      var us := chains[b := chains[b] + [e]];
      && e !in AllNodes(chains) && e !in Members(freed') && NoDuplicates(freed')
      && AllNodes(us) == AllNodes(chains) + {e}
      && AllNodes(chains) !! Members(freed') && AllNodes(us) !! Members(freed')
      && v.Keys + {e} == AllNodes(us) + Members(freed')
  {
    PlacesOfUpdate(chains, b, chains[b] + [e]);
    ChainPlaces(chains, b);
    MembersAppend(chains[b], e);
    if freed != [] {
      MembersTail(freed);
    }
  }

  // ---------- an entry is taken out ----------

  /** `v'` is `v` with the entry at `i` of `ch` bypassed and put in front of `free`. */
  ghost predicate TakenOut<V>(v: View<V>, v': View<V>, ch: seq<Entry<V>>, i: nat, free: Entry?<V>)
    requires i < |ch|
  {
    && v'.Keys == v.Keys
    && forall n :: n in v ==>
         v'[n] == if n == ch[i] then v[n].(next := free)
                  else if i > 0 && n == ch[i - 1] then v[n].(next := Head(ch[i + 1..]))
                  else v[n]
  }

  /** Where the entry at place (c, j) stood before the one at (b, i) was taken out. */
  function Before(b: nat, i: nat, c: nat, j: nat): nat {
    if c == b && j >= i then j + 1 else j
  }

  lemma TakenOutEntry<V>(chains: seq<seq<Entry<V>>>, v: View<V>, v': View<V>, hashOf: Key -> nat, M: map<Key, Option<V>>,
                         b: nat, i: nat, free: Entry?<V>, c: nat, j: nat)
    requires Holds(chains, v, hashOf, M) && IsPlace(chains, b, i) && TakenOut(v, v', chains[b], i, free)
    requires IsPlace(chains[b := Dropped(chains[b], i)], c, j)
    ensures IsPlace(chains, c, Before(b, i, c, j))
    ensures chains[b := Dropped(chains[b], i)][c][j] == chains[c][Before(b, i, c, j)]
    ensures chains[b][i] in v
    ensures EntryOk(chains[b := Dropped(chains[b], i)], v', hashOf, M - {v[chains[b][i]].key}, c, j)
  {
    var j' := Before(b, i, c, j);
    assert IsPlace(chains, c, j');
    assert EntryOk(chains, v, hashOf, M, b, i);
    assert EntryOk(chains, v, hashOf, M, c, j');
  }

  lemma TakenOutHolds<V>(chains: seq<seq<Entry<V>>>, v: View<V>, v': View<V>, hashOf: Key -> nat, M: map<Key, Option<V>>,
                         b: nat, i: nat, free: Entry?<V>)
    requires Holds(chains, v, hashOf, M) && IsPlace(chains, b, i) && TakenOut(v, v', chains[b], i, free)
    ensures chains[b][i] in v && Holds(chains[b := Dropped(chains[b], i)], v', hashOf, M - {v[chains[b][i]].key})
  {
    hide Dropped;
    assert EntryOk(chains, v, hashOf, M, b, i);
    var us := chains[b := Dropped(chains[b], i)];
    var M' := M - {v[chains[b][i]].key};
    forall c: nat, j: nat | IsPlace(us, c, j)
      ensures EntryOk(us, v', hashOf, M', c, j)
    {
      TakenOutEntry(chains, v, v', hashOf, M, b, i, free, c, j);
    }
    forall c: nat, j: nat, k: nat | IsPlace(us, c, j) && IsPlace(us, c, k) && j != k && us[c][j] in v' && us[c][k] in v'
      ensures v'[us[c][j]].key != v'[us[c][k]].key
    {
      TakenOutEntry(chains, v, v', hashOf, M, b, i, free, c, j);
      TakenOutEntry(chains, v, v', hashOf, M, b, i, free, c, k);
    }
    forall k | k in M'
      ensures HasKey(us[BucketOf(hashOf, |us| - 1, k)], v', k)
    {
      TakenOutHasKey(chains[BucketOf(hashOf, |us| - 1, k)], v, v', chains[b], i, free, BucketOf(hashOf, |us| - 1, k) == b, k);
    }
  }

  lemma TakenOutHasKey<V>(ch: seq<Entry<V>>, v: View<V>, v': View<V>, of: seq<Entry<V>>, i: nat, free: Entry?<V>, same: bool, k: Key)
    requires HasKey(ch, v, k) && i < |of| && TakenOut(v, v', of, i, free)
    requires same ==> ch == of && of[i] in v && v[of[i]].key != k
    ensures HasKey(if same then Dropped(ch, i) else ch, v', k)
  {
    var j :| 0 <= j < |ch| && ch[j] in v && v[ch[j]].key == k;
    if same {
      WithoutAt(ch, i, j);
    }
  }

  lemma TakenOutSlots<V>(chains: seq<seq<Entry<V>>>, arr: seq<Entry?<V>>, v: View<V>, v': View<V>, b: nat, i: nat, free: Entry?<V>)
    requires Slots(chains, arr, v) && Distinct(chains) && IsPlace(chains, b, i)
    requires TakenOut(v, v', chains[b], i, free)
    ensures Slots(chains[b := Dropped(chains[b], i)], if i == 0 then arr[b := Head(chains[b][1..])] else arr, v')
  {
    var us := chains[b := Dropped(chains[b], i)];
    forall c | 0 <= c < |us|
      ensures Chained(us[c], v')
    {
      if c == b {
        ChainApart(chains, b);
        ChainedWithout(chains[b], v, v', i);
      } else {
        forall j | 0 <= j < |chains[c]|
          ensures chains[c][j] != chains[b][i] && (i > 0 ==> chains[c][j] != chains[b][i - 1])
        {
          SamePlace(chains, c, j, b, i);
          if i > 0 {
            SamePlace(chains, c, j, b, i - 1);
          }
        }
        ChainedSame(chains[c], v, v');
      }
    }
  }

  lemma TakenOutRecycled<V>(chains: seq<seq<Entry<V>>>, v: View<V>, v': View<V>, freed: seq<Entry<V>>, free: Entry?<V>, b: nat, i: nat)
    requires Recycled(chains, v, freed, free) && Distinct(chains) && IsPlace(chains, b, i)
    requires TakenOut(v, v', chains[b], i, free)
    ensures Recycled(chains[b := Dropped(chains[b], i)], v', [chains[b][i]] + freed, chains[b][i])
  {
    hide Chained, Dropped;
    var e := chains[b][i];
    var ch := chains[b];
    ChainApart(chains, b);
    ChainPlaces(chains, b);
    PlacesOfUpdate(chains, b, Dropped(ch, i));
    MembersWithout(ch, i);
    MembersAppend(freed, e);
    assert e in Members(ch) && (i > 0 ==> ch[i - 1] in Members(ch));
    forall j | 0 <= j < |freed|
      ensures freed[j] != e && (i > 0 ==> freed[j] != ch[i - 1])
    {
      assert freed[j] in Members(freed);
    }
    ChainedSame(freed, v, v');
    ChainedCons(e, freed, v');
  }

  // ---------- the whole table ----------

  /** The buckets, the chains, the recycled entries and the map fit together. */
  ghost predicate Tabled<V>(chains: seq<seq<Entry<V>>>, arr: seq<Entry?<V>>, v: View<V>, hashOf: Key -> nat,
                            M: map<Key, Option<V>>, freed: seq<Entry<V>>, free: Entry?<V>)
  {
    && Holds(chains, v, hashOf, M)
    && Slots(chains, arr, v)
    && Recycled(chains, v, freed, free)
  }

  lemma TabledAdded<V>(chains: seq<seq<Entry<V>>>, arr: seq<Entry?<V>>, v: View<V>, v': View<V>, hashOf: Key -> nat,
                       M: map<Key, Option<V>>, freed: seq<Entry<V>>, free: Entry?<V>, b: nat, e: Entry<V>)
    requires Tabled(chains, arr, v, hashOf, M, freed, free) && b < |chains|
    requires if freed != [] then e == freed[0] else e !in v
    requires LinkedLast(v, v', chains[b], e)
    requires v'[e].hash == hashOf(v'[e].key) && b == BucketOf(hashOf, |chains| - 1, v'[e].key)
    requires v'[e].key !in M
    ensures |arr| == |chains|
    ensures
      var freed' := if freed == [] then [] else freed[1..];
      Tabled(chains[b := chains[b] + [e]], if chains[b] == [] then arr[b := e] else arr, v', hashOf,
             M[v'[e].key := v'[e].val], freed', Head(freed'))
  {
    HoldsDistinct(chains, v, hashOf, M);
    AddedPlaces(chains, v, freed, free, b, e);
    AddedHolds(chains, v, v', hashOf, M, b, e);
    AddedSlots(chains, arr, v, v', b, e);
    AddedRecycled(chains, v, v', freed, free, b, e);
  }

  lemma TabledTakenOut<V>(chains: seq<seq<Entry<V>>>, arr: seq<Entry?<V>>, v: View<V>, v': View<V>, hashOf: Key -> nat,
                          M: map<Key, Option<V>>, freed: seq<Entry<V>>, free: Entry?<V>, b: nat, i: nat)
    requires Tabled(chains, arr, v, hashOf, M, freed, free) && b < |chains| && i < |chains[b]|
    requires TakenOut(v, v', chains[b], i, free)
    ensures |arr| == |chains| && chains[b][i] in v
    ensures Tabled(chains[b := Dropped(chains[b], i)], if i == 0 then arr[b := Head(chains[b][1..])] else arr, v', hashOf,
                   M - {v[chains[b][i]].key}, [chains[b][i]] + freed, chains[b][i])
  {
    assert IsPlace(chains, b, i);
    HoldsDistinct(chains, v, hashOf, M);
    TakenOutHolds(chains, v, v', hashOf, M, b, i, free);
    TakenOutSlots(chains, arr, v, v', b, i, free);
    TakenOutRecycled(chains, v, v', freed, free, b, i);
  }

  lemma TabledValueSet<V>(chains: seq<seq<Entry<V>>>, arr: seq<Entry?<V>>, v: View<V>, v': View<V>, hashOf: Key -> nat,
                          M: map<Key, Option<V>>, freed: seq<Entry<V>>, free: Entry?<V>, b: nat, i: nat, x: Option<V>)
    requires Tabled(chains, arr, v, hashOf, M, freed, free) && b < |chains| && i < |chains[b]|
    requires ValueSet(v, v', chains[b][i], x)
    ensures chains[b][i] in v
    ensures Tabled(chains, arr, v', hashOf, M[v[chains[b][i]].key := x], freed, free)
  {
    assert IsPlace(chains, b, i);
    ValueSetHolds(chains, v, v', hashOf, M, b, i, x);
    SameLinksTable(chains, arr, v, v', freed, free);
  }

  /** What a chain is to a walk along it. */
  lemma TabledChain<V>(chains: seq<seq<Entry<V>>>, arr: seq<Entry?<V>>, v: View<V>, hashOf: Key -> nat,
                       M: map<Key, Option<V>>, freed: seq<Entry<V>>, free: Entry?<V>, b: nat)
    requires Tabled(chains, arr, v, hashOf, M, freed, free) && b < |chains|
    ensures |arr| == |chains| && arr[b] == Head(chains[b]) && NoDuplicates(chains[b])
    ensures forall e :: e in chains[b] ==> e in v
  {
    HoldsDistinct(chains, v, hashOf, M);
    ChainApart(chains, b);
    forall i | 0 <= i < |chains[b]|
      ensures chains[b][i] in v
    {
      assert IsPlace(chains, b, i);
      assert EntryOk(chains, v, hashOf, M, b, i);
    }
  }

  lemma TabledEntry<V>(chains: seq<seq<Entry<V>>>, arr: seq<Entry?<V>>, v: View<V>, hashOf: Key -> nat,
                       M: map<Key, Option<V>>, freed: seq<Entry<V>>, free: Entry?<V>, b: nat, i: nat)
    requires Tabled(chains, arr, v, hashOf, M, freed, free) && b < |chains| && i < |chains[b]|
    ensures
      var e := chains[b][i];
      && e in v && v[e].hash == hashOf(v[e].key) && v[e].key in M && M[v[e].key] == v[e].val
      && b == BucketOf(hashOf, |chains| - 1, v[e].key)
      && v[e].next == (if i + 1 < |chains[b]| then chains[b][i + 1] else null)
  {
    assert IsPlace(chains, b, i);
    assert EntryOk(chains, v, hashOf, M, b, i);
    assert LinkAt(chains[b], v, i);
  }

  lemma TabledKey<V>(chains: seq<seq<Entry<V>>>, arr: seq<Entry?<V>>, v: View<V>, hashOf: Key -> nat,
                     M: map<Key, Option<V>>, freed: seq<Entry<V>>, free: Entry?<V>, key: Key)
    requires Tabled(chains, arr, v, hashOf, M, freed, free)
    ensures |chains| > 0
    ensures key in M <==> HasKey(chains[BucketOf(hashOf, |chains| - 1, key)], v, key)
  {
    HoldsKey(chains, v, hashOf, M, key);
  }

  /** What the list of recycled entries offers. */
  lemma TabledFree<V>(chains: seq<seq<Entry<V>>>, arr: seq<Entry?<V>>, v: View<V>, hashOf: Key -> nat,
                      M: map<Key, Option<V>>, freed: seq<Entry<V>>, free: Entry?<V>)
    requires Tabled(chains, arr, v, hashOf, M, freed, free)
    ensures free == null <==> freed == []
    ensures free != null ==> free == freed[0] && free in v && free !in AllNodes(chains) && v[free].next == Head(freed[1..])
  {
    if freed != [] {
      ChainedTail(freed, v);
      assert freed[0] in Members(freed);
    }
  }

  /** An entry that is recycled or unknown is in no chain. */
  lemma TabledOutside<V>(chains: seq<seq<Entry<V>>>, arr: seq<Entry?<V>>, v: View<V>, hashOf: Key -> nat,
                         M: map<Key, Option<V>>, freed: seq<Entry<V>>, free: Entry?<V>, b: nat)
    requires Tabled(chains, arr, v, hashOf, M, freed, free) && b < |chains|
    ensures free != null ==> free !in chains[b]
  {
    if free != null {
      assert free in Members(freed);
      forall i | 0 <= i < |chains[b]|
        ensures chains[b][i] != free
      {
        assert chains[b][i] in AllNodes(chains);
      }
    }
  }

  /** A key tells the place of its entry. */
  lemma KeyPlace<V>(chains: seq<seq<Entry<V>>>, arr: seq<Entry?<V>>, v: View<V>, hashOf: Key -> nat,
                    M: map<Key, Option<V>>, freed: seq<Entry<V>>, free: Entry?<V>, b: nat, i: nat, c: nat, j: nat)
    requires Tabled(chains, arr, v, hashOf, M, freed, free)
    requires b < |chains| && i < |chains[b]| && c < |chains| && j < |chains[c]|
    requires chains[b][i] in v && chains[c][j] in v && v[chains[b][i]].key == v[chains[c][j]].key
    ensures b == c && i == j
  {
    assert IsPlace(chains, b, i) && IsPlace(chains, c, j);
    assert EntryOk(chains, v, hashOf, M, b, i) && EntryOk(chains, v, hashOf, M, c, j);
  }

  /** A table without entries holds nothing, and all its entries are recycled. */
  lemma TabledEmpty<V>(chains: seq<seq<Entry<V>>>, arr: seq<Entry?<V>>, v: View<V>, hashOf: Key -> nat,
                       M: map<Key, Option<V>>, freed: seq<Entry<V>>, free: Entry?<V>)
    requires Tabled(chains, arr, v, hashOf, M, freed, free) && AllNodes(chains) == {}
    ensures M == map[] && Total(chains) == 0 && Members(freed) == v.Keys
  {
    forall b | 0 <= b < |chains|
      ensures chains[b] == []
    {
      if chains[b] != [] {
        InAllNodes(chains, b, 0);
      }
    }
    TotalEmpty(chains);
    forall k
      ensures k !in M
    {
      HoldsKey(chains, v, hashOf, M, k);
    }
  }

  lemma TabledDistinct<V>(chains: seq<seq<Entry<V>>>, arr: seq<Entry?<V>>, v: View<V>, hashOf: Key -> nat,
                          M: map<Key, Option<V>>, freed: seq<Entry<V>>, free: Entry?<V>)
    requires Tabled(chains, arr, v, hashOf, M, freed, free)
    ensures Distinct(chains)
  {
    HoldsDistinct(chains, v, hashOf, M);
  }

  lemma TabledSlots<V>(chains: seq<seq<Entry<V>>>, arr: seq<Entry?<V>>, v: View<V>, hashOf: Key -> nat,
                       M: map<Key, Option<V>>, freed: seq<Entry<V>>, free: Entry?<V>)
    requires Tabled(chains, arr, v, hashOf, M, freed, free)
    ensures Slots(chains, arr, v)
  {
  }
}
