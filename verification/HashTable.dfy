/**
 The hash table of `apr_hash.c`: chained, resizing, and recycling its entries.
 */
module HashTables {
  import opened Basics
  import opened HashFunctions
  import opened Places
  import opened HashChains
  import opened HashState
  import opened HashIteration
  import opened HashRelink

  const INITIAL_MAX := 15

  /** A custom hash function, or the default one with the table's seed. */
  function HashFn(custom: Option<Key -> nat>, seed: nat): Key -> nat
    requires seed < WORD
  {
    if custom.Some? then custom.value else (k: Key) => Times33(k, seed)
  }

  ghost predicate PowerOfTwo(p: nat) {
    exists n: nat :: p == Pow2(n)
  }

  lemma DoublePower(max: nat)
    requires PowerOfTwo(max + 1)
    ensures PowerOfTwo((2 * max + 1) + 1)
  {
    var n: nat :| max + 1 == Pow2(n);
    assert Pow2(n + 1) == 2 * max + 2;
  }

  /** Fills in `e` and links it after `prev`, the last entry of `ch`, or into the empty bucket `b`. */
  method LinkLast<V>(e: Entry<V>, prev: Entry?<V>, hash: nat, key: Key, val: Option<V>, buckets: array<Entry?<V>>, b: nat,
                     ghost ch: seq<Entry<V>>, ghost es: set<Entry<V>>)
    requires e !in ch && (forall n :: n in ch ==> n in es) && b < buckets.Length
    requires prev == if ch == [] then null else ch[|ch| - 1]
    modifies es, e, buckets
    ensures LinkedLast(old(ViewOf(es)), ViewOf(es + {e}), ch, e)
    ensures ViewOf(es + {e})[e] == Fields(null, hash, key, val)
    ensures buckets[..] == if ch == [] then old(buckets[..])[b := e] else old(buckets[..])
  {
    e.next := null;
    e.hash, e.key, e.val := hash, key, val;
    if prev != null {
      prev.next := e;
    } else {
      buckets[b] := e;
    }
  }

  /** Unlinks the entry at `i` of `ch`, which follows `prev` or starts bucket `b`, and puts it in front of `free`. */
  method UnlinkEntry<V>(e: Entry<V>, prev: Entry?<V>, free: Entry?<V>, buckets: array<Entry?<V>>, b: nat,
                        ghost ch: seq<Entry<V>>, ghost i: nat, ghost es: set<Entry<V>>)
    requires i < |ch| && e == ch[i] && (forall n :: n in ch ==> n in es) && NoDuplicates(ch) && b < buckets.Length
    requires prev == if i == 0 then null else ch[i - 1]
    requires e.next == if i + 1 < |ch| then ch[i + 1] else null
    modifies es, buckets
    ensures TakenOut(old(ViewOf(es)), ViewOf(es), ch, i, free)
    ensures forall f :: f in es ==> f.key == old(f.key) && f.val == old(f.val)
    ensures buckets[..] == if i == 0 then old(buckets[..])[b := Head(ch[1..])] else old(buckets[..])
  {
    if prev != null {
      prev.next := e.next;
    } else {
      buckets[b] := e.next;
    }
    e.next := free;
  }

  /** Moves `e` to the front of the list in slot `b`. */
  method Relink<V>(e: Entry<V>, slots: array<Entry?<V>>, b: nat, ghost es: set<Entry<V>>)
    requires e in es && b < slots.Length
    modifies es, slots
    ensures NextSet(old(ViewOf(es)), ViewOf(es), e, old(slots[b]))
    ensures slots[..] == old(slots[..])[b := e]
  {
    e.next := slots[b];
    slots[b] := e;
  }

  method SetValue<V>(e: Entry<V>, val: Option<V>, ghost es: set<Entry<V>>)
    requires e in es
    modifies es
    ensures ValueSet(old(ViewOf(es)), ViewOf(es), e, val)
  {
    e.val := val;
  }

  class HashTable<V> {
    var buckets: array<Entry?<V>>
    var count: nat
    var max: nat
    const seed: nat
    const custom: Option<Key -> nat>
    var free: Entry?<V>

    ghost var chains: seq<seq<Entry<V>>>
    ghost var freed: seq<Entry<V>>
    ghost var pool: set<Entry<V>>          // every entry ever allocated
    ghost var M: map<Key, Option<V>>       // what the table holds

    ghost function Hash(): Key -> nat
      requires seed < WORD
    {
      HashFn(custom, seed)
    }

    /** Everything but the number of entries. */
    ghost predicate Uncounted()
      reads `buckets, `max, `free, `chains, `freed, `pool, `M, buckets, pool
    {
      && seed < WORD
      && buckets.Length == max + 1 == |chains| && PowerOfTwo(max + 1)
      && Tabled(chains, buckets[..], ViewOf(pool), Hash(), M, freed, free)
    }

    /** Everything but the bound on the load. */
    ghost predicate Wired()
      reads this, buckets, pool
    {
      Uncounted() && count == Total(chains)
    }

    ghost predicate Valid()
      reads this, buckets, pool
    {
      Wired() && count <= max
    }

    /** `apr_hash_make` and `apr_hash_make_custom`; the seed comes from the clock and addresses. */
    constructor (seed: nat, custom: Option<Key -> nat>)
      requires seed < WORD
      ensures Valid() && M == map[] && count == 0 && max == INITIAL_MAX
      ensures fresh(buckets) && pool == {} && this.seed == seed && this.custom == custom
    {
      buckets := new Entry?<V>[INITIAL_MAX + 1](_ => null);
      count, max, free := 0, INITIAL_MAX, null;
      this.seed, this.custom := seed, custom;
      chains, freed, pool, M := seq(INITIAL_MAX + 1, _ => []), [], {}, map[];
      new;
      TotalEmpty(chains);
      assert AllNodes(chains) == {};
      assert Members<Entry<V>>([]) == {};
      assert Pow2(4) == INITIAL_MAX + 1;
    }

    /** An empty table with `max + 1` buckets, as `apr_hash_merge` and `apr_hash_copy` begin with. */
    constructor Sized(max: nat, count: nat, seed: nat, custom: Option<Key -> nat>)
      requires seed < WORD && PowerOfTwo(max + 1)
      ensures Uncounted() && M == map[] && this.max == max && this.count == count && Total(chains) == 0
      ensures freed == [] && free == null && pool == {} && fresh(buckets)
      ensures this.seed == seed && this.custom == custom
    {
      buckets := new Entry?<V>[max + 1](_ => null);
      this.count, this.max, free := count, max, null;
      this.seed, this.custom := seed, custom;
      chains, freed, pool, M := seq(max + 1, _ => []), [], {}, map[];
      new;
      TotalEmpty(chains);
      assert AllNodes(chains) == {};
      assert Members<Entry<V>>([]) == {};
    }

    /** What the fields of an entry are to a walk along its chain. */
    lemma EntryFacts(b: nat, i: nat)
      requires Uncounted() && b < |chains| && i < |chains[b]|
      ensures
        var e := chains[b][i];
        && e in pool && e.hash == Hash()(e.key) && e.key in M && M[e.key] == e.val
        && b == BucketOf(Hash(), max, e.key)
        && e.next == (if i + 1 < |chains[b]| then chains[b][i + 1] else null)
    {
      TabledEntry(chains, buckets[..], ViewOf(pool), Hash(), M, freed, free, b, i);
    }

    lemma KeyFacts(b: nat, key: Key)
      requires Uncounted() && b == BucketOf(Hash(), max, key) < |chains|
      requires forall i :: 0 <= i < |chains[b]| ==> chains[b][i].key != key
      ensures key !in M
    {
      TabledKey(chains, buckets[..], ViewOf(pool), Hash(), M, freed, free, key);
    }

    /** The hash of a key, custom or default. */
    method ComputeHash(key: Key) returns (hash: nat)
      requires seed < WORD
      ensures hash == Hash()(key)
    {
      if custom.Some? {
        hash := custom.value(key);
      } else {
        hash := HashDefault(key, seed);
      }
    }

    /**
     The scan of `find_entry`. The place `*hep` is told by the bucket and the entry
     before it in the chain.
     */
    method Locate(key: Key) returns (hash: nat, b: nat, prev: Entry?<V>, he: Entry?<V>, ghost i: nat)
      requires Uncounted()
      ensures hash == Hash()(key) && b == BucketOf(Hash(), max, key) < |chains|
      ensures i <= |chains[b]| && he == (if i < |chains[b]| then chains[b][i] else null)
      ensures prev == if i == 0 then null else chains[b][i - 1]
      ensures he == null <==> key !in M
      ensures he != null ==> he in pool && he.key == key && M[key] == he.val
    {
      hide ViewOf, Tabled;
      hash := ComputeHash(key);
      b := And(hash, max);
      TabledChain(chains, buckets[..], ViewOf(pool), Hash(), M, freed, free, b);
      prev, he, i := null, buckets[b], 0;
      while he != null
        invariant i <= |chains[b]| && he == (if i < |chains[b]| then chains[b][i] else null)
        invariant prev == if i == 0 then null else chains[b][i - 1]
        invariant forall j :: 0 <= j < i ==> chains[b][j].key != key
        decreases |chains[b]| - i
      {
        EntryFacts(b, i);
        if he.hash == hash && |he.key| == |key| && he.key == key {
          return;
        }
        prev, he, i := he, he.next, i + 1;
      }
      KeyFacts(b, key);
    }

    /** The scan of `apr_hash_merge`, which compares keys only. */
    method ScanChain(b: nat, key: Key) returns (ent: Entry?<V>, ghost i: nat)
      requires Uncounted() && b == BucketOf(Hash(), max, key) < |chains|
      ensures i <= |chains[b]| && ent == (if i < |chains[b]| then chains[b][i] else null)
      ensures ent == null <==> key !in M
      ensures ent != null ==> ent in pool && ent.key == key && M[key] == ent.val
    {
      hide ViewOf, Tabled;
      TabledChain(chains, buckets[..], ViewOf(pool), Hash(), M, freed, free, b);
      ent, i := buckets[b], 0;
      while ent != null
        invariant i <= |chains[b]| && ent == (if i < |chains[b]| then chains[b][i] else null)
        invariant forall j :: 0 <= j < i ==> chains[b][j].key != key
        decreases |chains[b]| - i
      {
        EntryFacts(b, i);
        if |ent.key| == |key| && ent.key == key {
          return;
        }
        ent, i := ent.next, i + 1;
      }
      KeyFacts(b, key);
    }

    /** `apr_hash_get`; a NULL value and an absent key look the same. */
    method Get(key: Key) returns (val: Option<V>)
      requires Valid()
      ensures val == if key in M then M[key] else None
    {
      var hash, b, prev, he;
      ghost var i;
      hash, b, prev, he, i := Locate(key);
      return if he != null then he.val else None;
    }

    /** A recycled entry if there is one, otherwise a new one. */
    method TakeEntry() returns (he: Entry<V>)
      requires Wired()
      modifies this`free
      ensures if freed != [] then he == freed[0] && he in pool else fresh(he) && he !in pool
      ensures free == Head(if freed == [] then [] else freed[1..])
      ensures freed == [] <==> old(free) == null
      ensures he == old(free) || fresh(he)
    {
      hide ViewOf, Tabled, PowerOfTwo, HashFn, Total;
      TabledFree(chains, buckets[..], ViewOf(pool), Hash(), M, freed, free);
      if free != null {
        NextIs(ViewOf(pool), free);
        he := free;
        free := he.next;
      } else {
        he := new Entry<V>(0, [], None);
      }
    }

    /** Links the entry just taken to the end of its chain; `f` was the first recycled entry. */
    method LinkTaken(he: Entry<V>, ghost f: Entry?<V>, hash: nat, b: nat, prev: Entry?<V>, key: Key, val: Option<V>)
      requires seed < WORD && buckets.Length == |chains| == max + 1
      requires Tabled(chains, buckets[..], ViewOf(pool), Hash(), M, freed, f)
      requires key !in M && hash == Hash()(key) && b == BucketOf(Hash(), max, key) < |chains|
      requires prev == if chains[b] == [] then null else chains[b][|chains[b]| - 1]
      requires he !in chains[b] && if freed != [] then he == freed[0] else he !in pool
      modifies buckets, pool, he
      ensures
        var chains' := chains[b := chains[b] + [he]];
        var freed' := if freed == [] then [] else freed[1..];
        Tabled(chains', buckets[..], ViewOf(pool + {he}), Hash(), M[key := val], freed', Head(freed'))
    {
      hide ViewOf, Tabled, LinkedLast, HashFn, And, NoDuplicates;
      ghost var v, arr := ViewOf(pool), buckets[..];
      TabledChain(chains, arr, v, Hash(), M, freed, f, b);
      ViewKeys(pool);
      LinkLast(he, prev, hash, key, val, buckets, b, chains[b], pool);
      TabledAdded(chains, arr, v, ViewOf(pool + {he}), Hash(), M, freed, f, b, he);
    }

    /** The end of `find_entry`: a recycled or new entry at the end of the chain. */
    method AddEntry(hash: nat, b: nat, prev: Entry?<V>, key: Key, val: Option<V>) returns (he: Entry<V>)
      requires Wired() && key !in M && hash == Hash()(key) && b == BucketOf(Hash(), max, key) < |chains|
      requires prev == if chains[b] == [] then null else chains[b][|chains[b]| - 1]
      modifies buckets, pool, this`free, this`count, this`chains, this`freed, this`pool, this`M
      ensures Wired() && M == old(M)[key := val] && count == old(count) + 1
      ensures old(pool) <= pool && fresh(pool - old(pool))
      ensures chains == old(chains)[b := old(chains[b]) + [he]]
    {
      hide ViewOf, Tabled, PowerOfTwo, HashFn, Total, And;
      ghost var f := free;
      TabledOutside(chains, buckets[..], ViewOf(pool), Hash(), M, freed, free, b);
      OldChain(b);
      he := TakeEntry();
      LinkTaken(he, f, hash, b, prev, key, val);
      TotalUpdate(chains, b, chains[b] + [he]);
      count, pool := count + 1, pool + {he};
      chains := chains[b := chains[b] + [he]];
      freed := if freed == [] then [] else freed[1..];
      M := M[key := val];
    }

    lemma OldChain(b: nat)
      requires Uncounted() && b < |chains|
      ensures forall e :: e in chains[b] ==> e in pool
    {
      TabledChain(chains, buckets[..], ViewOf(pool), Hash(), M, freed, free, b);
    }

    lemma NextIs(v: View<V>, e: Entry<V>)
      requires v == ViewOf(pool) && e in v
      ensures e in pool && e.next == v[e].next && e.key == v[e].key && e.hash == v[e].hash
    {
    }

    /** The deletion in `apr_hash_set`: unlinks the entry and recycles it. */
    method DeleteEntry(b: nat, prev: Entry?<V>, he: Entry<V>, ghost i: nat)
      requires Wired() && b < |chains| && i < |chains[b]| && he == chains[b][i]
      requires prev == if i == 0 then null else chains[b][i - 1]
      modifies buckets, pool, this`free, this`count, this`chains, this`freed, this`M
      ensures Wired() && M == old(M) - {old(he.key)} && count == old(count) - 1
      ensures chains == old(chains)[b := Dropped(old(chains[b]), i)]
      ensures freed == [he] + old(freed)
      ensures forall f :: f in pool ==> f.key == old(f.key) && f.val == old(f.val)
    {
      hide ViewOf, Tabled, PowerOfTwo, HashFn, Total, And, TakenOut, NoDuplicates, Dropped;
      ghost var v, arr := ViewOf(pool), buckets[..];
      TabledChain(chains, arr, v, Hash(), M, freed, free, b);
      EntryFacts(b, i);
      ViewKeys(pool);
      NextIs(v, he);
      ghost var key := he.key;
      UnlinkEntry(he, prev, free, buckets, b, chains[b], i, pool);
      TabledTakenOut(chains, arr, v, ViewOf(pool), Hash(), M, freed, free, b, i);
      TotalUpdate(chains, b, Dropped(chains[b], i));
      WithoutLength(chains[b], i);
      free, count := he, count - 1;
      chains := chains[b := Dropped(chains[b], i)];
      freed := [he] + freed;
      M := M - {key};
    }

    /** The body of `apr_hash_next`: from the fields of an iterator to the next entry. */
    method Advance(next0: Entry?<V>, index0: nat, ghost c0: nat, ghost j0: nat)
      returns (e: Entry?<V>, next: Entry?<V>, index: nat, ghost c: nat, ghost j: nat)
      requires buckets.Length == max + 1 == |chains|
      requires Ahead(chains, buckets[..], ViewOf(pool), next0, index0, c0, j0)
      ensures e == null ==> Below(chains, c0, j0) == AllNodes(chains)
      ensures e != null ==>
                && c < |chains| && j < |chains[c]| && e == chains[c][j] && e in pool
                && Below(chains, c, j) == Below(chains, c0, j0)
                && Ahead(chains, buckets[..], ViewOf(pool), next, index, c, j + 1)
                && ((c == c0 && j == j0) || (c > c0 && j == 0))
    {
      hide Ahead, ViewOf;
      e, next, index, c, j := next0, null, index0, c0, j0;
      while e == null
        invariant Ahead(chains, buckets[..], ViewOf(pool), e, index, c, j)
        invariant Below(chains, c, j) == Below(chains, c0, j0)
        invariant (c == c0 && j == j0) || (c > c0 && j == 0)
        decreases |chains| - index
      {
        if index > max {
          AheadEnd(chains, buckets[..], ViewOf(pool), index, c, j);
          return;
        }
        AheadLoad(chains, buckets[..], ViewOf(pool), index, c, j);
        c, j := if index == c then c else c + 1, 0;
        e := buckets[index];
        index := index + 1;
      }
      AheadVisit(chains, buckets[..], ViewOf(pool), e, index, c, j);
      ViewKeys(pool);
      NextIs(ViewOf(pool), e);
      next := e.next;
    }

    lemma AllAhead()
      requires Wired()
      ensures Ahead(chains, buckets[..], ViewOf(pool), null, 0, 0, 0) && Below(chains, 0, 0) == {} && Distinct(chains)
      ensures EntriesHashed(chains, ViewOf(pool), Hash())
    {
      hide HashFn, Total, PowerOfTwo;
      HoldsHashed(chains, ViewOf(pool), Hash(), M);
      AheadStart(chains, buckets[..], ViewOf(pool));
      BelowAll(chains);
      HoldsDistinct(chains, ViewOf(pool), Hash(), M);
    }

    /** One step of `expand_array`: `e`, just visited, moves to its new chain. */
    method MoveOne(e: Entry<V>, newArray: array<Entry?<V>>, next: Entry?<V>, index: nat, ghost v0: View<V>,
                   ghost nc: seq<seq<Entry<V>>>, ghost c: nat, ghost j: nat)
      returns (ghost nc': seq<seq<Entry<V>>>)
      requires seed < WORD && |nc| == newArray.Length > 0 && newArray != buckets
      requires c < |chains| && j < |chains[c]| && e == chains[c][j] && e in pool && Distinct(chains)
      requires EntriesHashed(chains, v0, Hash()) && Relinked(chains, v0, ViewOf(pool), nc, newArray[..], Below(chains, c, j), Hash())
      requires Ahead(chains, buckets[..], ViewOf(pool), next, index, c, j + 1)
      requires e in AllNodes(chains)
      modifies pool, newArray
      ensures Relinked(chains, v0, ViewOf(pool), nc', newArray[..], Below(chains, c, j + 1), Hash()) && |nc'| == |nc|
      ensures Ahead(chains, buckets[..], ViewOf(pool), next, index, c, j + 1)
    {
      hide Ahead, ViewOf, Relinked, HashFn, NextSet, Pushed, Below, Distinct, AllNodes, EntriesHashed, And;
      ghost var v, narr := ViewOf(pool), newArray[..];
      BelowStep(chains, c, j);
      HashKept(chains, v0, v, nc, narr, Below(chains, c, j), Hash(), e);
      ViewKeys(pool);
      NextIs(v, e);
      var i := And(e.hash, newArray.Length - 1);
      Relink(e, newArray, i, pool);
      RelinkStep(chains, v0, v, ViewOf(pool), nc, narr, Below(chains, c, j), Hash(), e, i);
      StillAhead(chains, buckets[..], v, ViewOf(pool), e, narr[i], next, index, c, j);
      nc' := Pushed(nc, i, e);
      PushedSize(nc, i, e);
    }

    /** `expand_array` doubles the array and relinks every entry in place. */
    method Expand()
      requires Wired()
      modifies pool, this`buckets, this`max, this`chains
      ensures Wired() && max == 2 * old(max) + 1
      ensures M == old(M) && count == old(count) && freed == old(freed) && fresh(buckets)
    {
      hide Ahead, ViewOf, Tabled, Relinked, PowerOfTwo, HashFn, Total, And, Below, Distinct, AllNodes, EntriesHashed;
      var newMax := 2 * max + 1;
      var newArray := new Entry?<V>[newMax + 1](_ => null);
      ghost var v0, arr0 := ViewOf(pool), buckets[..];
      ghost var nc: seq<seq<Entry<V>>> := seq(newMax + 1, _ => []);
      AllAhead();
      RelinkedNothing(chains, v0, nc, newArray[..], Hash());
      var e, next, index;
      ghost var c: nat, j: nat;
      e, next, index, c, j := Advance(null, 0, 0, 0);
      while e != null
        invariant chains == old(chains) && buckets == old(buckets) && max == old(max)
        invariant buckets.Length == max + 1 == |chains| && buckets[..] == arr0
        invariant |nc| == newArray.Length == newMax + 1
        invariant e == null ==> Relinked(chains, v0, ViewOf(pool), nc, newArray[..], AllNodes(chains), Hash())
        invariant e != null ==> c < |chains| && j < |chains[c]| && e == chains[c][j] && e in pool
        invariant e != null ==> Ahead(chains, buckets[..], ViewOf(pool), next, index, c, j + 1)
        invariant e != null ==> Relinked(chains, v0, ViewOf(pool), nc, newArray[..], Below(chains, c, j), Hash())
        decreases if e == null then 0 else 1 + |chains| - c, if e == null then 0 else |chains[c]| - j
      {
        InAllNodes(chains, c, j);
        nc := MoveOne(e, newArray, next, index, v0, nc, c, j);
        e, next, index, c, j := Advance(next, index, c, j + 1);
      }
      RelinkDone(chains, arr0, v0, ViewOf(pool), nc, newArray[..], Hash(), M, freed, free);
      DoublePower(max);
      buckets, max := newArray, newMax;
      chains := nc;
    }

    /** The replacement in `apr_hash_set`. */
    method ReplaceValue(he: Entry<V>, val: Option<V>, ghost b: nat, ghost i: nat)
      requires Uncounted() && b < |chains| && i < |chains[b]| && he == chains[b][i]
      modifies pool, this`M
      ensures Uncounted() && M == old(M)[old(he.key) := val]
    {
      hide ViewOf, Tabled, PowerOfTwo, HashFn, Total, ValueSet;
      ghost var v := ViewOf(pool);
      EntryFacts(b, i);
      ViewKeys(pool);
      NextIs(v, he);
      SetValue(he, val, pool);
      TabledValueSet(chains, buckets[..], v, ViewOf(pool), Hash(), M, freed, free, b, i, val);
      M := M[v[he].key := val];
    }

    /**
     `apr_hash_set`; a NULL value deletes. The ghost results tell the place of the
     entry that a deletion takes out.
     */
    method Set(key: Key, val: Option<V>) returns (ghost b: nat, ghost i: nat)
      requires Valid()
      modifies buckets, pool, this`buckets, this`max, this`free, this`count, this`chains, this`freed, this`pool, this`M
      ensures Valid()
      ensures M == if val.Some? then old(M)[key := val] else old(M) - {key}
      ensures count == old(count) + (if val.Some? && key !in old(M) then 1 else if val.None? && key in old(M) then -1 else 0)
      ensures old(pool) <= pool && fresh(pool - old(pool)) && (buckets == old(buckets) || fresh(buckets))
      ensures val.None? ==> max == old(max) && pool == old(pool)
      ensures val.None? ==> forall f :: f in pool ==> f.key == old(f.key) && f.val == old(f.val)
      ensures val.None? && key !in old(M) ==> chains == old(chains) && freed == old(freed)
      ensures val.None? && key in old(M) ==>
                && b < |old(chains)| && i < |old(chains)[b]| && old(chains)[b][i] in old(pool) && old(chains[b][i].key) == key
                && chains == old(chains)[b := Dropped(old(chains)[b], i)]
                && freed == [old(chains)[b][i]] + old(freed)
    {
      hide ViewOf, Tabled, PowerOfTwo, HashFn, Total, And, Dropped;
      var hash, bucket, prev, he;
      hash, bucket, prev, he, i := Locate(key);
      b := bucket;
      if he != null {
        if val.None? {
          DeleteEntry(bucket, prev, he, i);
        } else {
          ReplaceValue(he, val, b, i);
        }
      } else if val.Some? {
        AbsentMap(M, key);
        he := AddEntry(hash, bucket, prev, key, val);
        // the caller of find_entry stores the value once more
        if count > max {
          Expand();
        }
      } else {
        AbsentMap(M, key);
      }
    }

    lemma AbsentMap(m: map<Key, Option<V>>, key: Key)
      requires key !in m
      ensures m - {key} == m
    {
    }

    lemma KeysSeen(v: View<V>)
      requires v == ViewOf(pool)
      ensures forall e :: e in pool ==> e in v && v[e].key == e.key
    {
    }

    /** Deletes `e`, the entry just visited, at place (c, j). */
    method DeleteVisited(e: Entry<V>, next: Entry?<V>, index: nat, ghost c: nat, ghost j: nat)
      requires Valid() && c < |chains| && j < |chains[c]| && e == chains[c][j] && e in pool
      requires Ahead(chains, buckets[..], ViewOf(pool), next, index, c, j + 1)
      modifies buckets, pool, this`buckets, this`max, this`free, this`count, this`chains, this`freed, this`pool, this`M
      ensures Valid() && M == old(M) - {old(e.key)} && count == old(count) - 1 && pool == old(pool) && max == old(max)
      ensures buckets == old(buckets) || fresh(buckets)
      ensures |chains| == |old(chains)| && |chains[c]| == |old(chains)[c]| - 1
      ensures Ahead(chains, buckets[..], ViewOf(pool), next, index, c, j)
      ensures Below(chains, c, j) == old(Below(chains, c, j)) && AllNodes(chains) == old(AllNodes(chains)) - {e}
      ensures forall f :: f in pool ==> f.key == old(f.key) && f.val == old(f.val)
    {
      hide ViewOf, Tabled, PowerOfTwo, HashFn, Total, And, Ahead, Below, Dropped, AllNodes, Distinct;
      ghost var chains0, arr0, v0, M0, freed0, free0 := chains, buckets[..], ViewOf(pool), M, freed, free;
      KeysSeen(v0);
      EntryFacts(c, j);
      TabledDistinct(chains0, arr0, v0, Hash(), M0, freed0, free0);
      NodesAfterDelete(chains0, c, j);
      ghost var b, i := Set(e.key, None);
      KeyPlace(chains0, arr0, v0, Hash(), M0, freed0, free0, b, i, c, j);
      TabledSlots(chains, buckets[..], ViewOf(pool), Hash(), M, freed, free);
      AheadAfterDelete(chains0, arr0, v0, next, index, c, j, buckets[..], ViewOf(pool));
      WithoutLength(chains0[c], j);
    }

    /** `apr_hash_clear` deletes the entries one by one while walking them. */
    method Clear()
      requires Valid()
      modifies buckets, pool, this`buckets, this`max, this`free, this`count, this`chains, this`freed, this`pool, this`M
      ensures Valid() && M == map[] && count == 0 && pool == old(pool) && max == old(max)
      ensures Members(freed) == pool
    {
      hide ViewOf, Tabled, PowerOfTwo, HashFn, Total, And, Ahead, Below, Dropped, Members;
      AllAhead();
      var e, next, index;
      ghost var c: nat, j: nat;
      e, next, index, c, j := Advance(null, 0, 0, 0);
      while e != null
        invariant Valid() && pool == old(pool) && max == old(max) && (buckets == old(buckets) || fresh(buckets))
        invariant e == null ==> AllNodes(chains) == {}
        invariant e != null ==> c < |chains| && j == 0 < |chains[c]| && e == chains[c][0] && e in pool
        invariant e != null ==> Ahead(chains, buckets[..], ViewOf(pool), next, index, c, 1) && Below(chains, c, 0) == {}
        decreases count, if e == null then 0 else 1
      {
        DeleteVisited(e, next, index, c, 0);
        e, next, index, c, j := Advance(next, index, c, 0);
      }
      ViewKeys(pool);
      TabledEmpty(chains, buckets[..], ViewOf(pool), Hash(), M, freed, free);
    }

    /** The entry at (c, j): its place in the walk and its pair. */
    lemma VisitFacts(c: nat, j: nat)
      requires Valid() && c < |chains| && j < |chains[c]|
      ensures var e := chains[c][j];
        && e in AllNodes(chains) && e in pool && e.key in M && M[e.key] == e.val
        && Below(chains, c, j + 1) == Below(chains, c, j) + {e} && e !in Below(chains, c, j)
        && Below(chains, c, j) <= AllNodes(chains)
    {
      EntryFacts(c, j);
      TabledDistinct(chains, buckets[..], ViewOf(pool), Hash(), M, freed, free);
      hide Below, AllNodes, Distinct;
      InAllNodes(chains, c, j);
      BelowStep(chains, c, j);
      BelowPart(chains, c, j);
    }

    /** What is left of the pairs, and that the others were to be dropped. */
    ghost predicate Dropping(M0: map<Key, Option<V>>, drop: (Key, Option<V>) -> bool)
      reads this`M
    {
      && (forall k :: k in M ==> k in M0 && M[k] == M0[k])
      && (forall k :: k in M0 && k !in M ==> drop(k, M0[k]))
    }

    /** A walk over the entries `all0` has come to (c, j): those seen are gone or kept, as `drop` says. */
    ghost predicate Swept(M0: map<Key, Option<V>>, all0: set<Entry<V>>, drop: (Key, Option<V>) -> bool,
                          seen: seq<Entry<V>>, gone: set<Entry<V>>, c: nat, j: nat)
      reads this`M, this`chains, this`pool, pool
    {
      && Dropping(M0, drop)
      && AllNodes(chains) + gone == all0 && AllNodes(chains) !! gone
      && NoDuplicates(seen) && Members(seen) == gone + Below(chains, c, j)
      && (forall f :: f in Below(chains, c, j) && f in pool ==> !drop(f.key, f.val))
    }

    /** One round: the entry at (c, j) is deleted or passed. */
    method SweepOne(e: Entry<V>, next: Entry?<V>, index: nat, drop: (Key, Option<V>) -> bool, ghost c: nat, ghost j: nat,
                    ghost M0: map<Key, Option<V>>, ghost all0: set<Entry<V>>, ghost seen: seq<Entry<V>>, ghost gone: set<Entry<V>>)
      returns (ghost j': nat, ghost gone': set<Entry<V>>)
      requires Valid() && c < |chains| && j < |chains[c]| && e == chains[c][j] && e in pool
      requires Ahead(chains, buckets[..], ViewOf(pool), next, index, c, j + 1) && Swept(M0, all0, drop, seen, gone, c, j)
      modifies buckets, pool, this`buckets, this`max, this`free, this`count, this`chains, this`freed, this`pool, this`M
      ensures Valid() && pool == old(pool) && max == old(max) && (buckets == old(buckets) || fresh(buckets))
      ensures |chains| == |old(chains)| && |chains[c]| - j' < |old(chains)[c]| - j
      ensures Ahead(chains, buckets[..], ViewOf(pool), next, index, c, j') && Swept(M0, all0, drop, seen + [e], gone', c, j')
    {
      hide ViewOf, Tabled, PowerOfTwo, HashFn, Total, And, Ahead, Below, NoDuplicates, Members, AllNodes, Distinct;
      VisitFacts(c, j);
      SeenMore(seen, e);
      j', gone' := j + 1, gone;
      if drop(e.key, e.val) {
        DeleteVisited(e, next, index, c, j);
        j', gone' := j, gone + {e};
      }
    }

    lemma SweptMoved(M0: map<Key, Option<V>>, all0: set<Entry<V>>, drop: (Key, Option<V>) -> bool, seen: seq<Entry<V>>,
                     gone: set<Entry<V>>, c: nat, j: nat, c': nat, j': nat)
      requires Swept(M0, all0, drop, seen, gone, c, j) && Below(chains, c', j') == Below(chains, c, j)
      ensures Swept(M0, all0, drop, seen, gone, c', j')
    {
    }

    lemma SweptStart(drop: (Key, Option<V>) -> bool)
      requires Below(chains, 0, 0) == {}
      ensures Swept(M, AllNodes(chains), drop, [], {}, 0, 0)
    {
      SeenNothing<V>();
      hide AllNodes, NoDuplicates, Members, Below;
    }

    lemma SweptAll(M0: map<Key, Option<V>>, all0: set<Entry<V>>, drop: (Key, Option<V>) -> bool,
                   seen: seq<Entry<V>>, gone: set<Entry<V>>, c: nat, j: nat)
      requires Wired() && Swept(M0, all0, drop, seen, gone, c, j) && Below(chains, c, j) == AllNodes(chains)
      ensures M == map k | k in M0 && !drop(k, M0[k]) :: M0[k]
      ensures NoDuplicates(seen) && Members(seen) == all0
    {
      hide Wired, AllNodes, NoDuplicates, Members, Below;
      DoneWith((k, val) => !drop(k, val));
    }

    /**
     A walk that deletes the current entry wherever `drop` says so, which the iterator promises
     is safe: the ghost result lists the entries visited, each that was there and none twice.
     */
    method Sweep(drop: (Key, Option<V>) -> bool) returns (ghost seen: seq<Entry<V>>)
      requires Valid()
      modifies buckets, pool, this`buckets, this`max, this`free, this`count, this`chains, this`freed, this`pool, this`M
      ensures Valid() && pool == old(pool) && max == old(max)
      ensures M == map k | k in old(M) && !drop(k, old(M)[k]) :: old(M)[k]
      ensures NoDuplicates(seen) && Members(seen) == old(AllNodes(chains))
    {
      hide ViewOf, Tabled, PowerOfTwo, HashFn, Total, And, Ahead, Below, NoDuplicates, Members, AllNodes, Distinct, Swept;
      AllAhead();
      SweptStart(drop);
      seen := [];
      var e, next, index;
      ghost var c: nat, j: nat, gone: set<Entry<V>>, c0: nat, j0: nat := 0, 0, {}, 0, 0;
      e, next, index, c, j := Advance(null, 0, 0, 0);
      while e != null
        invariant Valid() && pool == old(pool) && max == old(max) && (buckets == old(buckets) || fresh(buckets))
        invariant Swept(old(M), old(AllNodes(chains)), drop, seen, gone, c0, j0)
        invariant Below(chains, c0, j0) == if e == null then AllNodes(chains) else Below(chains, c, j)
        invariant e != null ==> c < |chains| && j < |chains[c]| && e == chains[c][j] && e in pool
        invariant e != null ==> Ahead(chains, buckets[..], ViewOf(pool), next, index, c, j + 1)
        decreases if e == null then 0 else 1 + |chains| - c, if e == null then 0 else |chains[c]| - j
      {
        SweptMoved(old(M), old(AllNodes(chains)), drop, seen, gone, c0, j0, c, j);
        j0, gone := SweepOne(e, next, index, drop, c, j, old(M), old(AllNodes(chains)), seen, gone);
        seen, c0 := seen + [e], c;
        e, next, index, c, j := Advance(next, index, c, j0);
      }
      SweptAll(old(M), old(AllNodes(chains)), drop, seen, gone, c0, j0);
    }

    /** `apr_hash_count` is the size of the map. */
    lemma CountIsSize()
      requires Wired()
      ensures count == |M|
    {
      TotalIsSize(chains, ViewOf(pool), Hash(), M);
    }

    lemma DoneWith(comp: (Key, Option<V>) -> bool)
      requires Wired() && forall e :: e in AllNodes(chains) && e in pool ==> comp(e.key, e.val)
      ensures forall k :: k in M ==> comp(k, M[k])
    {
      AllSeen(chains, ViewOf(pool), Hash(), M, comp);
    }

    lemma TotalSeen(seen: seq<Entry<V>>)
      requires Wired() && NoDuplicates(seen) && Members(seen) == AllNodes(chains)
      ensures |seen| == count
    {
      HoldsDistinct(chains, ViewOf(pool), Hash(), M);
      TotalCounts(chains);
      MembersCount(seen);
    }

    /**
     `apr_hash_do` calls back for each pair until a call fails. The ghost result lists
     the entries visited: none twice, and all of them unless a call failed.
     */
    method Do(comp: (Key, Option<V>) -> bool) returns (dorv: int, ghost seen: seq<Entry<V>>)
      requires Valid()
      ensures dorv == if forall k :: k in M ==> comp(k, M[k]) then 1 else 0
      ensures NoDuplicates(seen) && Members(seen) <= AllNodes(chains)
      ensures dorv == 1 ==> Members(seen) == AllNodes(chains) && |seen| == count
    {
      hide ViewOf, Tabled, PowerOfTwo, HashFn, Total, And, Ahead, Below, NoDuplicates, Members, AllNodes, Distinct;
      AllAhead();
      seen := [];
      SeenNothing<V>();
      var e, next, index;
      ghost var c: nat, j: nat;
      e, next, index, c, j := Advance(null, 0, 0, 0);
      while e != null
        invariant NoDuplicates(seen)
        invariant Members(seen) == if e == null then AllNodes(chains) else Below(chains, c, j)
        invariant forall f :: f in Members(seen) && f in pool ==> comp(f.key, f.val)
        invariant e != null ==> c < |chains| && j < |chains[c]| && e == chains[c][j] && e in pool
        invariant e != null ==> Ahead(chains, buckets[..], ViewOf(pool), next, index, c, j + 1)
        decreases if e == null then 0 else 1 + |chains| - c, if e == null then 0 else |chains[c]| - j
      {
        EntryFacts(c, j);
        BelowStep(chains, c, j);
        BelowPart(chains, c, j + 1);
        SeenMore(seen, e);
        seen := seen + [e];
        if !comp(e.key, e.val) {
          return 0, seen;
        }
        e, next, index, c, j := Advance(next, index, c, j + 1);
      }
      DoneWith(comp);
      TotalSeen(seen);
      dorv := 1;
    }

    /** Puts a new entry with the given fields in front of its chain, as the merge does. */
    method Prepend(he: Entry<V>, hash: nat, key: Key, val: Option<V>)
      requires Uncounted() && freed == [] && key !in M && hash == Hash()(key) && he !in pool
      modifies buckets, he, this`chains, this`pool, this`M
      ensures Uncounted() && freed == [] && M == old(M)[key := val] && pool == old(pool) + {he}
    {
      hide ViewOf, Tabled, PowerOfTwo, HashFn, And, Fronted, Pushed;
      ghost var v, arr := ViewOf(pool), buckets[..];
      var i := And(hash, max);
      TabledFree(chains, arr, v, Hash(), M, freed, free);
      FillFront(he, hash, key, val, buckets, i, pool);
      ghost var v' := ViewOf(pool + {he});
      TabledFronted(chains, arr, v, v', Hash(), M, i, he);
      PushedSize(chains, i, he);
      chains, pool, M := Pushed(chains, i, he), pool + {he}, M[key := val];
    }

    /** Puts a new entry with the given fields at the end of its chain, as the copy does. */
    method Append(he: Entry<V>, prev: Entry?<V>, b: nat, hash: nat, key: Key, val: Option<V>)
      requires Uncounted() && freed == [] && key !in M && he !in pool
      requires hash == Hash()(key) && b == BucketOf(Hash(), max, key) < |chains|
      requires prev == if chains[b] == [] then null else chains[b][|chains[b]| - 1]
      modifies buckets, pool, he, this`chains, this`pool, this`M
      ensures Uncounted() && freed == [] && M == old(M)[key := val] && pool == old(pool) + {he}
      ensures chains == old(chains)[b := old(chains[b]) + [he]]
    {
      hide ViewOf, Tabled, PowerOfTwo, HashFn, And;
      OldChain(b);
      TabledFree(chains, buckets[..], ViewOf(pool), Hash(), M, freed, free);
      LinkTaken(he, null, hash, b, prev, key, val);
      chains, pool, M := chains[b := chains[b] + [he]], pool + {he}, M[key := val];
    }
  }

  /** Fills in the new entry `e` and links it in front of slot `b`. */
  method FillFront<V>(e: Entry<V>, hash: nat, key: Key, val: Option<V>, slots: array<Entry?<V>>, b: nat, ghost es: set<Entry<V>>)
    requires e !in es && b < slots.Length
    modifies e, slots
    ensures Fronted(old(ViewOf(es)), ViewOf(es + {e}), e, old(slots[b]))
    ensures ViewOf(es + {e})[e] == Fields(old(slots[b]), hash, key, val)
    ensures slots[..] == old(slots[..])[b := e]
  {
    e.key, e.val, e.hash := key, val, hash;
    e.next := slots[b];
    slots[b] := e;
  }

  lemma SeenNothing<V>()
    ensures NoDuplicates<Entry<V>>([]) && Members<Entry<V>>([]) == {}
  {
  }

  lemma SeenMore<V>(seen: seq<Entry<V>>, e: Entry<V>)
    requires NoDuplicates(seen) && e !in Members(seen)
    ensures NoDuplicates(seen + [e]) && Members(seen + [e]) == Members(seen) + {e}
  {
    assert forall i :: 0 <= i < |seen| ==> seen[i] in Members(seen);
    MembersAppend(seen, e);
  }
}
