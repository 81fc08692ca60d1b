/**
 `apr_hash_merge`, `apr_hash_overlay` and `apr_hash_copy`: a new table from one or
 two others, whatever their sizes, seeds and hash functions.
 */
module HashMerge {
  import opened Basics
  import opened HashFunctions
  import opened Places
  import opened HashChains
  import opened HashState
  import opened HashRelink
  import opened HashTables

  type Merger<!V> = (Key, Option<V>, Option<V>) -> Option<V>

  /** The pairs of `M` with keys in `ks`. */
  function Part<V>(M: map<Key, Option<V>>, ks: set<Key>): map<Key, Option<V>> {
    map k | k in M && k in ks :: M[k]
  }

  /** The value of a key in the overlay: merged with the base's, if there is a merger and a base value. */
  function OverlayValue<V>(bm: map<Key, Option<V>>, k: Key, val: Option<V>, merger: Option<Merger<V>>): Option<V> {
    if merger.Some? && k in bm then merger.value(k, val, bm[k]) else val
  }

  /** The overlay `om` on the base `bm`. */
  function Overlaid<V>(bm: map<Key, Option<V>>, om: map<Key, Option<V>>, merger: Option<Merger<V>>): map<Key, Option<V>> {
    map k | k in bm.Keys + om.Keys :: if k in om then OverlayValue(bm, k, om[k], merger) else bm[k]
  }

  lemma OverlaidNothing<V>(bm: map<Key, Option<V>>, merger: Option<Merger<V>>)
    ensures Overlaid(bm, map[], merger) == bm
  {
  }

  lemma OverlaidMore<V>(bm: map<Key, Option<V>>, om: map<Key, Option<V>>, merger: Option<Merger<V>>, ks: set<Key>, k: Key)
    requires k in om && k !in ks
    ensures Overlaid(bm, Part(om, ks + {k}), merger) == Overlaid(bm, Part(om, ks), merger)[k := OverlayValue(bm, k, om[k], merger)]
    ensures k in Overlaid(bm, Part(om, ks), merger) <==> k in bm
    ensures k in bm ==> Overlaid(bm, Part(om, ks), merger)[k] == bm[k]
  {
  }

  lemma PartMore<V>(M: map<Key, Option<V>>, ks: set<Key>, k: Key)
    requires k in M
    ensures Part(M, ks + {k}) == Part(M, ks)[k := M[k]]
  {
  }

  lemma PartAll<V>(M: map<Key, Option<V>>, ks: set<Key>)
    requires M.Keys <= ks
    ensures Part(M, ks) == M
  {
  }

  lemma PartSmaller<V>(M: map<Key, Option<V>>, ks: set<Key>, k: Key)
    requires k in M && k !in ks
    ensures |Part(M, ks)| < |M|
  {
    var part := Part(M, ks);
    assert part.Keys <= M.Keys - {k};
    SubsetSize(part.Keys, M.Keys - {k});
  }

  lemma {:induction false} SubsetSize<X>(s: set<X>, t: set<X>)
    requires s <= t
    ensures |s| <= |t|
  {
    if s != {} {
      var x :| x in s;
      SubsetSize(s - {x}, t - {x});
    }
  }

  /** There is room for one more entry as long as an overlay key is missing. */
  lemma OverlaidSmaller<V>(bm: map<Key, Option<V>>, om: map<Key, Option<V>>, merger: Option<Merger<V>>, ks: set<Key>, k: Key)
    requires k in om && k !in ks && k !in bm
    ensures |Overlaid(bm, Part(om, ks), merger)| < |bm| + |om|
  {
    var m := Overlaid(bm, Part(om, ks), merger);
    var rest := om.Keys - {k};
    assert m.Keys <= bm.Keys + rest;
    SubsetSize(m.Keys, bm.Keys + rest);
    UnionSize(bm.Keys, rest);
  }

  lemma OverlaidSize<V>(bm: map<Key, Option<V>>, om: map<Key, Option<V>>, merger: Option<Merger<V>>)
    ensures |Overlaid(bm, om, merger)| <= |bm| + |om|
  {
    assert Overlaid(bm, om, merger).Keys == bm.Keys + om.Keys;
    UnionSize(bm.Keys, om.Keys);
  }

  lemma UnionSize<X>(s: set<X>, t: set<X>)
    ensures |s + t| <= |s| + |t|
  {
    assert s + t == s + (t - s);
    SubsetSize(t - s, t);
  }

  // ---------- walking a table that is only read ----------

  /** The keys of the entries before position (c, j). */
  ghost function Visited<V>(ht: HashTable<V>, c: nat, j: nat): set<Key>
    reads ht, ht.pool
  {
    KeysOf(Below(ht.chains, c, j), ViewOf(ht.pool))
  }

  lemma VisitedNothing<V>(ht: HashTable<V>)
    ensures Visited(ht, 0, 0) == {}
  {
    BelowAll(ht.chains);
  }

  lemma VisitedRow<V>(ht: HashTable<V>, c: nat)
    requires c < |ht.chains|
    ensures Visited(ht, c, |ht.chains[c]|) == Visited(ht, c + 1, 0)
  {
    BelowRow(ht.chains, c);
  }

  lemma VisitedAll<V>(ht: HashTable<V>)
    requires ht.Valid()
    ensures ht.M.Keys <= Visited(ht, |ht.chains|, 0)
  {
    BelowAll(ht.chains);
    var v := ViewOf(ht.pool);
    forall k | k in ht.M
      ensures k in Visited(ht, |ht.chains|, 0)
    {
      var b := BucketOf(ht.Hash(), |ht.chains| - 1, k);
      var i :| 0 <= i < |ht.chains[b]| && ht.chains[b][i] in v && v[ht.chains[b][i]].key == k;
      InAllNodes(ht.chains, b, i);
    }
  }

  /** The entry at (c, j) brings a key not seen before. */
  lemma VisitedMore<V>(ht: HashTable<V>, c: nat, j: nat)
    requires ht.Valid() && c < |ht.chains| && j < |ht.chains[c]|
    ensures
      var e := ht.chains[c][j];
      && e in ht.pool && e.key in ht.M && ht.M[e.key] == e.val && e.hash == ht.Hash()(e.key)
      && e.next == (if j + 1 < |ht.chains[c]| then ht.chains[c][j + 1] else null)
      && e.key !in Visited(ht, c, j) && Visited(ht, c, j + 1) == Visited(ht, c, j) + {e.key}
  {
    ht.EntryFacts(c, j);
    NotVisited(ht, c, j);
    BelowStep(ht.chains, c, j);
    hide Below, ViewOf;
    KeysMore(Below(ht.chains, c, j), ViewOf(ht.pool), ht.chains[c][j]);
    ViewedKey(ht, ht.chains[c][j]);
  }

  lemma ViewedKey<V>(ht: HashTable<V>, e: Entry<V>)
    requires e in ht.pool
    ensures e in ViewOf(ht.pool) && ViewOf(ht.pool)[e].key == e.key
  {
  }

  lemma KeysMore<V>(es: set<Entry<V>>, v: View<V>, e: Entry<V>)
    requires e in v
    ensures KeysOf(es + {e}, v) == KeysOf(es, v) + {v[e].key}
  {
  }

  lemma NotVisited<V>(ht: HashTable<V>, c: nat, j: nat)
    requires ht.Valid() && c < |ht.chains| && j < |ht.chains[c]|
    ensures ht.chains[c][j] in ht.pool && ht.chains[c][j].key !in Visited(ht, c, j)
  {
    ht.EntryFacts(c, j);
    var v := ViewOf(ht.pool);
    var e := ht.chains[c][j];
    forall f | f in Below(ht.chains, c, j) && f in v
      ensures v[f].key != e.key
    {
      var b, i :| 0 <= b < |ht.chains| && 0 <= i < |ht.chains[b]| && ht.chains[b][i] == f && (b < c || (b == c && i < j));
      if v[f].key == e.key {
        KeyPlace(ht.chains, ht.buckets[..], v, ht.Hash(), ht.M, ht.freed, ht.free, b, i, c, j);
      }
    }
  }

  lemma BucketHead<V>(ht: HashTable<V>, c: nat)
    requires ht.Valid() && c < |ht.chains|
    ensures ht.buckets.Length == |ht.chains| && ht.buckets[c] == Head(ht.chains[c])
  {
  }

  // ---------- building the new table ----------

  /** `res` is being built and shares nothing with `ht`. */
  ghost predicate Apart<V>(res: HashTable<V>, ht: HashTable<V>)
    reads res, ht
  {
    res != ht && res.buckets != ht.buckets && res.pool !! ht.pool
  }

  /** The chain of bucket `k` of the base. */
  method AddBaseChain<V>(res: HashTable<V>, base: HashTable<V>, newVals: array<Entry?<V>>, k: nat, j0: nat) returns (j: nat)
    requires base.Valid() && k < |base.chains| && res.Uncounted() && res.freed == [] && Apart(res, base)
    requires res.Hash() == base.Hash()
    requires newVals.Length >= |base.M| && newVals != res.buckets && newVals != base.buckets
    requires res.M == Part(base.M, Visited(base, k, 0)) && j0 == |res.M|
    modifies res`chains, res`pool, res`M, res.buckets, newVals
    ensures res.Uncounted() && res.freed == [] && res.M == Part(base.M, Visited(base, k + 1, 0)) && j == |res.M|
    ensures old(res.pool) <= res.pool && fresh(res.pool - old(res.pool))
  {
    hide Part, Visited, HashTable.Uncounted, HashTable.Valid, HashFn;
    BucketHead(base, k);
    WidthIs(base);
    var iter := base.buckets[k];
    ghost var i: nat := 0;
    j := j0;
    while iter != null
      invariant i <= |base.chains[k]| && iter == if i < |base.chains[k]| then base.chains[k][i] else null
      invariant res.Uncounted() && res.freed == [] && res.M == Part(base.M, Visited(base, k, i)) && j == |res.M|
      invariant old(res.pool) <= res.pool && fresh(res.pool - old(res.pool))
      decreases |base.chains[k]| - i
    {
      VisitedMore(base, k, i);
      PartSmaller(base.M, Visited(base, k, i), iter.key);
      PartMore(base.M, Visited(base, k, i), iter.key);
      PartKeys(base.M, Visited(base, k, i), iter.key);
      var e := new Entry<V>(0, [], None);
      newVals[j] := e;
      res.Prepend(e, iter.hash, iter.key, iter.val);
      iter, i, j := iter.next, i + 1, j + 1;
    }
    VisitedRow(base, k);
  }

  /** The first loop: an entry for each base entry, taken from the array `newVals` that is allocated at once. */
  method AddBase<V>(res: HashTable<V>, base: HashTable<V>, newVals: array<Entry?<V>>) returns (j: nat)
    requires base.Valid() && res.Uncounted() && res.freed == [] && res.M == map[] && Apart(res, base)
    requires res.Hash() == base.Hash()
    requires newVals.Length >= base.count && newVals != res.buckets && newVals != base.buckets
    modifies res`chains, res`pool, res`M, res.buckets, newVals
    ensures res.Uncounted() && res.freed == [] && res.M == base.M && j == |base.M| == base.count
    ensures old(res.pool) <= res.pool && fresh(res.pool - old(res.pool))
  {
    hide Part, Visited, HashTable.Uncounted, HashTable.Valid, HashFn;
    WidthIs(base);
    VisitedNothing(base);
    PartNothing(base.M);
    j := 0;
    var k := 0;
    while k <= base.max
      invariant k <= base.max + 1 == |base.chains|
      invariant res.Uncounted() && res.freed == [] && res.M == Part(base.M, Visited(base, k, 0)) && j == |res.M|
      invariant old(res.pool) <= res.pool && fresh(res.pool - old(res.pool))
    {
      j := AddBaseChain(res, base, newVals, k, j);
      k := k + 1;
    }
    VisitedAll(base);
    PartAll(base.M, Visited(base, k, 0));
  }

  lemma WidthIs<V>(ht: HashTable<V>)
    requires ht.Valid()
    ensures |ht.chains| == ht.max + 1 == ht.buckets.Length && ht.seed < WORD && ht.count == |ht.M| <= ht.max
    ensures PowerOfTwo(ht.max + 1)
  {
    ht.CountIsSize();
  }

  lemma PartNothing<V>(M: map<Key, Option<V>>)
    ensures Part(M, {}) == map[]
  {
  }

  lemma PartKeys<V>(M: map<Key, Option<V>>, ks: set<Key>, k: Key)
    requires k !in ks && k in M
    ensures k !in Part(M, ks) && |Part(M, ks + {k})| == |Part(M, ks)| + 1
  {
    PartMore(M, ks, k);
  }

  /** A key that the new table does not hold yet: the next entry of the array joins the front of its bucket. */
  method AddEntry<V>(res: HashTable<V>, hash: nat, iter: Entry<V>, newVals: array<Entry?<V>>, j: nat)
    requires res.Uncounted() && res.freed == [] && iter !in res.pool && newVals != res.buckets && j < newVals.Length
    requires hash == res.Hash()(iter.key) && iter.key !in res.M
    modifies res`chains, res`pool, res`M, res`count, res.buckets, res.pool, newVals
    ensures res.Uncounted() && res.freed == [] && res.count == old(res.count) + 1
    ensures res.M == old(res.M)[iter.key := iter.val]
    ensures old(res.pool) <= res.pool && fresh(res.pool - old(res.pool))
  {
    hide HashTable.Uncounted, HashFn;
    var e := new Entry<V>(0, [], None);
    newVals[j] := e;
    res.Prepend(e, hash, iter.key, iter.val);
    res.count := res.count + 1;
  }

  /** One overlay entry: its key is looked up in the new table, whatever table it comes from. */
  method AddOverlayEntry<V>(res: HashTable<V>, ghost bm: map<Key, Option<V>>, ghost om: map<Key, Option<V>>, iter: Entry<V>,
                            merger: Option<Merger<V>>, newVals: array<Entry?<V>>, j0: nat, ghost ks: set<Key>)
    returns (j: nat)
    requires res.Uncounted() && res.freed == [] && iter !in res.pool && newVals != res.buckets
    requires iter.key in om && om[iter.key] == iter.val && iter.key !in ks
    requires res.M == Overlaid(bm, Part(om, ks), merger) && j0 == |res.M| && newVals.Length >= |bm| + |om|
    modifies res`chains, res`pool, res`M, res`count, res.buckets, res.pool, newVals
    ensures res.Uncounted() && res.freed == []
    ensures res.M == Overlaid(bm, Part(om, ks + {iter.key}), merger) && j == |res.M|
    ensures res.count == old(res.count) + (j - j0)
    ensures old(res.pool) <= res.pool && fresh(res.pool - old(res.pool))
  {
    hide Part, Overlaid, HashTable.Uncounted, HashFn, And, OverlayValue;
    UncountedSizes(res);
    OverlaidMore(bm, om, merger, ks, iter.key);
    UpdateSize(res.M, iter.key, OverlayValue(bm, iter.key, iter.val, merger));
    j := j0;
    var hash := res.ComputeHash(iter.key);
    var b := And(hash, res.max);
    var ent;
    ghost var i;
    ent, i := res.ScanChain(b, iter.key);
    OverlayValueIs(bm, iter.key, iter.val, merger);
    if ent != null {
      var val := if merger.Some? then merger.value(iter.key, iter.val, ent.val) else iter.val;
      res.ReplaceValue(ent, val, b, i);
    } else {
      OverlaidSmaller(bm, om, merger, ks, iter.key);
      AddEntry(res, hash, iter, newVals, j);
      j := j + 1;
    }
  }

  lemma OverlayValueIs<V>(bm: map<Key, Option<V>>, k: Key, val: Option<V>, merger: Option<Merger<V>>)
    ensures OverlayValue(bm, k, val, merger) == if merger.Some? && k in bm then merger.value(k, val, bm[k]) else val
  {
  }

  lemma UpdateSize<V>(m: map<Key, Option<V>>, k: Key, val: Option<V>)
    ensures |m[k := val]| == if k in m then |m| else |m| + 1
  {
    var m' := m[k := val];
    assert m'.Keys == m.Keys + {k};
  }

  lemma UncountedSizes<V>(ht: HashTable<V>)
    requires ht.Uncounted()
    ensures ht.seed < WORD && ht.buckets.Length == |ht.chains| == ht.max + 1
  {
  }

  /** The chain of bucket `k` of the overlay. */
  method AddOverlayChain<V>(res: HashTable<V>, ghost bm: map<Key, Option<V>>, overlay: HashTable<V>, merger: Option<Merger<V>>,
                            newVals: array<Entry?<V>>, k: nat, j0: nat)
    returns (j: nat)
    requires overlay.Valid() && k < |overlay.chains| && res.Uncounted() && res.freed == [] && Apart(res, overlay)
    requires newVals != res.buckets && newVals != overlay.buckets && newVals.Length >= |bm| + |overlay.M|
    requires res.M == Overlaid(bm, Part(overlay.M, Visited(overlay, k, 0)), merger) && j0 == |res.M|
    modifies res`chains, res`pool, res`M, res`count, res.buckets, res.pool, newVals
    ensures res.Uncounted() && res.freed == []
    ensures res.M == Overlaid(bm, Part(overlay.M, Visited(overlay, k + 1, 0)), merger) && j == |res.M|
    ensures res.count == old(res.count) + (j - j0)
    ensures old(res.pool) <= res.pool && fresh(res.pool - old(res.pool))
  {
    hide Part, Visited, Overlaid, HashTable.Uncounted, HashTable.Valid, HashFn;
    BucketHead(overlay, k);
    WidthIs(overlay);
    var iter := overlay.buckets[k];
    ghost var i: nat := 0;
    j := j0;
    while iter != null
      invariant i <= |overlay.chains[k]| && iter == if i < |overlay.chains[k]| then overlay.chains[k][i] else null
      invariant res.Uncounted() && res.freed == [] && Apart(res, overlay)
      invariant res.M == Overlaid(bm, Part(overlay.M, Visited(overlay, k, i)), merger) && j == |res.M|
      invariant res.count == old(res.count) + (j - j0)
      invariant old(res.pool) <= res.pool && fresh(res.pool - old(res.pool))
      decreases |overlay.chains[k]| - i
    {
      VisitedMore(overlay, k, i);
      j := AddOverlayEntry(res, bm, overlay.M, iter, merger, newVals, j, Visited(overlay, k, i));
      iter, i := iter.next, i + 1;
    }
    VisitedRow(overlay, k);
  }

  /** The second loop: every overlay entry replaces, merges or joins. */
  method AddOverlay<V>(res: HashTable<V>, ghost bm: map<Key, Option<V>>, overlay: HashTable<V>, merger: Option<Merger<V>>,
                       newVals: array<Entry?<V>>, j0: nat)
    returns (j: nat)
    requires overlay.Valid() && res.Uncounted() && res.freed == [] && Apart(res, overlay)
    requires newVals != res.buckets && newVals != overlay.buckets && newVals.Length >= |bm| + |overlay.M|
    requires res.M == bm && j0 == |res.M|
    modifies res`chains, res`pool, res`M, res`count, res.buckets, res.pool, newVals
    ensures res.Uncounted() && res.freed == []
    ensures res.M == Overlaid(bm, overlay.M, merger) && j == |res.M|
    ensures res.count == old(res.count) + (j - j0)
    ensures old(res.pool) <= res.pool && fresh(res.pool - old(res.pool))
  {
    hide Part, Visited, Overlaid, HashTable.Uncounted, HashTable.Valid, HashFn;
    WidthIs(overlay);
    VisitedNothing(overlay);
    PartNothing(overlay.M);
    OverlaidNothing(bm, merger);
    j := j0;
    var k := 0;
    while k <= overlay.max
      invariant k <= overlay.max + 1 == |overlay.chains|
      invariant res.Uncounted() && res.freed == [] && Apart(res, overlay)
      invariant res.M == Overlaid(bm, Part(overlay.M, Visited(overlay, k, 0)), merger) && j == |res.M|
      invariant res.count == old(res.count) + (j - j0)
      invariant old(res.pool) <= res.pool && fresh(res.pool - old(res.pool))
    {
      j := AddOverlayChain(res, bm, overlay, merger, newVals, k, j);
      k := k + 1;
    }
    VisitedAll(overlay);
    PartAll(overlay.M, Visited(overlay, k, 0));
  }

  /** The width of the new table: the larger of the two, and once more if it could get crowded. */
  method MergedMax<V>(overlay: HashTable<V>, base: HashTable<V>) returns (max: nat)
    requires overlay.Valid() && base.Valid()
    ensures PowerOfTwo(max + 1) && max >= base.count + overlay.count
  {
    WidthIs(base);
    WidthIs(overlay);
    max := if overlay.max > base.max then overlay.max else base.max;
    if base.count + overlay.count > max {
      DoublePower(max);
      max := max * 2 + 1;
    }
  }

  /** The array of new entries, and both loops. */
  method AddBoth<V>(res: HashTable<V>, overlay: HashTable<V>, base: HashTable<V>, merger: Option<Merger<V>>)
    requires base.Valid() && overlay.Valid() && res.Uncounted() && res.freed == [] && res.M == map[]
    requires Apart(res, base) && Apart(res, overlay) && res.Hash() == base.Hash()
    modifies res`chains, res`pool, res`M, res`count, res.buckets, res.pool
    ensures res.Uncounted() && res.freed == [] && res.M == Overlaid(base.M, overlay.M, merger)
    ensures res.count == old(res.count) + |res.M| - |base.M|
    ensures old(res.pool) <= res.pool && fresh(res.pool - old(res.pool))
  {
    hide Part, Overlaid, HashTable.Uncounted, HashTable.Valid, HashFn;
    WidthIs(base);
    WidthIs(overlay);
    var newVals := new Entry?<V>[base.count + overlay.count](_ => null);
    var j := AddBase(res, base, newVals);
    j := AddOverlay(res, base.M, overlay, merger, newVals, j);
  }

  /**
   `apr_hash_merge`. The result holds the overlay on the base, is a valid table with
   its load bounded, and shares no entries with the two.
   */
  method Merge<V>(overlay: HashTable<V>, base: HashTable<V>, merger: Option<Merger<V>>) returns (res: HashTable<V>)
    requires overlay.Valid() && base.Valid()
    ensures res.Valid() && res.M == Overlaid(base.M, overlay.M, merger)
    ensures fresh(res) && fresh(res.buckets) && fresh(res.pool)
    ensures res.count <= base.count + overlay.count
  {
    hide Part, Overlaid, HashTable.Uncounted, HashTable.Valid, HashFn;
    WidthIs(base);
    WidthIs(overlay);
    var max := MergedMax(overlay, base);
    res := new HashTable<V>.Sized(max, base.count, base.seed, base.custom);
    AddBoth(res, overlay, base, merger);
    OverlaidSize(base.M, overlay.M, merger);
    CountedValid(res);
  }

  lemma CountedValid<V>(ht: HashTable<V>)
    requires ht.Uncounted() && ht.count == |ht.M| <= ht.max
    ensures ht.Valid()
  {
    TotalIsSize(ht.chains, ViewOf(ht.pool), ht.Hash(), ht.M);
  }

  /** `apr_hash_overlay` is the merge without a merger. */
  method Overlay<V>(overlay: HashTable<V>, base: HashTable<V>) returns (res: HashTable<V>)
    requires overlay.Valid() && base.Valid()
    ensures res.Valid() && res.M == base.M + overlay.M
    ensures fresh(res) && fresh(res.buckets) && fresh(res.pool)
  {
    hide Overlaid, HashTable.Valid;
    OverlaidPlain(base.M, overlay.M);
    res := Merge(overlay, base, None);
  }

  lemma OverlaidPlain<V>(bm: map<Key, Option<V>>, om: map<Key, Option<V>>)
    ensures Overlaid(bm, om, None) == bm + om
  {
  }

  // ---------- copying ----------

  /** One entry of the original, copied to the end of the same bucket. */
  method CopyEntry<V>(res: HashTable<V>, ghost om: map<Key, Option<V>>, iter: Entry<V>, prev: Entry?<V>, k: nat,
                      newVals: array<Entry?<V>>, j: nat, ghost ks: set<Key>)
    returns (e: Entry<V>)
    requires res.Uncounted() && res.freed == [] && iter !in res.pool && newVals != res.buckets && k < |res.chains|
    requires iter.key in om && om[iter.key] == iter.val && iter.key !in ks
    requires res.seed < WORD && iter.hash == res.Hash()(iter.key) && k == BucketOf(res.Hash(), res.max, iter.key)
    requires prev == if res.chains[k] == [] then null else res.chains[k][|res.chains[k]| - 1]
    requires res.M == Part(om, ks) && j == |res.M| && newVals.Length >= |om|
    modifies res`chains, res`pool, res`M, res.buckets, res.pool, newVals
    ensures res.Uncounted() && res.freed == [] && fresh(e) && res.pool == old(res.pool) + {e}
    ensures res.M == Part(om, ks + {iter.key}) && j + 1 == |res.M|
    ensures res.chains == old(res.chains)[k := old(res.chains[k]) + [e]]
  {
    hide Part, HashTable.Uncounted, HashFn, And;
    PartSmaller(om, ks, iter.key);
    PartMore(om, ks, iter.key);
    PartKeys(om, ks, iter.key);
    e := new Entry<V>(0, [], None);
    newVals[j] := e;
    res.Append(e, prev, k, iter.hash, iter.key, iter.val);
  }

  /** Copies the chain of bucket `k`, in order, into the empty bucket `k` of `res`. */
  method CopyChain<V>(res: HashTable<V>, orig: HashTable<V>, newVals: array<Entry?<V>>, k: nat, j0: nat) returns (j: nat)
    requires orig.Valid() && k < |orig.chains| && res.Uncounted() && res.freed == [] && Apart(res, orig)
    requires res.seed < WORD && res.Hash() == orig.Hash() && res.max == orig.max && k < |res.chains| && res.chains[k] == []
    requires newVals.Length >= |orig.M| && newVals != res.buckets && newVals != orig.buckets
    requires res.M == Part(orig.M, Visited(orig, k, 0)) && j0 == |res.M|
    modifies res`chains, res`pool, res`M, res.buckets, res.pool, newVals
    ensures res.Uncounted() && res.freed == [] && res.M == Part(orig.M, Visited(orig, k + 1, 0)) && j == |res.M|
    ensures old(res.pool) <= res.pool && fresh(res.pool - old(res.pool))
    ensures |res.chains| == |old(res.chains)| && forall b :: 0 <= b < |res.chains| && b != k ==> res.chains[b] == old(res.chains)[b]
  {
    hide Part, Visited, HashTable.Uncounted, HashTable.Valid, HashFn, And, BucketOf;
    BucketHead(orig, k);
    WidthIs(orig);
    var iter := orig.buckets[k];
    var prev: Entry?<V> := null;
    ghost var i: nat := 0;
    j := j0;
    while iter != null
      invariant i <= |orig.chains[k]| && iter == if i < |orig.chains[k]| then orig.chains[k][i] else null
      invariant res.Uncounted() && res.freed == [] && res.M == Part(orig.M, Visited(orig, k, i)) && j == |res.M|
      invariant old(res.pool) <= res.pool && fresh(res.pool - old(res.pool)) && Apart(res, orig)
      invariant |res.chains| == |old(res.chains)| && forall b :: 0 <= b < |res.chains| && b != k ==> res.chains[b] == old(res.chains)[b]
      invariant prev == if res.chains[k] == [] then null else res.chains[k][|res.chains[k]| - 1]
      decreases |orig.chains[k]| - i
    {
      VisitedMore(orig, k, i);
      BucketIs(orig, k, i);
      prev := CopyEntry(res, orig.M, iter, prev, k, newVals, j, Visited(orig, k, i));
      iter, i, j := iter.next, i + 1, j + 1;
    }
    VisitedRow(orig, k);
  }

  lemma BucketIs<V>(ht: HashTable<V>, c: nat, j: nat)
    requires ht.Valid() && c < |ht.chains| && j < |ht.chains[c]|
    ensures ht.seed < WORD && c == BucketOf(ht.Hash(), ht.max, ht.chains[c][j].key)
  {
    ht.EntryFacts(c, j);
  }

  /** All chains, one after the other. */
  method CopyChains<V>(res: HashTable<V>, orig: HashTable<V>, newVals: array<Entry?<V>>)
    requires orig.Valid() && res.Uncounted() && res.freed == [] && Apart(res, orig)
    requires res.seed < WORD && res.Hash() == orig.Hash() && res.max == orig.max
    requires |res.chains| == |orig.chains| && forall b :: 0 <= b < |res.chains| ==> res.chains[b] == []
    requires newVals.Length >= orig.count && newVals != res.buckets && newVals != orig.buckets && res.M == map[]
    modifies res`chains, res`pool, res`M, res.buckets, res.pool, newVals
    ensures res.Uncounted() && res.M == orig.M
    ensures old(res.pool) <= res.pool && fresh(res.pool - old(res.pool))
  {
    hide Part, Visited, HashTable.Uncounted, HashTable.Valid, HashFn, And;
    WidthIs(orig);
    VisitedNothing(orig);
    PartNothing(orig.M);
    var j, i := 0, 0;
    while i <= res.max
      invariant i <= orig.max + 1 == |orig.chains|
      invariant res.Uncounted() && res.freed == [] && res.M == Part(orig.M, Visited(orig, i, 0)) && j == |res.M|
      invariant old(res.pool) <= res.pool && fresh(res.pool - old(res.pool)) && Apart(res, orig)
      invariant |res.chains| == |orig.chains| && forall b :: i <= b < |res.chains| ==> res.chains[b] == []
    {
      j := CopyChain(res, orig, newVals, i, j);
      i := i + 1;
    }
    VisitedAll(orig);
    PartAll(orig.M, Visited(orig, i, 0));
  }

  /** `apr_hash_copy`: an equal table of the same shape that shares no entries. */
  method Copy<V>(orig: HashTable<V>) returns (res: HashTable<V>)
    requires orig.Valid()
    ensures res.Valid() && res.M == orig.M && res.max == orig.max && res.count == orig.count
    ensures fresh(res) && fresh(res.buckets) && fresh(res.pool)
  {
    hide HashTable.Uncounted, HashTable.Valid, HashFn, And;
    WidthIs(orig);
    res := new HashTable<V>.Sized(orig.max, orig.count, orig.seed, orig.custom);
    UncountedSizes(res);
    TotalEmpty(res.chains);
    var newVals := new Entry?<V>[orig.count](_ => null);
    CopyChains(res, orig, newVals);
    CountedValid(res);
  }
}
