/** The memory accounting of the cache (cache_space_used): the live values' sizes add up to at
    most one megabyte a slab. */
module CacheSpace {
  import opened Slabs
  import opened CacheModel

  /** The sum of the sizes of the values of some keys. */
  ghost function Total(entries: Entries, keys: set<Key>): nat
    requires keys <= entries.Keys
    decreases |keys|
  {
    if keys == {} then 0
    else
      var k :| k in keys;
      |entries[k].value| + Total(entries, keys - {k})
  }

  /** Any key may be counted first. */
  lemma {:induction false} TotalAny(entries: Entries, keys: set<Key>, k: Key)
    requires k in keys && keys <= entries.Keys
    ensures Total(entries, keys) == |entries[k].value| + Total(entries, keys - {k})
    decreases |keys|
  {
    var c :| c in keys && Total(entries, keys) == |entries[c].value| + Total(entries, keys - {c});
    if c != k {
      TotalAny(entries, keys - {c}, k);
      TotalAny(entries, keys - {k}, c);
      assert keys - {c} - {k} == keys - {k} - {c};
    }
  }

  lemma {:induction false} TotalUnion(entries: Entries, a: set<Key>, b: set<Key>)
    requires a + b <= entries.Keys && a !! b
    ensures Total(entries, a + b) == Total(entries, a) + Total(entries, b)
    decreases |a|
  {
    if a == {} {
      assert a + b == b;
    } else {
      var c :| c in a;
      TotalAny(entries, a, c);
      TotalAny(entries, a + b, c);
      assert a + b - {c} == (a - {c}) + b;
      TotalUnion(entries, a - {c}, b);
    }
  }

  /** Entries in the first i slots of one slab take no more than those slots. */
  lemma {:induction false} SlotsShare(entries: Entries, keys: set<Key>, slab: nat, cls: nat, i: nat)
    requires OwnSlots(entries) && keys <= entries.Keys
    requires forall k | k in keys ::
               entries[k].place.slab == slab && entries[k].place.slot < i && |entries[k].value| <= cls
    ensures Total(entries, keys) <= Offset(cls, i)
    decreases i
  {
    if i == 0 {
      assert keys == {};
    } else if c :| c in keys && entries[c].place.slot == i - 1 {
      TotalAny(entries, keys, c);
      forall k | k in keys - {c}
        ensures entries[k].place.slot < i - 1
      {
        assert entries[k].place != entries[c].place;
      }
      SlotsShare(entries, keys - {c}, slab, cls, i - 1);
    } else {
      SlotsShare(entries, keys, slab, cls, i - 1);
    }
  }

  /** Entries of one slab take no more than its memory. */
  lemma {:induction false} SlabShare(entries: Entries, a: Arena, keys: set<Key>, slab: nat)
    requires Stored(entries, a) && keys <= entries.Keys
    requires forall k | k in keys :: entries[k].place.slab == slab
    ensures Total(entries, keys) <= MEMORY
  {
    if c :| c in keys {
      assert EntryOk(c, entries[c], a);
      var cls := a.slabs[slab].cls;
      forall k | k in keys
        ensures entries[k].place.slot < Slots(cls) && |entries[k].value| <= cls
      {
        assert EntryOk(k, entries[k], a);
      }
      SlotsShare(entries, keys, slab, cls, Slots(cls));
      FitBound(MEMORY, cls);
    }
  }

  /** Entries in the first n slabs take no more than the memory of those slabs. */
  lemma {:induction false} SlabsShare(entries: Entries, a: Arena, keys: set<Key>, n: nat)
    requires Stored(entries, a) && keys <= entries.Keys
    requires forall k | k in keys :: entries[k].place.slab < n
    ensures Total(entries, keys) <= Offset(MEMORY, n)
    decreases n
  {
    hide Stored;
    if n == 0 {
      assert keys == {};
    } else {
      var part := set k | k in keys && entries[k].place.slab == n - 1;
      TotalUnion(entries, part, keys - part);
      assert part + (keys - part) == keys;
      SlabShare(entries, a, part, n - 1);
      SlabsShare(entries, a, keys - part, n - 1);
    }
  }

  // ---------------------------------------------------------------- the scan of the buckets

  function SumSizes(bucket: seq<Meta>): nat {
    if bucket == [] then 0 else SumSizes(bucket[..|bucket| - 1]) + bucket[|bucket| - 1].size
  }

  function SumTable(buckets: seq<seq<Meta>>): nat {
    if buckets == [] then 0 else SumTable(buckets[..|buckets| - 1]) + SumSizes(buckets[|buckets| - 1])
  }

  /** The keys of a bucket. */
  function KeysIn(bucket: seq<Meta>): set<Key> {
    if bucket == [] then {} else KeysIn(bucket[..|bucket| - 1]) + {bucket[|bucket| - 1].key}
  }

  function KeysOf(buckets: seq<seq<Meta>>): set<Key> {
    if buckets == [] then {} else KeysOf(buckets[..|buckets| - 1]) + KeysIn(buckets[|buckets| - 1])
  }

  lemma {:induction false} KeysInBucket(bucket: seq<Meta>, key: Key)
    ensures key in KeysIn(bucket) <==> HasKey(bucket, key)
  {
    if bucket != [] {
      var n := |bucket| - 1;
      KeysInBucket(bucket[..n], key);
      if j :| 0 <= j < |bucket| && bucket[j].key == key && j < n {
        assert bucket[..n][j].key == key;
      }
      if HasKey(bucket[..n], key) {
        var j :| 0 <= j < n && bucket[..n][j].key == key;
        assert bucket[j].key == key;
      }
    }
  }

  ghost predicate Sized(entries: Entries) {
    forall k | k in entries :: entries[k].meta.size == |entries[k].value|
  }

  lemma {:induction false} BucketTotal(hasher: Key -> nat, b: nat, bucket: seq<Meta>, entries: Entries)
    requires BucketOk(hasher, b, bucket, entries) && Sized(entries)
    ensures KeysIn(bucket) <= entries.Keys
    ensures SumSizes(bucket) == Total(entries, KeysIn(bucket))
  {
    if bucket != [] {
      var n := |bucket| - 1;
      var init, key := bucket[..n], bucket[n].key;
      BucketTotal(hasher, b, init, entries);
      KeysInBucket(init, key);
      assert key in entries && entries[key].meta == bucket[n];
      TotalAny(entries, KeysIn(bucket), key);
      assert KeysIn(bucket) - {key} == KeysIn(init);
    }
  }

  /** Summing over the buckets sums over their keys. */
  lemma {:induction false} TableTotal(hasher: Key -> nat, buckets: seq<seq<Meta>>, entries: Entries)
    requires Sized(entries)
    requires forall b {:trigger BucketOk(hasher, b, buckets[b], entries)} | 0 <= b < |buckets| ::
               BucketOk(hasher, b, buckets[b], entries)
    ensures KeysOf(buckets) <= entries.Keys
    ensures SumTable(buckets) == Total(entries, KeysOf(buckets))
    ensures forall key | key in KeysOf(buckets) :: Bucket(hasher, key) < |buckets|
  {
    if buckets != [] {
      var n := |buckets| - 1;
      var init, last := buckets[..n], buckets[n];
      assert BucketOk(hasher, n, buckets[n], entries);
      forall b | 0 <= b < n
        ensures BucketOk(hasher, b, init[b], entries)
      {
        assert BucketOk(hasher, b, buckets[b], entries);
      }
      TableTotal(hasher, init, entries);
      BucketTotal(hasher, n, last, entries);
      forall key | key in KeysIn(last)
        ensures Bucket(hasher, key) == n
      {
        KeysInBucket(last, key);
      }
      TotalUnion(entries, KeysOf(init), KeysIn(last));
    }
  }

  lemma {:induction false} KeysOfBucket(buckets: seq<seq<Meta>>, b: nat, key: Key)
    requires b < |buckets| && HasKey(buckets[b], key)
    ensures key in KeysOf(buckets)
  {
    var n := |buckets| - 1;
    if b == n {
      KeysInBucket(buckets[n], key);
    } else {
      assert buckets[..n][b] == buckets[b];
      KeysOfBucket(buckets[..n], b, key);
    }
  }

  /** cache_space_used: what the buckets add up to is the sum of the live value sizes, and no
      more than one megabyte a slab. */
  lemma {:induction false} SpaceUsed(hasher: Key -> nat, buckets: seq<seq<Meta>>, entries: Entries, a: Arena)
    requires TableOk(hasher, buckets, entries) && Stored(entries, a)
    ensures SumTable(buckets) == Total(entries, entries.Keys)
    ensures SumTable(buckets) <= MEMORY * |a.slabs|
  {
    forall k | k in entries
      ensures entries[k].meta.size == |entries[k].value| && entries[k].place.slab < |a.slabs|
    {
      assert EntryOk(k, entries[k], a);
    }
    TableTotal(hasher, buckets, entries);
    forall k | k in entries
      ensures k in KeysOf(buckets)
    {
      assert HasKey(buckets[Bucket(hasher, k)], k);
      KeysOfBucket(buckets, Bucket(hasher, k), k);
    }
    assert KeysOf(buckets) == entries.Keys;
    SlabsShare(entries, a, entries.Keys, |a.slabs|);
    OffsetIsMul(MEMORY, |a.slabs|);
  }
}
