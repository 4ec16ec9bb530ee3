/** The state of the cache (cache.c) as values, and the laws its updates keep.

    The hash table holds metadata records in buckets; each record points at a slot of a slab.
    `Stored` ties the records, the slots they own and the bytes there to the abstract contents
    of the cache, a map from keys to values. */
module CacheModel {
  import opened Common
  import opened Slabs
  import opened SlabManager

  type Key = seq<byte>
  type Value = seq<byte>

  const NUM_BUCKETS: nat := 30
  const MAX_MEMORY: nat := 0x1_0000_0000

  datatype Meta = Meta(key: Key, address: nat, size: nat, timer: byte, cls: nat)

  /** Everything known about a live key: its record, the slot it owns and the value there. */
  datatype Entry = Entry(meta: Meta, place: Place, value: Value)

  type Entries = map<Key, Entry>

  /** The slabs with their bitmaps and memories. */
  datatype Arena = Arena(slabs: seq<Slab>, bits: Bitmaps, mem: seq<seq<byte>>)

  /** What a user of the cache sees. */
  function Contents(entries: Entries): map<Key, Value> {
    map key | key in entries :: entries[key].value
  }

  // ---------------------------------------------------------------- the hash table

  function Bucket(hasher: Key -> nat, key: Key): nat { hasher(key) % NUM_BUCKETS }

  predicate DistinctKeys(bucket: seq<Meta>) {
    forall i, j | 0 <= i < j < |bucket| :: bucket[i].key != bucket[j].key
  }

  predicate HasKey(bucket: seq<Meta>, key: Key) {
    exists j | 0 <= j < |bucket| :: bucket[j].key == key
  }

  /** Every record of the bucket is the record of its key and belongs into bucket b. */
  predicate BucketOk(hasher: Key -> nat, b: nat, bucket: seq<Meta>, entries: Entries) {
    && DistinctKeys(bucket)
    && forall j | 0 <= j < |bucket| ::
         bucket[j].key in entries && entries[bucket[j].key].meta == bucket[j] && Bucket(hasher, bucket[j].key) == b
  }

  /** The buckets hold exactly the records of the entries, each where its key hashes to. */
  ghost predicate TableOk(hasher: Key -> nat, buckets: seq<seq<Meta>>, entries: Entries) {
    && |buckets| == NUM_BUCKETS
    && (forall b {:trigger BucketOk(hasher, b, buckets[b], entries)} | 0 <= b < NUM_BUCKETS ::
          BucketOk(hasher, b, buckets[b], entries))
    && (forall key {:trigger HasKey(buckets[Bucket(hasher, key)], key)} | key in entries ::
          HasKey(buckets[Bucket(hasher, key)], key))
  }

  lemma {:induction false} AppendKeepsTable(hasher: Key -> nat, buckets: seq<seq<Meta>>, entries: Entries, key: Key, e: Entry)
    requires TableOk(hasher, buckets, entries) && key !in entries && e.meta.key == key
    ensures var b := Bucket(hasher, key); TableOk(hasher, buckets[b := buckets[b] + [e.meta]], entries[key := e])
  {
    var b := Bucket(hasher, key);
    var buckets', entries' := buckets[b := buckets[b] + [e.meta]], entries[key := e];
    forall k | k in entries'
      ensures HasKey(buckets'[Bucket(hasher, k)], k)
    {
      if k == key {
        assert buckets'[b][|buckets[b]|].key == k;
      } else {
        assert HasKey(buckets[Bucket(hasher, k)], k);
        var j :| 0 <= j < |buckets[Bucket(hasher, k)]| && buckets[Bucket(hasher, k)][j].key == k;
        assert buckets'[Bucket(hasher, k)][j].key == k;
      }
    }
    forall c | 0 <= c < NUM_BUCKETS ensures BucketOk(hasher, c, buckets'[c], entries') {
      assert BucketOk(hasher, c, buckets[c], entries);
    }
  }

  lemma {:induction false} DropKeepsTable(hasher: Key -> nat, buckets: seq<seq<Meta>>, entries: Entries, b: nat, i: nat)
    requires TableOk(hasher, buckets, entries) && b < NUM_BUCKETS && i < |buckets[b]|
    ensures TableOk(hasher, buckets[b := Without(buckets[b], i)], entries - {buckets[b][i].key})
  {
    var m := buckets[b][i];
    var buckets', entries' := buckets[b := Without(buckets[b], i)], entries - {m.key};
    assert BucketOk(hasher, b, buckets[b], entries);
    forall key | key in entries'
      ensures HasKey(buckets'[Bucket(hasher, key)], key)
    {
      var c := Bucket(hasher, key);
      assert HasKey(buckets[Bucket(hasher, key)], key);
      var j :| 0 <= j < |buckets[c]| && buckets[c][j].key == key;
      var j' := if c == b && j > i then j - 1 else j;
      assert buckets'[c][j'].key == key;
    }
    forall c | 0 <= c < NUM_BUCKETS ensures BucketOk(hasher, c, buckets'[c], entries') {
      assert BucketOk(hasher, c, buckets[c], entries);
      if c == b {
        forall j | 0 <= j < |buckets'[c]|
          ensures buckets'[c][j].key in entries' && entries'[buckets'[c][j].key].meta == buckets'[c][j]
        {
          assert buckets[b][if j < i then j else j + 1].key != m.key;
        }
      } else {
        forall j | 0 <= j < |buckets[c]| ensures buckets[c][j].key != m.key {
          assert Bucket(hasher, m.key) == b;
        }
      }
    }
  }

  /** A record replaced by one for the same key. */
  lemma {:induction false} UpdateKeepsTable(hasher: Key -> nat, buckets: seq<seq<Meta>>, entries: Entries, b: nat, i: nat, m: Meta)
    requires TableOk(hasher, buckets, entries) && b < NUM_BUCKETS && i < |buckets[b]| && m.key == buckets[b][i].key
    ensures m.key in entries
    ensures TableOk(hasher, buckets[b := buckets[b][i := m]], entries[m.key := entries[m.key].(meta := m)])
  {
    assert BucketOk(hasher, b, buckets[b], entries);
    var buckets', entries' := buckets[b := buckets[b][i := m]], entries[m.key := entries[m.key].(meta := m)];
    forall c | 0 <= c < NUM_BUCKETS ensures BucketOk(hasher, c, buckets'[c], entries') {
      assert BucketOk(hasher, c, buckets[c], entries);
      if c != b {
        forall j | 0 <= j < |buckets[c]| ensures buckets[c][j].key != m.key {
          assert Bucket(hasher, m.key) == b;
        }
      }
    }
    forall key | key in entries' ensures HasKey(buckets'[Bucket(hasher, key)], key) {
      var c := Bucket(hasher, key);
      assert HasKey(buckets[Bucket(hasher, key)], key);
      var j :| 0 <= j < |buckets[c]| && buckets[c][j].key == key;
      assert buckets'[c][j].key == key;
    }
  }

  // ---------------------------------------------------------------- timers

  /** The 8-bit timer wraps around: its guard is always true. */
  function TickMeta(m: Meta): Meta { m.(timer := (m.timer + 1) % 256) }

  function TickBucket(bucket: seq<Meta>): (r: seq<Meta>)
    ensures |r| == |bucket|
    ensures forall j | 0 <= j < |r| :: r[j] == TickMeta(bucket[j])
  {
    seq(|bucket|, j requires 0 <= j < |bucket| => TickMeta(bucket[j]))
  }

  function TickAll(entries: Entries): (r: Entries)
    ensures r.Keys == entries.Keys
    ensures forall key | key in entries :: r[key] == entries[key].(meta := TickMeta(entries[key].meta))
  {
    map key | key in entries :: entries[key].(meta := TickMeta(entries[key].meta))
  }

  lemma {:induction false} TickKeepsTable(hasher: Key -> nat, buckets: seq<seq<Meta>>, entries: Entries, ticked: seq<seq<Meta>>)
    requires TableOk(hasher, buckets, entries)
    requires |ticked| == |buckets| && forall b | 0 <= b < |buckets| :: ticked[b] == TickBucket(buckets[b])
    ensures TableOk(hasher, ticked, TickAll(entries))
  {
    forall b | 0 <= b < NUM_BUCKETS ensures BucketOk(hasher, b, ticked[b], TickAll(entries)) {
      assert BucketOk(hasher, b, buckets[b], entries);
    }
    forall key | key in entries ensures HasKey(ticked[Bucket(hasher, key)], key) {
      var b := Bucket(hasher, key);
      assert HasKey(buckets[Bucket(hasher, key)], key);
      var j :| 0 <= j < |buckets[b]| && buckets[b][j].key == key;
      assert ticked[b][j].key == key;
    }
  }

  // ---------------------------------------------------------------- slots and contents

  /** The memory taken by n slabs. */
  function SlabBytes(n: nat): nat { if n == 0 then 0 else SlabBytes(n - 1) + SLAB_SIZE }

  /** The memory holds v at offset off. */
  ghost predicate Reads(m: seq<byte>, off: nat, v: Value) {
    off + |v| <= |m| && forall i | 0 <= i < |v| :: m[off + i] == v[i]
  }

  /** Slot p of the arena is allocated, of class cls and at the address. */
  ghost predicate SlotOk(p: Place, cls: nat, address: nat, a: Arena) {
    && p.slab < |a.slabs| == |a.bits| == |a.mem|
    && |a.bits[p.slab]| == BITS && |a.mem[p.slab]| == MEMORY
    && cls == a.slabs[p.slab].cls >= MIN_CLASS
    && p.slot < Slots(cls) && p.slot < BITS
    && a.bits[p.slab][p.slot]
    && address == SlotAddress(a.slabs[p.slab], p.slot)
  }

  /** The entry of the key owns an allocated slot, which holds its value. */
  ghost predicate EntryOk(key: Key, e: Entry, a: Arena) {
    && e.meta.key == key
    && SlotOk(e.place, e.meta.cls, e.meta.address, a)
    && |e.value| == e.meta.size <= e.meta.cls
    && Reads(a.mem[e.place.slab], Offset(e.meta.cls, e.place.slot), e.value)
  }

  /** No two keys share a slot. */
  ghost predicate OwnSlots(entries: Entries) {
    forall k1, k2 | k1 in entries && k2 in entries && k1 != k2 :: entries[k1].place != entries[k2].place
  }

  /** Nobody owns the slot. */
  ghost predicate Unowned(entries: Entries, p: Place) {
    forall k | k in entries :: entries[k].place != p
  }

  /** The whole picture: every live key owns a slot of its own that holds its value. */
  ghost predicate Stored(entries: Entries, a: Arena) {
    && (forall key | key in entries :: EntryOk(key, entries[key], a))
    && OwnSlots(entries)
  }

  /** The slots the live keys own. */
  ghost function PlacesOf(entries: Entries): set<Place> { set key | key in entries :: entries[key].place }

  /** The slots taken are those the live keys own and, besides, the loose ones. */
  ghost predicate Leased(taken: set<Place>, entries: Entries, loose: set<Place>) {
    taken == PlacesOf(entries) + loose && PlacesOf(entries) !! loose
  }

  lemma {:induction false} DeleteLeased(taken: set<Place>, entries: Entries, key: Key)
    requires Leased(taken, entries, {}) && OwnSlots(entries) && key in entries
    ensures entries[key].place in taken && Leased(taken - {entries[key].place}, entries - {key}, {})
  {
    forall k | k in entries && k != key ensures entries[k].place in PlacesOf(entries - {key}) {
      assert k in entries - {key} && (entries - {key})[k] == entries[k];
    }
  }

  lemma {:induction false} TakeLeased(taken: set<Place>, entries: Entries, p: Place)
    requires Leased(taken, entries, {}) && p !in taken
    ensures Leased(taken + {p}, entries, {p})
  {
  }

  lemma {:induction false} StoreLeased(taken: set<Place>, entries: Entries, key: Key, e: Entry)
    requires Leased(taken, entries, {e.place}) && key !in entries
    ensures Leased(taken, entries[key := e], {})
  {
    var entries' := entries[key := e];
    assert key in entries' && entries'[key] == e;
    forall k | k in entries ensures entries[k].place in PlacesOf(entries') {
      assert k in entries' && entries'[k] == entries[k];
    }
  }

  /** Deleting a key releases its slot and no other entry notices. */
  lemma {:induction false} DeleteKeepsStored(entries: Entries, a: Arena, key: Key)
    requires Stored(entries, a) && key in entries
    ensures SlotOk(entries[key].place, entries[key].meta.cls, entries[key].meta.address, a) && OwnSlots(entries)
    ensures var p := entries[key].place;
            Stored(entries - {key}, a.(bits := Mark(a.bits, p.slab, p.slot, false)))
  {
  }

  /** Allocating a clear slot, which therefore nobody owns. */
  lemma {:induction false} TakeKeepsStored(entries: Entries, a: Arena, p: Place)
    requires Stored(entries, a)
    requires p.slab < |a.bits| && p.slot < |a.bits[p.slab]| && !a.bits[p.slab][p.slot]
    ensures Stored(entries, a.(bits := Mark(a.bits, p.slab, p.slot, true)))
    ensures Unowned(entries, p)
  {
  }

  /** New slabs go to the end of the list. */
  lemma {:induction false} GrowKeepsStored(entries: Entries, a: Arena, a': Arena)
    requires Stored(entries, a)
    requires |a'.slabs| == |a'.bits| == |a'.mem|
    requires a.slabs <= a'.slabs && a.bits <= a'.bits && a.mem <= a'.mem
    ensures Stored(entries, a')
  {
  }

  /** Timers play no part. */
  lemma {:induction false} TimersKeepStored(entries: Entries, entries': Entries, a: Arena)
    requires Stored(entries, a) && entries'.Keys == entries.Keys
    requires forall k | k in entries :: entries'[k] == entries[k].(meta := entries[k].meta.(timer := entries'[k].meta.timer))
    ensures Stored(entries', a)
    ensures Contents(entries') == Contents(entries)
    ensures forall taken, loose :: Leased(taken, entries, loose) ==> Leased(taken, entries', loose)
  {
    assert forall k | k in entries :: entries'[k].place == entries[k].place;
    assert PlacesOf(entries') == PlacesOf(entries);
  }

  /** Writing a value into one slot leaves every other slot's value alone. */
  lemma {:induction false} OverwriteElsewhere(m: seq<byte>, cls: nat, i: nat, j: nat, w: Value, v: Value)
    requires |m| == MEMORY && MIN_CLASS <= cls && i < Slots(cls) && j < Slots(cls) && i != j
    requires |w| <= cls && |v| <= cls
    requires Offset(cls, i) + |w| <= MEMORY
    requires Reads(m, Offset(cls, j), v)
    ensures Reads(Overwrite(m, Offset(cls, i), w), Offset(cls, j), v)
  {
    if i < j { RegionsDisjoint(cls, i, j); } else { RegionsDisjoint(cls, j, i); }
  }

  /** A new entry in an allocated slot that nobody owns. */
  lemma {:induction false} StoreKeepsStored(entries: Entries, a: Arena, key: Key, e: Entry)
    requires Stored(entries, a)
    requires key !in entries && Unowned(entries, e.place)
    requires e.meta.key == key && SlotOk(e.place, e.meta.cls, e.meta.address, a)
    requires |e.value| == e.meta.size <= e.meta.cls
    ensures Offset(e.meta.cls, e.place.slot) + |e.value| <= MEMORY
    ensures var k, off := e.place.slab, Offset(e.meta.cls, e.place.slot);
            Stored(entries[key := e], a.(mem := a.mem[k := Overwrite(a.mem[k], off, e.value)]))
  {
    var p, cls := e.place, e.meta.cls;
    AddressInSlab(a.slabs[p.slab], p.slot);
    var a' := a.(mem := a.mem[p.slab := Overwrite(a.mem[p.slab], Offset(cls, p.slot), e.value)]);
    forall k | k in entries
      ensures EntryOk(k, entries[k], a')
    {
      assert EntryOk(k, entries[k], a);
      if entries[k].place.slab == p.slab {
        OverwriteElsewhere(a.mem[p.slab], cls, p.slot, entries[k].place.slot, e.value, entries[k].value);
      }
    }
    assert EntryOk(key, e, a');
  }

  // ---------------------------------------------------------------- eviction

  /** The entry of the key is the one of its class that eviction picks. */
  ghost predicate IsOldest(entries: Entries, cls: nat, key: Key) {
    && key in entries
    && entries[key].meta.cls == cls
    && entries[key].meta.timer > 0
    && forall k | k in entries && entries[k].meta.cls == cls :: entries[k].meta.timer <= entries[key].meta.timer
  }

  /** No entry of the class can be evicted: all their timers are zero. */
  ghost predicate AllYoung(entries: Entries, cls: nat) {
    forall k | k in entries && entries[k].meta.cls == cls :: entries[k].meta.timer == 0
  }

  /** The entries once the key is gone; a delete of a live key also updates the timers. */
  function AfterDelete(entries: Entries, key: Key): Entries {
    if key in entries then TickAll(entries - {key}) else entries
  }

  /** The scan of the buckets finds what the entries say. */
  lemma {:induction false} ScanFindsOldest(hasher: Key -> nat, buckets: seq<seq<Meta>>, entries: Entries, cls: nat, best: Option<Meta>)
    requires TableOk(hasher, buckets, entries)
    requires best.Some? ==> exists b, j | 0 <= b < |buckets| && 0 <= j < |buckets[b]| :: buckets[b][j] == best.value
    requires best.Some? ==> best.value.cls == cls && best.value.timer > 0
    requires forall b, j | 0 <= b < |buckets| && 0 <= j < |buckets[b]| && buckets[b][j].cls == cls ::
               buckets[b][j].timer <= if best.Some? then best.value.timer else 0
    ensures best.None? ==> AllYoung(entries, cls)
    ensures best.Some? ==> IsOldest(entries, cls, best.value.key)
  {
    forall k | k in entries && entries[k].meta.cls == cls
      ensures entries[k].meta.timer <= if best.Some? then best.value.timer else 0
    {
      var b := Bucket(hasher, k);
      assert HasKey(buckets[Bucket(hasher, k)], k);
      var j :| 0 <= j < |buckets[b]| && buckets[b][j].key == k;
      assert BucketOk(hasher, b, buckets[b], entries);
      assert entries[k].meta == buckets[b][j];
    }
    if best.Some? {
      var b, j :| 0 <= b < |buckets| && 0 <= j < |buckets[b]| && buckets[b][j] == best.value;
      assert BucketOk(hasher, b, buckets[b], entries);
    }
  }

  /** Releasing a slot of a class gives the class room. */
  lemma {:induction false} ReleaseGivesRoom(classes: seq<nat>, bits: Bitmaps, p: Place)
    requires |classes| == |bits| && p.slab < |bits| && p.slot < |bits[p.slab]|
    ensures !NoRoom(classes, Mark(bits, p.slab, p.slot, false), classes[p.slab])
    ensures forall cls :: NoRoom(classes, Mark(bits, p.slab, p.slot, false), cls) ==> NoRoom(classes, bits, cls)
  {
    var bits' := Mark(bits, p.slab, p.slot, false);
    assert !bits'[p.slab][p.slot];
    forall cls | NoRoom(classes, bits', cls)
      ensures NoRoom(classes, bits, cls)
    {
      forall k | 0 <= k < |bits| && classes[k] == cls
        ensures AllSet(bits[k])
      {
        assert AllSet(bits'[k]);
      }
    }
  }

  /** A slab appended to a class without room gives room exactly when it has a clear bit. */
  lemma {:induction false} AppendRoom(classes: seq<nat>, bits: Bitmaps, cls: nat, added: seq<bool>)
    requires |classes| == |bits| && NoRoom(classes, bits, cls)
    ensures NoRoom(classes + [cls], bits + [added], cls) <==> AllSet(added)
  {
    if NoRoom(classes + [cls], bits + [added], cls) {
      assert (classes + [cls])[|bits|] == cls && (bits + [added])[|bits|] == added;
    }
  }
}
