/** The cache (cache.c): set, get, delete, eviction and the memory accounting, over the slab
    manager.  `contents` is what a user sees: the map from keys to values. */
module Cache {
  import opened Common
  import opened Slabs
  import opened SlabManager
  import opened CacheModel
  import opened CacheSlots
  import opened CacheSpace

  /** What malloc returns for a new slab: an unused address range and what it holds. */
  datatype Alloc = Alloc(base: nat, raw: seq<bool>)

  predicate SlotIn(bits: Bitmaps, p: Place) { p.slab < |bits| && p.slot < |bits[p.slab]| }

  predicate Unused(slabs: seq<Slab>, a: Alloc) {
    && |a.raw| == BITS
    && forall k | 0 <= k < |slabs| :: a.base + SLAB_SIZE <= slabs[k].base || slabs[k].base + SLAB_SIZE <= a.base
  }

  /** A new slab for the class is not affordable, or would give no room. */
  ghost predicate NoHelp(left: int, cls: nat, a: Alloc) {
    && MIN_CLASS <= cls && |a.raw| == BITS
    && (left <= SLAB_SIZE || AllSet(NewBits(cls, a.raw)))
  }

  /** The class has no room, also not once the slot of the key, if it has one, is given back. */
  ghost predicate Full(entries: Entries, m: Arena, key: Key, cls: nat) {
    && |m.slabs| == |m.bits|
    && NoRoom(ClassesOf(m.slabs), m.bits, cls)
    && (key in entries ==> entries[key].meta.cls != cls)
  }

  /** At most two slabs, all of the class, were bought. */
  predicate Bought(before: seq<nat>, after: seq<nat>, cls: nat) {
    after == before || after == before + [cls] || after == before + [cls] + [cls]
  }

  /** At most one slab, at the given address, was added to the list. */
  predicate Grown(before: seq<Slab>, after: seq<Slab>, base: nat) {
    || after == before
    || (|after| == |before| + 1 && after[..|before|] == before && after[|before|].base == base)
  }

  /** Where the slabs are. */
  function BasesOf(slabs: seq<Slab>): set<nat> { set k | 0 <= k < |slabs| :: slabs[k].base }

  lemma {:induction false} GrownBases(before: seq<Slab>, after: seq<Slab>, base: nat)
    requires Grown(before, after, base)
    ensures BasesOf(after) <= BasesOf(before) + {base}
  {
  }

  lemma {:induction false} UnusedStill(before: seq<Slab>, after: seq<Slab>, first: Alloc, second: Alloc)
    requires Unused(before, second) && Grown(before, after, first.base)
    requires first.base + SLAB_SIZE <= second.base || second.base + SLAB_SIZE <= first.base
    ensures Unused(after, second)
  {
  }

  /** The error code of a set that is turned away at the door; 0 when it is not. */
  function Refusal(key: Key, val: Value, maxmem: nat): nat
    requires |key| > 32 || |val| > 0
  {
    if |key| > 32 then 1
    else if |val| > SLAB_SIZE then 2
    else if |val| > maxmem then 3
    else if val[|val| - 1] != 0 then 6
    else 0
  }

  /** What the cache is there to hold: a string, under a key and of a size within the limits. */
  predicate Storable(key: Key, val: Value, maxmem: nat) {
    |key| <= 32 && 0 < |val| <= SLAB_SIZE && |val| <= maxmem && val[|val| - 1] == 0
  }

  /** A set is turned away exactly if its value is not to be held, with a code for the first reason. */
  lemma {:induction false} RefusedIff(key: Key, val: Value, maxmem: nat)
    requires |key| > 32 || |val| > 0
    ensures Refusal(key, val, maxmem) == 0 <==> Storable(key, val, maxmem)
    ensures Refusal(key, val, maxmem) == 1 <==> |key| > 32
    ensures Refusal(key, val, maxmem) == 2 <==> |key| <= 32 && |val| > SLAB_SIZE
    ensures Refusal(key, val, maxmem) == 3 <==> |key| <= 32 && maxmem < |val| <= SLAB_SIZE
    ensures Refusal(key, val, maxmem) == 6 <==> |key| <= 32 && |val| <= SLAB_SIZE && |val| <= maxmem && val[|val| - 1] != 0
  {
  }

  /** The set does not read before an empty value, write a value larger than any class into a slot, or
      write the end of a key of 32 characters over what comes after the key. */
  predicate Contained(key: Key, val: Value, maxmem: nat) {
    && (|key| > 32 || |val| > 0)
    && (Refusal(key, val, maxmem) == 0 ==> |key| != 32 && |val| <= MEMORY)
  }

  /** LL_find by key: the index of the record, or the length of the list. */
  method FindIn(bucket: seq<Meta>, key: Key) returns (j: nat)
    ensures j <= |bucket|
    ensures j < |bucket| ==> bucket[j].key == key
    ensures forall i | 0 <= i < j :: bucket[i].key != key
  {
    j := 0;
    while j < |bucket| && bucket[j].key != key
      invariant j <= |bucket|
      invariant forall i | 0 <= i < j :: bucket[i].key != key
    {
      j := j + 1;
    }
  }

  /** The loops of update_timers over the buckets and their records. */
  method TickTable(buckets: seq<seq<Meta>>) returns (r: seq<seq<Meta>>)
    ensures |r| == |buckets| && forall b | 0 <= b < |buckets| :: r[b] == TickBucket(buckets[b])
  {
    r := buckets;
    var b := 0;
    while b < |r|
      invariant 0 <= b <= |r| == |buckets|
      invariant forall c | 0 <= c < |r| :: r[c] == if c < b then TickBucket(buckets[c]) else buckets[c]
    {
      var j := 0;
      while j < |r[b]|
        invariant |r| == |buckets| && 0 <= j <= |r[b]| == |buckets[b]|
        invariant forall c | 0 <= c < |r| && c != b :: r[c] == if c < b then TickBucket(buckets[c]) else buckets[c]
        invariant forall i | 0 <= i < |r[b]| :: r[b][i] == if i < j then TickMeta(buckets[b][i]) else buckets[b][i]
      {
        r := r[b := r[b][j := TickMeta(r[b][j])]];
        j := j + 1;
      }
      b := b + 1;
    }
  }

  /** What cache_get comes back with. */
  datatype Reply = Nil | Hit(value: Value) | AssertFails

  /** A zero byte at the end and nowhere else. */
  predicate CString(v: Value) {
    |v| > 0 && v[|v| - 1] == 0 && forall i | 0 <= i < |v| - 1 :: v[i] != 0
  }

  function ReplyOf(contents: map<Key, Value>, key: Key): Reply {
    if key !in contents then Nil else if CString(contents[key]) then Hit(contents[key]) else AssertFails
  }

  /** strlen, or the length when there is no zero byte. */
  method StrLen(v: Value) returns (n: nat)
    ensures n + 1 == |v| <==> CString(v)
  {
    n := 0;
    while n < |v| && v[n] != 0
      invariant n <= |v|
      invariant forall i | 0 <= i < n :: v[i] != 0
    {
      n := n + 1;
    }
  }

  /** What a set does to the contents. */
  function AfterSet(m: map<Key, Value>, key: Key, val: Value, rc: nat, victim: Option<Key>): map<Key, Value> {
    if rc == 0 then (m - (if victim.Some? then {victim.value} else {}))[key := val]
    else if rc == 4 then m - {key}
    else m
  }

  /** The records before the one at b, j, in the order of the scan, that are of the class have timers below. */
  ghost predicate FirstOf(buckets: seq<seq<Meta>>, cls: nat, m: Meta, b: nat, j: nat) {
    && b < |buckets| && j < |buckets[b]| && buckets[b][j] == m
    && (forall c, i | 0 <= c < b && 0 <= i < |buckets[c]| && buckets[c][i].cls == cls :: buckets[c][i].timer < m.timer)
    && forall i | 0 <= i < j && buckets[b][i].cls == cls :: buckets[b][i].timer < m.timer
  }

  /** The scan of cache_evict: the record of the class with the largest timer above zero, and of several
      the first. */
  method Oldest(buckets: seq<seq<Meta>>, cls: nat) returns (best: Option<Meta>, ghost at: (nat, nat))
    ensures best.Some? ==> FirstOf(buckets, cls, best.value, at.0, at.1)
    ensures best.Some? ==> best.value.cls == cls && best.value.timer > 0
    ensures forall b, j | 0 <= b < |buckets| && 0 <= j < |buckets[b]| && buckets[b][j].cls == cls ::
              buckets[b][j].timer <= if best.Some? then best.value.timer else 0
  {
    best, at := None, (0, 0);
    var maxTimer: byte := 0;
    var b := 0;
    while b < |buckets|
      invariant 0 <= b <= |buckets|
      invariant maxTimer == if best.Some? then best.value.timer else 0
      invariant best.Some? ==> FirstOf(buckets, cls, best.value, at.0, at.1)
      invariant best.Some? ==> best.value.cls == cls && best.value.timer > 0
      invariant forall c, j | 0 <= c < b && 0 <= j < |buckets[c]| && buckets[c][j].cls == cls :: buckets[c][j].timer <= maxTimer
    {
      var j := 0;
      while j < |buckets[b]|
        invariant 0 <= j <= |buckets[b]|
        invariant maxTimer == if best.Some? then best.value.timer else 0
        invariant best.Some? ==> FirstOf(buckets, cls, best.value, at.0, at.1)
        invariant best.Some? ==> best.value.cls == cls && best.value.timer > 0
        invariant forall c, i | 0 <= c < b && 0 <= i < |buckets[c]| && buckets[c][i].cls == cls :: buckets[c][i].timer <= maxTimer
        invariant forall i | 0 <= i < j && buckets[b][i].cls == cls :: buckets[b][i].timer <= maxTimer
      {
        if buckets[b][j].timer > maxTimer && cls == buckets[b][j].cls {
          maxTimer := buckets[b][j].timer;
          best, at := Some(buckets[b][j]), (b, j);
        }
        j := j + 1;
      }
      b := b + 1;
    }
  }

  /** If only a slab at the end has room, the first fit is there. */
  lemma {:induction false} FitsInLast(classes: seq<nat>, bits: Bitmaps, cls: nat, last: seq<bool>, p: Place)
    requires |classes| == |bits| && NoRoom(classes, bits, cls)
    requires FirstFit(classes + [cls], bits + [last], cls, p.slab, p.slot)
    ensures p.slab == |bits|
  {
    forall k | 0 <= k < |bits| && classes[k] == cls ensures AllSet((bits + [last])[k]) {}
  }

  class Cache {
    const hasher: Key -> nat
    const maxmem: nat
    const man: Manager
    var size: nat
    var numValues: nat
    var buckets: seq<seq<Meta>>
    ghost var entries: Entries

    ghost function Memory(): Arena
      reads man
    {
      Arena(man.slabs, man.bits, man.mem)
    }

    /** The allocated slots are those of the live keys and the ones given. */
    ghost predicate Holding(loose: set<Place>)
      reads this, man, man.Repr
    {
      && this !in man.Repr
      && man.Valid()
      && TableOk(hasher, buckets, entries)
      && Stored(entries, Memory())
      && Leased(man.taken, entries, loose)
      && AllNew(ClassesOf(man.slabs), man.stuck)
      && size == SlabBytes(|man.slabs|)
      && size < maxmem <= MAX_MEMORY
      && numValues == |entries|
    }

    /** Between calls no slot is allocated but those of the live keys. */
    ghost predicate Valid()
      reads this, man, man.Repr
    {
      Holding({})
    }

    lemma Basics(loose: set<Place>)
      requires Holding(loose)
      ensures man in man.Repr && |man.slabs| == |man.bits| == |man.mem| == |man.stuck| && |buckets| == NUM_BUCKETS
      ensures Stored(entries, Memory()) && Accounted(man.bits, man.stuck, man.taken)
      ensures this !in man.Repr && size < maxmem
    {
      hide Stored, AllNew, Accounted;
      man.Basics();
    }

    /** Free slots and live values of a class add up to the slots its slabs were made with. */
    lemma Conserved(cls: nat)
      requires Valid()
      ensures |man.slabs| == |man.bits| == |man.stuck| && AllNew(ClassesOf(man.slabs), man.stuck)
      ensures FreeSlots(ClassesOf(man.slabs), man.bits, cls) + |KeysOfClass(entries, cls)|
           == FreeSlots(ClassesOf(man.slabs), man.stuck, cls)
      ensures NoRoom(ClassesOf(man.slabs), man.bits, cls)
         <==> |KeysOfClass(entries, cls)| == FreeSlots(ClassesOf(man.slabs), man.stuck, cls)
    {
      hide Manager.Valid, TableOk, AllNew, Accounted, Stored, FreeSlots, KeysOfClass, NoRoom;
      Basics({});
      assert man.taken == PlacesOf(entries);
      SlotsConserved(entries, Memory(), man.stuck, cls);
      NoRoomIsNoneFree(ClassesOf(man.slabs), man.bits, cls);
    }

    /** Deleting a key makes room in its class, and changes nothing for the others. */
    lemma RoomAfterDelete(key: Key, cls: nat)
      requires Valid()
      ensures |man.slabs| == |man.bits|
      ensures key in entries ==>
                var p := entries[key].place;
                && SlotIn(man.bits, p)
                && (NoRoom(ClassesOf(man.slabs), Mark(man.bits, p.slab, p.slot, false), cls)
                    <==> Full(entries, Memory(), key, cls))
    {
      hide Manager.Valid, Accounted, AllNew, TableOk, Leased;
      Basics({});
      if key in entries {
        assert EntryOk(key, entries[key], Memory());
        ReleaseGivesRoom(ClassesOf(man.slabs), man.bits, entries[key].place);
      }
    }

    lemma RecordIsEntry(b: nat, j: nat)
      requires Valid() && b < |buckets| && j < |buckets[b]|
      ensures buckets[b][j].key in entries && entries[buckets[b][j].key].meta == buckets[b][j]
    {
      assert BucketOk(hasher, b, buckets[b], entries);
    }

    /** create_cache */
    constructor (limit: nat, hasher: Key -> nat)
      ensures Valid() && fresh(man.Repr) && man.slabs == []
      ensures this.hasher == hasher && entries == map[]
      ensures maxmem == if limit < SLAB_SIZE then 2 * SLAB_SIZE else if limit > MAX_MEMORY then MAX_MEMORY else limit
    {
      this.hasher := hasher;
      maxmem := if limit < SLAB_SIZE then 2 * SLAB_SIZE else if limit > MAX_MEMORY then MAX_MEMORY else limit;
      size, numValues := 0, 0;
      buckets := seq(NUM_BUCKETS, _ => []);
      man := new Manager();
      entries := map[];
    }

    /** get_meta: where the record of the key is, if there is one. */
    method GetMeta(key: Key) returns (b: nat, j: nat)
      requires Valid()
      ensures b == Bucket(hasher, key) && b < |buckets| && j <= |buckets[b]|
      ensures j < |buckets[b]| <==> key in entries
      ensures j < |buckets[b]| ==> buckets[b][j].key == key && entries[key].meta == buckets[b][j]
    {
      b := Bucket(hasher, key);
      j := FindIn(buckets[b], key);
      assert BucketOk(hasher, b, buckets[b], entries);
      assert key in entries ==> HasKey(buckets[Bucket(hasher, key)], key);
    }

    /** update_timers */
    method UpdateTimers(ghost loose: set<Place>)
      requires Holding(loose)
      modifies this`buckets, this`entries
      ensures Holding(loose) && entries == TickAll(old(entries))
      ensures Contents(entries) == Contents(old(entries))
    {
      hide Manager.Valid, Accounted, TableOk, Stored, AllNew, Leased, Contents;
      var ticked := TickTable(buckets);
      TickKeepsTable(hasher, buckets, entries, ticked);
      TimersKeepStored(entries, TickAll(entries), Memory());
      buckets, entries := ticked, TickAll(entries);
    }

    /** Gives the slot of a record back and unlinks the record. */
    method Release(b: nat, j: nat)
      requires Valid() && b < |buckets| && j < |buckets[b]|
      modifies this, man.Repr
      ensures Valid() && man.slabs == old(man.slabs) && man.stuck == old(man.stuck)
      ensures man.Repr == old(man.Repr) && size == old(size)
      ensures Released(old(entries), old(man.bits), old(buckets)[b][j].key, entries, man.bits)
    {
      hide Manager.Valid, Accounted, TableOk, Stored, AllNew, Leased, ClassFor, NewBits, OwnSlots, Slots, ItemAt;
      Basics({});
      ghost var key := buckets[b][j].key;
      RecordIsEntry(b, j);
      ghost var p := entries[key].place;
      DeleteKeepsStored(entries, Memory(), key);
      DeleteLeased(man.taken, entries, key);
      AddressInSlab(man.slabs[p.slab], p.slot);
      DropKeepsTable(hasher, buckets, entries, b, j);
      var address := buckets[b][j].address;
      buckets := buckets[b := Without(buckets[b], j)];
      entries := entries - {key};
      numValues := numValues - 1;
      man.Delete(address, p.slab, p.slot);
    }

    /** cache_delete: returns 0, or 255 (-1 as a uint8_t) when there is no such key. */
    method Delete(key: Key) returns (rc: nat)
      requires Valid()
      modifies this, man.Repr
      ensures Valid() && man.slabs == old(man.slabs) && man.stuck == old(man.stuck)
      ensures man.Repr == old(man.Repr) && size == old(size)
      ensures key !in old(entries) ==> rc == 255 && entries == old(entries) && man.bits == old(man.bits)
      ensures key in old(entries) ==>
                && rc == 0
                && Released(old(entries), old(man.bits), key, old(entries) - {key}, man.bits)
                && entries == TickAll(old(entries) - {key})
      ensures Contents(entries) == Contents(old(entries)) - {key}
    {
      hide Cache.Holding, Manager.Valid, Bucket;
      var b, j := GetMeta(key);
      if j == |buckets[b]| { return 255; }
      Release(b, j);
      UpdateTimers({});
      return 0;
    }

    /** cache_get: NULL for a key that is not there.  Reading resets the timer, and the code
        asserts that the stored value is a string without a zero byte inside. */
    method Get(key: Key) returns (r: Reply)
      requires Valid()
      modifies this`buckets, this`entries
      ensures Valid()
      ensures r == ReplyOf(Contents(old(entries)), key)
      ensures Contents(entries) == Contents(old(entries))
      ensures key !in old(entries) ==> entries == old(entries)
      ensures key in old(entries) ==>
                entries == old(entries)[key := old(entries)[key].(meta := old(entries)[key].meta.(timer := 0))]
    {
      hide Manager.Valid, Accounted, TableOk, Stored, AllNew, Leased, ClassFor, NewBits, SlabBytes, CString, Bucket;
      Basics({});
      var b, j := GetMeta(key);
      if j == |buckets[b]| { return Nil; }
      var m := buckets[b][j];
      var v := Fetch(key, m);
      ghost var reset := entries[key := entries[key].(meta := m.(timer := 0))];
      TimersKeepStored(entries, reset, Memory());
      UpdateKeepsTable(hasher, buckets, entries, b, j, m.(timer := 0));
      buckets := buckets[b := buckets[b][j := m.(timer := 0)]];
      entries := reset;
      var n := StrLen(v);
      return if n + 1 == m.size then Hit(v) else AssertFails;
    }

    /** The bytes a record points at. */
    method Fetch(key: Key, m: Meta) returns (v: Value)
      requires Valid() && key in entries && entries[key].meta == m
      ensures v == entries[key].value && |v| == m.size
    {
      hide Manager.Valid, Accounted, TableOk, AllNew, Leased;
      Basics({});
      ghost var e := entries[key];
      assert EntryOk(key, e, Memory());
      AddressInSlab(man.slabs[e.place.slab], e.place.slot);
      v := man.Load(m.address, m.size, e.place.slab);
      assert v == e.value;
    }

    /** expand_cache: adds a slab while more than a slab's worth of memory is left. */
    method Expand(cls: nat, a: Alloc)
      requires Valid() && MIN_CLASS <= cls <= MEMORY && Unused(man.slabs, a)
      modifies this`size, man.Repr
      ensures Valid() && fresh(man.Repr - old(man.Repr)) && man.taken == old(man.taken)
      ensures maxmem - old(size) <= SLAB_SIZE ==>
                && man.slabs == old(man.slabs) && man.bits == old(man.bits) && man.stuck == old(man.stuck)
                && size == old(size)
      ensures maxmem - old(size) > SLAB_SIZE ==>
                && size == old(size) + SLAB_SIZE
                && |man.slabs| == |old(man.slabs)| + 1 && man.slabs[..|old(man.slabs)|] == old(man.slabs)
                && man.slabs[|old(man.slabs)|].base == a.base
                && ClassesOf(man.slabs) == ClassesOf(old(man.slabs)) + [cls]
                && man.bits == old(man.bits) + [NewBits(cls, a.raw)]
                && man.stuck == old(man.stuck) + [NewBits(cls, a.raw)]
    {
      hide Manager.Valid, Accounted, TableOk, Stored, AllNew, Leased, ClassFor, NewBits;
      Basics({});
      NewAppended(ClassesOf(man.slabs), man.stuck, cls, a.raw);
      if maxmem - size > SLAB_SIZE {
        ghost var was := Memory();
        size := size + SLAB_SIZE;
        man.Add(cls, a.base, a.raw);
        man.Basics();
        GrowKeepsStored(entries, was, Memory());
      }
    }
  
    /** get_address for a class, as the cache sees it. */
    method Allocate(cls: nat) returns (address: Option<nat>, ghost p: Place)
      requires Valid() && ClassFor(cls) == cls
      modifies man.Repr
      ensures man.slabs == old(man.slabs) && man.stuck == old(man.stuck) && man.Repr == old(man.Repr)
      ensures address.None? ==> Valid() && NoRoom(ClassesOf(man.slabs), man.bits, cls) && man.bits == old(man.bits)
      ensures address.Some? ==> Holding({p}) && !NoRoom(ClassesOf(man.slabs), old(man.bits), cls)
      ensures address.Some? ==> SlotOk(p, cls, address.value, Memory()) && Unowned(entries, p)
      ensures address.Some? ==> FirstFit(ClassesOf(man.slabs), old(man.bits), cls, p.slab, p.slot)
    {
      hide Manager.Valid, Accounted, TableOk, Stored, AllNew, Leased, ClassFor, NewBits, NoRoom;
      Basics({});
      ghost var was := Memory();
      ghost var k, i;
      ghost var taken := man.taken;
      address, k, i := man.GetAddress(cls);
      p := Place(k, i);
      if address.Some? {
        man.SlabBasics(k);
        FitIffRoom(ClassesOf(man.slabs), was.bits, cls);
        TakeKeepsStored(entries, was, p);
        TakeLeased(taken, entries, p);
      }
    }

    /** free_space: a free slot of the class, from a new slab if need be and possible.  The slot found is
        the only one that becomes allocated. */
    method FreeSpace(cls: nat, a: Alloc) returns (address: Option<nat>, ghost p: Place)
      requires Valid() && MIN_CLASS <= cls <= MEMORY && ClassFor(cls) == cls && Unused(man.slabs, a)
      modifies this`size, man.Repr
      ensures Grown(old(man.slabs), man.slabs, a.base) && fresh(man.Repr - old(man.Repr))
      ensures man.stuck == if man.slabs == old(man.slabs) then old(man.stuck) else old(man.stuck) + [NewBits(cls, a.raw)]
      ensures address.Some? ==> Holding({p}) && SlotOk(p, cls, address.value, Memory()) && Unowned(entries, p)
      ensures address.None? ==> Valid() && NoRoom(ClassesOf(man.slabs), man.bits, cls)
      ensures |old(man.slabs)| == |old(man.bits)|
      ensures !NoRoom(ClassesOf(old(man.slabs)), old(man.bits), cls) ==>
                && address.Some? && man.slabs == old(man.slabs) && size == old(size)
                && FirstFit(ClassesOf(old(man.slabs)), old(man.bits), cls, p.slab, p.slot)
      ensures NoRoom(ClassesOf(old(man.slabs)), old(man.bits), cls) ==>
                && (address.None? <==> NoHelp(maxmem - old(size), cls, a))
                && (if maxmem - old(size) > SLAB_SIZE
                    then ClassesOf(man.slabs) == ClassesOf(old(man.slabs)) + [cls] && size == old(size) + SLAB_SIZE
                    else man.slabs == old(man.slabs) && size == old(size))
                && (address.Some? ==> p.slab == |old(man.slabs)|)
    {
      hide Cache.Holding, Manager.Valid, ClassFor, NewBits, FirstFit, Accounted, Stored, ClassesOf;
      Basics({});
      address, p := Allocate(cls);
      if address.Some? { return; }
      if size < maxmem {
        AppendRoom(ClassesOf(man.slabs), man.bits, cls, NewBits(cls, a.raw));
        Expand(cls, a);
        address, p := Allocate(cls);
        if address.Some? && maxmem - old(size) > SLAB_SIZE {
          FitsInLast(ClassesOf(old(man.slabs)), old(man.bits), cls, NewBits(cls, a.raw), p);
        }
      }
    }

    /** cache_evict: deletes the entry of the class with the largest timer, if one is above 0. */
    method Evict(cls: nat) returns (ghost victim: Option<Key>)
      requires Valid()
      modifies this, man.Repr
      ensures Valid() && man.slabs == old(man.slabs) && man.stuck == old(man.stuck)
      ensures man.Repr == old(man.Repr) && size == old(size)
      ensures victim.None? <==> AllYoung(old(entries), cls)
      ensures victim.None? ==> entries == old(entries) && man.bits == old(man.bits)
      ensures victim.Some? ==>
                && IsOldest(old(entries), cls, victim.value)
                && (exists m, b, j :: FirstOf(old(buckets), cls, m, b, j) && m.key == victim.value)
                && entries == TickAll(old(entries) - {victim.value})
                && !NoRoom(ClassesOf(man.slabs), man.bits, cls)
    {
      hide Manager.Valid, Accounted, TableOk, AllNew, Leased, ClassFor, NewBits, NoRoom;
      Basics({});
      var m;
      ghost var at;
      m, at := Oldest(buckets, cls);
      ScanFindsOldest(hasher, buckets, entries, cls, m);
      if m.None? { return None; }
      assert EntryOk(m.value.key, entries[m.value.key], Memory());
      ReleaseGivesRoom(ClassesOf(man.slabs), man.bits, entries[m.value.key].place);
      var rc := Delete(m.value.key);
      victim := Some(m.value.key);
    }
  
    /** cache_space_used */
    method SpaceUsed() returns (used: nat)
      requires Valid()
      ensures used == Total(entries, entries.Keys)
      ensures used <= MEMORY * |man.slabs|
    {
      hide Manager.Valid, Accounted, AllNew, Leased;
      Basics({});
      used := 0;
      var b := 0;
      while b < |buckets|
        invariant 0 <= b <= |buckets|
        invariant used == SumTable(buckets[..b])
      {
        var j := 0;
        ghost var before := used;
        while j < |buckets[b]|
          invariant 0 <= j <= |buckets[b]|
          invariant used == before + SumSizes(buckets[b][..j])
        {
          assert buckets[b][..j + 1][..j] == buckets[b][..j];
          used := used + buckets[b][j].size;
          j := j + 1;
        }
        assert buckets[b][..j] == buckets[b];
        assert buckets[..b + 1][..b] == buckets[..b];
        b := b + 1;
      }
      assert buckets[..b] == buckets;
      CacheSpace.SpaceUsed(hasher, buckets, entries, Memory());
    }

    /** The last part of cache_set: writes the value and links its record. */
    method Insert(key: Key, val: Value, cls: nat, address: nat, ghost p: Place)
      requires Holding({p}) && key !in entries && |val| <= cls
      requires SlotOk(p, cls, address, Memory()) && Unowned(entries, p)
      modifies this, man.Repr
      ensures Valid() && man.slabs == old(man.slabs) && man.stuck == old(man.stuck)
      ensures man.Repr == old(man.Repr) && size == old(size)
      ensures entries == TickAll(old(entries))[key := Entry(Meta(key, address, |val|, 0, cls), p, val)]
    {
      hide Cache.Holding, Manager.Valid, SlotOk;
      UpdateTimers({p});
      Link(key, val, cls, address, p);
    }

    method Link(key: Key, val: Value, cls: nat, address: nat, ghost p: Place)
      requires Holding({p}) && key !in entries && |val| <= cls
      requires SlotOk(p, cls, address, Memory()) && Unowned(entries, p)
      modifies this, man.Repr
      ensures Valid() && man.slabs == old(man.slabs) && man.stuck == old(man.stuck)
      ensures man.Repr == old(man.Repr) && size == old(size)
      ensures entries == old(entries)[key := Entry(Meta(key, address, |val|, 0, cls), p, val)]
    {
      hide Manager.Valid, Accounted, TableOk, Stored, AllNew, Leased, ClassFor, NewBits;
      Basics({p});
      var m := Meta(key, address, |val|, 0, cls);
      ghost var e := Entry(m, p, val);
      StoreLeased(man.taken, entries, key, e);
      StoreKeepsStored(entries, Memory(), key, e);
      AppendKeepsTable(hasher, buckets, entries, key, e);
      AddressInSlab(man.slabs[p.slab], p.slot);
      var b := Bucket(hasher, key);
      buckets := buckets[b := buckets[b] + [m]];
      entries := entries[key := e];
      numValues := numValues + 1;
      man.Store(address, val, p.slab);
    }

    /** cache_set.  `first` and `second` are what malloc would return for new slabs. */
    method Set(key: Key, val: Value, first: Alloc, second: Alloc) returns (rc: nat, ghost victim: Option<Key>)
      requires Valid()
      requires Contained(key, val, maxmem)
      requires Unused(man.slabs, first) && Unused(man.slabs, second)
      requires first.base + SLAB_SIZE <= second.base || second.base + SLAB_SIZE <= first.base
      modifies this, man.Repr
      ensures Valid() && fresh(man.Repr - old(man.Repr))
      ensures Refusal(key, val, maxmem) != 0 ==> rc == Refusal(key, val, maxmem) && entries == old(entries) && victim.None?
      ensures Refusal(key, val, maxmem) == 0 ==> rc == 0 || rc == 4
      ensures rc == 4 ==> victim.None? && entries == AfterDelete(old(entries), key) && AllYoung(entries, ClassFor(|val|))
      ensures rc == 0 ==> SetDone(AfterDelete(old(entries), key), key, val, victim, entries)
      ensures Contents(entries) == AfterSet(Contents(old(entries)), key, val, rc, victim)
      ensures BasesOf(man.slabs) <= BasesOf(old(man.slabs)) + {first.base, second.base}
      ensures |old(man.stuck)| == |old(man.slabs)|
      ensures |old(man.slabs)| == |old(man.bits)| && Bought(ClassesOf(old(man.slabs)), ClassesOf(man.slabs), ClassFor(|val|))
      ensures man.slabs == old(man.slabs) || ClassesOf(man.slabs) != ClassesOf(old(man.slabs))
      ensures man.slabs != old(man.slabs) <==>
                && Refusal(key, val, maxmem) == 0 && old(Full(entries, Memory(), key, ClassFor(|val|)))
                && maxmem - old(size) > SLAB_SIZE
      ensures victim.Some? <==>
                && Refusal(key, val, maxmem) == 0 && old(Full(entries, Memory(), key, ClassFor(|val|)))
                && NoHelp(maxmem - old(size), ClassFor(|val|), first)
                && !AllYoung(AfterDelete(old(entries), key), ClassFor(|val|))
      ensures rc == 4 <==>
                && Refusal(key, val, maxmem) == 0 && old(Full(entries, Memory(), key, ClassFor(|val|)))
                && NoHelp(maxmem - old(size), ClassFor(|val|), first)
                && AllYoung(AfterDelete(old(entries), key), ClassFor(|val|))
                && NoHelp(maxmem - old(size) - SLAB_SIZE, ClassFor(|val|), second)
      ensures old(Full(entries, Memory(), key, ClassFor(|val|))) ==>
                |KeysOfClass(old(entries), ClassFor(|val|))|
                == FreeSlots(ClassesOf(old(man.slabs)), old(man.stuck), ClassFor(|val|))
    {
      hide Cache.Holding, Manager.Valid, ClassFor, NewBits, BasesOf, Accounted, Stored, AllNew, FreeSlots, KeysOfClass, NoRoom;
      hide AllYoung, NoHelp, ClassesOf;
      Basics({});
      Conserved(ClassFor(|val|));
      if |key| > 32 { return 1, None; }
      if |val| > SLAB_SIZE { return 2, None; }
      if |val| > maxmem { return 3, None; }
      if val[|val| - 1] != 0 { return 6, None; }
      var cls := ClassOfValue(|val|);
      ClassBounds(|val|);
      RoomAfterDelete(key, cls);
      var _ := Delete(key);
      rc, victim := PutNew(key, val, cls, first, second);
      if rc == 0 { SetDoneContents(old(entries), key, val, victim, entries); }
    }

    /** The part of cache_set for a key that is not in the cache (any more). */
    method PutNew(key: Key, val: Value, cls: nat, first: Alloc, second: Alloc) returns (rc: nat, ghost victim: Option<Key>)
      requires Valid() && key !in entries
      requires |val| <= cls && cls == ClassFor(|val|) == ClassFor(cls) && MIN_CLASS <= cls <= MEMORY
      requires Unused(man.slabs, first) && Unused(man.slabs, second)
      requires first.base + SLAB_SIZE <= second.base || second.base + SLAB_SIZE <= first.base
      modifies this, man.Repr
      ensures Valid() && fresh(man.Repr - old(man.Repr))
      ensures rc == 0 || rc == 4
      ensures rc == 4 ==> victim.None? && entries == old(entries) && AllYoung(entries, cls)
      ensures rc == 0 ==> SetDone(old(entries), key, val, victim, entries)
      ensures BasesOf(man.slabs) <= BasesOf(old(man.slabs)) + {first.base, second.base}
      ensures |old(man.slabs)| == |old(man.bits)| && Bought(ClassesOf(old(man.slabs)), ClassesOf(man.slabs), cls)
      ensures man.slabs == old(man.slabs) || ClassesOf(man.slabs) != ClassesOf(old(man.slabs))
      ensures man.slabs != old(man.slabs) <==>
                NoRoom(ClassesOf(old(man.slabs)), old(man.bits), cls) && maxmem - old(size) > SLAB_SIZE
      ensures victim.Some? <==>
                && NoRoom(ClassesOf(old(man.slabs)), old(man.bits), cls)
                && NoHelp(maxmem - old(size), cls, first) && !AllYoung(old(entries), cls)
      ensures rc == 4 <==>
                && NoRoom(ClassesOf(old(man.slabs)), old(man.bits), cls)
                && NoHelp(maxmem - old(size), cls, first) && AllYoung(old(entries), cls)
                && NoHelp(maxmem - old(size) - SLAB_SIZE, cls, second)
    {
      hide Cache.Holding, Manager.Valid, ClassFor, NewBits, BasesOf, Grown, Unused, NoRoom, SlotOk, Unowned, Accounted, Stored;
      hide FirstFit, AllYoung;
      Basics({});
      victim := None;
      var address;
      ghost var p;
      address, p := FreeSpace(cls, first);
      GrownBases(old(man.slabs), man.slabs, first.base);
      if address.None? {
        ghost var slabs := man.slabs;
        UnusedStill(old(man.slabs), man.slabs, first, second);
        victim := Evict(cls);
        address, p := FreeSpace(cls, second);
        GrownBases(slabs, man.slabs, second.base);
        if address.None? { return 4, victim; }
      }
      ghost var before := entries;
      Insert(key, val, cls, address.value, p);
      assert entries - {key} == TickAll(before);
      return 0, victim;
    }
  }

  /** A successful set: at most one entry, the oldest of the class, has made room. */
  ghost predicate SetDone(before: Entries, key: Key, val: Value, victim: Option<Key>, after: Entries) {
    && key !in before
    && key in after
    && after[key].value == val
    && after[key].meta.timer == 0
    && after[key].meta.cls == ClassFor(|val|)
    && match victim
       case None => after - {key} == TickAll(before)
       case Some(k) => IsOldest(before, ClassFor(|val|), k) && after - {key} == TickAll(TickAll(before - {k}))
  }

  lemma {:induction false} SetDoneContents(before: Entries, key: Key, val: Value, victim: Option<Key>, after: Entries)
    requires SetDone(AfterDelete(before, key), key, val, victim, after)
    ensures Contents(after) == AfterSet(Contents(before), key, val, 0, victim)
    ensures victim.Some? ==> victim.value in before && victim.value != key
  {
    var now, want := Contents(after), AfterSet(Contents(before), key, val, 0, victim);
    forall k
      ensures k in now <==> k in want
      ensures k in now ==> now[k] == want[k]
    {
      if k != key {
        assert k in after <==> k in after - {key};
        if k in after { assert after[k] == (after - {key})[k]; }
      }
    }
    assert now.Keys == want.Keys;
  }

  /** The key has left, and its slot is clear again. */
  ghost predicate Released(before: Entries, bits: Bitmaps, key: Key, after: Entries, bits': Bitmaps) {
    && key in before
    && after == before - {key}
    && SlotIn(bits, before[key].place)
    && bits' == Mark(bits, before[key].place.slab, before[key].place.slot, false)
  }
}
