/** The slots of a class are conserved: what is free and what is live add up to what the slabs were
    made with (tools/slabs.c under cache.c). */
module CacheSlots {
  import opened Slabs
  import opened SlabManager
  import opened CacheModel

  /** The clear slots of the slabs of a class. */
  ghost function ClearIn(classes: seq<nat>, bits: Bitmaps, cls: nat): set<Place>
    requires |classes| == |bits|
  {
    set k, i | 0 <= k < |bits| && 0 <= i < |bits[k]| && classes[k] == cls && !bits[k][i] :: Place(k, i)
  }

  /** Their number, slab by slab. */
  function FreeSlots(classes: seq<nat>, bits: Bitmaps, cls: nat): nat
    requires |classes| == |bits|
  {
    if bits == [] then 0
    else
      var n := |bits| - 1;
      FreeSlots(classes[..n], bits[..n], cls) + if classes[n] == cls then CountClear(bits[n]) else 0
  }

  ghost function ClearOf(k: nat, bits: seq<bool>): set<Place> {
    set i | 0 <= i < |bits| && !bits[i] :: Place(k, i)
  }

  lemma {:induction false} ClearOfCount(k: nat, bits: seq<bool>)
    ensures |ClearOf(k, bits)| == CountClear(bits)
    decreases |bits|
  {
    if bits != [] {
      var n := |bits| - 1;
      ClearOfCount(k, bits[..n]);
      var last := if bits[n] then {} else {Place(k, n)};
      assert ClearOf(k, bits) == ClearOf(k, bits[..n]) + last;
    }
  }

  lemma {:induction false} ClearInCount(classes: seq<nat>, bits: Bitmaps, cls: nat)
    requires |classes| == |bits|
    ensures |ClearIn(classes, bits, cls)| == FreeSlots(classes, bits, cls)
    decreases |bits|
  {
    hide CountClear;
    if bits != [] {
      var n := |bits| - 1;
      ClearInCount(classes[..n], bits[..n], cls);
      ClearOfCount(n, bits[n]);
      var last := if classes[n] == cls then ClearOf(n, bits[n]) else {};
      ClearInSplit(classes, bits, cls);
    }
  }

  lemma {:induction false} ClearInSplit(classes: seq<nat>, bits: Bitmaps, cls: nat)
    requires |classes| == |bits| > 0
    ensures var n := |bits| - 1;
            var init, last := ClearIn(classes[..n], bits[..n], cls), if classes[n] == cls then ClearOf(n, bits[n]) else {};
            ClearIn(classes, bits, cls) == init + last && init !! last
  {
    var n := |bits| - 1;
    forall p | p in ClearIn(classes, bits, cls) && p.slab < n ensures p in ClearIn(classes[..n], bits[..n], cls) {
      assert bits[..n][p.slab] == bits[p.slab];
    }
  }

  /** The live keys whose values are of the class. */
  function KeysOfClass(entries: Entries, cls: nat): set<Key> {
    set key | key in entries && entries[key].meta.cls == cls
  }

  ghost function PlacesOfKeys(entries: Entries, keys: set<Key>): set<Place>
    requires keys <= entries.Keys
  {
    set key | key in keys :: entries[key].place
  }

  lemma {:induction false} PlacesCount(entries: Entries, keys: set<Key>)
    requires OwnSlots(entries) && keys <= entries.Keys
    ensures |PlacesOfKeys(entries, keys)| == |keys|
    decreases keys
  {
    if keys != {} {
      var key :| key in keys;
      PlacesCount(entries, keys - {key});
      assert PlacesOfKeys(entries, keys) == PlacesOfKeys(entries, keys - {key}) + {entries[key].place};
    }
  }

  /** The slots a slab was made with that are clear now are free, the others belong to live values. */
  lemma {:induction false} ClearParts(entries: Entries, a: Arena, stuck: Bitmaps, cls: nat)
    requires Stored(entries, a) && |a.slabs| == |a.bits| && Accounted(a.bits, stuck, PlacesOf(entries))
    ensures var classes := ClassesOf(a.slabs);
            var live := PlacesOfKeys(entries, KeysOfClass(entries, cls));
            ClearIn(classes, stuck, cls) == ClearIn(classes, a.bits, cls) + live
            && ClearIn(classes, a.bits, cls) !! live
  {
    var classes := ClassesOf(a.slabs);
    var live := PlacesOfKeys(entries, KeysOfClass(entries, cls));
    forall p ensures p in ClearIn(classes, stuck, cls) <==> p in ClearIn(classes, a.bits, cls) + live
             ensures !(p in ClearIn(classes, a.bits, cls) && p in live)
    {
      assert BitAt(a.bits, p) <==> BitAt(stuck, p) || p in PlacesOf(entries);
      if p in PlacesOf(entries) {
        var key :| key in entries && entries[key].place == p;
        assert EntryOk(key, entries[key], a);
        assert key in KeysOfClass(entries, cls) <==> classes[p.slab] == cls;
        OnlyOwner(entries, key, cls);
      }
    }
  }

  lemma {:induction false} OnlyOwner(entries: Entries, key: Key, cls: nat)
    requires OwnSlots(entries) && key in entries
    ensures entries[key].place in PlacesOfKeys(entries, KeysOfClass(entries, cls)) <==> entries[key].meta.cls == cls
  {
    if entries[key].meta.cls == cls { assert key in KeysOfClass(entries, cls); }
  }

  /** Free slots and live values of a class are together as many as the slabs of the class had slots when
      they were made. */
  lemma {:induction false} SlotsConserved(entries: Entries, a: Arena, stuck: Bitmaps, cls: nat)
    requires Stored(entries, a) && |a.slabs| == |a.bits| && Accounted(a.bits, stuck, PlacesOf(entries))
    ensures var classes := ClassesOf(a.slabs);
            FreeSlots(classes, a.bits, cls) + |KeysOfClass(entries, cls)| == FreeSlots(classes, stuck, cls)
  {
    var classes := ClassesOf(a.slabs);
    ClearParts(entries, a, stuck, cls);
    PlacesCount(entries, KeysOfClass(entries, cls));
    ClearInCount(classes, a.bits, cls);
    ClearInCount(classes, stuck, cls);
  }

  /** A class has no room if and only if none of its slots is free. */
  lemma {:induction false} NoRoomIsNoneFree(classes: seq<nat>, bits: Bitmaps, cls: nat)
    requires |classes| == |bits|
    ensures NoRoom(classes, bits, cls) <==> FreeSlots(classes, bits, cls) == 0
    decreases |bits|
  {
    if bits != [] {
      var n := |bits| - 1;
      NoRoomIsNoneFree(classes[..n], bits[..n], cls);
      CountClearBound(bits[n]);
      assert NoRoom(classes, bits, cls) <==> NoRoom(classes[..n], bits[..n], cls) && (classes[n] == cls ==> AllSet(bits[n]));
    }
  }

  /** The number of slabs of a class. */
  function SlabsOf(classes: seq<nat>, cls: nat): nat {
    if classes == [] then 0
    else SlabsOf(classes[..|classes| - 1], cls) + if classes[|classes| - 1] == cls then 1 else 0
  }

  /** For the classes that fill whole status words that is floor(2^20 / cls) slots a slab, whatever the
      memory held that malloc returned. */
  lemma {:induction false} CapacityIsExact(classes: seq<nat>, stuck: Bitmaps, cls: nat)
    requires AllNew(classes, stuck) && cls in CLASSES && cls <= 0x8000
    ensures MIN_CLASS <= cls && FreeSlots(classes, stuck, cls) == SlabsOf(classes, cls) * Slots(cls)
    decreases |stuck|
  {
    hide CountClear, IsNew, Slots, CLASSES;
    ClassIsItsOwn(cls);
    if stuck != [] {
      var n := |stuck| - 1;
      CapacityIsExact(classes[..n], stuck[..n], cls);
      if classes[n] == cls {
        NewIsExact(cls, stuck[n]);
        assert (SlabsOf(classes[..n], cls) + 1) * Slots(cls) == SlabsOf(classes[..n], cls) * Slots(cls) + Slots(cls);
      }
    }
  }

  lemma {:induction false} NewIsExact(cls: nat, bits: seq<bool>)
    requires IsNew(cls, bits) && cls in CLASSES && cls <= 0x8000
    ensures CountClear(bits) == Slots(cls)
  {
    hide CountClear, NewBits, Slots;
    var raw: seq<bool> :| |raw| == BITS && bits == NewBits(cls, raw);
    WholeWordClasses(cls, raw);
  }
}
