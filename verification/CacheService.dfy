/** The cache itself under every sequence of calls: it goes through runs of the kind CacheRuns and
    CacheAges speak of, and this is what decides each call. */
module CacheService {
  import opened Common
  import opened Slabs
  import opened SlabManager
  import opened CacheModel
  import opened CacheSlots
  import opened Cache
  import opened CacheRuns
  import opened CacheAges

  datatype Call = SetCall(key: Key, val: Value, first: Alloc, second: Alloc) | GetCall(key: Key) | DeleteCall(key: Key)

  /** A call a user may make. */
  predicate Admissible(c: Call, maxmem: nat) {
    c.SetCall? ==>
      && Contained(c.key, c.val, maxmem)
      && |c.first.raw| == |c.second.raw| == BITS
  }

  /** The call an event records. */
  predicate Records(c: Call, ev: Event) {
    match c
    case SetCall(key, val, _, _) => ev.SetEv? && ev.key == key && ev.val == val
    case GetCall(key) => ev.GetEv? && ev.key == key
    case DeleteCall(key) => ev == DeleteEv(key)
  }

  predicate Disjoint(a: nat, b: nat) { a + SLAB_SIZE <= b || b + SLAB_SIZE <= a }

  /** Where the calls up to the n-th may have put slabs. */
  function Bases(calls: seq<Call>, n: nat): set<nat>
    requires n <= |calls|
  {
    if n == 0 then {}
    else Bases(calls, n - 1) + if calls[n - 1].SetCall? then {calls[n - 1].first.base, calls[n - 1].second.base} else {}
  }

  /** malloc never returns memory that is in use: the ranges it returns do not overlap. */
  ghost predicate Fresh(calls: seq<Call>) {
    forall n | 0 <= n < |calls| && calls[n].SetCall? ::
      && Disjoint(calls[n].first.base, calls[n].second.base)
      && forall b | b in Bases(calls, n) :: Disjoint(calls[n].first.base, b) && Disjoint(calls[n].second.base, b)
  }

  /** The cache between two calls: its entries, the classes of its slabs, their bits, the bits the slabs
      were made with, and the memory not spent on slabs. */
  datatype Picture = Picture(entries: Entries, classes: seq<nat>, bits: Bitmaps, made: Bitmaps, left: int)

  /** No slot is lost or counted twice: in every class, what is free and what is live add up to what the
      slabs were made with, and for classes up to 32 KB that is floor(2^20 / cls) slots a slab. */
  ghost predicate Balanced(p: Picture) {
    && |p.classes| == |p.bits| == |p.made| && AllNew(p.classes, p.made)
    && forall cls {:trigger KeysOfClass(p.entries, cls)} ::
         && FreeSlots(p.classes, p.bits, cls) + |KeysOfClass(p.entries, cls)| == FreeSlots(p.classes, p.made, cls)
         && (cls in CLASSES && cls <= 0x8000 ==>
               MIN_CLASS <= cls && FreeSlots(p.classes, p.made, cls) == SlabsOf(p.classes, cls) * Slots(cls))
  }

  /** The live values of the class fill every slot its slabs were made with, and none of them is the one
      the key has now. */
  ghost predicate Filled(p: Picture, key: Key, cls: nat) {
    && |p.classes| == |p.made|
    && |KeysOfClass(p.entries, cls)| == FreeSlots(p.classes, p.made, cls)
    && (key in p.entries ==> p.entries[key].meta.cls != cls)
  }

  /** What decides the outcome of a set.  It is refused at the door or not.  If the class is filled, a slab
      is bought if there is the memory for one; and only if that does not help a value goes: of the other
      values of the class the one whose age shows the most, modulo 256.  If all show zero, nothing goes,
      and unless another slab helps the set gives up. */
  ghost predicate Decided(events: seq<Event>, c: Call, ev: Event, p: Picture, p': Picture, maxmem: nat)
    requires c.SetCall? && ev.SetEv? && Admissible(c, maxmem)
  {
    var cls := ClassFor(|c.val|);
    if Refusal(c.key, c.val, maxmem) != 0 then
      ev.rc == Refusal(c.key, c.val, maxmem) && ev.victim.None? && p'.classes == p.classes
    else
      && (ev.rc == 0 || ev.rc == 4)
      && Bought(p.classes, p'.classes, cls)
      && (p'.classes != p.classes <==> Filled(p, c.key, cls) && p.left > SLAB_SIZE)
      && (ev.victim.Some? <==> Filled(p, c.key, cls) && NoHelp(p.left, cls, c.first) && !AllFresh(events, c.key, cls))
      && (ev.victim.Some? ==> Stalest(events, c.key, cls, ev.victim.value))
      && (ev.rc == 4 <==>
            && Filled(p, c.key, cls) && NoHelp(p.left, cls, c.first) && AllFresh(events, c.key, cls)
            && NoHelp(p.left - SLAB_SIZE, cls, c.second))
  }

  /** Call and event of a run, between two pictures. */
  ghost predicate Explained(events: seq<Event>, c: Call, ev: Event, p: Picture, p': Picture, maxmem: nat) {
    && Records(c, ev) && Admissible(c, maxmem)
    && (if c.SetCall? then Decided(events, c, ev, p, p', maxmem) else p'.classes == p.classes)
  }

  /** The state, the ages and the accounts of a picture are those of the events so far. */
  ghost predicate Shows(p: Picture, events: seq<Event>) {
    Contents(p.entries) == State(events) && Aged(p.entries, events) && Balanced(p)
  }

  ghost function PictureOf(cache: Cache): Picture
    reads cache, cache.man
  {
    Picture(cache.entries, ClassesOf(cache.man.slabs), cache.man.bits, cache.man.stuck, cache.maxmem - cache.size)
  }

  lemma {:induction false} CacheBalanced(cache: Cache)
    requires cache.Valid()
    ensures Balanced(PictureOf(cache))
  {
    hide Cache.Holding, AllNew, FreeSlots, KeysOfClass, SlabsOf, CLASSES, Slots;
    var p := PictureOf(cache);
    cache.Conserved(0);
    forall cls
      ensures FreeSlots(p.classes, p.bits, cls) + |KeysOfClass(p.entries, cls)| == FreeSlots(p.classes, p.made, cls)
      ensures cls in CLASSES && cls <= 0x8000 ==>
                MIN_CLASS <= cls && FreeSlots(p.classes, p.made, cls) == SlabsOf(p.classes, cls) * Slots(cls)
    {
      cache.Conserved(cls);
      if cls in CLASSES && cls <= 0x8000 { CapacityIsExact(p.classes, p.made, cls); }
    }
  }

  /** Any sequence of calls on an empty cache: every get is answered from the state that the calls before it
      have left, no slot is ever lost, the timers are the ages, and every set is decided as described. */
  method Serve(cache: Cache, calls: seq<Call>) returns (ghost events: seq<Event>, ghost pictures: seq<Picture>)
    requires cache.Valid() && cache.entries == map[] && cache.man.slabs == []
    requires Fresh(calls) && forall i | 0 <= i < |calls| :: Admissible(calls[i], cache.maxmem)
    modifies cache, cache.man.Repr
    ensures cache.Valid() && |events| == |calls| && Consistent(events)
    ensures |pictures| == |calls| + 1 && pictures[|calls|] == PictureOf(cache)
    ensures forall i | 0 <= i <= |calls| :: Shows(pictures[i], events[..i])
    ensures forall i | 0 <= i < |calls| ::
              Explained(events[..i], calls[i], events[i], pictures[i], pictures[i + 1], cache.maxmem)
  {
    hide Cache.Valid, BasesOf, Bases, Fresh, Consistent, Shows, PictureOf, Admissible, Explained;
    events, pictures := [], [PictureOf(cache)];
    Nothing(cache, calls);
    var n := 0;
    while n < |calls|
      invariant 0 <= n <= |calls| && |events| == n && cache.Valid() && Consistent(events)
      invariant |pictures| == n + 1 && pictures[n] == PictureOf(cache)
      invariant fresh(cache.man.Repr - old(cache.man.Repr))
      invariant BasesOf(cache.man.slabs) <= Bases(calls, n)
      invariant forall i | 0 <= i <= n :: Shows(pictures[i], events[..i])
      invariant forall i | 0 <= i < n ::
                  Explained(events[..i], calls[i], events[i], pictures[i], pictures[i + 1], cache.maxmem)
    {
      assert events[..n] == events;
      ghost var ev := ServeOne(cache, calls, n, events);
      Prefixes(events, ev);
      events, pictures := events + [ev], pictures + [PictureOf(cache)];
      n := n + 1;
    }
  }

  lemma {:induction false} Prefixes(events: seq<Event>, ev: Event)
    ensures forall i | 0 <= i <= |events| :: (events + [ev])[..i] == events[..i]
    ensures events[..|events|] == events && (events + [ev])[..|events| + 1] == events + [ev]
  {
  }

  lemma {:induction false} Nothing(cache: Cache, calls: seq<Call>)
    requires cache.Valid() && cache.entries == map[] && cache.man.slabs == []
    ensures Consistent([]) && BasesOf(cache.man.slabs) <= Bases(calls, 0) && Shows(PictureOf(cache), [])
  {
    hide Cache.Valid;
    CacheBalanced(cache);
  }

  /** One call. */
  method ServeOne(cache: Cache, calls: seq<Call>, n: nat, ghost events: seq<Event>) returns (ghost ev: Event)
    requires cache.Valid() && n < |calls| && Admissible(calls[n], cache.maxmem) && Fresh(calls)
    requires BasesOf(cache.man.slabs) <= Bases(calls, n) && Shows(PictureOf(cache), events) && Consistent(events)
    modifies cache, cache.man.Repr
    ensures cache.Valid() && fresh(cache.man.Repr - old(cache.man.Repr))
    ensures BasesOf(cache.man.slabs) <= Bases(calls, n + 1)
    ensures Consistent(events + [ev]) && Shows(PictureOf(cache), events + [ev])
    ensures Explained(events, calls[n], ev, old(PictureOf(cache)), PictureOf(cache), cache.maxmem)
  {
    hide Cache.Valid, BasesOf, Fresh, State, ReplyOf, Balanced, KeysOfClass, FreeSlots, ClassFor, ClassesOf, Aged, Consistent;
    hide AllFresh, Stalest, Contents, TickAll;
    ghost var was := PictureOf(cache);
    match calls[n] {
      case SetCall(key, val, first, second) =>
        ev := ServeSet(cache, calls, n, events);
      case GetCall(key) =>
        var reply := cache.Get(key);
        ev := GetEv(key, reply);
        OthersKeepAges(was.entries, events, ev, cache.entries);
      case DeleteCall(key) =>
        var _ := cache.Delete(key);
        ev := DeleteEv(key);
        SameKeys(was.entries, events);
        DeleteKeepsAges(was.entries, events, ev);
    }
    StateAppend(events, ev);
    CacheBalanced(cache);
  }

  lemma SameKeys(entries: Entries, events: seq<Event>)
    requires Contents(entries) == State(events)
    ensures entries.Keys == State(events).Keys
  {
    assert Contents(entries).Keys == entries.Keys;
  }

  /** A class is filled exactly if it has no room, also not after the old value of the key is gone. */
  lemma {:induction false} FilledIsFull(cache: Cache, key: Key, cls: nat)
    requires cache.Valid()
    ensures Filled(PictureOf(cache), key, cls) <==> Full(cache.entries, cache.Memory(), key, cls)
  {
    hide Cache.Holding, FreeSlots, KeysOfClass, NoRoom;
    cache.Conserved(cls);
  }

  method ServeSet(cache: Cache, calls: seq<Call>, n: nat, ghost events: seq<Event>) returns (ghost ev: Event)
    requires cache.Valid() && n < |calls| && calls[n].SetCall? && Admissible(calls[n], cache.maxmem) && Fresh(calls)
    requires BasesOf(cache.man.slabs) <= Bases(calls, n)
    requires Contents(cache.entries) == State(events) && Aged(cache.entries, events)
    modifies cache, cache.man.Repr
    ensures cache.Valid() && fresh(cache.man.Repr - old(cache.man.Repr))
    ensures BasesOf(cache.man.slabs) <= Bases(calls, n + 1) && ev.SetEv? && Records(calls[n], ev)
    ensures Contents(cache.entries) == After(State(events), ev) && Aged(cache.entries, events + [ev])
    ensures Decided(events, calls[n], ev, old(PictureOf(cache)), PictureOf(cache), cache.maxmem)
  {
    hide Cache.Valid, Cache.Holding, BasesOf, Fresh, State, KeysOfClass, FreeSlots, ClassFor, ClassesOf, Aged, Contents;
    hide AllFresh, Stalest, AllYoung, IsOldest, Full, Filled, NoHelp, AfterDelete;
    var c := calls[n];
    ghost var before, cls := cache.entries, ClassFor(|c.val|);
    StillUnused(cache.man.slabs, calls, n);
    FilledIsFull(cache, c.key, cls);
    FreshIsYoung(before, events, c.key, cls);
    var rc;
    ghost var victim;
    rc, victim := cache.Set(c.key, c.val, c.first, c.second);
    ev := SetEv(c.key, c.val, rc, victim);
    SameKeys(before, events);
    if rc == 0 {
      SetKeepsAges(before, events, ev, cache.entries);
      if victim.Some? { StalestIsOldest(before, events, c.key, cls, victim.value); }
    } else if rc == 4 {
      DeleteKeepsAges(before, events, ev);
    } else {
      OthersKeepAges(before, events, ev, cache.entries);
    }
  }

  lemma {:induction false} StillUnused(slabs: seq<Slab>, calls: seq<Call>, n: nat)
    requires n < |calls| && calls[n].SetCall? && |calls[n].first.raw| == |calls[n].second.raw| == BITS && Fresh(calls)
    requires BasesOf(slabs) <= Bases(calls, n)
    ensures Unused(slabs, calls[n].first) && Unused(slabs, calls[n].second)
    ensures Disjoint(calls[n].first.base, calls[n].second.base)
  {
    forall k | 0 <= k < |slabs|
      ensures Disjoint(calls[n].first.base, slabs[k].base) && Disjoint(calls[n].second.base, slabs[k].base)
    {
      assert slabs[k].base in BasesOf(slabs);
    }
  }

  lemma {:induction false} StateAppend(events: seq<Event>, ev: Event)
    requires Consistent(events) && (ev.GetEv? ==> ev.reply == ReplyOf(State(events), ev.key))
    ensures State(events + [ev]) == After(State(events), ev) && Consistent(events + [ev])
  {
    var all := events + [ev];
    assert all[..|events|] == events;
    forall n | 0 <= n < |all| && all[n].GetEv? ensures all[n].reply == ReplyOf(State(all[..n]), all[n].key) {
      if n < |events| { assert all[..n] == events[..n]; }
    }
  }

  /** Whatever is in the cache is something it is there to hold. */
  lemma {:induction false} LiveIsStorable(events: seq<Event>, calls: seq<Call>, pictures: seq<Picture>, maxmem: nat, key: Key)
    requires |events| == |calls| && |pictures| == |calls| + 1 && key in State(events)
    requires forall i | 0 <= i < |calls| :: Explained(events[..i], calls[i], events[i], pictures[i], pictures[i + 1], maxmem)
    ensures Storable(key, State(events)[key], maxmem) && |key| < 32 && |State(events)[key]| <= MEMORY
  {
    hide State, AllFresh, Stalest, Filled;
    StateIsLastWrite(events, key);
    var i: nat :| LastWrite(events, key, i);
    assert Explained(events[..i], calls[i], events[i], pictures[i], pictures[i + 1], maxmem);
    RefusedIff(calls[i].key, calls[i].val, maxmem);
  }
}
