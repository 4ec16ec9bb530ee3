/** How long the values of the cache have gone unused, over every sequence of calls: what the timers in
    the records (cache.c) stand for, and whom an eviction hits. */
module CacheAges {
  import opened Common
  import opened SlabManager
  import opened CacheModel
  import opened Cache
  import opened CacheRuns

  /** How often the call moves the timers on: once for a value stored, once for a value taken out. */
  function Ticks(m: map<Key, Value>, ev: Event): nat {
    match ev
    case SetEv(key, _, rc, victim) =>
      Once(rc == 0) + Once((rc == 0 || rc == 4) && key in m) + Once(rc == 0 && victim.Some?)
    case GetEv(_, _) => 0
    case DeleteEv(key) => Once(key in m)
  }

  function Once(b: bool): nat { if b then 1 else 0 }

  /** The call stores or reads the key. */
  predicate Uses(ev: Event, key: Key) { Writes(ev, key) || (ev.GetEv? && ev.key == key) }

  /** The ticks since the key was last used. */
  function Age(events: seq<Event>, key: Key): nat {
    if events == [] then 0
    else
      var init, ev := events[..|events| - 1], events[|events| - 1];
      if Uses(ev, key) then 0 else Age(init, key) + Ticks(State(init), ev)
  }

  // ---------------------------------------------------------------- the last use

  ghost predicate LastUse(events: seq<Event>, key: Key, i: nat) {
    i < |events| && Uses(events[i], key) && forall j | i < j < |events| :: !Uses(events[j], key)
  }

  /** The ticks of the calls from the i-th on. */
  function TicksFrom(events: seq<Event>, i: nat): nat {
    if i >= |events| then 0
    else
      var n := |events| - 1;
      TicksFrom(events[..n], i) + Ticks(State(events[..n]), events[n])
  }

  /** A live key has been used, and its age is the ticks of all calls since. */
  lemma {:induction false} AgeIsTicksSince(events: seq<Event>, key: Key)
    ensures key in State(events) ==> exists i: nat :: LastUse(events, key, i)
    ensures forall i: nat | LastUse(events, key, i) :: Age(events, key) == TicksFrom(events, i + 1)
  {
    if events != [] {
      var n := |events| - 1;
      var init, ev := events[..n], events[n];
      AgeIsTicksSince(init, key);
      if Uses(ev, key) {
        assert LastUse(events, key, n);
      } else {
        forall i: nat | LastUse(events, key, i) ensures Age(events, key) == TicksFrom(events, i + 1) {
          assert i != n;
          assert LastUse(init, key, i);
        }
        if key in State(events) {
          assert key in State(init);
          var i: nat :| LastUse(init, key, i);
          assert LastUse(events, key, i);
        }
      }
    }
  }

  // ---------------------------------------------------------------- the timers

  /** What an 8-bit timer shows of an age. */
  function Low(age: nat): byte { age % 256 }

  lemma {:induction false} LowStep(age: nat)
    ensures (Low(age) + 1) % 256 == Low(age + 1)
  {
  }

  /** Every timer holds the age of its key, modulo 256, and every record has the class of its value. */
  ghost predicate Aged(entries: Entries, events: seq<Event>) {
    forall key | key in entries ::
      entries[key].meta.timer == Low(Age(events, key)) && entries[key].meta.cls == ClassFor(|entries[key].value|)
  }

  lemma {:induction false} AgeAfter(events: seq<Event>, ev: Event, key: Key)
    ensures Age(events + [ev], key) == if Uses(ev, key) then 0 else Age(events, key) + Ticks(State(events), ev)
  {
    assert (events + [ev])[..|events|] == events;
  }

  lemma {:induction false} TickAdds(entries: Entries, key: Key, t: nat)
    requires key in entries && entries[key].meta.timer == Low(t)
    ensures var e := TickAll(entries)[key];
            e.meta.timer == Low(t + 1) && e.meta.cls == entries[key].meta.cls && e.value == entries[key].value
  {
    LowStep(t);
    hide Low;
  }

  /** The timers once the key is gone. */
  lemma {:induction false} DeleteAges(entries: Entries, key: Key, k: Key, t: nat)
    requires k in entries && k != key && entries[k].meta.timer == Low(t)
    ensures k in AfterDelete(entries, key)
    ensures var e := AfterDelete(entries, key)[k];
            && e.meta.timer == Low(t + Once(key in entries))
            && e.meta.cls == entries[k].meta.cls && e.value == entries[k].value
  {
    hide Low, TickAll;
    if key in entries {
      assert (entries - {key})[k] == entries[k];
      TickAdds(entries - {key}, k, t);
    }
  }

  lemma OnlyBefore(entries: Entries, key: Key, k: Key)
    ensures k in AfterDelete(entries, key) <==> k in entries && k != key
  {
  }

  /** The timers after a successful set, of the keys that were there before and still are. */
  lemma {:induction false} SetAges(before: Entries, key: Key, val: Value, victim: Option<Key>, after: Entries, k: Key, t: nat)
    requires SetDone(AfterDelete(before, key), key, val, victim, after)
    requires k in after && k != key && (k in before ==> before[k].meta.timer == Low(t))
    ensures k in before
    ensures after[k].meta.timer == Low(t + 1 + Once(key in before) + Once(victim.Some?))
    ensures after[k].meta.cls == before[k].meta.cls && after[k].value == before[k].value
  {
    hide Low, TickAll, AfterDelete, IsOldest, ClassFor;
    var d, u := AfterDelete(before, key), t + Once(key in before);
    assert (after - {key})[k] == after[k];
    OnlyBefore(before, key, k);
    assert k in d;
    DeleteAges(before, key, k, t);
    match victim
    case None => TickAdds(d, k, u);
    case Some(v) =>
      assert (d - {v})[k] == d[k];
      TickAdds(d - {v}, k, u);
      TickAdds(TickAll(d - {v}), k, u + 1);
  }

  lemma {:induction false} SetKeepsAges(before: Entries, events: seq<Event>, ev: Event, after: Entries)
    requires Aged(before, events) && before.Keys == State(events).Keys
    requires ev.SetEv? && ev.rc == 0 && SetDone(AfterDelete(before, ev.key), ev.key, ev.val, ev.victim, after)
    ensures Aged(after, events + [ev])
  {
    hide Age, State, AfterDelete, TickAll;
    LowStep(0);
    forall k | k in after
      ensures after[k].meta.timer == Low(Age(events + [ev], k)) && after[k].meta.cls == ClassFor(|after[k].value|)
    {
      AgeAfter(events, ev, k);
      if k != ev.key { SetAges(before, ev.key, ev.val, ev.victim, after, k, Age(events, k)); }
    }
  }

  /** A delete, or a set that gives up after it. */
  lemma {:induction false} DeleteKeepsAges(before: Entries, events: seq<Event>, ev: Event)
    requires Aged(before, events) && before.Keys == State(events).Keys
    requires ev.DeleteEv? || (ev.SetEv? && ev.rc == 4)
    ensures Aged(AfterDelete(before, ev.key), events + [ev])
  {
    hide Age, State, Low, AfterDelete;
    var after := AfterDelete(before, ev.key);
    forall k | k in after
      ensures after[k].meta.timer == Low(Age(events + [ev], k)) && after[k].meta.cls == ClassFor(|after[k].value|)
    {
      AgeAfter(events, ev, k);
      OnlyBefore(before, ev.key, k);
      DeleteAges(before, ev.key, k, Age(events, k));
    }
  }

  /** A get starts the age of its key anew, and any call that changes nothing ages nobody. */
  lemma {:induction false} OthersKeepAges(before: Entries, events: seq<Event>, ev: Event, after: Entries)
    requires Aged(before, events)
    requires ev.GetEv? || (ev.SetEv? && ev.rc != 0 && ev.rc != 4)
    requires after == if ev.GetEv? && ev.key in before
                      then before[ev.key := before[ev.key].(meta := before[ev.key].meta.(timer := 0))] else before
    ensures Aged(after, events + [ev])
  {
    forall k | k in after
      ensures after[k].meta.timer == Low(Age(events + [ev], k)) && after[k].meta.cls == ClassFor(|after[k].value|)
    {
      AgeAfter(events, ev, k);
    }
  }

  // ---------------------------------------------------------------- whom an eviction hits

  /** The other live keys with values of the class. */
  ghost function Rivals(events: seq<Event>, key: Key, cls: nat): set<Key> {
    set k | k in State(events) && k != key && ClassFor(|State(events)[k]|) == cls
  }

  /** What the timer of k shows once the old value of the key is gone. */
  function Shown(events: seq<Event>, key: Key, k: Key): nat { Low(Age(events, k) + Once(key in State(events))) }

  ghost predicate AllFresh(events: seq<Event>, key: Key, cls: nat) {
    forall k | k in Rivals(events, key, cls) :: Shown(events, key, k) == 0
  }

  ghost predicate Stalest(events: seq<Event>, key: Key, cls: nat, v: Key) {
    && v in Rivals(events, key, cls) && Shown(events, key, v) > 0
    && forall k | k in Rivals(events, key, cls) :: Shown(events, key, k) <= Shown(events, key, v)
  }

  /** The entries the scan of an eviction sees are the rivals, with the timers shown. */
  lemma {:induction false} RivalIs(entries: Entries, events: seq<Event>, key: Key, cls: nat, k: Key)
    requires Aged(entries, events) && Contents(entries) == State(events)
    ensures var d := AfterDelete(entries, key);
            && (k in Rivals(events, key, cls) <==> k in d && d[k].meta.cls == cls)
            && (k in d ==> d[k].meta.timer == Shown(events, key, k))
  {
    hide ClassFor, Low, Age;
    assert k in entries <==> k in Contents(entries);
    OnlyBefore(entries, key, k);
    if k in entries && k != key { DeleteAges(entries, key, k, Age(events, k)); }
  }

  lemma {:induction false} FreshIsYoung(entries: Entries, events: seq<Event>, key: Key, cls: nat)
    requires Aged(entries, events) && Contents(entries) == State(events)
    ensures AllYoung(AfterDelete(entries, key), cls) <==> AllFresh(events, key, cls)
  {
    hide Aged, Contents, State, Rivals, Shown, AfterDelete;
    var d := AfterDelete(entries, key);
    forall k
      ensures k in Rivals(events, key, cls) <==> k in d && d[k].meta.cls == cls
      ensures k in d ==> d[k].meta.timer == Shown(events, key, k)
    {
      RivalIs(entries, events, key, cls, k);
    }
  }

  lemma {:induction false} StalestIsOldest(entries: Entries, events: seq<Event>, key: Key, cls: nat, v: Key)
    requires Aged(entries, events) && Contents(entries) == State(events)
    ensures IsOldest(AfterDelete(entries, key), cls, v) <==> Stalest(events, key, cls, v)
  {
    hide Aged, Contents, State, Rivals, Shown, AfterDelete;
    var d := AfterDelete(entries, key);
    forall k
      ensures k in Rivals(events, key, cls) <==> k in d && d[k].meta.cls == cls
      ensures k in d ==> d[k].meta.timer == Shown(events, key, k)
    {
      RivalIs(entries, events, key, cls, k);
    }
  }

  /** As long as no age has reached 255, the victim is the one that has gone unused for longest. */
  lemma {:induction false} VictimIsLongestUnused(events: seq<Event>, key: Key, cls: nat, v: Key)
    requires forall k | k in Rivals(events, key, cls) :: Age(events, k) < 255
    ensures Stalest(events, key, cls, v) <==>
              && v in Rivals(events, key, cls) && Age(events, v) + Once(key in State(events)) > 0
              && forall k | k in Rivals(events, key, cls) :: Age(events, k) <= Age(events, v)
  {
    hide Rivals, Age;
    forall k | k in Rivals(events, key, cls)
      ensures Shown(events, key, k) == Age(events, k) + Once(key in State(events))
    {
    }
  }

  /** Values are stored for a and b, and then one for x comes and goes, n times in all. */
  function Churn(a: Key, b: Key, x: Key, val: Value, other: Value, n: nat): seq<Event> {
    if n == 0 then [SetEv(a, val, 0, None)] + [SetEv(b, val, 0, None)]
    else Churn(a, b, x, val, other, n - 1) + [if n % 2 == 1 then SetEv(x, other, 0, None) else DeleteEv(x)]
  }

  lemma {:induction false} StateAfter(events: seq<Event>, ev: Event)
    ensures State(events + [ev]) == After(State(events), ev)
  {
    assert (events + [ev])[..|events|] == events;
  }

  lemma {:induction false} ChurnAges(a: Key, b: Key, x: Key, val: Value, other: Value, n: nat)
    requires a != b && a != x && b != x
    ensures var events := Churn(a, b, x, val, other, n);
            && State(events) == (if n % 2 == 1 then map[a := val, b := val, x := other] else map[a := val, b := val])
            && Age(events, a) == n + 1 && Age(events, b) == n
  {
    hide State, Age;
    if n == 0 {
      NoEvents(a);
      AgeAfter([], SetEv(a, val, 0, None), a);
      StateAfter([], SetEv(a, val, 0, None));
      assert [] + [SetEv(a, val, 0, None)] == [SetEv(a, val, 0, None)];
      AgeAfter([SetEv(a, val, 0, None)], SetEv(b, val, 0, None), a);
      AgeAfter([SetEv(a, val, 0, None)], SetEv(b, val, 0, None), b);
      StateAfter([SetEv(a, val, 0, None)], SetEv(b, val, 0, None));
    } else {
      ChurnAges(a, b, x, val, other, n - 1);
      var init, ev := Churn(a, b, x, val, other, n - 1), if n % 2 == 1 then SetEv(x, other, 0, None) else DeleteEv(x);
      AgeAfter(init, ev, a);
      AgeAfter(init, ev, b);
      StateAfter(init, ev);
    }
  }

  lemma NoEvents(key: Key)
    ensures State([]) == map[] && Age([], key) == 0
  {
  }

  /** Otherwise it need not be: after 256 ticks the oldest value of the class is spared, and the next one
      is the victim. */
  lemma {:induction false} WrappedIsSpared(a: Key, b: Key, x: Key, key: Key, val: Value, other: Value)
    requires a != b && a != x && b != x && key !in {a, b, x} && ClassFor(|other|) != ClassFor(|val|)
    ensures var events := Churn(a, b, x, val, other, 255);
            && Age(events, a) > Age(events, b)
            && Rivals(events, key, ClassFor(|val|)) == {a, b}
            && Stalest(events, key, ClassFor(|val|), b)
  {
    hide State, Age, ClassFor, Churn;
    var n: nat :| n == 255;
    ChurnAges(a, b, x, val, other, n);
  }

  /** After a set that gave up, every live value of the class is a multiple of 256 ticks old. */
  lemma {:induction false} GivenUpOnMultiples(events: seq<Event>, ev: Event, cls: nat, k: Key)
    requires ev.SetEv? && ev.rc == 4 && AllFresh(events, ev.key, cls) && k in Rivals(events, ev.key, cls)
    ensures Age(events + [ev], k) % 256 == 0
  {
    AgeAfter(events, ev, k);
    assert Shown(events, ev.key, k) == 0;
  }
}
