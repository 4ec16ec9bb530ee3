/** Every sequence of set, get and delete: what a get can return. */
module CacheRuns {
  import opened Common
  import opened CacheModel
  import opened Cache

  /** One call and what came of it.  A set carries its return code and the key, if any, that
      was evicted to make room. */
  datatype Event =
    | SetEv(key: Key, val: Value, rc: nat, victim: Option<Key>)
    | GetEv(key: Key, reply: Reply)
    | DeleteEv(key: Key)

  /** The state after the calls, starting from an empty cache. */
  function State(events: seq<Event>): map<Key, Value> {
    if events == [] then map[]
    else
      After(State(events[..|events| - 1]), events[|events| - 1])
  }

  function After(m: map<Key, Value>, ev: Event): map<Key, Value> {
    match ev
    case SetEv(key, val, rc, victim) => AfterSet(m, key, val, rc, victim)
    case GetEv(_, _) => m
    case DeleteEv(key) => m - {key}
  }

  /** The call stores a value under the key. */
  predicate Writes(ev: Event, key: Key) { ev.SetEv? && ev.key == key && ev.rc == 0 }

  /** The call takes the key out: a delete, an eviction for another key, or a set that gives up
      after having removed the old value. */
  predicate Removes(ev: Event, key: Key) {
    match ev
    case SetEv(k, _, rc, victim) => (rc == 4 && k == key) || (rc == 0 && k != key && victim == Some(key))
    case GetEv(_, _) => false
    case DeleteEv(k) => k == key
  }

  /** Call i wrote the key, and no later call touched it. */
  ghost predicate LastWrite(events: seq<Event>, key: Key, i: nat) {
    && i < |events|
    && Writes(events[i], key)
    && forall j | i < j < |events| :: !Writes(events[j], key) && !Removes(events[j], key)
  }

  lemma {:induction false} LastWriteStep(events: seq<Event>, key: Key, i: nat)
    requires events != [] && i < |events| - 1
    ensures LastWrite(events, key, i)
            <==> LastWrite(events[..|events| - 1], key, i)
                 && !Writes(events[|events| - 1], key) && !Removes(events[|events| - 1], key)
  {
  }

  /** A key is in the cache exactly when its last write has not been undone, and then with the
      value of that write. */
  lemma {:induction false} StateIsLastWrite(events: seq<Event>, key: Key)
    ensures key in State(events) <==> exists i: nat :: LastWrite(events, key, i)
    ensures forall i: nat | LastWrite(events, key, i) :: State(events)[key] == events[i].val
  {
    if events != [] {
      var n := |events| - 1;
      var init, ev := events[..n], events[n];
      StateIsLastWrite(init, key);
      forall i: nat | i < n
        ensures LastWrite(events, key, i) <==> LastWrite(init, key, i) && !Writes(ev, key) && !Removes(ev, key)
      {
        LastWriteStep(events, key, i);
      }
      if Writes(ev, key) {
        assert LastWrite(events, key, n);
      } else if !Removes(ev, key) && key in State(init) {
        var i: nat :| LastWrite(init, key, i);
        assert LastWrite(events, key, i);
      }
    }
  }

  /** Every get replied with what was there. */
  ghost predicate Consistent(events: seq<Event>) {
    forall n | 0 <= n < |events| && events[n].GetEv? ::
      events[n].reply == ReplyOf(State(events[..n]), events[n].key)
  }

  /** README: a get returns the most recently set value with that key, or nil, and a deleted
      value is never returned. */
  lemma {:induction false} GetReturnsLastWrite(events: seq<Event>, n: nat)
    requires Consistent(events) && n < |events| && events[n].GetEv?
    ensures events[n].reply.Nil? <==> !exists i: nat :: LastWrite(events[..n], events[n].key, i)
    ensures events[n].reply.Hit? ==>
              exists i: nat :: LastWrite(events[..n], events[n].key, i) && events[i].val == events[n].reply.value
    ensures forall j | 0 <= j < n && Removes(events[j], events[n].key) && events[n].reply.Hit? ::
              exists i :: j < i < n && Writes(events[i], events[n].key)
  {
    var key, before := events[n].key, events[..n];
    StateIsLastWrite(before, key);
    if events[n].reply.Hit? {
      var i: nat :| LastWrite(before, key, i);
      assert before[i] == events[i];
      forall j | 0 <= j < n && Removes(events[j], key)
        ensures exists i :: j < i < n && Writes(events[i], key)
      {
        assert before[j] == events[j];
        assert !Writes(before[j], key) || j != i;
        assert j < i < n && Writes(events[i], key);
      }
    }
  }

  /** With values that have no zero byte but the last, a get never fails its assertion. */
  lemma {:induction false} StringsNeverFail(events: seq<Event>, n: nat)
    requires Consistent(events) && n < |events| && events[n].GetEv?
    requires forall i | 0 <= i < |events| && events[i].SetEv? :: CString(events[i].val)
    ensures !events[n].reply.AssertFails?
  {
    var key, before := events[n].key, events[..n];
    StateIsLastWrite(before, key);
    if key in State(before) {
      var i: nat :| LastWrite(before, key, i);
      assert before[i] == events[i];
    }
  }
}
