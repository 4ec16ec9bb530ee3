/** What the calls on sockets (core/global.c) do, as their callers see it: which descriptors are accepted
    before and after, and which sockets and threads are left alone. */
module SocketEffects {
  import opened Common
  import opened Sockets

  /** Nothing has changed for the sockets other than k and the threads other than t. */
  ghost predicate Elsewhere(g: State, g': State, k: Id, t: Thread) {
    && (forall j | j != k :: j in g'.heap <==> j in g.heap)
    && (forall j | j != k && j in g.heap :: g'.heap[j] == g.heap[j])
    && (forall u | u != t :: At(g', u) == At(g, u))
  }

  /** What a caller is told about a descriptor other than s is the same as before. */
  ghost predicate OthersTold(g: State, g': State, s: int) {
    forall r | r != s :: HoldCode(g', r) == HoldCode(g, r)
  }

  /** The socket a descriptor that is accepted stands for. */
  function SockAt(g: State, s: int): Id
    requires HoldCode(g, s) == Ok
  {
    g.table.socks[s].value
  }

  // ---------------------------------------------------------------- use

  /** A call with a descriptor that is accepted holds the socket for the thread; any other changes nothing. */
  lemma {:induction false} HoldTakes(g: State, t: Thread, s: int)
    requires Inv(g) && Enabled(g, Hold(t, s))
    ensures Do(g, Hold(t, s)).Some?
    ensures var g' := Do(g, Hold(t, s)).value;
            if HoldCode(g, s) != Ok then g' == g
            else
              var k := SockAt(g, s);
              && At(g', t) == Using(k) && Elsewhere(g, g', k, t) && HoldCode(g', s) == Ok && OthersTold(g, g', s)
              && g'.heap[k].users == g.heap[k].users + {t} && g'.heap[k].holds == g.heap[k].holds + 1
  {
    hide Inv;
    HoldIsSound(g, s);
  }

  /** When the call is over the socket has one user less, and a descriptor is accepted if it was. */
  lemma {:induction false} ReleaseGives(g: State, t: Thread)
    requires Inv(g) && Enabled(g, Release(t))
    ensures Do(g, Release(t)).Some?
    ensures var g', k := Do(g, Release(t)).value, At(g, t).k;
            && At(g', t) == Outside && Elsewhere(g, g', k, t) && k in g.heap && k in g'.heap
            && t in g.heap[k].users && g'.heap[k].users == g.heap[k].users - {t}
            && g'.heap[k].holds == g.heap[k].holds - 1 && g'.heap[k].stopped == g.heap[k].stopped
            && forall r :: HoldCode(g', r) == HoldCode(g, r)
  {
    hide Inv;
    ThreadIsSound(g, t);
  }

  // ---------------------------------------------------------------- closing

  /** nn_close of a descriptor that is accepted: from then on it is refused, and the thread has two holds
      to drop.  Any other call of nn_close changes nothing. */
  lemma {:induction false} CloseStops(g: State, t: Thread, s: int)
    requires Inv(g) && Enabled(g, Close(t, s))
    ensures Do(g, Close(t, s)).Some?
    ensures var g' := Do(g, Close(t, s)).value;
            if HoldCode(g, s) != Ok then g' == g
            else
              var k := SockAt(g, s);
              && HoldCode(g', s) == Ebadf && OthersTold(g, g', s)
              && At(g', t) == Closing(k, 2, false) && Elsewhere(g, g', k, t)
              && g'.heap[k].closer == Some(t) && g'.heap[k].users == g.heap[k].users
  {
    hide Inv;
    HoldIsSound(g, s);
    InvParts(g);
    if HoldCode(g, s) == Ok {
      assert SlotOk(g, s);
      var g' := Do(g, Close(t, s)).value;
      forall r | r != s ensures HoldCode(g', r) == HoldCode(g, r) {
        if 0 <= r < MAX { assert SlotOk(g, r); }
      }
    }
  }

  /** A thread in nn_close can go on, unless it waits and the socket still has a user. */
  lemma {:induction false} CloserGoesOn(g: State, t: Thread)
    requires Inv(g) && At(g, t).Closing?
    ensures At(g, t).k in g.heap
    ensures At(g, t).due > 0 ==> Enabled(g, Drops(t))
    ensures At(g, t).due == 0 && !At(g, t).woken ==> (Enabled(g, Wakes(t)) <==> g.heap[At(g, t).k].users == {})
    ensures At(g, t).woken ==> Enabled(g, Finish(t))
  {
    hide Inv;
    ThreadIsSound(g, t);
    var x := g.heap[At(g, t).k];
    if x.users != {} {
      var u :| u in x.users;
      assert |x.users| == |x.users - {u}| + 1;
    }
  }

  /** And a user can leave. */
  lemma {:induction false} UserCanLeave(g: State, k: Id, u: Thread)
    requires Inv(g) && k in g.heap && u in g.heap[k].users
    ensures Enabled(g, Release(u)) && At(g, u).k == k
  {
    assert SockOk(g, k);
  }

  lemma {:induction false} DropsOne(g: State, t: Thread)
    requires Inv(g) && Enabled(g, Drops(t))
    ensures Do(g, Drops(t)).Some?
    ensures var g', k := Do(g, Drops(t)).value, At(g, t).k;
            && k in g.heap && At(g', t) == Closing(k, At(g, t).due - 1, false) && Elsewhere(g, g', k, t) && Same(g, g', k)
  {
    hide Inv;
    ThreadIsSound(g, t);
  }

  lemma {:induction false} WakesOnce(g: State, t: Thread)
    requires Inv(g) && Enabled(g, Wakes(t))
    ensures Do(g, Wakes(t)).Some?
    ensures var g', k := Do(g, Wakes(t)).value, At(g, t).k;
            && k in g.heap && At(g', t) == Closing(k, 0, true) && Elsewhere(g, g', k, t) && Same(g, g', k)
  {
    hide Inv;
    ThreadIsSound(g, t);
  }

  /** The table and the users and the slot of the socket are as before. */
  predicate Same(g: State, g': State, k: Id) {
    && g'.table == g.table && g'.zombie == g.zombie && g'.ready == g.ready
    && k in g.heap && k in g'.heap && g'.heap[k].users == g.heap[k].users && g'.heap[k].slot == g.heap[k].slot
  }

  /** The end of nn_close: the socket is gone and its slot empty, and a descriptor is told as before
      unless it was the last socket of all. */
  lemma {:induction false} FinishEmpties(g: State, t: Thread)
    requires Inv(g) && Enabled(g, Finish(t))
    ensures Do(g, Finish(t)).Some?
    ensures var g', k := Do(g, Finish(t)).value, At(g, t).k;
            && k in g.heap && k !in g'.heap && At(g', t) == Outside && Elsewhere(g, g', k, t)
            && g'.table.socks[g.heap[k].slot] == None && g'.table.nsocks == g.table.nsocks - 1
            && (g'.ready <==> g'.heap != map[]) && g'.zombie == g.zombie
            && (g'.ready ==> OthersTold(g, g', g.heap[k].slot))
  {
    hide Inv, SockOk, TableOk;
    ThreadIsSound(g, t);
    var k := At(g, t).k;
    SockTouches(g, k);
    FinishKeeps(g, t);
    InvParts(g);
    var g' := Do(g, Finish(t)).value;
    InvParts(g');
    forall r | r != g.heap[k].slot && g'.ready ensures HoldCode(g', r) == HoldCode(g, r) {
      if 0 <= r < MAX { assert SlotOk(g, r); }
    }
  }

  /** From nn_close on a socket without users, its four steps can be taken one after the other, and then
      the socket is gone, its slot empty and everything else as before. */
  lemma {:induction false} CloseGoesThrough(g: State, t: Thread)
    requires Inv(g) && At(g, t).Closing? && At(g, t).due == 2
    requires At(g, t).k in g.heap && g.heap[At(g, t).k].users == {}
    ensures var steps := [Drops(t), Drops(t), Wakes(t), Finish(t)];
            && Plays(g, steps)
            && var g', k := Run(g, steps), At(g, t).k;
            && k !in g'.heap && At(g', t) == Outside && Elsewhere(g, g', k, t)
            && g'.table.socks[g.heap[k].slot] == None && g'.table.nsocks == g.table.nsocks - 1
  {
    hide Inv, Do, Enabled, TableOk;
    CloserGoesOn(g, t);
    DropsOne(g, t);
    DoKeeps(g, Drops(t));
    var g1 := Do(g, Drops(t)).value;
    CloserGoesOn(g1, t);
    DropsOne(g1, t);
    DoKeeps(g1, Drops(t));
    var g2 := Do(g1, Drops(t)).value;
    CloserGoesOn(g2, t);
    WakesOnce(g2, t);
    DoKeeps(g2, Wakes(t));
    var g3 := Do(g2, Wakes(t)).value;
    CloserGoesOn(g3, t);
    FinishEmpties(g3, t);
    FourSteps(g, Drops(t), Drops(t), Wakes(t), Finish(t));
  }

  lemma {:induction false} FourSteps(g: State, a: Event, b: Event, c: Event, d: Event)
    requires Enabled(g, a) && Do(g, a).Some?
    requires var g1 := Do(g, a).value; Enabled(g1, b) && Do(g1, b).Some?
    requires var g2 := Do(Do(g, a).value, b).value; Enabled(g2, c) && Do(g2, c).Some?
    requires var g3 := Do(Do(Do(g, a).value, b).value, c).value; Enabled(g3, d) && Do(g3, d).Some?
    ensures Plays(g, [a, b, c, d])
    ensures Run(g, [a, b, c, d]) == Do(Do(Do(Do(g, a).value, b).value, c).value, d).value
  {
    hide Do, Enabled;
    assert [a, b, c, d][1..] == [b, c, d] && [b, c, d][1..] == [c, d] && [c, d][1..] == [d] && [d][1..] == [];
    var g1 := Do(g, a).value;
    var g2 := Do(g1, b).value;
    var g3 := Do(g2, c).value;
    assert Plays(g3, [d]) && Run(g3, [d]) == Do(g3, d).value;
    assert Plays(g2, [c, d]) && Run(g2, [c, d]) == Do(g3, d).value;
    assert Plays(g1, [b, c, d]) && Run(g1, [b, c, d]) == Do(g3, d).value;
  }

  // ---------------------------------------------------------------- opening and the end

  ghost function SlotsOf(g: State, ks: set<Id>): set<nat>
    requires ks <= g.heap.Keys
  {
    set k | k in ks :: g.heap[k].slot
  }

  lemma {:induction false} SlotsCount(g: State, ks: set<Id>)
    requires Inv(g) && ks <= g.heap.Keys
    ensures |SlotsOf(g, ks)| == |ks|
    decreases ks
  {
    hide Inv, SockOk;
    InvParts(g);
    if ks != {} {
      var k :| k in ks;
      SlotsCount(g, ks - {k});
      assert SlotsOf(g, ks) == SlotsOf(g, ks - {k}) + {g.heap[k].slot};
      forall j | j in ks - {k} ensures g.heap[j].slot != g.heap[k].slot {
        SockTouches(g, j);
        SockTouches(g, k);
      }
    }
  }

  /** The table counts the open sockets. */
  lemma {:induction false} TableCounts(g: State)
    requires Inv(g) && g.ready
    ensures g.table.nsocks == |g.heap|
  {
    hide SockOk, Inv;
    InvParts(g);
    forall s ensures s in Occupied(g.table) <==> s in SlotsOf(g, g.heap.Keys) {
      if s in Occupied(g.table) {
        assert SlotOk(g, s);
        assert g.table.socks[s].value in g.heap.Keys;
      }
      if k :| k in g.heap.Keys && g.heap[k].slot == s { SockTouches(g, k); }
    }
    assert Occupied(g.table) == SlotsOf(g, g.heap.Keys);
    SlotsCount(g, g.heap.Keys);
    assert |g.heap.Keys| == |g.heap|;
  }

  /** What nn_socket returns: a socket if and only if the library is not being terminated, fewer than 512
      are open, and there is one of the kind. */
  lemma {:induction false} OpenTells(g: State, fits: bool)
    requires Inv(g)
    ensures DoOpen(g, fits).0 == if g.zombie then Eterm else if |g.heap| >= MAX then Emfile else if fits then Ok else Failed
  {
    hide Inv, Fresh;
    FreshOk();
    InvParts(g);
    if g.ready { TableCounts(g); }
  }

  /** A socket opened takes a slot that was empty, whose number is a descriptor that is accepted from then
      on; the others are told as before, once there is a table. */
  lemma {:induction false} OpenTakes(g: State, fits: bool) returns (s: Slot)
    requires Inv(g) && DoOpen(g, fits).0 == Ok
    ensures var g' := DoOpen(g, fits).1;
            && HoldCode(g, s) != Ok && HoldCode(g', s) == Ok && SockAt(g', s) == g.next && g.next !in g.heap
            && (forall j | j in g.heap :: j in g'.heap && g'.heap[j] == g.heap[j]) && g'.heap.Keys == g.heap.Keys + {g.next}
            && g'.threads == g.threads
            && forall r | r != s :: HoldCode(g', r) == if g.ready then HoldCode(g, r) else Ebadf
  {
    hide Inv, SockOk, TableOk, Fresh;
    FreshOk();
    InvParts(g);
    NextIsNew(g);
    var table := if g.ready then g.table else Fresh();
    PutKeeps(table, g.next);
    s := table.unused[MAX - table.nsocks - 1];
    var g' := DoOpen(g, fits).1;
    forall r | r != s ensures HoldCode(g', r) == if g.ready then HoldCode(g, r) else Ebadf {
      if 0 <= r < MAX {
        assert g'.table.socks[r] == table.socks[r];
        if g.ready { assert SlotOk(g, r); }
      }
    }
  }

  /** nn_socket without success leaves everything as it is. */
  lemma {:induction false} OpenFails(g: State, fits: bool)
    requires Inv(g) && DoOpen(g, fits).0 != Ok
    ensures var g' := DoOpen(g, fits).1;
            g'.heap == g.heap && g'.threads == g.threads && forall r :: HoldCode(g', r) == HoldCode(g, r)
  {
    ReadyCounts(g);
  }

  /** After nn_term no descriptor is accepted and no socket opened, and those in use stay. */
  lemma {:induction false} TermEnds(g: State, s: int, fits: bool)
    requires Inv(g)
    ensures Enabled(g, Term) && Do(g, Term).Some?
    ensures var g' := Do(g, Term).value;
            && HoldCode(g', s) == Eterm && DoOpen(g', fits).0 == Eterm
            && g'.heap == g.heap && g'.threads == g.threads && g'.table == g.table
  {
  }
}
