/** The table of sockets and the holds on them (core/global.c and core/sock.c): threads open, use and
    close sockets in any order, each step under the global lock or atomic. */
module Sockets {
  import opened Common

  const MAX: nat := 512

  type Id = nat
  type Thread = nat

  /** The table: a socket or nothing in each slot, the stack of empty slots, and the number of sockets. */
  datatype Lists = Table(socks: seq<Option<Id>>, unused: seq<Slot>, nsocks: nat)
  type Table = t: Lists | |t.socks| == |t.unused| == MAX && t.nsocks <= MAX
    witness Table(seq(MAX, _ => None), seq(MAX, _ => 0), 0)
  type Slot = s: int | 0 <= s < MAX

  function Occupied(t: Table): set<nat> { set s | 0 <= s < |t.socks| && t.socks[s].Some? }

  /** The slot is somewhere on the stack. */
  predicate Stacked(t: Table, s: nat) {
    exists i | 0 <= i < MAX - t.nsocks :: t.unused[i] == s
  }

  /** The stack lists exactly the empty slots, each once. */
  ghost predicate TableOk(t: Table) {
    && t.nsocks == |Occupied(t)|
    && (forall i | 0 <= i < MAX - t.nsocks :: t.socks[t.unused[i]].None?)
    && (forall i, j | 0 <= i < j < MAX - t.nsocks :: t.unused[i] != t.unused[j])
    && (forall s | 0 <= s < MAX && t.socks[s].None? :: Stacked(t, s))
  }

  function Put(t: Table, k: Id): Table
    requires t.nsocks < MAX
  {
    Table(t.socks[t.unused[MAX - t.nsocks - 1] := Some(k)], t.unused, t.nsocks + 1)
  }

  function Drop(t: Table, s: Slot): Table
    requires t.nsocks > 0
  {
    Table(t.socks[s := None], t.unused[MAX - t.nsocks := s], t.nsocks - 1)
  }

  lemma {:induction false} PutKeeps(t: Table, k: Id)
    requires TableOk(t) && t.nsocks < MAX
    ensures TableOk(Put(t, k)) && t.socks[t.unused[MAX - t.nsocks - 1]].None?
  {
    var n := MAX - t.nsocks - 1;
    var s, t' := t.unused[n], Put(t, k);
    assert Occupied(t') == Occupied(t) + {s};
    forall r | 0 <= r < MAX && t'.socks[r].None? ensures Stacked(t', r) {
      assert Stacked(t, r);
      var i :| 0 <= i < MAX - t.nsocks && t.unused[i] == r;
      assert i != n;
    }
  }

  lemma {:induction false} DropKeeps(t: Table, s: Slot)
    requires TableOk(t) && t.socks[s].Some?
    ensures t.nsocks > 0 && TableOk(Drop(t, s))
  {
    assert s in Occupied(t);
    var t' := Drop(t, s);
    assert Occupied(t') == Occupied(t) - {s};
    forall r | 0 <= r < MAX && t'.socks[r].None? ensures Stacked(t', r) {
      if r == s {
        assert t'.unused[MAX - t.nsocks] == s;
      } else {
        assert Stacked(t, r);
        var i :| 0 <= i < MAX - t.nsocks && t.unused[i] == r;
        assert t'.unused[i] == r;
      }
    }
  }

  /** nn_global_init */
  function Fresh(): Table { Table(seq(MAX, _ => None), seq(MAX, i => MAX - i - 1), 0) }

  lemma {:induction false} FreshOk()
    ensures TableOk(Fresh()) && Fresh().nsocks == 0 && forall s: Slot :: Fresh().socks[s].None?
  {
    var t := Fresh();
    assert Occupied(t) == {};
    forall s | 0 <= s < MAX ensures Stacked(t, s) { assert t.unused[MAX - s - 1] == s; }
  }

  /** The global table in place. */
  class Global {
    const socks: array<Option<Id>>
    const unused: array<Slot>
    var nsocks: nat

    ghost predicate Valid()
      reads this, socks, unused
    {
      socks.Length == unused.Length == MAX && nsocks <= MAX && TableOk(View())
    }

    ghost function View(): Table
      requires socks.Length == unused.Length == MAX && nsocks <= MAX
      reads this, socks, unused
    {
      Table(socks[..], unused[..], nsocks)
    }

    /** nn_global_init */
    constructor ()
      ensures Valid() && View() == Fresh() && fresh(socks) && fresh(unused)
    {
      nsocks := 0;
      socks := new Option<Id>[MAX](_ => None);
      unused := new Slot[MAX](i => MAX - i - 1);
      new;
      assert View() == Fresh();
      FreshOk();
    }

    /** The part of nn_global_create_socket that takes a slot; -1 if there are too many sockets. */
    method Create(k: Id) returns (s: int)
      requires Valid()
      modifies this, socks
      ensures Valid()
      ensures s == -1 <==> old(nsocks) >= MAX
      ensures s == -1 ==> View() == old(View())
      ensures s != -1 ==> 0 <= s < MAX && old(socks[s]).None? && socks[s] == Some(k) && View() == Put(old(View()), k)
    {
      hide TableOk;
      if nsocks >= MAX { return -1; }
      PutKeeps(View(), k);
      s := unused[MAX - nsocks - 1];
      socks[s] := Some(k);
      nsocks := nsocks + 1;
      assert View() == Put(old(View()), k);
    }

    /** The end of nn_close: the slot is given back. */
    method Remove(s: Slot)
      requires Valid() && socks[s].Some?
      modifies this, socks, unused
      ensures Valid() && old(nsocks) > 0 && View() == Drop(old(View()), s)
    {
      hide TableOk;
      DropKeeps(View(), s);
      socks[s] := None;
      unused[MAX - nsocks] := s;
      nsocks := nsocks - 1;
      assert View() == Drop(old(View()), s);
    }
  }

  /** A socket. The slot, the users and the closer are not stored by the code: they say whose holds
      are counted. */
  datatype Sock = Sock(stopped: bool, holds: int, sem: nat, posts: nat,
                       slot: Slot, users: set<Thread>, closer: Option<Thread>)

  /** Where a thread is: outside, between hold and release, or in nn_close with so many of its two
      releases to do and, after them, the wait for the semaphore done or not. */
  datatype Phase = Outside | Using(k: Id) | Closing(k: Id, due: nat, woken: bool)

  datatype State = State(ready: bool, zombie: bool, table: Table, heap: map<Id, Sock>, next: Id,
                         threads: map<Thread, Phase>)

  /** Crash is a pointer to a socket that is no more. */
  datatype Errno = Ok | Ebadf | Eterm | Emfile | Failed | Crash

  /** nn_global_hold_socket_locked up to the hold itself. */
  function HoldCode(g: State, s: int): Errno {
    if !g.ready || g.zombie then Eterm
    else if s < 0 || s >= MAX then Ebadf
    else if g.table.socks[s].None? then Ebadf
    else if g.table.socks[s].value !in g.heap then Crash
    else if g.heap[g.table.socks[s].value].stopped then Ebadf
    else Ok
  }

  /** nn_sock_rele */
  function Rele(k: Sock): Sock {
    if k.holds - 1 == 0 then k.(holds := 0, sem := k.sem + 1, posts := k.posts + 1)
    else k.(holds := k.holds - 1)
  }

  datatype Event =
    | Open(fits: bool)
    | Hold(t: Thread, s: int)
    | Release(t: Thread)
    | Close(t: Thread, s: int)
    | Drops(t: Thread)
    | Wakes(t: Thread)
    | Finish(t: Thread)
    | Term

  function At(g: State, t: Thread): Phase { if t in g.threads then g.threads[t] else Outside }

  predicate Enabled(g: State, e: Event) {
    match e
    case Open(_) => true
    case Term => true
    case Hold(t, _) => At(g, t) == Outside
    case Close(t, _) => At(g, t) == Outside
    case Release(t) => At(g, t).Using?
    case Drops(t) => At(g, t).Closing? && At(g, t).due > 0
    case Wakes(t) =>
      && At(g, t).Closing? && At(g, t).due == 0 && !At(g, t).woken
      && (At(g, t).k in g.heap ==> g.heap[At(g, t).k].sem > 0)
    case Finish(t) => At(g, t).Closing? && At(g, t).woken
  }

  /** What the code relies on where it goes through a pointer: the socket is still allocated, and it is
      still in its slot. */
  predicate Touches(g: State, k: Id) {
    && k in g.heap
    && g.table.nsocks > 0
    && g.table.socks[g.heap[k].slot] == Some(k)
  }

  /** nn_socket */
  function DoOpen(g: State, fits: bool): (Errno, State) {
    if g.zombie then (Eterm, g)
    else
      var table := if g.ready then g.table else Fresh();
      if table.nsocks >= MAX then (Emfile, g)
      else if !fits then (Failed, g.(ready := table.nsocks > 0, table := table))
      else
        var slot := table.unused[MAX - table.nsocks - 1];
        (Ok, g.(ready := true, table := Put(table, g.next), next := g.next + 1,
                heap := g.heap[g.next := Sock(false, 1, 0, 0, slot, {}, None)]))
  }

  function Do(g: State, e: Event): Option<State>
    requires Enabled(g, e)
  {
    match e
    case Open(fits) => Some(DoOpen(g, fits).1)
    case Term => Some(g.(zombie := true))
    case Hold(t, s) =>
      if HoldCode(g, s) == Crash then None
      else if HoldCode(g, s) != Ok then Some(g)
      else
        var k := g.table.socks[s].value;
        var sock := g.heap[k];
        Some(g.(heap := g.heap[k := sock.(holds := sock.holds + 1, users := sock.users + {t})],
                threads := g.threads[t := Using(k)]))
    case Close(t, s) =>
      if HoldCode(g, s) == Crash then None
      else if HoldCode(g, s) != Ok then Some(g)
      else
        var k := g.table.socks[s].value;
        var sock := g.heap[k];
        Some(g.(heap := g.heap[k := sock.(holds := sock.holds + 1, stopped := true, closer := Some(t))],
                threads := g.threads[t := Closing(k, 2, false)]))
    case Release(t) =>
      var k := At(g, t).k;
      if !Touches(g, k) then None
      else Some(g.(heap := g.heap[k := Rele(g.heap[k].(users := g.heap[k].users - {t}))],
                   threads := g.threads[t := Outside]))
    case Drops(t) =>
      var k := At(g, t).k;
      if !Touches(g, k) then None
      else Some(g.(heap := g.heap[k := Rele(g.heap[k])],
                   threads := g.threads[t := Closing(k, At(g, t).due - 1, false)]))
    case Wakes(t) =>
      var k := At(g, t).k;
      if !Touches(g, k) then None
      else Some(g.(heap := g.heap[k := g.heap[k].(sem := g.heap[k].sem - 1)],
                   threads := g.threads[t := Closing(k, 0, true)]))
    case Finish(t) =>
      var k := At(g, t).k;
      if !Touches(g, k) then None
      else
        var table := Drop(g.table, g.heap[k].slot);
        Some(g.(heap := g.heap - {k}, table := table, ready := table.nsocks > 0,
                threads := g.threads[t := Outside]))
  }

  /** The holds on a socket are those of its users and, until it is closed, one for its being open;
      then as many as its one closer has yet to release. The semaphore is posted when they are gone. */
  predicate SockOk(g: State, k: Id)
    requires k in g.heap
  {
    var x := g.heap[k];
    && k < g.next
    && Touches(g, k)
    && x.stopped == x.closer.Some?
    && (forall t | t in x.users :: At(g, t) == Using(k))
    && (x.closer.Some? ==> At(g, x.closer.value).Closing? && At(g, x.closer.value).k == k)
    && x.holds == |x.users| + Due(g, k)
    && x.posts == (if x.holds == 0 then 1 else 0)
    && x.posts == x.sem + (if Woken(g, k) then 1 else 0)
  }

  function Due(g: State, k: Id): int
    requires k in g.heap
  {
    var c := g.heap[k].closer;
    if c.None? then 1 else if At(g, c.value).Closing? then At(g, c.value).due else 0
  }

  predicate Woken(g: State, k: Id)
    requires k in g.heap
  {
    var c := g.heap[k].closer;
    c.Some? && At(g, c.value).Closing? && At(g, c.value).woken
  }

  predicate ThreadOk(g: State, t: Thread) {
    match At(g, t)
    case Outside => true
    case Using(k) => k in g.heap && t in g.heap[k].users
    case Closing(k, due, woken) => k in g.heap && g.heap[k].closer == Some(t) && due <= 2 && (woken ==> due == 0)
  }

  predicate SlotOk(g: State, s: Slot) {
    g.table.socks[s].Some? ==> g.table.socks[s].value in g.heap && g.heap[g.table.socks[s].value].slot == s
  }

  ghost predicate Inv(g: State) {
    && (g.ready ==> TableOk(g.table))
    && (g.ready <==> g.heap != map[])
    && (forall k | k in g.heap :: SockOk(g, k))
    && (forall t | t in g.threads :: ThreadOk(g, t))
    && (g.ready ==> forall s | 0 <= s < MAX :: SlotOk(g, s))
  }

  lemma {:induction false} OccupiedCounts(t: Table, s: Slot)
    requires TableOk(t) && t.socks[s].Some?
    ensures t.nsocks > 0
  {
    assert s in Occupied(t);
  }

  lemma {:induction false} ReadyCounts(g: State)
    requires Inv(g)
    ensures g.ready ==> g.table.nsocks > 0
  {
  }

  lemma {:induction false} OpenKeeps(g: State, fits: bool)
    requires Inv(g)
    ensures Inv(DoOpen(g, fits).1)
  {
    hide TableOk, SockOk, Inv, Fresh, Put;
    FreshOk();
    ReadyCounts(g);
    InvParts(g);
    var table := if g.ready then g.table else Fresh();
    if DoOpen(g, fits).0 == Ok {
      var g' := Opened(g, table);
      OpenSlots(g, table);
      NextIsNew(g);
      forall k | k in g'.heap ensures SockOk(g', k) {
        if k != g.next { OpenOthers(g, table, k); } else { OpenNew(g, table); }
      }
      forall t | t in g'.threads ensures ThreadOk(g', t) { assert ThreadOk(g, t); }
      InvFrom(g');
    } else if DoOpen(g, fits).0 == Failed {
      if g.ready { assert g.(ready := true, table := g.table) == g; } else { InvFrom(g.(ready := false, table := table)); }
    }
  }

  lemma {:induction false} OpenNew(g: State, table: Table)
    requires table.nsocks < MAX
    ensures SockOk(Opened(g, table), g.next)
  {
  }

  /** The socket that DoOpen makes, in the slot on top of the stack. */
  function Opened(g: State, table: Table): State
    requires table.nsocks < MAX
  {
    g.(ready := true, table := Put(table, g.next), next := g.next + 1,
       heap := g.heap[g.next := Sock(false, 1, 0, 0, table.unused[MAX - table.nsocks - 1], {}, None)])
  }

  lemma {:induction false} OpenSlots(g: State, table: Table)
    requires Inv(g) && TableOk(table) && table.nsocks < MAX && (if g.ready then table == g.table else table == Fresh())
    ensures TableOk(Opened(g, table).table) && forall s: Slot :: SlotOk(Opened(g, table), s)
  {
    hide TableOk, SockOk;
    PutKeeps(table, g.next);
    var g' := Opened(g, table);
    forall s: Slot ensures SlotOk(g', s) {
      if g.ready { assert SlotOk(g, s); } else { assert table.socks[s].None?; }
      if g.ready && g.table.socks[s].Some? { assert SockOk(g, g.table.socks[s].value); NextIsNew(g); }
    }
  }

  lemma {:induction false} NextIsNew(g: State)
    requires forall k | k in g.heap :: SockOk(g, k)
    ensures g.next !in g.heap
  {
  }

  lemma {:induction false} OpenOthers(g: State, table: Table, k: Id)
    requires Inv(g) && TableOk(table) && table.nsocks < MAX && g.ready && table == g.table && k in g.heap
    ensures SockOk(Opened(g, table), k)
  {
    hide TableOk;
    PutKeeps(table, g.next);
    NextIsNew(g);
    var g' := Opened(g, table);
    assert SockOk(g, k);
    assert g'.heap[k] == g.heap[k] && forall t :: At(g', t) == At(g, t);
  }

  /** One thread takes a step with one socket. */
  function Step(g: State, t: Thread, k: Id, x: Sock, ph: Phase): State {
    g.(heap := g.heap[k := x], threads := g.threads[t := ph])
  }

  predicate Concerns(ph: Phase, k: Id) { ph == Outside || ph.k == k }

  /** Such a step leaves all other sockets and threads as they are. */
  lemma {:induction false} StepKeeps(g: State, t: Thread, k: Id, x: Sock, ph: Phase)
    requires Inv(g) && k in g.heap && Concerns(At(g, t), k) && Concerns(ph, k)
    requires x.slot == g.heap[k].slot && x.users - {t} == g.heap[k].users - {t}
    requires x.closer == g.heap[k].closer || (x.closer == Some(t) && g.heap[k].closer == None)
    requires SockOk(Step(g, t, k, x, ph), k) && ThreadOk(Step(g, t, k, x, ph), t)
    ensures Inv(Step(g, t, k, x, ph))
  {
    hide TableOk;
    var g' := Step(g, t, k, x, ph);
    forall j | j in g'.heap ensures SockOk(g', j) {
      if j != k { OtherSock(g, t, k, x, ph, j); }
    }
    forall u | u in g'.threads ensures ThreadOk(g', u) {
      if u != t { OtherThread(g, t, k, x, ph, u); }
    }
    forall s | 0 <= s < MAX ensures g'.ready ==> SlotOk(g', s) {
      assert g.ready ==> SlotOk(g, s);
    }
  }

  lemma {:induction false} OtherSock(g: State, t: Thread, k: Id, x: Sock, ph: Phase, j: Id)
    requires j in g.heap && j != k && SockOk(g, j) && Concerns(At(g, t), k) && Concerns(ph, k)
    ensures SockOk(Step(g, t, k, x, ph), j)
  {
  }

  lemma {:induction false} SameSock(g: State, g': State, t: Thread, j: Id)
    requires j in g.heap && SockOk(g, j) && (At(g, t) == Outside || At(g, t).k != j)
    requires Touches(g', j) && g'.heap[j] == g.heap[j] && g'.next >= g.next
    requires forall u | u != t :: At(g', u) == At(g, u)
    ensures SockOk(g', j)
  {
  }

  lemma {:induction false} OtherThread(g: State, t: Thread, k: Id, x: Sock, ph: Phase, u: Thread)
    requires k in g.heap && ThreadOk(g, u) && u != t
    requires x.users - {t} == g.heap[k].users - {t}
    requires x.closer == g.heap[k].closer || (x.closer == Some(t) && g.heap[k].closer == None)
    ensures ThreadOk(Step(g, t, k, x, ph), u)
  {
    assert u in g.heap[k].users - {t} <==> u in x.users - {t};
  }

  lemma {:induction false} HoldIsSound(g: State, s: int)
    requires Inv(g)
    ensures HoldCode(g, s) != Crash
    ensures HoldCode(g, s) == Ok ==> SockOk(g, g.table.socks[s].value) && !g.heap[g.table.socks[s].value].stopped
  {
    if g.ready && 0 <= s < MAX { assert SlotOk(g, s); }
  }

  lemma {:induction false} ThreadIsSound(g: State, t: Thread)
    requires Inv(g) && At(g, t) != Outside
    ensures ThreadOk(g, t) && SockOk(g, At(g, t).k)
  {
  }

  lemma {:induction false} HoldKeeps(g: State, t: Thread, s: int)
    requires Inv(g) && Enabled(g, Hold(t, s))
    ensures Do(g, Hold(t, s)).Some? && Inv(Do(g, Hold(t, s)).value)
  {
    hide Inv, TableOk;
    HoldIsSound(g, s);
    if HoldCode(g, s) == Ok {
      var k := g.table.socks[s].value;
      var x := g.heap[k];
      var x' := x.(holds := x.holds + 1, users := x.users + {t});
      assert t !in x.users;
      assert forall u | u != t :: At(Step(g, t, k, x', Using(k)), u) == At(g, u);
      StepKeeps(g, t, k, x', Using(k));
    }
  }

  lemma {:induction false} CloseKeeps(g: State, t: Thread, s: int)
    requires Inv(g) && Enabled(g, Close(t, s))
    ensures Do(g, Close(t, s)).Some? && Inv(Do(g, Close(t, s)).value)
  {
    hide Inv, TableOk;
    HoldIsSound(g, s);
    if HoldCode(g, s) == Ok {
      var k := g.table.socks[s].value;
      var x := g.heap[k];
      var x' := x.(holds := x.holds + 1, stopped := true, closer := Some(t));
      assert t !in x.users;
      assert forall u | u != t :: At(Step(g, t, k, x', Closing(k, 2, false)), u) == At(g, u);
      StepKeeps(g, t, k, x', Closing(k, 2, false));
    }
  }

  lemma {:induction false} ReleaseKeeps(g: State, t: Thread)
    requires Inv(g) && Enabled(g, Release(t))
    ensures Do(g, Release(t)).Some? && Inv(Do(g, Release(t)).value)
  {
    hide Inv, TableOk;
    ThreadIsSound(g, t);
    var k := At(g, t).k;
    var x := g.heap[k];
    var x' := Rele(x.(users := x.users - {t}));
    ReleasedOk(g, t, k);
    StepKeeps(g, t, k, x', Outside);
  }

  lemma {:induction false} ReleasedOk(g: State, t: Thread, k: Id)
    requires At(g, t) == Using(k) && ThreadOk(g, t) && SockOk(g, k)
    ensures SockOk(Step(g, t, k, Rele(g.heap[k].(users := g.heap[k].users - {t})), Outside), k)
  {
    hide TableOk;
    var x := g.heap[k];
    var x' := Rele(x.(users := x.users - {t}));
    assert |x.users| == |x'.users| + 1;
    assert forall u | u != t :: At(Step(g, t, k, x', Outside), u) == At(g, u);
  }

  lemma {:induction false} DropsKeeps(g: State, t: Thread)
    requires Inv(g) && Enabled(g, Drops(t))
    ensures Do(g, Drops(t)).Some? && Inv(Do(g, Drops(t)).value)
  {
    hide Inv, TableOk;
    ThreadIsSound(g, t);
    var k := At(g, t).k;
    var x', ph := Rele(g.heap[k]), Closing(k, At(g, t).due - 1, false);
    assert forall u | u != t :: At(Step(g, t, k, x', ph), u) == At(g, u);
    StepKeeps(g, t, k, x', ph);
  }

  lemma {:induction false} WakesKeeps(g: State, t: Thread)
    requires Inv(g) && Enabled(g, Wakes(t))
    ensures Do(g, Wakes(t)).Some? && Inv(Do(g, Wakes(t)).value)
  {
    hide Inv, TableOk;
    ThreadIsSound(g, t);
    var k := At(g, t).k;
    var x' := g.heap[k].(sem := g.heap[k].sem - 1);
    assert forall u | u != t :: At(Step(g, t, k, x', Closing(k, 0, true)), u) == At(g, u);
    StepKeeps(g, t, k, x', Closing(k, 0, true));
  }

  /** When a socket is freed nobody holds it any more. */
  lemma {:induction false} FinishAlone(g: State, t: Thread)
    requires Inv(g) && Enabled(g, Finish(t))
    ensures At(g, t).k in g.heap && g.heap[At(g, t).k].users == {} && g.heap[At(g, t).k].holds == 0
  {
  }

  /** A socket goes, with the thread that closed it. */
  function Gone(g: State, t: Thread, k: Id): State
    requires k in g.heap && g.table.nsocks > 0
  {
    var table := Drop(g.table, g.heap[k].slot);
    g.(heap := g.heap - {k}, table := table, ready := table.nsocks > 0, threads := g.threads[t := Outside])
  }

  lemma {:induction false} FinishKeeps(g: State, t: Thread)
    requires Inv(g) && Enabled(g, Finish(t))
    ensures Do(g, Finish(t)).Some? && Inv(Do(g, Finish(t)).value)
  {
    hide TableOk, SockOk, Inv;
    ThreadIsSound(g, t);
    SockTouches(g, At(g, t).k);
    var k := At(g, t).k;
    FinishAlone(g, t);
    InvParts(g);
    GoneTable(g, t, k);
    var g' := Gone(g, t, k);
    forall j | j in g'.heap ensures SockOk(g', j) { GoneOther(g, t, k, j); }
    forall u | u in g'.threads ensures ThreadOk(g', u) {
      if u != t { assert ThreadOk(g, u); }
    }
    InvFrom(g');
  }

  lemma SockTouches(g: State, k: Id)
    requires k in g.heap && SockOk(g, k)
    ensures Touches(g, k)
  {
  }

  lemma InvParts(g: State)
    requires Inv(g)
    ensures g.ready ==> TableOk(g.table)
    ensures g.ready <==> g.heap != map[]
    ensures forall k | k in g.heap :: SockOk(g, k)
    ensures forall t | t in g.threads :: ThreadOk(g, t)
    ensures g.ready ==> forall s: Slot :: SlotOk(g, s)
  {
  }

  lemma InvFrom(g: State)
    requires g.ready ==> TableOk(g.table)
    requires g.ready <==> g.heap != map[]
    requires forall k | k in g.heap :: SockOk(g, k)
    requires forall t | t in g.threads :: ThreadOk(g, t)
    requires g.ready ==> forall s: Slot :: SlotOk(g, s)
    ensures Inv(g)
  {
  }

  lemma {:induction false} GoneTable(g: State, t: Thread, k: Id)
    requires Inv(g) && k in g.heap
    ensures g.table.nsocks > 0
    ensures TableOk(Gone(g, t, k).table) && forall s: Slot :: SlotOk(Gone(g, t, k), s)
    ensures Gone(g, t, k).ready <==> Gone(g, t, k).heap != map[]
  {
    hide TableOk;
    assert SockOk(g, k);
    var slot := g.heap[k].slot;
    DropKeeps(g.table, slot);
    var g' := Gone(g, t, k);
    forall s: Slot ensures SlotOk(g', s) { assert SlotOk(g, s); }
    if g'.heap != map[] {
      var j :| j in g'.heap;
      assert SockOk(g, j);
      OccupiedCounts(g'.table, g'.heap[j].slot);
    } else {
      forall s: Slot ensures g'.table.socks[s].None? { assert SlotOk(g', s); }
      NoneOccupied(g'.table);
    }
  }

  lemma {:induction false} NoneOccupied(t: Table)
    requires TableOk(t) && forall s: Slot :: t.socks[s].None?
    ensures t.nsocks == 0
  {
  }

  lemma DropElsewhere(t: Table, s: Slot, r: Slot)
    requires t.nsocks > 0 && r != s
    ensures Drop(t, s).socks[r] == t.socks[r]
  {
  }

  lemma {:induction false} GoneOther(g: State, t: Thread, k: Id, j: Id)
    requires Inv(g) && k in g.heap && g.table.nsocks > 0 && Concerns(At(g, t), k)
    requires j in g.heap && j != k
    ensures SockOk(Gone(g, t, k), j)
  {
    hide TableOk, Inv, Drop;
    InvParts(g);
    GoneTable(g, t, k);
    assert SockOk(g, j) && SockOk(g, k);
    var g', y := Gone(g, t, k), g.heap[j];
    assert y.slot != g.heap[k].slot;
    DropElsewhere(g.table, g.heap[k].slot, y.slot);
    OccupiedCounts(g'.table, y.slot);
    SameSock(g, g', t, j);
  }

  lemma {:induction false} DoKeeps(g: State, e: Event)
    requires Inv(g) && Enabled(g, e)
    ensures Do(g, e).Some? && Inv(Do(g, e).value)
  {
    hide Inv, Do, Enabled;
    match e
    case Open(fits) => OpenDoes(g, fits); OpenKeeps(g, fits);
    case Hold(t, s) => HoldKeeps(g, t, s);
    case Release(t) => ReleaseKeeps(g, t);
    case Close(t, s) => CloseKeeps(g, t, s);
    case Drops(t) => DropsKeeps(g, t);
    case Wakes(t) => WakesKeeps(g, t);
    case Finish(t) => FinishKeeps(g, t);
    case Term => TermKeeps(g);
  }

  lemma OpenDoes(g: State, fits: bool)
    ensures Enabled(g, Open(fits)) && Do(g, Open(fits)) == Some(DoOpen(g, fits).1)
  {
  }

  lemma {:induction false} TermKeeps(g: State)
    requires Inv(g)
    ensures Enabled(g, Term) && Do(g, Term).Some? && Inv(Do(g, Term).value)
  {
    hide TableOk;
    var g' := g.(zombie := true);
    forall k | k in g'.heap ensures SockOk(g', k) {
      assert SockOk(g, k) && forall t :: At(g', t) == At(g, t);
    }
    forall t | t in g'.threads ensures ThreadOk(g', t) { assert ThreadOk(g, t); }
    forall s | 0 <= s < MAX ensures g'.ready ==> SlotOk(g', s) { assert g.ready ==> SlotOk(g, s); }
  }

  /** Before the first socket is opened. */
  function Start(): State { State(false, false, Fresh(), map[], 0, map[]) }

  /** The events happen one after the other, and none of them goes through a dangling pointer. */
  predicate Plays(g: State, events: seq<Event>)
    decreases |events|
  {
    events == [] || (Enabled(g, events[0]) && Do(g, events[0]).Some? && Plays(Do(g, events[0]).value, events[1..]))
  }

  /** Each event is one that some thread can take next. */
  predicate Possible(g: State, events: seq<Event>)
    decreases |events|
  {
    events == []
    || (Enabled(g, events[0]) && (Do(g, events[0]).Some? ==> Possible(Do(g, events[0]).value, events[1..])))
  }

  function Run(g: State, events: seq<Event>): State
    requires Plays(g, events)
    decreases |events|
  {
    if events == [] then g else Run(Do(g, events[0]).value, events[1..])
  }

  lemma {:induction false} RunKeeps(g: State, events: seq<Event>)
    requires Inv(g) && Possible(g, events)
    ensures Plays(g, events) && Inv(Run(g, events))
    decreases |events|
  {
    hide Inv, Do, Enabled;
    if events != [] {
      DoKeeps(g, events[0]);
      RunKeeps(Do(g, events[0]).value, events[1..]);
    }
  }

  /** In every interleaving of threads that open, use and close sockets: no step goes through a pointer
      to a socket that is gone; the stack of unused slots is exactly the empty slots; the holds are
      counted right, so that the semaphore of a socket has been posted once if nobody holds it and not
      at all otherwise; a socket being closed has one closer and takes no new holds; a socket in use
      stays in its slot. */
  lemma {:induction false} EveryRunIsSafe(events: seq<Event>)
    requires Possible(Start(), events)
    ensures Plays(Start(), events)
    ensures var g := Run(Start(), events);
            && Inv(g)
            && (g.ready ==> TableOk(g.table))
            && (forall k | k in g.heap ::
                  && g.heap[k].posts == (if g.heap[k].holds == 0 then 1 else 0)
                  && g.heap[k].holds >= |g.heap[k].users|
                  && g.table.socks[g.heap[k].slot] == Some(k))
            && (forall t, u | At(g, t).Closing? && At(g, u).Closing? && t != u :: At(g, t).k != At(g, u).k)
            && (forall t | At(g, t).Using? :: At(g, t).k in g.heap && t in g.heap[At(g, t).k].users)
  {
    hide Fresh, Plays, Possible, Run, TableOk;
    StartInv();
    RunKeeps(Start(), events);
    InvTells(Run(Start(), events));
  }

  lemma StartInv()
    ensures Inv(Start())
  {
    hide Fresh;
  }

  lemma {:induction false} InvTells(g: State)
    requires Inv(g)
    ensures g.ready ==> TableOk(g.table)
    ensures forall k | k in g.heap ::
              && g.heap[k].posts == (if g.heap[k].holds == 0 then 1 else 0)
              && g.heap[k].holds >= |g.heap[k].users|
              && g.table.socks[g.heap[k].slot] == Some(k)
    ensures forall t, u | At(g, t).Closing? && At(g, u).Closing? && t != u :: At(g, t).k != At(g, u).k
    ensures forall t | At(g, t).Using? :: At(g, t).k in g.heap && t in g.heap[At(g, t).k].users
  {
    hide TableOk;
    assert forall k | k in g.heap :: SockOk(g, k);
    assert forall t | At(g, t) != Outside :: ThreadOk(g, t);
  }

  /** Closing goes through: once its closer has released its holds and no user is left, the semaphore
      is there to be taken, and after that the slot is given back. */
  lemma {:induction false} CloserIsWoken(g: State, t: Thread)
    requires Inv(g) && At(g, t).Closing? && At(g, t).due == 0 && !At(g, t).woken
    requires At(g, t).k in g.heap && g.heap[At(g, t).k].users == {}
    ensures Enabled(g, Wakes(t))
  {
  }

  /** What a call of nn_close or of any other function with a descriptor is told. */
  lemma {:induction false} HoldTells(g: State, s: int)
    requires Inv(g)
    ensures HoldCode(g, s) == Ok <==> !g.zombie && exists k :: k in g.heap && g.heap[k].slot == s && g.heap[k].closer.None?
  {
    HoldIsSound(g, s);
    if HoldCode(g, s) == Ok {
      var k := g.table.socks[s].value;
      assert SlotOk(g, s);
      assert k in g.heap && g.heap[k].slot == s && g.heap[k].closer.None?;
    }
    if k :| k in g.heap && g.heap[k].slot == s && g.heap[k].closer.None? { assert SockOk(g, k); }
  }
}
