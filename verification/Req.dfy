/** The REQ socket's state machine (protocols/reqrep/req.c) with its resend timer (aio/timer.c)
    over the state machine lifecycle of aio/fsm.c.

    The timer talks to a worker thread: it posts start and stop tasks to the worker's queue,
    and the worker arms, disarms and fires the worker timer.  Events raised inside a context
    are processed before the context is left, so an action enters only when none is pending.
    A step that would fail an assertion, reach a "bad action", "bad source" or "bad state", or
    queue something twice ends in a fault, modelled as None. */
module Req {
  import opened Common
  import opened Wire

  // ---------------------------------------------------------------- the timer

  datatype FsmState = FsmIdle | FsmActive | FsmStopping
  datatype TimerState = TimerIdle | TimerActive | TimerStopping
  datatype Task = StartTask | StopTask
  /** Fired: taken off the worker's list of timers, but the worker is not in the context yet. */
  datatype WorkerTimer = Unarmed | Armed | Fired
  /** Events of the timer for its owner. */
  datatype Event = Timeout | TimerStopped

  datatype Timer = Timer(fsm: FsmState, state: TimerState, timeout: int,
                         tasks: seq<Task>, wtimer: WorkerTimer, events: seq<Event>)

  const NewTimer: Timer := Timer(FsmIdle, TimerIdle, -1, [], Unarmed, [])

  /** nn_timer_isidle */
  predicate IsIdle(t: Timer) { t.fsm == FsmIdle && TimerStopped !in t.events }

  /** nn_worker_execute: a task must not be queued twice. */
  function Post(t: Timer, task: Task): Option<Timer> {
    if task in t.tasks then None else Some(t.(tasks := t.tasks + [task]))
  }

  /** nn_fsm_raise: an event must not be queued twice. */
  function Raise(t: Timer, e: Event): Option<Timer> {
    if e in t.events then None else Some(t.(events := t.events + [e]))
  }

  /** nn_timer_start */
  function TimerStart(t: Timer, timeout: int): Option<Timer> {
    if timeout < 0 || !IsIdle(t) || t.state != TimerIdle then None
    else
      var t' := Post(t.(timeout := timeout, state := TimerActive), StartTask);
      if t'.None? then None else Some(t'.value.(fsm := FsmActive))
  }

  /** nn_timer_stop */
  function TimerStop(t: Timer): Option<Timer> {
    if t.fsm != FsmActive then Some(t)
    else Post(t.(fsm := FsmStopping, state := TimerStopping), StopTask)
  }

  /** The worker executes its next task. */
  function RunTask(t: Timer): Option<Timer>
    requires t.tasks != []
  {
    var task, t1 := t.tasks[0], t.(tasks := t.tasks[1..]);
    if t1.fsm != FsmStopping then
      // nn_timer_handler
      if t1.state != TimerActive || task != StartTask || t1.timeout < 0 || t1.wtimer == Armed then None
      else Some(t1.(wtimer := Armed, timeout := -1))
    else
      // nn_timer_shutdown
      if t1.state != TimerStopping then None
      else if task != StopTask then Some(t1)
      else
        Raise(t1.(wtimer := if t1.wtimer == Armed then Unarmed else t1.wtimer, state := TimerIdle, fsm := FsmIdle),
              TimerStopped)
  }

  /** The worker delivers an expired timer. */
  function Fire(t: Timer): Option<Timer> {
    var t1 := t.(wtimer := Unarmed);
    if t1.fsm != FsmStopping then
      if t1.state != TimerActive || t1.timeout != -1 then None else Raise(t1, Timeout)
    else
      if t1.state != TimerStopping then None else Some(t1)
  }

  // ---------------------------------------------------------------- the socket

  datatype ReqState =
    | Passive | Delayed | Active | TimedOut | Cancelling | StoppingTimer | Finished | Stopping | Stopped

  /** What task.reply holds: nothing, a message that was deallocated in place, or a reply. */
  datatype Slot = Blank | Freed | Reply(body: seq<byte>)

  /** A transmission: the number of the request it belongs to, what was sent and by which pipe. */
  datatype Tx = Tx(request: nat, packet: Msg, pipe: Pipe)

  datatype Req = Req(
    state: ReqState,
    id: uint32,
    request: Msg,
    reply: Slot,
    sentTo: Option<Pipe>,
    ivl: int,
    pipes: set<Pipe>,         // the pipes ready for sending
    timer: Timer,
    // history
    requests: seq<Msg>,       // what the user submitted, with the header each was given
    txs: seq<Tx>)

  /** The socket after nn_req_init. */
  function NewReq(id: uint32): Req {
    Req(Passive, id, Msg([], []), Blank, None, 60000, {}, NewTimer, [], [])
  }

  /** The header of request id: the id with the bottom-of-stack bit. */
  function Header(id: uint32): seq<byte> { PutL(WithTop(id)) }

  /** Which pipe the load balancer picks, and whether it is released by the send. */
  datatype Choice = Choice(to: Pipe, release: bool)

  /** nn_req_action_send */
  function ActionSend(r: Req, allowDelay: bool, c: Choice): Option<Req> {
    if r.pipes == {} then
      if allowDelay then Some(r.(state := Delayed)) else None
    else
      var t := TimerStart(r.timer, r.ivl);
      if t.None? || r.requests == [] then None
      else Some(r.(timer := t.value, sentTo := Some(c.to), state := Active,
                   pipes := if c.release then r.pipes - {c.to} else r.pipes,
                   txs := r.txs + [Tx(|r.requests| - 1, r.request, c.to)]))
  }

  /** Stops the timer and moves on: what ACTIVE does on a reply, a new request, the loss of the
      pipe and a timeout. */
  function LeaveActive(r: Req, next: ReqState): Option<Req> {
    var t := TimerStop(r.timer);
    if t.None? then None else Some(r.(timer := t.value, sentTo := None, state := next))
  }

  /** The socket with a new request in place of the old one. */
  function Renewed(r: Req, body: seq<byte>): Req {
    var id := (r.id + 1) % 0x1_0000_0000;
    r.(id := id, request := Msg(Header(id), body), requests := r.requests + [Msg(Header(id), body)])
  }

  /** nn_req_csend: the request replaces the one in progress, if any. */
  function CSend(r: Req, body: seq<byte>, c: Choice): Option<Req> {
    var r1 := Renewed(r, body);
    match r.state
    case Passive => ActionSend(r1, true, c)
    case Delayed => Some(r1)
    case Active => LeaveActive(r1, Cancelling)
    case TimedOut => Some(r1.(state := Cancelling))
    case Cancelling => Some(r1)
    case StoppingTimer => Some(r1.(state := Cancelling))
    case Finished => ActionSend(r1, true, c)
    case Stopping => Some(r1)
    case Stopped => None
  }

  /** nn_req_inprogress */
  predicate InProgress(r: Req) { !r.state.Passive? && !r.state.Stopping? && !r.state.Stopped? }

  /** The reply header of a message that answers the latest request. */
  predicate Answers(r: Req, m: Msg) {
    |m.sphdr| == 4 && HasTop(GetL(m.sphdr)) && GetL(m.sphdr) == WithTop(r.id)
  }

  /** One round of the loop in nn_req_in: every message goes through task.reply. */
  function Incoming(r: Req, m: Msg): Option<Req> {
    if !InProgress(r) || !Answers(r, m) then Some(r.(reply := Freed))
    else if r.state.Active? then LeaveActive(r.(reply := Reply(m.body)), StoppingTimer)
    else Some(r.(reply := Reply(m.body)))
  }

  datatype RecvResult = Efsm | Eagain | Got(slot: Slot)

  /** nn_req_crecv */
  function CRecv(r: Req): (Req, RecvResult) {
    if !InProgress(r) then (r, Efsm)
    else if !r.state.Finished? then (r, Eagain)
    else (r.(reply := Blank, state := Passive), Got(r.reply))
  }

  /** nn_req_out */
  function PipeOut(r: Req, p: Pipe, c: Choice): Option<Req> {
    if p in r.pipes then None
    else
      var r1 := r.(pipes := r.pipes + {p});
      if r.state.Delayed? then ActionSend(r1, false, c) else Some(r1)
  }

  /** nn_req_rm: the loss of the pipe in use is only expected in ACTIVE. */
  function PipeRm(r: Req, p: Pipe): Option<Req> {
    var r1 := r.(pipes := r.pipes - {p});
    if r.sentTo != Some(p) then Some(r1)
    else if r.state.Active? then LeaveActive(r1, TimedOut)
    else None
  }

  /** The next event of the timer reaches nn_req_handler, or nn_req_shutdown. */
  function Deliver(r: Req, c: Choice): Option<Req>
    requires r.timer.events != []
  {
    var e, r1 := r.timer.events[0], r.(timer := r.timer.(events := r.timer.events[1..]));
    match r.state
    case Active => if e == Timeout then LeaveActive(r1, TimedOut) else None
    case TimedOut => if e == TimerStopped then ActionSend(r1, true, c) else None
    case Cancelling => if e == TimerStopped then ActionSend(r1, true, c) else None
    case StoppingTimer => if e == TimerStopped then Some(r1.(state := Finished)) else None
    case Stopping => Some(if IsIdle(r1.timer) then r1.(state := Stopped) else r1)
    case Passive => None
    case Delayed => None
    case Finished => None
    case Stopped => None
  }

  /** nn_req_stop */
  function Stop(r: Req): Option<Req> {
    var t := TimerStop(r.timer);
    if t.None? then None
    else Some(r.(timer := t.value, state := if IsIdle(t.value) then Stopped else Stopping))
  }

  // ---------------------------------------------------------------- runs

  datatype Action =
    | Submit(body: seq<byte>, c: Choice)
    | Collect
    | Arrive(m: Msg)
    | Out(p: Pipe, c: Choice)
    | Rm(p: Pipe)
    | SetIvl(ivl: int)
    | Close
    | Expire              // the worker takes the expired timer off its list
    | DeliverFire         // ... and enters the context
    | ExecuteTask         // the worker enters the context with its next task
    | DeliverEvent(c: Choice)

  /** The action can happen: nothing but pending events runs while there are any, the worker
      does one thing at a time, pipes are announced once, and a closed socket is left alone. */
  predicate Enabled(r: Req, a: Action) {
    var calm, open := r.timer.events == [], !r.state.Stopping? && !r.state.Stopped?;
    match a
    case Submit(_, c) => calm && open && (r.pipes != {} ==> c.to in r.pipes)
    case Collect => calm && open
    case Arrive(_) => calm && open
    case Out(p, c) => calm && open && p !in r.pipes && c.to in r.pipes + {p}
    case Rm(_) => calm && open
    case SetIvl(_) => calm && open
    case Close => calm && open
    case Expire => r.timer.wtimer == Armed
    case DeliverFire => calm && r.timer.wtimer == Fired
    case ExecuteTask => calm && r.timer.tasks != [] && r.timer.wtimer != Fired
    case DeliverEvent(c) => !calm && (r.pipes != {} ==> c.to in r.pipes)
  }

  function WithTimer(r: Req, t: Option<Timer>): Option<Req> {
    if t.None? then None else Some(r.(timer := t.value))
  }

  function Do(r: Req, a: Action): Option<Req> {
    match a
    case Submit(body, c) => CSend(r, body, c)
    case Collect => Some(CRecv(r).0)
    case Arrive(m) => Incoming(r, m)
    case Out(p, c) => PipeOut(r, p, c)
    case Rm(p) => PipeRm(r, p)
    case SetIvl(ivl) => Some(r.(ivl := ivl))
    case Close => Stop(r)
    case Expire => Some(r.(timer := r.timer.(wtimer := Fired)))
    case DeliverFire => WithTimer(r, Fire(r.timer))
    case ExecuteTask => if r.timer.tasks == [] then None else WithTimer(r, RunTask(r.timer))
    case DeliverEvent(c) => if r.timer.events == [] then None else Deliver(r, c)
  }

  /** The socket after the actions; None after a fault. */
  function Run(r: Req, acts: seq<Action>): Option<Req> {
    if acts == [] then Some(r)
    else
      var before := Run(r, Init(acts));
      if before.None? then None else Do(before.value, Last(acts))
  }

  /** Every action is enabled when its turn comes, and the resend interval is never set to a
      negative number. */
  predicate Plays(r: Req, acts: seq<Action>) {
    acts != [] ==>
      && Plays(r, Init(acts))
      && (Run(r, Init(acts)).Some? ==> Enabled(Run(r, Init(acts)).value, Last(acts)))
      && (Last(acts).SetIvl? ==> Last(acts).ivl >= 0)
  }

  // ---------------------------------------------------------------- the invariant

  predicate TimerOk(t: Timer) {
    match t.fsm
    case FsmIdle => t.state == TimerIdle && t.tasks == [] && t.wtimer == Unarmed && (t.events == [] || t.events == [TimerStopped])
    case FsmActive =>
      && t.state == TimerActive
      && (|| (t.tasks == [StartTask] && t.wtimer == Unarmed && t.timeout >= 0 && t.events == [])
          || (t.tasks == [] && t.timeout == -1
              && (if t.wtimer == Unarmed then t.events == [Timeout] else t.events == [])))
    case FsmStopping =>
      && t.state == TimerStopping
      && t.events == []
      && (t.tasks == [StopTask] || (t.tasks == [StartTask, StopTask] && t.wtimer == Unarmed))
  }

  /** The timer is on its way to be stopped, or has just stopped. */
  predicate Ending(t: Timer) { t.fsm == FsmStopping || (t.fsm == FsmIdle && t.events == [TimerStopped]) }

  /** What each state of the socket knows about its timer. */
  predicate InStep(r: Req) {
    match r.state
    case Passive => IsIdle(r.timer)
    case Delayed => IsIdle(r.timer) && r.pipes == {}
    case Active => r.timer.fsm == FsmActive
    case TimedOut => Ending(r.timer)
    case Cancelling => Ending(r.timer)
    case StoppingTimer => Ending(r.timer)
    case Finished => IsIdle(r.timer)
    case Stopping => Ending(r.timer)
    case Stopped => IsIdle(r.timer)
  }

  predicate Open(r: Req) { !r.state.Stopping? && !r.state.Stopped? }

  /** Every transmission is the submitted request it belongs to, bit for bit. */
  predicate TxOk(r: Req) {
    forall i | 0 <= i < |r.txs| :: r.txs[i].request < |r.requests| && r.txs[i].packet == r.requests[r.txs[i].request]
  }

  /** The request in progress is the latest submitted, under the current id. */
  predicate RequestOk(r: Req) {
    InProgress(r) ==> r.requests != [] && r.request == r.requests[|r.requests| - 1] && r.request.sphdr == Header(r.id)
  }

  /** In ACTIVE the last transmission is that of the latest request, by the pipe in use. */
  predicate LastSent(r: Req) {
    r.state.Active? ==>
      r.requests != [] && r.txs != []
      && var tx := r.txs[|r.txs| - 1];
      tx.request == |r.requests| - 1 && tx.packet == r.requests[tx.request] && r.sentTo == Some(tx.pipe)
  }

  predicate Inv(r: Req) {
    && TimerOk(r.timer)
    && InStep(r)
    && (Open(r) ==> (r.sentTo.Some? <==> r.state.Active?))
    && r.ivl >= 0
    && TxOk(r)
    && RequestOk(r)
    && LastSent(r)
  }

  // ---------------------------------------------------------------- the timer keeps its part

  lemma {:induction false} StopKeeps(t: Timer)
    requires TimerOk(t) && t.events == []
    ensures var r := TimerStop(t);
            && r.Some? && TimerOk(r.value) && r.value.events == []
            && (t.fsm == FsmActive ==> r.value.fsm == FsmStopping)
            && (t.fsm != FsmActive ==> r.value == t)
  {
  }

  lemma {:induction false} TaskKeeps(t: Timer)
    requires TimerOk(t) && t.events == [] && t.tasks != [] && t.wtimer != Fired
    ensures var r := RunTask(t);
            && r.Some? && TimerOk(r.value)
            && (t.fsm == FsmActive ==> r.value.fsm == FsmActive && r.value.events == [])
            && (t.fsm == FsmStopping ==> Ending(r.value))
            && t.fsm != FsmIdle
  {
  }

  lemma {:induction false} FireKeeps(t: Timer)
    requires TimerOk(t) && t.events == [] && t.wtimer == Fired
    ensures var r := Fire(t);
            r.Some? && TimerOk(r.value) && r.value.fsm == t.fsm && t.fsm != FsmIdle && (t.fsm == FsmStopping ==> r.value.events == [])
  {
  }

  // ---------------------------------------------------------------- the socket keeps its part

  lemma {:induction false} SendKeeps(r: Req, allowDelay: bool, c: Choice)
    requires TimerOk(r.timer) && IsIdle(r.timer) && r.timer.events == [] && r.sentTo.None?
    requires r.ivl >= 0 && TxOk(r)
    requires r.requests != [] && r.request == r.requests[|r.requests| - 1] && r.request.sphdr == Header(r.id)
    requires r.pipes == {} ==> allowDelay
    ensures var r' := ActionSend(r, allowDelay, c); r'.Some? && Inv(r'.value)
  {
  }

  /** The timer is running, and no event of it is waiting any more. */
  predicate Stoppable(t: Timer) {
    && t.fsm == FsmActive && t.state == TimerActive && t.events == []
    && (t.tasks == [] || (t.tasks == [StartTask] && t.wtimer == Unarmed))
  }

  lemma {:induction false} LeaveKeeps(r: Req, next: ReqState)
    requires Stoppable(r.timer)
    requires r.ivl >= 0 && TxOk(r)
    requires r.requests != [] && r.request == r.requests[|r.requests| - 1] && r.request.sphdr == Header(r.id)
    requires next.TimedOut? || next.Cancelling? || next.StoppingTimer?
    ensures var r' := LeaveActive(r, next); r'.Some? && Inv(r'.value) && r'.value.state == next
  {
  }

  lemma {:induction false} RenewedOk(r: Req, body: seq<byte>)
    requires TxOk(r)
    ensures var r1 := Renewed(r, body);
            && TxOk(r1) && r1.requests != [] && r1.request == r1.requests[|r1.requests| - 1]
            && r1.request.sphdr == Header(r1.id) && r1 == r.(id := r1.id, request := r1.request, requests := r1.requests)
  {
    hide Header;
  }

  lemma {:induction false} SubmitKeeps(r: Req, body: seq<byte>, c: Choice)
    requires Inv(r) && Enabled(r, Submit(body, c))
    ensures CSend(r, body, c).Some? && Inv(CSend(r, body, c).value)
  {
    hide Header, ActionSend, LeaveActive;
    var r1 := Renewed(r, body);
    RenewedOk(r, body);
    hide Renewed, TxOk;
    if r.state.Passive? || r.state.Finished? {
      SendKeeps(r1, true, c);
    } else if r.state.Active? {
      LeaveKeeps(r1, Cancelling);
    }
  }

  lemma {:induction false} ArriveKeeps(r: Req, m: Msg)
    requires Inv(r) && Enabled(r, Arrive(m))
    ensures Incoming(r, m).Some? && Inv(Incoming(r, m).value)
  {
    if InProgress(r) && Answers(r, m) && r.state.Active? {
      LeaveKeeps(r.(reply := Reply(m.body)), StoppingTimer);
    }
  }

  lemma {:induction false} DeliverKeeps(r: Req, c: Choice)
    requires Inv(r) && Enabled(r, DeliverEvent(c))
    ensures Deliver(r, c).Some? && Inv(Deliver(r, c).value)
  {
    var r1 := r.(timer := r.timer.(events := r.timer.events[1..]));
    assert r1.timer.events == [];
    if r.state.Active? {
      LeaveKeeps(r1, TimedOut);
    } else if r.state.TimedOut? || r.state.Cancelling? {
      SendKeeps(r1, true, c);
    }
  }

  /** The actions of the worker. */
  lemma {:induction false} WorkerKeeps(r: Req, a: Action)
    requires Inv(r) && Enabled(r, a) && (a.Expire? || a.DeliverFire? || a.ExecuteTask?)
    ensures Do(r, a).Some? && Inv(Do(r, a).value)
  {
    match a
    case Expire =>
    case DeliverFire => FireKeeps(r.timer);
    case ExecuteTask => TaskKeeps(r.timer);
  }

  /** The other actions of the socket and its pipes. */
  lemma {:induction false} OtherKeeps(r: Req, a: Action)
    requires Inv(r) && Enabled(r, a) && (a.Collect? || a.Out? || a.Rm? || a.Close?)
    ensures Do(r, a).Some? && Inv(Do(r, a).value)
  {
    match a
    case Collect =>
    case Out(p, c) =>
      if r.state.Delayed? { SendKeeps(r.(pipes := r.pipes + {p}), false, c); }
    case Rm(p) =>
      if r.sentTo == Some(p) { LeaveKeeps(r.(pipes := r.pipes - {p}), TimedOut); }
    case Close => StopKeeps(r.timer);
  }

  lemma {:induction false} DoKeeps(r: Req, a: Action)
    requires Inv(r) && Enabled(r, a) && (a.SetIvl? ==> a.ivl >= 0)
    ensures Do(r, a).Some? && Inv(Do(r, a).value)
  {
    hide Deliver, CSend, Incoming, PipeOut, PipeRm, Stop;
    match a
    case Submit(body, c) => SubmitKeeps(r, body, c);
    case Arrive(m) => ArriveKeeps(r, m);
    case DeliverEvent(c) => DeliverKeeps(r, c);
    case SetIvl(ivl) =>
    case Collect => OtherKeeps(r, a);
    case Out(_, _) => OtherKeeps(r, a);
    case Rm(_) => OtherKeeps(r, a);
    case Close => OtherKeeps(r, a);
    case Expire => WorkerKeeps(r, a);
    case DeliverFire => WorkerKeeps(r, a);
    case ExecuteTask => WorkerKeeps(r, a);
  }

  lemma {:induction false} NewInv(id: uint32)
    ensures Inv(NewReq(id))
  {
  }

  /** In every run no handler meets an event it does not expect, the timer is only started when
      idle, and nothing is queued twice. */
  lemma {:induction false} EveryRunIsSafe(r: Req, acts: seq<Action>)
    requires Inv(r) && Plays(r, acts)
    ensures Run(r, acts).Some? && Inv(Run(r, acts).value)
  {
    hide Inv, Do, Enabled;
    if acts != [] {
      EveryRunIsSafe(r, Init(acts));
      DoKeeps(Run(r, Init(acts)).value, Last(acts));
    }
  }

  // ---------------------------------------------------------------- what a run guarantees

  /** The pipe in use is known exactly in ACTIVE, and is the one by which the latest request was sent last;
      a timeout is only ever pending in ACTIVE, so
      none arrives between a stop of the timer and its next start; a request is only held back
      while no pipe is ready; and every transmission of a request, first or repeated, carries
      its body and its id with the top bit set. */
  lemma {:induction false} RunFacts(id: uint32, acts: seq<Action>, i: nat)
    requires Plays(NewReq(id), acts)
    ensures Run(NewReq(id), acts).Some?
    ensures var r := Run(NewReq(id), acts).value;
            && (Open(r) ==> (r.sentTo.Some? <==> r.state.Active?))
            && (Timeout in r.timer.events ==> r.state.Active? && r.timer.fsm == FsmActive)
            && (r.state.Delayed? ==> r.pipes == {})
            && (r.state.Active? ==> !IsIdle(r.timer) && LastSent(r))
            && (i < |r.txs| ==>
                  && r.txs[i].request < |r.requests|
                  && r.txs[i].packet == r.requests[r.txs[i].request])
  {
    NewInv(id);
    EveryRunIsSafe(NewReq(id), acts);
  }

  /** The requests are numbered one up from the id the socket started with. */
  lemma {:induction false} RequestIds(id: uint32, acts: seq<Action>, k: nat)
    requires Run(NewReq(id), acts).Some? && k < |Run(NewReq(id), acts).value.requests|
    ensures var r := Run(NewReq(id), acts).value;
            && r.id == (id + |r.requests|) % 0x1_0000_0000
            && r.requests[k].sphdr == Header((id + k + 1) % 0x1_0000_0000)
            && HasTop(GetL(r.requests[k].sphdr))
  {
    hide Run, Header, HasTop, NextId;
    RequestIdsRun(id, acts);
    HeaderHasTop(NextId(id, k));
    NextIdIs(id, |Run(NewReq(id), acts).value.requests|);
    NextIdIs(id, k + 1);
  }

  /** The id of request k of a socket that started with this id. */
  function NextId(id: uint32, k: int): uint32 { (id + k + 1) % 0x1_0000_0000 }

  lemma NextIdIs(id: uint32, n: int)
    ensures NextId(id, n - 1) == (id + n) % 0x1_0000_0000
  {
  }

  lemma {:induction false} NextIdStep(id: uint32, n: nat)
    ensures (NextId(id, n - 1) + 1) % 0x1_0000_0000 == NextId(id, n)
  {
  }

  lemma {:induction false} HeaderHasTop(id: uint32)
    ensures |Header(id)| == 4 && GetL(Header(id)) == WithTop(id) && HasTop(WithTop(id))
  {
    hide GetL, PutL;
    GetPut(WithTop(id), []);
    assert Header(id) + [] == Header(id);
  }

  ghost predicate Numbered(r: Req, id: uint32) {
    && r.id == NextId(id, |r.requests| - 1)
    && forall k | 0 <= k < |r.requests| :: r.requests[k].sphdr == Header(NextId(id, k))
  }

  lemma {:induction false} RequestIdsRun(id: uint32, acts: seq<Action>)
    requires Run(NewReq(id), acts).Some?
    ensures Numbered(Run(NewReq(id), acts).value, id)
  {
    if acts != [] {
      RequestIdsRun(id, Init(acts));
      NumberedStep(Run(NewReq(id), Init(acts)).value, Last(acts), id);
    }
  }

  lemma {:induction false} NumberedStep(r: Req, a: Action, id: uint32)
    requires Numbered(r, id) && Do(r, a).Some?
    ensures Numbered(Do(r, a).value, id)
  {
    hide NextId, Header, Do;
    NextIdStep(id, |r.requests|);
    DoNumbers(r, a);
  }

  /** What an action does to the requests. */
  lemma {:induction false} DoNumbers(r: Req, a: Action)
    requires Do(r, a).Some?
    ensures var r' := Do(r, a).value;
            if a.Submit? then
              r'.id == (r.id + 1) % 0x1_0000_0000 && r'.requests == r.requests + [Msg(Header(r'.id), a.body)]
            else r'.id == r.id && r'.requests == r.requests
  {
    hide Header;
  }

  /** Action i is the arrival, in ACTIVE, of the answer to the latest request, and nothing was
      submitted since. */
  ghost predicate AcceptedAt(r: Req, acts: seq<Action>, i: nat) {
    && i < |acts|
    && acts[i].Arrive?
    && Run(r, acts[..i]).Some?
    && Run(r, acts[..i]).value.state.Active?
    && Answers(Run(r, acts[..i]).value, acts[i].m)
    && forall j | i < j < |acts| :: !acts[j].Submit?
  }

  predicate HasReply(r: Req) { r.state.StoppingTimer? || r.state.Finished? }

  /** Action j is the last arrival. */
  ghost predicate LastArrival(acts: seq<Action>, j: nat) {
    j < |acts| && acts[j].Arrive? && forall k | j < k < |acts| :: !acts[k].Arrive?
  }

  /** What a message that arrives while there is a reply, or makes one, leaves in task.reply. */
  function SlotOf(r: Req, m: Msg): Slot { if Answers(r, m) then Reply(m.body) else Freed }

  /** The reply in task.reply was put there by the last arrival, whether or not that was the accepted one. */
  ghost predicate LeftBy(r: Req, acts: seq<Action>, j: nat, slot: Slot) {
    LastArrival(acts, j) && Run(r, acts[..j]).Some? && slot == SlotOf(Run(r, acts[..j]).value, acts[j].m)
  }

  /** The socket gets to DONE only by accepting, while ACTIVE, the answer to the latest request.  What the
      user then collects is left by the last arrival j: it is the accepted answer if and only if none
      came later, or the last that did is an answer to the request with the same body; a later answer
      with another body takes its place, and a later message that is no answer leaves one that has
      been released. */
  lemma {:induction false} DoneMeansAnswered(id: uint32, acts: seq<Action>)
    requires Plays(NewReq(id), acts)
    ensures Run(NewReq(id), acts).Some?
    ensures var r := Run(NewReq(id), acts).value;
            HasReply(r) ==>
              exists i: nat, j: nat ::
                && i <= j && AcceptedAt(NewReq(id), acts, i) && LeftBy(NewReq(id), acts, j, r.reply)
                && (r.reply == Reply(acts[i].m.body)
                    <==> i == j || (Answers(Run(NewReq(id), acts[..j]).value, acts[j].m) && acts[j].m.body == acts[i].m.body))
                && (r.state.Finished? ==> CRecv(r).1 == Got(r.reply))
  {
    NewInv(id);
    EveryRunIsSafe(NewReq(id), acts);
    var r := Run(NewReq(id), acts).value;
    if HasReply(r) {
      hide Answers, Run;
      var i, j := FindAccepted(id, acts);
      assert i <= j && AcceptedAt(NewReq(id), acts, i) && LeftBy(NewReq(id), acts, j, r.reply);
    }
  }

  lemma {:induction false} FindAccepted(id: uint32, acts: seq<Action>) returns (i: nat, j: nat)
    requires Plays(NewReq(id), acts) && Run(NewReq(id), acts).Some? && HasReply(Run(NewReq(id), acts).value)
    ensures i <= j && AcceptedAt(NewReq(id), acts, i)
    ensures LeftBy(NewReq(id), acts, j, Run(NewReq(id), acts).value.reply)
  {
    hide Do, Enabled, Answers;
    var n := |acts| - 1;
    var before, a := Run(NewReq(id), Init(acts)).value, Last(acts);
    ReplyStep(before, a);
    assert acts[..n] == Init(acts);
    if a.Arrive? && before.state.Active? {
      i, j := n, n;
    } else {
      i, j := FindAccepted(id, Init(acts));
      assert acts[..i] == Init(acts)[..i] && acts[..j] == Init(acts)[..j];
      if a.Arrive? { j := n; }
    }
  }

  /** One action, seen from a state with a reply. */
  lemma {:induction false} ReplyStep(r: Req, a: Action)
    requires Do(r, a).Some? && HasReply(Do(r, a).value)
    ensures var r' := Do(r, a).value;
            && (a.Arrive? ==> r'.reply == SlotOf(r, a.m))
            && (!a.Arrive? ==> r'.reply == r.reply)
            && (if a.Arrive? && r.state.Active? then Answers(r, a.m) else HasReply(r) && !a.Submit?)
  {
  }

  // ---------------------------------------------------------------- runs that go wrong

  /** The run goes on with one more action. */
  lemma {:induction false} OneMore(r: Req, acts: seq<Action>, a: Action)
    requires Run(r, acts).Some?
    ensures Run(r, acts + [a]) == Do(Run(r, acts).value, a)
    ensures Plays(r, acts) && Enabled(Run(r, acts).value, a) && (a.SetIvl? ==> a.ivl >= 0) ==> Plays(r, acts + [a])
  {
    assert Init(acts + [a]) == acts;
  }

  const ANY: Choice := Choice(0, false)

  /** A request is sent, and its timer is armed. */
  function Sent(body: seq<byte>): seq<Action> { [Out(0, ANY)] + [Submit(body, ANY)] + [ExecuteTask] }

  /** The request is answered, and the socket done. */
  function Answered(id: uint32, body: seq<byte>, reply: seq<byte>): seq<Action> {
    Sent(body) + [Arrive(Msg(Header(NextId(id, 0)), reply))] + [ExecuteTask] + [DeliverEvent(ANY)]
  }

  lemma {:induction false} SentRun(id: uint32, body: seq<byte>)
    ensures Plays(NewReq(id), Sent(body)) && Run(NewReq(id), Sent(body)).Some?
    ensures var r := Run(NewReq(id), Sent(body)).value;
            r.state.Active? && r.id == NextId(id, 0) && r.pipes == {0} && r.timer == Timer(FsmActive, TimerActive, -1, [], Armed, [])
  {
    hide Run, Plays, Header;
    var r0, acts := NewReq(id), [Out(0, ANY)];
    Idle(r0);
    OneMore(r0, [], Out(0, ANY));
    assert [] + [Out(0, ANY)] == acts;
    OneMore(r0, acts, Submit(body, ANY));
    OneMore(r0, acts + [Submit(body, ANY)], ExecuteTask);
  }

  lemma {:induction false} AnsweredRun(id: uint32, body: seq<byte>, reply: seq<byte>)
    ensures var acts := Answered(id, body, reply);
            && Plays(NewReq(id), acts) && Run(NewReq(id), acts).Some?
            && var r := Run(NewReq(id), acts).value;
               r.state.Finished? && r.id == NextId(id, 0) && r.reply == Reply(reply) && r.timer.events == []
  {
    hide Run, Plays, Header, Answers, Sent;
    SentRun(id, body);
    var r0, acts := NewReq(id), Sent(body);
    var m := Msg(Header(NextId(id, 0)), reply);
    IsAnswer(Run(r0, acts).value, m);
    OneMore(r0, acts, Arrive(m));
    assert [] + [StopTask] == [StopTask];
    OneMore(r0, acts + [Arrive(m)], ExecuteTask);
    OneMore(r0, acts + [Arrive(m)] + [ExecuteTask], DeliverEvent(ANY));
  }

  lemma Idle(r: Req)
    ensures Run(r, []) == Some(r) && Plays(r, [])
  {
  }

  lemma {:induction false} IsAnswer(r: Req, m: Msg)
    requires m.sphdr == Header(r.id)
    ensures Answers(r, m)
  {
    hide GetL, Header, WithTop, HasTop;
    HeaderHasTop(r.id);
  }

  /** Such a run, and a message more that the socket gets before the user collects the reply: the user is
      handed that message, whichever body it has, or one that was already released if it is no answer. */
  lemma {:induction false} LateArrivalSpoils(id: uint32, body: seq<byte>, reply: seq<byte>, late: Msg)
    ensures var acts := Answered(id, body, reply) + [Arrive(late)];
            && Plays(NewReq(id), acts) && Run(NewReq(id), acts).Some?
            && CRecv(Run(NewReq(id), acts).value).1
               == Got(if late.sphdr == Header(NextId(id, 0)) then Reply(late.body) else Freed)
  {
    hide Run, Plays, Header, Answered;
    AnsweredRun(id, body, reply);
    OneMore(NewReq(id), Answered(id, body, reply), Arrive(late));
    AnswersIff(Run(NewReq(id), Answered(id, body, reply)).value, late);
  }

  lemma {:induction false} AnswersIff(r: Req, m: Msg)
    ensures Answers(r, m) <==> m.sphdr == Header(r.id)
  {
    if Answers(r, m) {
      PutGet(m.sphdr);
      assert m.sphdr[..4] == m.sphdr;
    } else if m.sphdr == Header(r.id) {
      IsAnswer(r, m);
    }
  }

  /** The interval is set to a negative number, a pipe is there, and a request is submitted: each of these
      can happen, and the last fails. */
  lemma {:induction false} NegativeIntervalRun(id: uint32, body: seq<byte>)
    ensures var acts := [SetIvl(-1)] + [Out(0, ANY)];
            && Enabled(NewReq(id), SetIvl(-1))
            && Run(NewReq(id), [SetIvl(-1)]).Some? && Enabled(Run(NewReq(id), [SetIvl(-1)]).value, Out(0, ANY))
            && Run(NewReq(id), acts).Some? && Enabled(Run(NewReq(id), acts).value, Submit(body, ANY))
            && Run(NewReq(id), acts + [Submit(body, ANY)]).None?
  {
    hide Run, Plays, Header;
    var r0 := NewReq(id);
    Idle(r0);
    OneMore(r0, [], SetIvl(-1));
    assert [] + [SetIvl(-1)] == [SetIvl(-1)];
    OneMore(r0, [SetIvl(-1)], Out(0, ANY));
    OneMore(r0, [SetIvl(-1)] + [Out(0, ANY)], Submit(body, ANY));
  }

  /** The action hands the request to a pipe, which starts the timer. */
  predicate Transmits(r: Req, a: Action) {
    match a
    case Submit(_, _) => (r.state.Passive? || r.state.Finished?) && r.pipes != {}
    case Out(_, _) => r.state.Delayed?
    case DeliverEvent(_) => (r.state.TimedOut? || r.state.Cancelling?) && r.pipes != {}
    case _ => false
  }

  /** A negative resend interval, which the option accepts, makes exactly the transmissions
      fail: the timer refuses to start. */
  lemma {:induction false} NegativeIntervalFaults(r: Req, a: Action)
    requires Inv(r.(ivl := 0)) && Enabled(r, a) && !a.SetIvl?
    ensures Do(r, a).None? <==> r.ivl < 0 && Transmits(r, a)
  {
    hide Header, TxOk, LastSent, Answers;
    DoKeeps(r.(ivl := 0), a);
    if r.ivl >= 0 { IntervalIrrelevant(r, a); }
  }

  lemma {:induction false} IntervalIrrelevant(r: Req, a: Action)
    requires r.ivl >= 0 && Inv(r.(ivl := 0)) && Enabled(r, a)
    ensures Do(r, a).Some?
  {
    assert Inv(r);
    if a.SetIvl? { } else { DoKeeps(r, a); }
  }
}
