/** Two connected inproc sessions (transports/inproc/sinproc.c) over their pipes (core/pipe.c).

    Both peers are ACTIVE.  A step is one atomic entry into a context: the socket sends or
    receives on its pipe, or one raised event is processed.  A step that would fail one of the
    code's assertions, or raise an event that is still queued, ends in Fault. */
module Sinproc {
  import opened Common
  import opened MsgQueue

  /** pipe.c: states of the two halves of a pipe between calls. */
  datatype InState = InIdle | InAsync
  datatype OutState = OutIdle | OutAsync

  datatype Peer = Peer(
    // sinproc.c
    sending: bool,            // NN_SINPROC_FLAG_SENDING
    receiving: bool,          // NN_SINPROC_FLAG_RECEIVING
    msg: Option<Msg>,         // the message exposed to the peer, until the peer has taken it
    queue: seq<Msg>,          // msgqueue
    maxmem: nat,
    sentQueued: bool,         // event_sent, raised by the peer, is waiting
    receivedQueued: bool,     // event_received, raised by the peer, is waiting
    // pipe.c
    instate: InState,
    outstate: OutState,
    inQueued: bool,           // the IN event for the socket is waiting
    outQueued: bool,          // the OUT event for the socket is waiting
    // what the socket has been told
    readable: bool,
    writable: bool,
    // history
    sent: seq<Msg>,
    got: seq<Msg>)

  datatype Outcome = Fault | Done(self: Peer, peer: Peer)

  /** A session right after nn_pipebase_start. */
  function Start(maxmem: nat): Peer {
    Peer(false, false, None, [], maxmem, false, false, InAsync, OutIdle, false, true, false, false, [], [])
  }

  /** nn_pipebase_received outside nn_pipe_recv. */
  function Received(p: Peer): Option<Peer> {
    if p.instate != InAsync || p.inQueued then None else Some(p.(instate := InIdle, inQueued := true))
  }

  /** nn_pipe_send and nn_sinproc_send */
  function Send(self: Peer, peer: Peer, m: Msg): Outcome {
    if self.outstate != OutIdle || self.sending || peer.sentQueued then Fault
    else
      Done(self.(msg := Some(m), sending := true, outstate := OutAsync, writable := false, sent := self.sent + [m]),
           peer.(sentQueued := true))
  }

  /** Moves the peer's message into the queue and raises RECEIVED, or fails with EAGAIN. */
  function TakeMessage(self: Peer, peer: Peer): Option<Outcome> {
    if peer.msg.None? then Some(Fault)
    else if !Accepts(self.queue, self.maxmem, peer.msg.value) then None
    else if peer.receivedQueued then Some(Fault)
    else Some(Done(self.(queue := self.queue + [peer.msg.value]), peer.(msg := None, receivedQueued := true)))
  }

  /** nn_pipe_recv and nn_sinproc_recv.  The pipe is released when the queue has run empty. */
  function Recv(self: Peer, peer: Peer): Outcome {
    if self.instate != InIdle || self.queue == [] then Fault
    else
      var self1 := self.(queue := self.queue[1..], got := self.got + [self.queue[0]]);
      var r := if self1.receiving then TakeMessage(self1, peer) else None;
      match r
      case Some(Fault) => Fault
      case Some(Done(s, q)) => Done(AfterRecv(s.(receiving := false)), q)
      case None => Done(AfterRecv(self1), peer)
  }

  /** How nn_pipe_recv leaves the pipe: nn_pipebase_received was called within it exactly when
      the queue is not empty. */
  function AfterRecv(p: Peer): Peer {
    if |p.queue| > 0 then p.(instate := InIdle) else p.(instate := InAsync, readable := false)
  }

  /** The handler of SENT in the ACTIVE state. */
  function OnSent(self: Peer, peer: Peer): Outcome {
    if !self.sentQueued then Fault
    else
      var self1 := self.(sentQueued := false);
      var empty := self1.queue == [];
      match TakeMessage(self1, peer)
      case None => Done(self1.(receiving := true), peer)
      case Some(Fault) => Fault
      case Some(Done(s, q)) =>
        if !empty then Done(s, q)
        else
          var s' := Received(s);
          if s'.None? then Fault else Done(s'.value, q)
  }

  /** The handler of RECEIVED in the ACTIVE state, with nn_pipebase_sent. */
  function OnReceived(self: Peer, peer: Peer): Outcome {
    if !self.receivedQueued || !self.sending || self.outstate != OutAsync || self.outQueued then Fault
    else Done(self.(receivedQueued := false, sending := false, outstate := OutIdle, outQueued := true), peer)
  }

  /** The socket learns that the pipe is readable, or writable. */
  function OnIn(self: Peer, peer: Peer): Outcome { Done(self.(inQueued := false, readable := true), peer) }
  function OnOut(self: Peer, peer: Peer): Outcome { Done(self.(outQueued := false, writable := true), peer) }

  // ---------------------------------------------------------------- runs

  datatype Act = DoSend(m: Msg) | DoRecv | DoSent | DoReceived | DoIn | DoOut
  datatype Step = Step(byA: bool, act: Act)
  datatype Pair = Pair(a: Peer, b: Peer)

  /** A step a context may take: the socket only uses a pipe it was told about, and only
      queued events are processed. */
  predicate Enabled(self: Peer, act: Act) {
    match act
    case DoSend(_) => self.writable
    case DoRecv => self.readable
    case DoSent => self.sentQueued
    case DoReceived => self.receivedQueued
    case DoIn => self.inQueued
    case DoOut => self.outQueued
  }

  function Apply(self: Peer, peer: Peer, act: Act): Outcome {
    match act
    case DoSend(m) => Send(self, peer, m)
    case DoRecv => Recv(self, peer)
    case DoSent => OnSent(self, peer)
    case DoReceived => OnReceived(self, peer)
    case DoIn => OnIn(self, peer)
    case DoOut => OnOut(self, peer)
  }

  predicate CanStep(s: Pair, step: Step) { Enabled(if step.byA then s.a else s.b, step.act) }

  /** The pair after the step; None after a fault. */
  function Next(s: Pair, step: Step): Option<Pair> {
    if step.byA then
      match Apply(s.a, s.b, step.act) case Fault => None case Done(a, b) => Some(Pair(a, b))
    else
      match Apply(s.b, s.a, step.act) case Fault => None case Done(b, a) => Some(Pair(a, b))
  }

  /** The pair after the steps; None after a fault. */
  function Run(s: Pair, steps: seq<Step>): Option<Pair>
    decreases |steps|
  {
    if steps == [] then Some(s)
    else
      var n := Next(s, steps[0]);
      if n.None? then None else Run(n.value, steps[1..])
  }

  /** Every step is enabled when its turn comes. */
  predicate Plays(s: Pair, steps: seq<Step>)
    decreases |steps|
  {
    steps != [] ==>
      && CanStep(s, steps[0])
      && (Next(s, steps[0]).Some? ==> Plays(Next(s, steps[0]).value, steps[1..]))
  }

  // ---------------------------------------------------------------- the invariant

  /** How far the message being sent from p to q has got. */
  predicate Handshake(p: Peer, q: Peer) {
    || (!p.sending && p.msg.None? && !q.sentQueued && !q.receiving && !p.receivedQueued)
    || (p.sending && p.msg.Some? && q.sentQueued && !q.receiving && !p.receivedQueued)
    || (p.sending && p.msg.Some? && !q.sentQueued && q.receiving && !p.receivedQueued && q.queue != [])
    || (p.sending && p.msg.None? && !q.sentQueued && !q.receiving && p.receivedQueued)
  }

  /** A message is held back only while it and what is queued would reach the limit. */
  predicate HeldBack(p: Peer, q: Peer) {
    q.receiving ==> p.msg.Some? && q.queue != [] && Mem(q.queue + [p.msg.value]) >= q.maxmem
  }

  function InFlight(p: Peer): seq<Msg> { if p.msg.Some? then [p.msg.value] else [] }

  /** Everything about the direction from p to q. */
  predicate Direction(p: Peer, q: Peer) {
    && Handshake(p, q)
    // The writing half of p's pipe.
    && (p.outstate == OutAsync <==> p.sending)
    && (p.sending ==> !p.outQueued && !p.writable)
    && (!p.sending ==> p.outQueued != p.writable)
    // The reading half of q's pipe.
    && (q.instate == InAsync <==> q.queue == [])
    && (q.queue == [] ==> !q.inQueued && !q.readable)
    && (q.queue != [] ==> q.inQueued != q.readable)
    // The queue.
    && Bounded(q.queue, q.maxmem)
    && HeldBack(p, q)
    // Nothing is lost, duplicated or reordered.
    && p.sent == q.got + q.queue + InFlight(p)
  }

  predicate Inv(s: Pair) { Direction(s.a, s.b) && Direction(s.b, s.a) }

  lemma {:induction false} StartInv(m1: nat, m2: nat)
    ensures Inv(Pair(Start(m1), Start(m2)))
  {
  }

  /** No step of one peer faults, and both directions stay as they should. */
  lemma {:induction false} ApplyKeeps(p: Peer, q: Peer, act: Act)
    requires Direction(p, q) && Direction(q, p) && Enabled(p, act)
    ensures var r := Apply(p, q, act); r.Done? && Direction(r.self, r.peer) && Direction(r.peer, r.self)
  {
    match act
    case DoSend(m) => assert p.sent + [m] == q.got + q.queue + [m];
    case DoRecv => RecvKeeps(p, q);
    case DoSent => SentKeeps(p, q);
    case DoReceived =>
    case DoIn =>
    case DoOut =>
  }

  lemma {:induction false} RecvKeeps(p: Peer, q: Peer)
    requires Direction(p, q) && Direction(q, p) && p.readable
    ensures var r := Recv(p, q); r.Done? && Direction(r.self, r.peer) && Direction(r.peer, r.self)
  {
    var rest, got := p.queue[1..], p.got + [p.queue[0]];
    assert p.got + p.queue == got + rest;
    KeepsBound(p.queue, p.maxmem, p.queue[0]);
    hide Recv, Bounded, HeldBack;
    if p.receiving { RecvTakes(p, q, rest, got); } else { RecvPlain(p, q, rest, got); }
  }

  lemma {:induction false} RecvPlain(p: Peer, q: Peer, rest: seq<Msg>, got: seq<Msg>)
    requires Direction(p, q) && Direction(q, p) && p.readable && !p.receiving
    requires rest == p.queue[1..] && got == p.got + [p.queue[0]] && p.got + p.queue == got + rest
    requires Bounded(rest, p.maxmem)
    ensures var r := Recv(p, q); r.Done? && Direction(r.self, r.peer) && Direction(r.peer, r.self)
  {
    hide Bounded;
  }

  /** Receiving while the peer's next message is held back. */
  lemma {:induction false} RecvTakes(p: Peer, q: Peer, rest: seq<Msg>, got: seq<Msg>)
    requires Direction(p, q) && Direction(q, p) && p.readable && p.receiving
    requires rest == p.queue[1..] && got == p.got + [p.queue[0]] && p.got + p.queue == got + rest
    requires Bounded(rest, p.maxmem)
    ensures var r := Recv(p, q); r.Done? && Direction(r.self, r.peer) && Direction(r.peer, r.self)
  {
    KeepsBound(rest, p.maxmem, q.msg.value);
    MemAppend(rest, q.msg.value);
    assert got + rest + [q.msg.value] == got + (rest + [q.msg.value]) + [];
  }

  lemma {:induction false} SentKeeps(p: Peer, q: Peer)
    requires Direction(p, q) && Direction(q, p) && p.sentQueued
    ensures var r := OnSent(p, q); r.Done? && Direction(r.self, r.peer) && Direction(r.peer, r.self)
  {
    KeepsBound(p.queue, p.maxmem, q.msg.value);
    MemAppend(p.queue, q.msg.value);
    assert p.got + p.queue + [q.msg.value] == p.got + (p.queue + [q.msg.value]) + [];
  }

  /** In every interleaving no assertion fails, no queued event is raised again, and what each
      side has sent is what the other has received, then what is queued there, then at most
      one message in flight. */
  lemma {:induction false} EveryRunIsSafe(s: Pair, steps: seq<Step>)
    requires Inv(s) && Plays(s, steps)
    ensures Run(s, steps).Some? && Inv(Run(s, steps).value)
    decreases |steps|
  {
    if steps != [] {
      StepKeeps(s, steps[0]);
      EveryRunIsSafe(Next(s, steps[0]).value, steps[1..]);
    }
  }

  lemma {:induction false} StepKeeps(s: Pair, step: Step)
    requires Inv(s) && CanStep(s, step)
    ensures Next(s, step).Some? && Inv(Next(s, step).value)
  {
    if step.byA { ApplyKeeps(s.a, s.b, step.act); } else { ApplyKeeps(s.b, s.a, step.act); }
  }

  /** What the code asserts where a step is taken, spelt out: the states of the pipe, a message to take,
      and that no event is raised that is still queued. */
  lemma {:induction false} AssertionsHold(p: Peer, q: Peer, act: Act)
    requires Direction(p, q) && Direction(q, p) && Enabled(p, act)
    ensures act.DoSend? ==> p.outstate == OutIdle && !p.sending && !q.sentQueued
    ensures act.DoRecv? ==> p.instate == InIdle && p.queue != [] && (p.receiving ==> q.msg.Some? && !q.receivedQueued)
    ensures act.DoSent? ==> q.msg.Some? && !q.receivedQueued && (p.queue == [] ==> p.instate == InAsync && !p.inQueued)
    ensures act.DoReceived? ==> p.sending && p.outstate == OutAsync && !p.outQueued
  {
  }

  // ---------------------------------------------------------------- what the users did

  /** A send adds its message to what was sent, a receive the oldest queued message to what was received,
      and nothing else adds to either. */
  lemma {:induction false} ApplyRecords(p: Peer, q: Peer, act: Act)
    requires Direction(p, q) && Direction(q, p) && Enabled(p, act)
    ensures var r := Apply(p, q, act);
            && r.Done? && r.peer.sent == q.sent && r.peer.got == q.got
            && r.self.sent == p.sent + (if act.DoSend? then [act.m] else [])
            && |r.self.got| == |p.got| + if act.DoRecv? then 1 else 0
  {
    ApplyKeeps(p, q, act);
    hide Direction, Recv, OnSent;
    match act
    case DoRecv => RecvRecords(p, q);
    case DoSent => SentRecords(p, q);
    case _ =>
  }

  lemma {:induction false} TakeRecords(p: Peer, q: Peer, r: Outcome)
    requires TakeMessage(p, q) == Some(r) && r.Done?
    ensures r.peer.sent == q.sent && r.peer.got == q.got && r.self.sent == p.sent && r.self.got == p.got
  {
    hide Accepts;
  }

  lemma {:induction false} AfterRecvRecords(p: Peer)
    ensures AfterRecv(p).sent == p.sent && AfterRecv(p).got == p.got
  {
  }

  lemma {:induction false} RecvRecords(p: Peer, q: Peer)
    requires Recv(p, q).Done?
    ensures var r := Recv(p, q);
            r.peer.sent == q.sent && r.peer.got == q.got && r.self.sent == p.sent && |r.self.got| == |p.got| + 1
  {
    hide TakeMessage, AfterRecv;
    var p1 := p.(queue := p.queue[1..], got := p.got + [p.queue[0]]);
    AfterRecvRecords(p1);
    if p1.receiving {
      var t := TakeMessage(p1, q);
      if t.Some? && t.value.Done? {
        TakeRecords(p1, q, t.value);
        AfterRecvRecords(t.value.self.(receiving := false));
      }
    }
  }

  lemma {:induction false} SentRecords(p: Peer, q: Peer)
    requires OnSent(p, q).Done?
    ensures var r := OnSent(p, q);
            r.peer.sent == q.sent && r.peer.got == q.got && r.self.sent == p.sent && r.self.got == p.got
  {
    hide TakeMessage;
    var p1 := p.(sentQueued := false);
    var t := TakeMessage(p1, q);
    if t.Some? && t.value.Done? { TakeRecords(p1, q, t.value); }
  }

  /** The messages one side sends in the steps. */
  function SentBy(byA: bool, steps: seq<Step>): seq<Msg> {
    if steps == [] then []
    else (if steps[0].byA == byA && steps[0].act.DoSend? then [steps[0].act.m] else []) + SentBy(byA, steps[1..])
  }

  /** How often one side receives. */
  function ReceivesOf(byA: bool, steps: seq<Step>): nat {
    if steps == [] then 0
    else (if steps[0].byA == byA && steps[0].act.DoRecv? then 1 else 0) + ReceivesOf(byA, steps[1..])
  }

  function Side(s: Pair, byA: bool): Peer { if byA then s.a else s.b }

  lemma {:induction false} StepRecords(s: Pair, step: Step, byA: bool)
    requires Inv(s) && CanStep(s, step) && Next(s, step).Some?
    ensures var t := Next(s, step).value;
            && Side(t, byA).sent == Side(s, byA).sent + (if step.byA == byA && step.act.DoSend? then [step.act.m] else [])
            && |Side(t, byA).got| == |Side(s, byA).got| + if step.byA == byA && step.act.DoRecv? then 1 else 0
  {
    hide Direction, Apply, Enabled;
    if step.byA { ApplyRecords(s.a, s.b, step.act); } else { ApplyRecords(s.b, s.a, step.act); }
  }

  lemma {:induction false} RunRecords(s: Pair, steps: seq<Step>, byA: bool)
    requires Inv(s) && Plays(s, steps)
    ensures Run(s, steps).Some?
    ensures var t := Run(s, steps).value;
            && Side(t, byA).sent == Side(s, byA).sent + SentBy(byA, steps)
            && |Side(t, byA).got| == |Side(s, byA).got| + ReceivesOf(byA, steps)
    decreases |steps|
  {
    hide Inv, Next, CanStep, Side;
    if steps != [] {
      StepKeeps(s, steps[0]);
      StepRecords(s, steps[0], byA);
      RunRecords(Next(s, steps[0]).value, steps[1..], byA);
      var one := if steps[0].byA == byA && steps[0].act.DoSend? then [steps[0].act.m] else [];
      assert (Side(s, byA).sent + one) + SentBy(byA, steps[1..]) == Side(s, byA).sent + (one + SentBy(byA, steps[1..]));
    }
  }

  /** In every run from the start the n receives of one side have got the first n messages that the other
      has sent, in order. */
  lemma {:induction false} FirstInFirstOut(m1: nat, m2: nat, steps: seq<Step>, byA: bool)
    requires Plays(Pair(Start(m1), Start(m2)), steps)
    ensures var s := Pair(Start(m1), Start(m2));
            && Run(s, steps).Some? && ReceivesOf(!byA, steps) <= |SentBy(byA, steps)|
            && Side(Run(s, steps).value, !byA).got == SentBy(byA, steps)[..ReceivesOf(!byA, steps)]
  {
    hide Plays, Run, SentBy, ReceivesOf;
    var s := Pair(Start(m1), Start(m2));
    StartInv(m1, m2);
    EveryRunIsSafe(s, steps);
    RunRecords(s, steps, byA);
    RunRecords(s, steps, !byA);
    var t := Run(s, steps).value;
    assert Direction(Side(t, byA), Side(t, !byA));
    assert Side(t, byA).sent == SentBy(byA, steps);
  }

  // ---------------------------------------------------------------- delivery

  /** What matters of the direction from p to q for the work left to do. */
  datatype Lane = Lane(queued: nat, exposed: bool, sentQueued: bool, receivedQueued: bool, outQueued: bool, inQueued: bool)

  function LaneOf(p: Peer, q: Peer): Lane {
    Lane(|q.queue|, p.msg.Some?, q.sentQueued, p.receivedQueued, p.outQueued, q.inQueued)
  }

  function Weight(b: bool, w: nat): nat { if b then w else 0 }

  function Load(l: Lane): nat {
    4 * l.queued + Weight(l.exposed, 8) + Weight(l.sentQueued, 1)
    + Weight(l.receivedQueued, 2) + Weight(l.outQueued, 1) + Weight(l.inQueued, 1)
  }

  function TotalWork(s: Pair): nat { Load(LaneOf(s.a, s.b)) + Load(LaneOf(s.b, s.a)) }

  /** What taking over the exposed message does to the lanes. */
  lemma {:induction false} TakeLane(p: Peer, q: Peer, r: Outcome)
    requires q.msg.Some? && TakeMessage(p, q) == Some(r) && r.Done?
    ensures LaneOf(r.self, r.peer) == LaneOf(p, q)
    ensures r.self.receiving == p.receiving && r.self.queue != []
    ensures LaneOf(r.peer, r.self)
            == LaneOf(q, p).(queued := |p.queue| + 1, exposed := false, receivedQueued := true)
  {
    hide Accepts;
  }

  lemma {:induction false} AfterRecvLane(p: Peer, q: Peer)
    ensures LaneOf(AfterRecv(p), q) == LaneOf(p, q)
    ensures LaneOf(q, AfterRecv(p)) == LaneOf(q, p)
  {
    if |p.queue| > 0 {
      assert AfterRecv(p) == p.(instate := InIdle);
    } else {
      assert AfterRecv(p) == p.(instate := InAsync, readable := false);
    }
  }

  lemma {:induction false} RecvLane(p: Peer, q: Peer, r: Outcome)
    requires Handshake(q, p) && p.queue != [] && Recv(p, q) == r && r.Done?
    ensures LaneOf(r.self, r.peer) == LaneOf(p, q)
    ensures var l := LaneOf(q, p);
            || LaneOf(r.peer, r.self) == l.(queued := l.queued - 1)
            || (l.exposed && !l.sentQueued && LaneOf(r.peer, r.self) == l.(exposed := false, receivedQueued := true))
  {
    hide Accepts, TakeMessage, AfterRecv;
    var p1 := p.(queue := p.queue[1..], got := p.got + [p.queue[0]]);
    if p1.receiving {
      var t := TakeMessage(p1, q);
      if t.Some? && t.value.Done? {
        TakeLane(p1, q, t.value);
        AfterRecvLane(t.value.self.(receiving := false), t.value.peer);
      } else {
        AfterRecvLane(p1, q);
      }
    } else {
      AfterRecvLane(p1, q);
    }
  }

  lemma {:induction false} SentLane(p: Peer, q: Peer, r: Outcome)
    requires Handshake(q, p) && p.sentQueued && OnSent(p, q) == r && r.Done?
    ensures LaneOf(r.self, r.peer) == LaneOf(p, q)
    ensures var l, l' := LaneOf(q, p), LaneOf(r.peer, r.self);
            && l.exposed && l.sentQueued
            && (|| l' == l.(sentQueued := false)
                || l' == l.(queued := l.queued + 1, exposed := false, sentQueued := false, receivedQueued := true,
                            inQueued := l'.inQueued))
  {
    hide Accepts, TakeMessage;
    var p1 := p.(sentQueued := false);
    var t := TakeMessage(p1, q);
    if t.Some? {
      assert t.value.Done?;
      TakeLane(p1, q, t.value);
    }
  }

  lemma Flags(p: Peer, q: Peer)
    requires Direction(p, q)
    ensures Handshake(p, q) && (q.queue == [] ==> !q.inQueued && !q.readable) && (p.sending ==> !p.outQueued)
    ensures q.queue != [] ==> q.inQueued != q.readable
  {
  }

  ghost predicate Lighter(p: Peer, q: Peer, r: Outcome) {
    r.Done? && Load(LaneOf(r.self, r.peer)) + Load(LaneOf(r.peer, r.self)) < Load(LaneOf(p, q)) + Load(LaneOf(q, p))
  }

  lemma {:induction false} RecvWorks(p: Peer, q: Peer, r: Outcome)
    requires Handshake(q, p) && p.queue != [] && Recv(p, q) == r && r.Done?
    ensures Lighter(p, q, r)
  {
    hide Recv, LaneOf;
    RecvLane(p, q, r);
  }

  lemma {:induction false} SentWorks(p: Peer, q: Peer, r: Outcome)
    requires Handshake(q, p) && p.sentQueued && OnSent(p, q) == r && r.Done?
    ensures Lighter(p, q, r)
  {
    hide OnSent, LaneOf;
    SentLane(p, q, r);
  }

  lemma {:induction false} ReceivedWorks(p: Peer, q: Peer, r: Outcome)
    requires p.receivedQueued && OnReceived(p, q) == r && r.Done?
    ensures Lighter(p, q, r)
  {
    assert LaneOf(r.self, r.peer) == LaneOf(p, q).(receivedQueued := false, outQueued := true);
    assert LaneOf(r.peer, r.self) == LaneOf(q, p);
  }

  lemma {:induction false} InWorks(p: Peer, q: Peer)
    requires p.inQueued
    ensures Lighter(p, q, OnIn(p, q))
  {
    var r := OnIn(p, q);
    assert LaneOf(r.self, r.peer) == LaneOf(p, q);
    assert LaneOf(r.peer, r.self) == LaneOf(q, p).(inQueued := false);
  }

  lemma {:induction false} OutWorks(p: Peer, q: Peer)
    requires p.outQueued
    ensures Lighter(p, q, OnOut(p, q))
  {
    var r := OnOut(p, q);
    assert LaneOf(r.self, r.peer) == LaneOf(p, q).(outQueued := false);
    assert LaneOf(r.peer, r.self) == LaneOf(q, p);
  }

  lemma {:induction false} ApplyWorks(p: Peer, q: Peer, act: Act)
    requires Direction(p, q) && Direction(q, p) && Enabled(p, act) && !act.DoSend?
    ensures Lighter(p, q, Apply(p, q, act))
  {
    hide Direction, Recv, OnSent, OnReceived, OnIn, OnOut, Lighter;
    ApplyKeeps(p, q, act);
    Flags(p, q);
    Flags(q, p);
    match act
    case DoRecv => RecvWorks(p, q, Recv(p, q));
    case DoSent => SentWorks(p, q, OnSent(p, q));
    case DoReceived => ReceivedWorks(p, q, OnReceived(p, q));
    case DoIn => InWorks(p, q);
    case DoOut => OutWorks(p, q);
  }

  lemma {:induction false} StepWorks(s: Pair, step: Step)
    requires Inv(s) && CanStep(s, step) && !step.act.DoSend?
    ensures Next(s, step).Some? && Inv(Next(s, step).value) && TotalWork(Next(s, step).value) < TotalWork(s)
  {
    hide Direction, Apply, Load, LaneOf, Enabled;
    StepKeeps(s, step);
    if step.byA { ApplyWorks(s.a, s.b, step.act); } else { ApplyWorks(s.b, s.a, step.act); }
  }

  /** Unless the users send more, the steps run out. */
  lemma {:induction false} StepsRunOut(s: Pair, steps: seq<Step>)
    requires Inv(s) && Plays(s, steps)
    requires forall i | 0 <= i < |steps| :: !steps[i].act.DoSend?
    ensures Run(s, steps).Some? && |steps| + TotalWork(Run(s, steps).value) <= TotalWork(s)
    decreases |steps|
  {
    hide Inv, Next, CanStep, TotalWork;
    if steps != [] {
      StepWorks(s, steps[0]);
      StepsRunOut(Next(s, steps[0]).value, steps[1..]);
    }
  }

  /** Nothing is left to do but to send. */
  ghost predicate Quiet(s: Pair) {
    forall step: Step :: CanStep(s, step) ==> step.act.DoSend?
  }

  /** When the steps have run out every message has arrived and both sides may send again: the
      back-pressure cannot get stuck. */
  lemma {:induction false} QuietMeansDelivered(s: Pair)
    requires Inv(s) && Quiet(s)
    ensures s.a.sent == s.b.got && s.b.sent == s.a.got
    ensures s.a.writable && s.b.writable
  {
    QuietPeer(s.a, s.b, s, true);
    QuietPeer(s.b, s.a, s, false);
  }

  lemma {:induction false} QuietPeer(p: Peer, q: Peer, s: Pair, byA: bool)
    requires Inv(s) && Quiet(s) && (if byA then p == s.a && q == s.b else p == s.b && q == s.a)
    ensures p.sent == q.got && p.writable
  {
    assert !CanStep(s, Step(!byA, DoRecv)) && !CanStep(s, Step(!byA, DoIn)) && !CanStep(s, Step(!byA, DoSent));
    assert !CanStep(s, Step(byA, DoReceived)) && !CanStep(s, Step(byA, DoOut));
  }
}
