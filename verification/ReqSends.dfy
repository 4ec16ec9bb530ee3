/** What a REQ socket (protocols/reqrep/req.c) sends, when, and that it goes on: which action transmits
    which request by which pipe, what follows a timeout, the loss of a pipe, an answer and a close. */
module ReqSends {
  import opened Common
  import opened Wire
  import opened Req

  // ---------------------------------------------------------------- one action

  /** The choice an action carries. */
  function ChoiceOf(a: Action): Choice {
    match a
    case Submit(_, c) => c
    case Out(_, c) => c
    case DeliverEvent(c) => c
    case _ => ANY
  }

  /** What nn_req_action_send does where there is a pipe. */
  ghost predicate Sends(r: Req, r': Req, c: Choice) {
    && r'.requests == r.requests != [] && r'.state.Active? && r'.sentTo == Some(c.to) && r'.ivl == r.ivl
    && r'.txs == r.txs + [Tx(|r.requests| - 1, r.requests[|r.requests| - 1], c.to)]
    && r'.timer.tasks == [StartTask] && r'.timer.timeout == r.ivl
    && r'.pipes == r.pipes - if c.release then {c.to} else {}
  }

  lemma {:induction false} SendSends(r: Req, allowDelay: bool, c: Choice)
    requires r.requests != [] && r.request == r.requests[|r.requests| - 1] && r.timer.tasks == []
    requires ActionSend(r, allowDelay, c).Some?
    ensures var r' := ActionSend(r, allowDelay, c).value;
            if r.pipes == {} then r' == r.(state := Delayed) else Sends(r, r', c)
  {
  }

  /** The socket as it is when the action comes to the point of sending. */
  function Ready(r: Req, a: Action): Req {
    match a
    case Submit(body, _) => Renewed(r, body)
    case Out(p, _) => r.(pipes := r.pipes + {p})
    case DeliverEvent(_) => if r.timer.events == [] then r else r.(timer := r.timer.(events := r.timer.events[1..]))
    case _ => r
  }

  lemma {:induction false} TransmitsSends(r: Req, a: Action)
    requires Inv(r) && Enabled(r, a) && Transmits(r, a)
    ensures Do(r, a).Some? && Sends(Ready(r, a), Do(r, a).value, ChoiceOf(a))
  {
    DoKeeps(r, a);
    hide Header, ActionSend, Sends, TxOk, LastSent;
    SendSends(Ready(r, a), !a.Out?, ChoiceOf(a));
  }

  ghost predicate Unsent(r: Req, a: Action, r': Req) {
    && r'.txs == r.txs && r'.ivl == (if a.SetIvl? then a.ivl else r.ivl)
    && r'.pipes == r.pipes + (if a.Out? then {a.p} else {}) - if a.Rm? then {a.p} else {}
  }

  lemma {:induction false} SubmitUnsent(r: Req, body: seq<byte>, c: Choice)
    requires !Transmits(r, Submit(body, c)) && CSend(r, body, c).Some?
    ensures Unsent(r, Submit(body, c), CSend(r, body, c).value)
  {
    hide Header;
  }

  lemma {:induction false} EventUnsent(r: Req, c: Choice)
    requires r.timer.events != [] && !Transmits(r, DeliverEvent(c)) && Deliver(r, c).Some?
    ensures Unsent(r, DeliverEvent(c), Deliver(r, c).value)
  {
  }

  /** Any other action sends nothing. */
  lemma {:induction false} OthersSendNothing(r: Req, a: Action)
    requires Enabled(r, a) && !Transmits(r, a) && Do(r, a).Some?
    ensures Unsent(r, a, Do(r, a).value)
  {
    hide CSend, Deliver, Answers;
    match a
    case Submit(body, c) => SubmitUnsent(r, body, c);
    case DeliverEvent(c) => EventUnsent(r, c);
    case _ =>
  }

  /** An action that transmits sends the latest request, the one just submitted included, by the pipe
      chosen, and starts the timer with the interval; any other action sends nothing. */
  lemma {:induction false} TransmitsLatest(r: Req, a: Action)
    requires Inv(r) && Enabled(r, a) && (a.SetIvl? ==> a.ivl >= 0)
    ensures Do(r, a).Some?
    ensures var r', c := Do(r, a).value, ChoiceOf(a);
            if Transmits(r, a) then
              && r'.requests != [] && r'.state.Active? && r'.sentTo == Some(c.to) && c.to in Ready(r, a).pipes
              && r'.txs == r.txs + [Tx(|r'.requests| - 1, r'.requests[|r'.requests| - 1], c.to)]
              && r'.timer.tasks == [StartTask] && r'.timer.timeout == r.ivl
            else r'.txs == r.txs
  {
    hide Header, Do, Inv;
    DoKeeps(r, a);
    if Transmits(r, a) { TransmitsSends(r, a); } else { OthersSendNothing(r, a); }
  }

  /** The pipes ready for sending: one that appears joins them, one that is removed leaves them, and one
      that a transmission uses up leaves them until it is announced again. */
  lemma {:induction false} PipesFollow(r: Req, a: Action)
    requires Inv(r) && Enabled(r, a) && (a.SetIvl? ==> a.ivl >= 0)
    ensures Do(r, a).Some?
    ensures var came, went := if a.Out? then {a.p} else {}, if a.Rm? then {a.p} else {};
            Do(r, a).value.pipes
            == r.pipes + came - went - if Transmits(r, a) && ChoiceOf(a).release then {ChoiceOf(a).to} else {}
    ensures Do(r, a).value.ivl == if a.SetIvl? then a.ivl else r.ivl
  {
    hide Header, Do, Inv;
    DoKeeps(r, a);
    if Transmits(r, a) { TransmitsSends(r, a); } else { OthersSendNothing(r, a); }
  }

  /** What the code asserts where an action is taken, spelt out: a timer is started only when idle, no task
      and no event is queued twice, the worker meets the timer in a state for the task, the loss of the
      pipe in use comes in ACTIVE, and each event of the timer in a state that expects it. */
  lemma {:induction false} AssertionsHold(r: Req, a: Action)
    requires Inv(r) && Enabled(r, a)
    ensures Transmits(r, a) ==>
              var t := Ready(r, a).timer;
              IsIdle(t) && t.state == TimerIdle && t.tasks == [] && t.events == [] && r.ivl >= 0
    ensures r.timer.fsm == FsmActive ==> StopTask !in r.timer.tasks && r.timer.state == TimerActive
    ensures a.ExecuteTask? ==>
              && TimerStopped !in r.timer.events
              && (if r.timer.fsm == FsmStopping then r.timer.state == TimerStopping
                  else r.timer.fsm == FsmActive && r.timer.tasks[0] == StartTask && r.timer.timeout >= 0 && r.timer.wtimer != Armed)
    ensures a.DeliverFire? ==>
              && Timeout !in r.timer.events
              && (r.timer.fsm == FsmStopping || (r.timer.fsm == FsmActive && r.timer.timeout == -1))
    ensures a.Rm? && r.sentTo == Some(a.p) ==> r.state.Active?
    ensures a.DeliverEvent? ==>
              match r.timer.events[0]
              case Timeout => r.state.Active?
              case TimerStopped =>
                r.state.TimedOut? || r.state.Cancelling? || r.state.StoppingTimer? || r.state.Stopping?
  {
  }

  /** A request submitted while another is on its way, or while its answer is, replaces it: nothing is sent
      until the timer of the other has stopped, and no answer to the other is handed over. */
  lemma {:induction false} SubmitCancels(r: Req, body: seq<byte>, c: Choice)
    requires Inv(r) && Enabled(r, Submit(body, c))
    requires r.state.Active? || r.state.TimedOut? || r.state.Cancelling? || r.state.StoppingTimer?
    ensures CSend(r, body, c).Some?
    ensures var r' := CSend(r, body, c).value;
            r'.state.Cancelling? && r'.sentTo.None? && r'.txs == r.txs && Ending(r'.timer) && CRecv(r').1 == Eagain
  {
    hide Header;
    SubmitKeeps(r, body, c);
  }

  // ---------------------------------------------------------------- what was submitted

  /** The bodies the user submits. */
  function Submitted(acts: seq<Action>): seq<seq<byte>> {
    if acts == [] then []
    else Submitted(Init(acts)) + if Last(acts).Submit? then [Last(acts).body] else []
  }

  /** In every run the requests are what the user submitted, in order. */
  lemma {:induction false} RequestsAreSubmitted(id: uint32, acts: seq<Action>)
    requires Run(NewReq(id), acts).Some?
    ensures var r := Run(NewReq(id), acts).value;
            |r.requests| == |Submitted(acts)| && forall k | 0 <= k < |r.requests| :: r.requests[k].body == Submitted(acts)[k]
  {
    hide Do, Header;
    if acts != [] {
      RequestsAreSubmitted(id, Init(acts));
      DoNumbers(Run(NewReq(id), Init(acts)).value, Last(acts));
    }
  }

  /** In every run, whenever the socket waits for an answer, what it sent last is the body submitted last,
      under its own id, by the pipe whose loss it watches for. */
  lemma {:induction false} SentIsSubmitted(id: uint32, acts: seq<Action>)
    requires Plays(NewReq(id), acts)
    ensures Run(NewReq(id), acts).Some?
    ensures var r := Run(NewReq(id), acts).value;
            r.state.Active? ==>
              && Submitted(acts) != [] && r.txs != []
              && var tx := r.txs[|r.txs| - 1];
              && tx.request == |Submitted(acts)| - 1 && tx.packet == Msg(Header(r.id), Submitted(acts)[tx.request])
              && r.sentTo == Some(tx.pipe)
  {
    hide Run, Plays, Submitted, Header;
    NewInv(id);
    EveryRunIsSafe(NewReq(id), acts);
    RequestsAreSubmitted(id, acts);
  }

  lemma {:induction false} HeadersDiffer(a: uint32, b: uint32)
    ensures Header(a) == Header(b) <==> a % TOP == b % TOP
  {
    hide PutL, GetL, WithTop;
    SameWithTop(a, b);
    GetPut(WithTop(a), []);
    GetPut(WithTop(b), []);
    assert Header(a) + [] == Header(a) && Header(b) + [] == Header(b);
  }

  /** In every run a reply under the id of request k is taken for the answer to the latest request only if
      k is that request, or a multiple of 2^31 requests older. */
  lemma {:induction false} OnlyItsAnswer(id: uint32, acts: seq<Action>, k: nat, reply: seq<byte>)
    requires Run(NewReq(id), acts).Some? && k < |Run(NewReq(id), acts).value.requests|
    ensures var r := Run(NewReq(id), acts).value;
            Answers(r, Msg(r.requests[k].sphdr, reply)) <==> (|r.requests| - 1 - k) % TOP == 0
  {
    hide Run, Header, Answers;
    var r := Run(NewReq(id), acts).value;
    RequestIds(id, acts, k);
    AnswersIff(r, Msg(r.requests[k].sphdr, reply));
    HeadersDiffer((id + k + 1) % 0x1_0000_0000, r.id);
    Congruent(id + k + 1, id + |r.requests|);
  }

  lemma {:induction false} ModTop(x: nat, q: nat, r: nat)
    requires x == TOP * q + r && r < TOP
    ensures x % TOP == r
  {
  }

  lemma {:induction false} LowBits(x: nat)
    ensures x % 0x1_0000_0000 % TOP == x % TOP
  {
    var q, r := x / 0x1_0000_0000, x % 0x1_0000_0000;
    assert x == 0x1_0000_0000 * q + r;
    if r < TOP { ModTop(x, 2 * q, r); } else { ModTop(x, 2 * q + 1, r - TOP); }
  }

  lemma {:induction false} Congruent(a: nat, b: nat)
    requires a <= b
    ensures a % 0x1_0000_0000 % TOP == b % 0x1_0000_0000 % TOP <==> (b - a) % TOP == 0
  {
    LowBits(a);
    LowBits(b);
    var qa, ra, qb, rb := a / TOP, a % TOP, b / TOP, b % TOP;
    assert a == TOP * qa + ra && b == TOP * qb + rb;
    if rb >= ra { ModTop(b - a, qb - qa, rb - ra); } else { ModTop(b - a, qb - qa - 1, rb - ra + TOP); }
  }

  // ---------------------------------------------------------------- runs in two parts

  lemma {:induction false} RunOn(r: Req, acts: seq<Action>, more: seq<Action>)
    requires Run(r, acts).Some?
    ensures Run(r, acts + more) == Run(Run(r, acts).value, more)
    ensures Plays(r, acts) && Plays(Run(r, acts).value, more) ==> Plays(r, acts + more)
  {
    hide Do, Enabled;
    if more == [] {
      assert acts + more == acts;
    } else {
      RunOn(r, acts, Init(more));
      assert Init(acts + more) == acts + Init(more) && Last(acts + more) == Last(more);
    }
  }

  lemma {:induction false} RunOne(r: Req, a: Action)
    requires Enabled(r, a) && !a.SetIvl?
    ensures Plays(r, [a]) && Run(r, [a]) == Do(r, a)
  {
    Idle(r);
    OneMore(r, [], a);
    assert [] + [a] == [a];
  }

  lemma {:induction false} RunThen(r: Req, acts: seq<Action>, a: Action)
    requires Plays(r, acts) && Run(r, acts).Some? && Enabled(Run(r, acts).value, a) && !a.SetIvl?
    ensures Plays(r, acts + [a]) && Run(r, acts + [a]) == Do(Run(r, acts).value, a)
  {
    OneMore(r, acts, a);
  }

  // ---------------------------------------------------------------- the timer comes to an end

  /** What the worker has left to do for a timer that is being stopped. */
  function Unwind(t: Timer): seq<Action> {
    if t.fsm != FsmStopping then []
    else (if t.wtimer == Fired then [DeliverFire] else if |t.tasks| > 1 then [ExecuteTask] else []) + [ExecuteTask]
  }

  /** It can do so, nothing but the timer changes, and then the timer has an event for the socket. */
  lemma {:induction false} UnwindRun(r: Req)
    requires Inv(r) && Ending(r.timer)
    ensures Plays(r, Unwind(r.timer)) && Run(r, Unwind(r.timer)).Some?
    ensures var r' := Run(r, Unwind(r.timer)).value;
            r' == r.(timer := NewTimer.(timeout := r'.timer.timeout, events := [TimerStopped]))
  {
    hide Run, Plays, TxOk, RequestOk, Header;
    var t := r.timer;
    if t.fsm != FsmStopping {
      Idle(r);
    } else if t.wtimer == Fired {
      RunOne(r, DeliverFire);
      RunThen(r, [DeliverFire], ExecuteTask);
    } else if |t.tasks| > 1 {
      RunOne(r, ExecuteTask);
      RunThen(r, [ExecuteTask], ExecuteTask);
    } else {
      RunOne(r, ExecuteTask);
      assert [] + [ExecuteTask] == [ExecuteTask];
    }
  }

  /** With these pipes ready, the latest request goes out by the one chosen; with none, it waits. */
  predicate SentAgain(r: Req, r': Req, pipes: set<Pipe>, c: Choice) {
    && r'.requests == r.requests && r.requests != []
    && (if pipes == {} then r'.state.Delayed? && r'.txs == r.txs
        else r'.state.Active? && r'.txs == r.txs + [Tx(|r.requests| - 1, r.requests[|r.requests| - 1], c.to)])
  }

  /** After a timeout, the loss of the pipe or a new request in place of one that was sent: once the worker
      has done its part, the next event sends the latest request, or leaves it to wait for a pipe. */
  lemma {:induction false} ResendFollows(r: Req, c: Choice)
    requires Inv(r) && (r.state.TimedOut? || r.state.Cancelling?) && (r.pipes != {} ==> c.to in r.pipes)
    ensures var acts := Unwind(r.timer) + [DeliverEvent(c)];
            Plays(r, acts) && Run(r, acts).Some? && SentAgain(r, Run(r, acts).value, r.pipes, c)
  {
    hide Run, Plays, Header, TxOk;
    UnwindRun(r);
    RunThen(r, Unwind(r.timer), DeliverEvent(c));
  }

  /** After an answer was accepted: once the worker has done its part, the next event makes it ready for
      the user to collect. */
  lemma {:induction false} AnswerFollows(r: Req, c: Choice)
    requires Inv(r) && r.state.StoppingTimer? && (r.pipes != {} ==> c.to in r.pipes)
    ensures var acts := Unwind(r.timer) + [DeliverEvent(c)];
            && Plays(r, acts) && Run(r, acts).Some?
            && var (r', got) := CRecv(Run(r, acts).value);
            got == Got(r.reply) && r'.reply == Blank && CRecv(r').1 == Efsm
  {
    hide Run, Plays, Header, TxOk;
    UnwindRun(r);
    RunThen(r, Unwind(r.timer), DeliverEvent(c));
  }

  // ---------------------------------------------------------------- timeout and loss

  /** How the timer of a request that was sent expires. */
  function Expiry(t: Timer): seq<Action> {
    (if t.tasks != [] then [ExecuteTask] else []) + (if t.wtimer == Fired then [] else [Expire]) + [DeliverFire]
  }

  lemma {:induction false} ExpiryRun(r: Req)
    requires Inv(r) && r.state.Active? && r.timer.events == []
    ensures Plays(r, Expiry(r.timer)) && Run(r, Expiry(r.timer)).Some?
    ensures var r' := Run(r, Expiry(r.timer)).value;
            r' == r.(timer := Timer(FsmActive, TimerActive, -1, [], Unarmed, [Timeout]))
  {
    hide Run, Plays, TxOk, RequestOk, LastSent, Header;
    var t := r.timer;
    if t.tasks != [] {
      RunOne(r, ExecuteTask);
      RunThen(r, [ExecuteTask], Expire);
      RunThen(r, [ExecuteTask] + [Expire], DeliverFire);
    } else if t.wtimer == Fired {
      RunOne(r, DeliverFire);
      assert [] + [] + [DeliverFire] == [DeliverFire];
    } else {
      RunOne(r, Expire);
      RunThen(r, [Expire], DeliverFire);
      assert [] + [Expire] == [Expire];
    }
  }

  /** A request that was sent can time out at any moment, and is then sent once more or waits for a pipe. */
  lemma {:induction false} TimeoutResends(r: Req, c: Choice)
    requires Inv(r) && r.state.Active? && r.timer.events == [] && (r.pipes != {} ==> c.to in r.pipes)
    ensures var acts := Expiry(r.timer) + [DeliverEvent(c)] + ([ExecuteTask] + [DeliverEvent(c)]);
            Plays(r, acts) && Run(r, acts).Some? && SentAgain(r, Run(r, acts).value, r.pipes, c)
  {
    hide Run, Plays, Header, TxOk, Expiry;
    ExpiryRun(r);
    EveryRunIsSafe(r, Expiry(r.timer));
    RunThen(r, Expiry(r.timer), DeliverEvent(c));
    var acts := Expiry(r.timer) + [DeliverEvent(c)];
    EveryRunIsSafe(r, acts);
    var r1 := Run(r, acts).value;
    assert [] + [StopTask] == [StopTask];
    ResendFollows(r1, c);
    assert Unwind(r1.timer) == [] + [ExecuteTask] == [ExecuteTask];
    RunOn(r, acts, [ExecuteTask] + [DeliverEvent(c)]);
  }

  /** The loss of the pipe in use does the same with the pipes left; that of another pipe sends nothing. */
  lemma {:induction false} LossResends(r: Req, p: Pipe, c: Choice)
    requires Inv(r) && r.state.Active? && r.timer.events == [] && r.sentTo == Some(p)
    requires r.pipes - {p} != {} ==> c.to in r.pipes - {p}
    ensures Do(r, Rm(p)).Some?
    ensures var acts := [Rm(p)] + (Unwind(Do(r, Rm(p)).value.timer) + [DeliverEvent(c)]);
            Plays(r, acts) && Run(r, acts).Some? && SentAgain(r, Run(r, acts).value, r.pipes - {p}, c)
  {
    hide Run, Plays, Header, TxOk, Unwind;
    DoKeeps(r, Rm(p));
    RunOne(r, Rm(p));
    var r1 := Do(r, Rm(p)).value;
    ResendFollows(r1, c);
    RunOn(r, [Rm(p)], Unwind(r1.timer) + [DeliverEvent(c)]);
  }

  // ---------------------------------------------------------------- the user's side

  /** A request is outstanding: one was submitted, and no reply handed over since. */
  predicate Outstanding(id: uint32, acts: seq<Action>) {
    acts != []
    && match Last(acts)
       case Submit(_, _) => true
       case Collect =>
         Outstanding(id, Init(acts)) && (Run(NewReq(id), Init(acts)).Some? ==> !CRecv(Run(NewReq(id), Init(acts)).value).1.Got?)
       case _ => Outstanding(id, Init(acts))
  }

  /** In every run of an open socket a receive is refused exactly if no request is outstanding, and hands a
      reply over exactly if the socket is done. */
  lemma {:induction false} RefusedIff(id: uint32, acts: seq<Action>)
    requires Plays(NewReq(id), acts)
    ensures Run(NewReq(id), acts).Some?
    ensures var r := Run(NewReq(id), acts).value;
            Open(r) ==>
              && (CRecv(r).1 == Efsm <==> !Outstanding(id, acts))
              && (CRecv(r).1.Got? <==> r.state.Finished?)
  {
    NewInv(id);
    EveryRunIsSafe(NewReq(id), acts);
    if acts != [] {
      RefusedIff(id, Init(acts));
      hide Do, Enabled, Inv;
      if Open(Run(NewReq(id), acts).value) { OpenStep(Run(NewReq(id), Init(acts)).value, Last(acts)); }
    }
  }

  lemma {:induction false} OpenStep(r: Req, a: Action)
    requires Do(r, a).Some? && Open(Do(r, a).value)
    ensures Open(r)
    ensures InProgress(Do(r, a).value) <==> (if a.Submit? then true else if a.Collect? then InProgress(r) && !CRecv(r).1.Got? else InProgress(r))
  {
    hide Header, Answers;
  }

  /** Closing stops the socket at once, or as soon as the worker has stopped the timer; nothing is sent
      after it. */
  lemma {:induction false} CloseFollows(r: Req, c: Choice)
    requires Inv(r) && Enabled(r, Close)
    ensures Do(r, Close).Some?
    ensures var r1 := Do(r, Close).value;
            && !Open(r1) && r1.txs == r.txs && (r1.state.Stopped? <==> IsIdle(r.timer))
            && (r1.state.Stopping? && (r1.pipes != {} ==> c.to in r1.pipes) ==>
                  var acts := Unwind(r1.timer) + [DeliverEvent(c)];
                  && Plays(r1, acts) && Run(r1, acts).Some?
                  && Run(r1, acts).value.state.Stopped? && Run(r1, acts).value.txs == r.txs)
  {
    hide Run, Plays, Header, TxOk;
    DoKeeps(r, Close);
    var r1 := Do(r, Close).value;
    if r1.state.Stopping? && (r1.pipes != {} ==> c.to in r1.pipes) {
      UnwindRun(r1);
      RunThen(r1, Unwind(r1.timer), DeliverEvent(c));
    }
  }
}
