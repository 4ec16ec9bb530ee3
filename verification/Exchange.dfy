/** A request on its way from the REQ socket to the service and the reply on its way back
    (protocols/reqrep): what the two ends and the devices between them do together. */
module Exchange {
  import opened Common
  import opened Wire
  import opened Routing
  import Req

  /** The reply of the service to the current request comes back by the pipes of the request in reverse,
      and the requester in ACTIVE takes it as the answer. */
  predicate Accepted(r: Req.Req, hops: seq<Hop>, reply: seq<byte>) {
    var q := Forward(hops, r.request);
    && q.Some?
    && var back := Backward(hops, Msg(q.value.sphdr, reply));
    && back.Back? && back.trail == Trail(hops)
    && var r' := Req.Incoming(r, back.msg);
    r'.Some? && r'.value.state.StoppingTimer? && r'.value.reply == Req.Reply(reply)
  }

  lemma {:induction false} AcceptsAnswers(r: Req.Req, m: Msg, reply: seq<byte>)
    requires Req.Inv(r) && r.state.Active?
    ensures var r' := Req.Incoming(r, m);
            (r'.Some? && r'.value.state.StoppingTimer? && r'.value.reply == Req.Reply(reply))
            <==> m == Msg(Req.Header(r.id), reply)
  {
    hide Req.Answers, Req.Header;
    Req.AnswersIff(r, m);
  }

  /** In every run of the requester, whenever a request is in ACTIVE: it arrives with its body intact, and
      the reply is accepted exactly if the pipes of the way are all still there and none that keeps header
      and body apart comes after one that does not. */
  lemma {:induction false} ExchangeCompletes(id: uint32, acts: seq<Req.Action>, hops: seq<Hop>, reply: seq<byte>)
    requires Req.Plays(Req.NewReq(id), acts) && Keyed(hops)
    ensures Req.Run(Req.NewReq(id), acts).Some?
    ensures var r := Req.Run(Req.NewReq(id), acts).value;
            r.state.Active? ==>
              && r.requests != []
              && var sent := r.requests[|r.requests| - 1];
              && Forward(hops, r.request) == Some(Msg(Stack(Keys(hops), WithTop(r.id)), sent.body))
              && (Accepted(r, hops, reply) <==> Standing(hops) && Sorted(hops))
  {
    hide Req.Run, Req.Plays, Req.Incoming, Stack, Backward, Forward, Standing, Sorted;
    Req.NewInv(id);
    Req.EveryRunIsSafe(Req.NewReq(id), acts);
    var r := Req.Run(Req.NewReq(id), acts).value;
    if r.state.Active? {
      Req.HeaderHasTop(r.id);
      RequestArrives(hops, WithTop(r.id), r.request.body);
      var p := Msg(Stack(Keys(hops), WithTop(r.id)), reply);
      ReplyReturns(hops, WithTop(r.id), reply);
      var back := Backward(hops, p);
      if back.Back? { AcceptsAnswers(r, back.msg, reply); }
    }
  }
}
