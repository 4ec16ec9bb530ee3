/** How a request gathers its way back and how the reply follows it: the raw sockets XREQ and XREP,
    their headers, and the REP socket (protocols/reqrep/xreq.c, xrep.c and rep.c). */
module Routing {
  import opened Common
  import opened Wire

  /** The length of the header a request starts with: the words up to the first with the top bit. */
  function HeaderSize(data: seq<byte>): (r: Option<nat>)
    ensures r.Some? ==> 4 <= r.value <= |data|
  {
    if |data| < 4 then None
    else if HasTop(GetL(data)) then Some(4)
    else match HeaderSize(data[4..])
      case None => None
      case Some(n) => Some(n + 4)
  }

  /** A backtrace: the keys of the pipes, the last one first, above the request id. */
  function Stack(keys: seq<uint32>, id: uint32): (b: seq<byte>)
    ensures |b| == 4 * |keys| + 4
  {
    if keys == [] then PutL(id) else PutL(keys[0]) + Stack(keys[1..], id)
  }

  predicate AllKeys(keys: seq<uint32>) { forall i | 0 <= i < |keys| :: !HasTop(keys[i]) }

  /** What the scan of nn_xrep_recv does with a word at a time. */
  lemma {:induction false} HeaderSizeStep(data: seq<byte>, n: nat)
    requires 4 * n <= |data|
    requires forall i: nat | 4 * i + 4 <= 4 * n :: !HasTop(WordAt(data, i))
    ensures HeaderSize(data) ==
            match HeaderSize(data[4 * n..]) case None => None case Some(k) => Some(k + 4 * n)
    decreases n
  {
    if n == 0 {
      assert data[0..] == data;
    } else {
      assert WordAt(data, 0) == GetL(data);
      var tail := data[4..];
      forall i: nat | 4 * i + 4 <= 4 * (n - 1) ensures !HasTop(WordAt(tail, i)) {
        assert tail[4 * i..] == data[4 * (i + 1)..];
        assert WordAt(data, i + 1) == WordAt(tail, i);
      }
      HeaderSizeStep(tail, n - 1);
      assert tail[4 * (n - 1)..] == data[4 * n..];
    }
  }

  function WordAt(data: seq<byte>, i: nat): uint32 {
    if 4 * i + 4 <= |data| then GetL(data[4 * i..]) else 0
  }

  lemma WordIs(data: seq<byte>, i: nat)
    requires 4 * i <= |data|
    ensures 4 * i + 4 <= |data| ==> WordAt(data, i) == GetL(data[4 * i..])
    ensures HeaderSize(data[4 * i..]).None? || 4 * i + 4 <= |data|
    ensures 4 * i + 4 <= |data| && HasTop(WordAt(data, i)) ==> HeaderSize(data[4 * i..]) == Some(4)
  {
    hide GetL, HasTop;
  }

  /** The loop of nn_xrep_recv that determines the size of the header. */
  method ScanHeader(data: seq<byte>) returns (r: Option<nat>)
    ensures r == HeaderSize(data)
  {
    hide GetL, HasTop;
    var i := 0;
    while true
      invariant 4 * i <= |data|
      invariant forall j: nat | 4 * j + 4 <= 4 * i :: !HasTop(WordAt(data, j))
      decreases |data| - 4 * i
    {
      HeaderSizeStep(data, i);
      WordIs(data, i);
      if (i + 1) * 4 > |data| { return None; }
      if HasTop(GetL(data[4 * i..])) { break; }
      i := i + 1;
    }
    i := i + 1;
    return Some(4 * i);
  }

  /** Any body may follow a backtrace: it is split off exactly where the backtrace ends. */
  lemma {:induction false} StackIsHeader(keys: seq<uint32>, id: uint32, body: seq<byte>)
    requires AllKeys(keys) && HasTop(id)
    ensures HeaderSize(Stack(keys, id) + body) == Some(|Stack(keys, id)|)
  {
    var data := Stack(keys, id) + body;
    if keys == [] {
      GetPut(id, body);
    } else {
      var rest := Stack(keys[1..], id) + body;
      assert data == PutL(keys[0]) + rest;
      GetPut(keys[0], rest);
      StackIsHeader(keys[1..], id, body);
      assert data[4..] == rest;
    }
  }

  /** And nothing but a backtrace is split off. */
  lemma {:induction false} HeaderIsStack(data: seq<byte>) returns (keys: seq<uint32>, id: uint32)
    requires HeaderSize(data).Some?
    ensures AllKeys(keys) && HasTop(id) && data[..HeaderSize(data).value] == Stack(keys, id)
  {
    PutGet(data);
    if HasTop(GetL(data)) {
      keys, id := [], GetL(data);
    } else {
      var rest;
      rest, id := HeaderIsStack(data[4..]);
      keys := [GetL(data)] + rest;
      assert keys[1..] == rest;
      var n := HeaderSize(data[4..]).value;
      assert data[..n + 4] == data[..4] + data[4..][..n];
    }
  }

  /** What the other end of a pipe gets. An inproc pipe hands over header and body as they are, any
      other transport writes one after the other. */
  function Transit(parsed: bool, p: Msg): Msg {
    if parsed then p else Msg([], p.sphdr + p.body)
  }

  /** nn_xrep_recv of a message from the pipe with that key; None is a malformed request. */
  function XrepRecv(parsed: bool, key: uint32, p: Msg): Option<Msg> {
    if parsed then Some(Msg(PutL(key) + p.sphdr, p.body))
    else match HeaderSize(p.body)
      case None => None
      case Some(n) => Some(Msg(PutL(key) + p.body[..n], p.body[n..]))
  }

  /** nn_xreq_recv; None is a malformed reply. */
  function XreqRecv(parsed: bool, p: Msg): Option<Msg> {
    if parsed then Some(p)
    else if |p.body| < 4 then None
    else Some(Msg(p.body[..4], p.body[4..]))
  }

  datatype Peer = Peer(pipe: Pipe, ready: bool)

  /** nn_xrep_send; None is a message dropped. */
  function XrepSend(peers: map<uint32, Peer>, p: Msg): Option<(Pipe, Msg)> {
    if |p.sphdr| < 4 then None
    else
      var key := GetL(p.sphdr);
      if key !in peers || !peers[key].ready then None
      else Some((peers[key].pipe, Msg(p.sphdr[4..], p.body)))
  }

  /** One XREP socket on the way: the pipe the request arrived by, whether that pipe keeps header and
      body apart, its key, and the peers of the socket when the reply comes back. */
  datatype Hop = Hop(pipe: Pipe, parsed: bool, key: uint32, peers: map<uint32, Peer>)

  /** The keys of the hops, that of the last hop first. */
  function Keys(hops: seq<Hop>): (keys: seq<uint32>)
    ensures |keys| == |hops|
    decreases |hops|
  {
    if hops == [] then [] else [hops[|hops| - 1].key] + Keys(hops[..|hops| - 1])
  }

  /** The way of a request through the devices: each XREP receives it and its XREQ passes it on. */
  function Forward(hops: seq<Hop>, p: Msg): Option<Msg> {
    if hops == [] then Some(p)
    else
      var h := hops[0];
      match XrepRecv(h.parsed, h.key, Transit(h.parsed, p))
      case None => None
      case Some(q) => Forward(hops[1..], q)
  }

  datatype Return = Lost | Astray(pipe: Pipe) | Back(trail: seq<Pipe>, msg: Msg)

  /** The way of a reply: each XREP sends it to a pipe, an XREQ on the other side receives it. */
  function Backward(hops: seq<Hop>, p: Msg): Return
    decreases |hops|
  {
    if hops == [] then Back([], p)
    else
      var h := hops[|hops| - 1];
      match XrepSend(h.peers, p)
      case None => Lost
      case Some((pipe, q)) =>
        if pipe != h.pipe then Astray(pipe)
        else match XreqRecv(h.parsed, Transit(h.parsed, q))
          case None => Lost
          case Some(r) =>
            match Backward(hops[..|hops| - 1], r)
            case Lost => Lost
            case Astray(other) => Astray(other)
            case Back(trail, final) => Back([pipe] + trail, final)
  }

  predicate Keyed(hops: seq<Hop>) { forall i | 0 <= i < |hops| :: !HasTop(hops[i].key) }

  /** Every pipe of the way is still there and can take a message. */
  predicate Standing(hops: seq<Hop>) {
    forall i | 0 <= i < |hops| :: StillThere(hops[i])
  }

  predicate StillThere(h: Hop) { h.key in h.peers && h.peers[h.key] == Peer(h.pipe, true) }

  /** No pipe that keeps header and body apart comes, on the way back, after one that does not. */
  predicate Sorted(hops: seq<Hop>) {
    forall i, j | 0 <= i < |hops| && j == i + 1 && j < |hops| :: hops[i].parsed ==> hops[j].parsed
  }

  predicate Flat(hops: seq<Hop>) { forall i | 0 <= i < |hops| :: !hops[i].parsed }

  function Trail(hops: seq<Hop>): seq<Pipe>
    decreases |hops|
  {
    if hops == [] then [] else [hops[|hops| - 1].pipe] + Trail(hops[..|hops| - 1])
  }

  lemma {:induction false} KeysOfAll(hops: seq<Hop>)
    requires Keyed(hops)
    ensures AllKeys(Keys(hops))
    decreases |hops|
  {
    if hops != [] { KeysOfAll(hops[..|hops| - 1]); }
  }

  /** One XREP on the way pushes the key of the pipe, whatever the transport and whatever the body. */
  lemma {:induction false} HopPushes(h: Hop, keys: seq<uint32>, id: uint32, body: seq<byte>)
    requires AllKeys(keys) && HasTop(id)
    ensures XrepRecv(h.parsed, h.key, Transit(h.parsed, Msg(Stack(keys, id), body)))
         == Some(Msg(Stack([h.key] + keys, id), body))
  {
    var hdr := Stack(keys, id);
    StackIsHeader(keys, id, body);
    assert (hdr + body)[..|hdr|] == hdr && (hdr + body)[|hdr|..] == body;
    assert ([h.key] + keys)[1..] == keys;
  }

  lemma {:induction false} ForwardStep(hops: seq<Hop>, p: Msg)
    requires hops != []
    ensures var n := |hops| - 1;
            Forward(hops, p) == match Forward(hops[..n], p)
                                case None => None
                                case Some(q) => XrepRecv(hops[n].parsed, hops[n].key, Transit(hops[n].parsed, q))
    decreases |hops|
  {
    var n := |hops| - 1;
    if n > 0 {
      var h := hops[0];
      assert hops[1..][..n - 1] == hops[..n][1..];
      match XrepRecv(h.parsed, h.key, Transit(h.parsed, p))
      case None =>
      case Some(q) => ForwardStep(hops[1..], q);
    }
  }

  /** A request arrives with its body intact under the keys of all the pipes it came by. */
  lemma {:induction false} RequestArrives(hops: seq<Hop>, id: uint32, body: seq<byte>)
    requires Keyed(hops) && HasTop(id)
    ensures Forward(hops, Msg(PutL(id), body)) == Some(Msg(Stack(Keys(hops), id), body))
    decreases |hops|
  {
    if hops != [] {
      var n := |hops| - 1;
      RequestArrives(hops[..n], id, body);
      ForwardStep(hops, Msg(PutL(id), body));
      KeysOfAll(hops[..n]);
      HopPushes(hops[n], Keys(hops[..n]), id, body);
    }
  }

  /** A reply has come back if the requester gets it with the id of the request on its own in the
      header; nn_req_in accepts no other. */
  predicate Returned(hops: seq<Hop>, p: Msg, id: uint32, reply: seq<byte>) {
    Backward(hops, p) == Back(Trail(hops), Msg(PutL(id), reply))
  }

  /** The last hop sends the reply by the pipe on top of the header, and the rest of the way is that
      of the remaining hops. */
  lemma {:induction false} LastHop(init: seq<Hop>, h: Hop, rest: seq<byte>, body: seq<byte>,
                                   id: uint32, reply: seq<byte>)
    ensures Returned(init + [h], Msg(PutL(h.key) + rest, body), id, reply)
       <==> StillThere(h)
            && var r := XreqRecv(h.parsed, Transit(h.parsed, Msg(rest, body)));
               r.Some? && Returned(init, r.value, id, reply)
  {
    var hops, p := init + [h], Msg(PutL(h.key) + rest, body);
    GetPut(h.key, rest);
    assert p.sphdr[4..] == rest;
    assert hops[..|hops| - 1] == init;
    assert Trail(hops) == [h.pipe] + Trail(init);
    var r := XreqRecv(h.parsed, Transit(h.parsed, Msg(rest, body)));
    if StillThere(h) && r.Some? {
      var back := Backward(init, r.value);
      if back.Back? { assert ([h.pipe] + back.trail)[1..] == back.trail && Trail(hops)[1..] == Trail(init); }
    }
  }

  /** The reply with the rest of the backtrace in its body, as transports that write one stream of
      bytes deliver it. */
  function Thin(keys: seq<uint32>, id: uint32, reply: seq<byte>): Msg {
    var all := Stack(keys, id) + reply;
    Msg(all[..4], all[4..])
  }

  lemma {:induction false} ThinReturns(hops: seq<Hop>, id: uint32, reply: seq<byte>)
    ensures Returned(hops, Thin(Keys(hops), id, reply), id, reply) <==> Standing(hops) && Flat(hops)
    decreases |hops|
  {
    hide Backward, Standing, Flat, Returned, XrepSend, GetL, PutL, StillThere;
    if hops == [] {
      assert (PutL(id) + reply)[..4] == PutL(id) && (PutL(id) + reply)[4..] == reply;
      NoHops(Thin([], id, reply), id, reply);
    } else {
      var n := |hops| - 1;
      var h, init := hops[n], hops[..n];
      assert hops == init + [h];
      var rest := Stack(Keys(init), id);
      assert Keys(hops)[1..] == Keys(init);
      assert Stack(Keys(hops), id) + reply == PutL(h.key) + (rest + reply);
      assert Thin(Keys(hops), id, reply) == Msg(PutL(h.key) + [], rest + reply);
      LastHop(init, h, [], rest + reply, id, reply);
      assert [] + (rest + reply) == rest + reply;
      ThinReturns(init, id, reply);
      AppendHop(init, h);
      EmptyIsLost(init, id, rest, reply);
    }
  }

  lemma NoHops(p: Msg, id: uint32, reply: seq<byte>)
    ensures Returned([], p, id, reply) <==> p == Msg(PutL(id), reply)
    ensures Standing([]) && Flat([]) && Sorted([])
  {
  }

  /** A reply without any header gets no further. */
  lemma {:induction false} EmptyIsLost(hops: seq<Hop>, id: uint32, rest: seq<byte>, reply: seq<byte>)
    ensures !Returned(hops, Msg([], rest + reply), id, reply)
  {
  }

  lemma {:induction false} AppendHop(init: seq<Hop>, h: Hop)
    ensures Standing(init + [h]) <==> Standing(init) && StillThere(h)
    ensures Flat(init + [h]) <==> Flat(init) && !h.parsed
    ensures Sorted(init + [h]) <==> if h.parsed then Sorted(init) else Flat(init)
  {
    var hops := init + [h];
    assert hops[|init|] == h;
    assert forall i | 0 <= i < |init| :: hops[i] == init[i];
    if !h.parsed && Sorted(hops) { SortedBelow(hops, |init|); }
    if h.parsed && Sorted(hops) {
      forall i, j | 0 <= i && j == i + 1 && j < |init| ensures init[i].parsed ==> init[j].parsed {
        assert hops[i] == init[i] && hops[j] == init[j];
      }
    }
  }

  lemma {:induction false} SortedBelow(hops: seq<Hop>, n: nat)
    requires Sorted(hops) && n < |hops| && !hops[n].parsed
    ensures forall i | 0 <= i <= n :: !hops[i].parsed
    decreases n
  {
    if n > 0 { SortedBelow(hops, n - 1); }
  }

  /** The reply to a request that came through these hops gets back to the requester, by the same
      pipes in reverse and under the id of the request, exactly if the pipes are all still there and
      none that keeps header and body apart comes after one that does not. */
  lemma {:induction false} ReplyReturns(hops: seq<Hop>, id: uint32, reply: seq<byte>)
    ensures Returned(hops, Msg(Stack(Keys(hops), id), reply), id, reply) <==> Standing(hops) && Sorted(hops)
    decreases |hops|
  {
    hide Backward, Standing, Flat, Sorted, Returned, XrepSend;
    if hops == [] {
      NoHops(Msg(PutL(id), reply), id, reply);
    } else {
      var n := |hops| - 1;
      var h, init := hops[n], hops[..n];
      assert hops == init + [h];
      var rest := Stack(Keys(init), id);
      assert Keys(hops)[1..] == Keys(init);
      assert Stack(Keys(hops), id) == PutL(h.key) + rest;
      LastHop(init, h, rest, reply, id, reply);
      AppendHop(init, h);
      if h.parsed {
        ReplyReturns(init, id, reply);
      } else {
        ThinReturns(init, id, reply);
      }
    }
  }

  /** A client on an inproc pipe, a device, and a server on a network transport: the request arrives
      and every pipe stands, but the reply is lost. */
  lemma {:induction false} MixedPathLosesReply(reply: seq<byte>)
    ensures var near := Hop(0, true, 5, map[5 := Peer(0, true)]);
            var far := Hop(1, false, 6, map[6 := Peer(1, true)]);
            && Forward([near, far], Msg(PutL(TOP), [])) == Some(Msg(Stack([6, 5], TOP), []))
            && Standing([near, far])
            && !Returned([near, far], Msg(Stack([6, 5], TOP), reply), TOP, reply)
  {
    var near := Hop(0, true, 5, map[5 := Peer(0, true)]);
    var far := Hop(1, false, 6, map[6 := Peer(1, true)]);
    var hops := [near, far];
    assert Keys(hops) == [6, 5] by {
      assert hops[..1] == [near] && [near][..0] == [];
      assert Keys([near]) == [5];
    }
    RequestArrives(hops, TOP, []);
    ReplyReturns(hops, TOP, reply);
    assert !Sorted(hops) by { assert hops[0].parsed && !hops[1].parsed; }
  }
}
