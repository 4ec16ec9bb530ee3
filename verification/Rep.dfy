/** The XREP socket, which tells its peers apart by keys, and the REP socket above it
    (protocols/reqrep/xrep.c and rep.c). */
module Rep {
  import opened Common
  import opened Wire
  import opened PipeHash
  import opened Routing

  const KEYS: nat := 0x8000_0000

  /** The key of the n-th pipe of a socket whose first key was drawn at random. */
  function NthKey(first: uint32, n: nat): uint32 { WithoutTop((first + n) % 0x1_0000_0000) }

  lemma {:induction false} NthKeyIsMod(first: uint32, n: nat)
    ensures NthKey(first, n) == (first + n) % KEYS && !HasTop(NthKey(first, n))
  {
    var v := first + n;
    var q, r := v / 0x1_0000_0000, v % 0x1_0000_0000;
    if r < TOP {
      assert v == 2 * q * KEYS + r;
      ModIs(v, 2 * q, r);
    } else {
      assert v == (2 * q + 1) * KEYS + (r - TOP);
      ModIs(v, 2 * q + 1, r - TOP);
    }
  }

  lemma {:induction false} ModIs(v: nat, q: nat, r: nat)
    requires v == q * KEYS + r && r < KEYS
    ensures v % KEYS == r
  {
    var q' := v / KEYS;
    assert (q - q') * KEYS == v % KEYS - r;
  }

  /** Two pipes get the same key only if a multiple of 2^31 pipes lies between them. */
  lemma {:induction false} KeysRepeat(first: uint32, i: nat, j: nat)
    requires i <= j
    ensures NthKey(first, i) == NthKey(first, j) <==> (j - i) % KEYS == 0
  {
    NthKeyIsMod(first, i);
    NthKeyIsMod(first, j);
    var a, b := first + i, first + j;
    var qa, qb := a / KEYS, b / KEYS;
    if a % KEYS == b % KEYS {
      assert j - i == (qb - qa) * KEYS + 0;
      ModIs(j - i, qb - qa, 0);
    } else if (j - i) % KEYS == 0 {
      var d := (j - i) / KEYS;
      assert b == (qa + d) * KEYS + a % KEYS;
      ModIs(b, qa + d, a % KEYS);
    }
  }

  lemma {:induction false} KeysDiffer(first: uint32, i: nat, j: nat)
    requires i < j < i + KEYS
    ensures NthKey(first, i) != NthKey(first, j)
  {
    KeysRepeat(first, i, j);
    ModIs(j - i, 0, j - i);
  }

  lemma {:induction false} NextKey(first: uint32, n: nat)
    ensures ((first + n) % 0x1_0000_0000 + 1) % 0x1_0000_0000 == (first + (n + 1)) % 0x1_0000_0000
    ensures NthKey(first, n) == WithoutTop((first + n) % 0x1_0000_0000)
  {
  }

  class XRep {
    var nextKey: uint32
    var outpipes: Hash
    /** The key in the data of each pipe, and the pipes flagged as ready for sending. */
    var keys: map<Pipe, uint32>
    var ready: set<Pipe>
    /** The random first key and the number of pipes added so far. */
    ghost const first: uint32
    ghost var added: nat

    ghost predicate Valid()
      reads this, outpipes, outpipes.table
    {
      && outpipes.Valid()
      && KeysMatch(keys, outpipes.view)
      && ready <= keys.Keys
      && nextKey == (first + added) % 0x1_0000_0000
      && KeysGiven(keys, first, added)
    }

    /** What the socket knows of its peers, by key. */
    ghost function Peers(): map<uint32, Peer>
      reads this, outpipes
    {
      PeersOf(outpipes.view, ready)
    }

    /** nn_xrep_init; the random number and the hash function are parameters. */
    constructor (random: uint32, hash: uint32 -> uint32)
      ensures Valid() && fresh(outpipes) && fresh(outpipes.table) && keys == map[] && added == 0
      ensures Peers() == map[]
    {
      nextKey, first, added := random, random, 0;
      keys, ready := map[], {};
      outpipes := new Hash(hash);
      new;
      hide Hash.Valid;
      NoPeers(outpipes.view, random);
    }

    /** nn_xrep_add; false where nn_hash_insert asserts that the key is free. */
    method Add(pipe: Pipe) returns (ok: bool)
      requires Valid() && pipe !in keys
      modifies this, outpipes, outpipes.table
      ensures Valid() && outpipes == old(outpipes)
      ensures outpipes.table == old(outpipes.table) || fresh(outpipes.table)
      ensures ok <==> NthKey(first, old(added)) !in old(keys.Values)
      ensures old(added) < KEYS ==> ok
      ensures ok ==> added == old(added) + 1 && keys == old(keys)[pipe := NthKey(first, old(added))]
      ensures ok ==> Peers() == old(Peers())[keys[pipe] := Peer(pipe, false)]
      ensures !ok ==> keys == old(keys) && Peers() == old(Peers()) && added == old(added)
    {
      hide NthKey, WithoutTop, KeysMatch, KeysGiven, Hash.Valid;
      NextKey(first, added);
      var key := WithoutTop(nextKey);
      MatchedKey(keys, outpipes.view, key);
      ghost var view := outpipes.view;
      ok := outpipes.Insert(key, pipe);
      FreshKey(keys, first, added);
      if !ok { return; }
      AddMatches(keys, view, pipe, key);
      AddGiven(keys, first, added, pipe);
      nextKey := (nextKey + 1) % 0x1_0000_0000;
      keys := keys[pipe := key];
      added := added + 1;
    }

    /** nn_xrep_rm */
    method Rm(pipe: Pipe)
      requires Valid() && pipe in keys
      modifies this, outpipes, outpipes.table
      ensures Valid() && outpipes == old(outpipes) && outpipes.table == old(outpipes.table) && added == old(added)
      ensures keys == old(keys) - {pipe} && Peers() == old(Peers()) - {old(keys[pipe])}
    {
      hide Hash.Valid;
      RemoveMatches(keys, outpipes.view, pipe);
      outpipes.Erase(keys[pipe]);
      keys := keys - {pipe};
      ready := ready - {pipe};
    }

    /** nn_xrep_out */
    method Out(pipe: Pipe)
      requires Valid() && pipe in keys
      modifies this`ready
      ensures Valid() && Peers() == old(Peers())[keys[pipe] := Peer(pipe, true)]
    {
      ready := ready + {pipe};
    }

    /** nn_xrep_send; whether the pipe is released by the send is the transport's doing. */
    method Send(p: Msg, release: bool) returns (r: Option<(Pipe, Msg)>)
      requires Valid()
      modifies this`ready
      ensures Valid() && r == XrepSend(old(Peers()), p)
      ensures Peers() == if r.Some? && release then old(Peers())[GetL(p.sphdr) := Peer(r.value.0, false)]
                         else old(Peers())
    {
      if |p.sphdr| < 4 { return None; }
      var key := GetL(p.sphdr);
      var pipe := outpipes.Get(key);
      if pipe.None? || pipe.value !in ready { return None; }
      if release { ready := ready - {pipe.value}; }
      return Some((pipe.value, Msg(p.sphdr[4..], p.body)));
    }

    /** nn_xrep_recv of a message that came by this pipe. A pipe that does not keep header and body
        apart delivers no header of its own. */
    method Recv(pipe: Pipe, parsed: bool, p: Msg) returns (r: Option<Msg>)
      requires Valid() && pipe in keys
      requires parsed || p.sphdr == []
      ensures r == XrepRecv(parsed, keys[pipe], p)
    {
      var hdr, body := p.sphdr, p.body;
      if !parsed {
        var size := ScanHeader(body);
        if size.None? { return None; }
        hdr, body := body[..size.value], body[size.value..];
      }
      return Some(Msg(PutL(keys[pipe]) + hdr, body));
    }
  }

  datatype RepSent = Efsm | Dropped | Sent(pipe: Pipe, msg: Msg)

  class Rep {
    const xrep: XRep
    /** NN_REP_INPROGRESS and the backtrace it guards. */
    var backtrace: Option<seq<byte>>

    ghost predicate Valid()
      reads this, xrep, xrep.outpipes, xrep.outpipes.table
    {
      xrep.Valid()
    }

    /** nn_rep_init */
    constructor (random: uint32, hash: uint32 -> uint32)
      ensures Valid() && fresh(xrep) && fresh(xrep.outpipes) && fresh(xrep.outpipes.table)
      ensures backtrace == None && xrep.keys == map[]
    {
      backtrace := None;
      xrep := new XRep(random, hash);
    }

    /** nn_rep_recv: a request still being processed is forgotten, also if the new one is malformed. */
    method Recv(pipe: Pipe, parsed: bool, p: Msg) returns (r: Option<seq<byte>>)
      requires Valid() && pipe in xrep.keys
      requires parsed || p.sphdr == []
      modifies this
      ensures Valid()
      ensures match XrepRecv(parsed, xrep.keys[pipe], p)
              case None => r == None && backtrace == None
              case Some(q) => r == Some(q.body) && backtrace == Some(q.sphdr)
    {
      backtrace := None;
      var q := xrep.Recv(pipe, parsed, p);
      if q.None? { return None; }
      backtrace := Some(q.value.sphdr);
      return Some(q.value.body);
    }

    /** nn_rep_send: one reply for each request. */
    method Send(body: seq<byte>, release: bool) returns (r: RepSent)
      requires Valid()
      modifies this, xrep`ready
      ensures Valid() && backtrace == None && (r == Efsm <==> old(backtrace) == None)
      ensures r == RepReply(old(backtrace), old(xrep.Peers()), body)
    {
      if backtrace.None? { return Efsm; }
      var p := Msg(backtrace.value, body);
      backtrace := None;
      var sent := xrep.Send(p, release);
      if sent.None? { return Dropped; }
      return Sent(sent.value.0, sent.value.1);
    }
  }

  function RepReply(backtrace: Option<seq<byte>>, peers: map<uint32, Peer>, body: seq<byte>): RepSent {
    match backtrace
    case None => Efsm
    case Some(hdr) =>
      match XrepSend(peers, Msg(hdr, body))
      case None => Dropped
      case Some((pipe, q)) => Sent(pipe, q)
  }

  /** The reply goes to the pipe of the last request, with the header the request had, if and only
      if that pipe is still ready under its key; and to another pipe only if the key is another's. */
  lemma {:induction false} ReplyGoesToAsker(h: Hop, p: Msg, peers: map<uint32, Peer>, reply: seq<byte>)
    requires XrepRecv(h.parsed, h.key, p).Some?
    ensures RepReply(Some(XrepRecv(h.parsed, h.key, p).value.sphdr), peers, reply)
         == if h.key in peers && peers[h.key].ready
            then Sent(peers[h.key].pipe, Msg(if h.parsed then p.sphdr else p.body[..HeaderSize(p.body).value], reply))
            else Dropped
  {
    var below := if h.parsed then p.sphdr else p.body[..HeaderSize(p.body).value];
    var q := XrepRecv(h.parsed, h.key, p).value;
    assert q.sphdr == PutL(h.key) + below;
    GetPut(h.key, below);
    assert q.sphdr[4..] == below;
  }

  lemma NoPeers(view: View, first: uint32)
    requires view == map[]
    ensures KeysMatch(map[], view) && KeysGiven(map[], first, 0) && PeersOf(view, {}) == map[]
  {
  }

  function PeersOf(view: View, ready: set<Pipe>): map<uint32, Peer> {
    map key | key in view :: Peer(view[key], view[key] in ready)
  }

  predicate KeysMatch(keys: map<Pipe, uint32>, view: View) {
    && (forall pipe | pipe in keys :: keys[pipe] in view && view[keys[pipe]] == pipe)
    && (forall key | key in view :: view[key] in keys && keys[view[key]] == key)
  }

  /** Each pipe holds the key that was due when it was added. */
  ghost predicate KeysGiven(keys: map<Pipe, uint32>, first: uint32, added: nat) {
    forall pipe | pipe in keys :: exists n: nat :: n < added && keys[pipe] == NthKey(first, n)
  }

  lemma {:induction false} MatchedKey(keys: map<Pipe, uint32>, view: View, key: uint32)
    requires KeysMatch(keys, view)
    ensures key in view <==> key in keys.Values
  {
    if key in view { assert keys[view[key]] == key; }
  }

  lemma {:induction false} FreshKey(keys: map<Pipe, uint32>, first: uint32, added: nat)
    requires KeysGiven(keys, first, added)
    ensures added < KEYS ==> NthKey(first, added) !in keys.Values
  {
    hide NthKey;
    if added < KEYS && NthKey(first, added) in keys.Values {
      var pipe :| pipe in keys && keys[pipe] == NthKey(first, added);
      var n: nat :| n < added && keys[pipe] == NthKey(first, n);
      KeysDiffer(first, n, added);
      assert false;
    }
  }

  lemma {:induction false} AddMatches(keys: map<Pipe, uint32>, view: View, pipe: Pipe, key: uint32)
    requires KeysMatch(keys, view) && pipe !in keys && key !in view
    ensures KeysMatch(keys[pipe := key], view[key := pipe])
  {
  }

  lemma {:induction false} AddGiven(keys: map<Pipe, uint32>, first: uint32, added: nat, pipe: Pipe)
    requires KeysGiven(keys, first, added)
    ensures KeysGiven(keys[pipe := NthKey(first, added)], first, added + 1)
  {
    hide NthKey;
    var keys' := keys[pipe := NthKey(first, added)];
    forall other | other in keys' ensures exists n: nat :: n < added + 1 && keys'[other] == NthKey(first, n) {
      if other != pipe {
        var n: nat :| n < added && keys[other] == NthKey(first, n);
        assert n < added + 1 && keys'[other] == NthKey(first, n);
      }
    }
  }

  lemma {:induction false} RemoveMatches(keys: map<Pipe, uint32>, view: View, pipe: Pipe)
    requires KeysMatch(keys, view) && pipe in keys
    ensures KeysMatch(keys - {pipe}, view - {keys[pipe]})
  {
  }
}
