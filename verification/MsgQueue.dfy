/** The chunked message queue of the inproc transport (transports/inproc/msgqueue.c): a linked
    list of chunks of GRANULARITY messages, with one spare chunk cached. */
module MsgQueue {
  import opened Common

  const GRANULARITY: nat := 126

  function MsgSize(m: Msg): nat { |m.sphdr| + |m.body| }

  /** The memory a sequence of messages takes. */
  function Mem(q: seq<Msg>): nat {
    if q == [] then 0 else MsgSize(q[0]) + Mem(q[1..])
  }

  /** An empty queue takes any message; otherwise the limit applies. */
  predicate Accepts(q: seq<Msg>, maxmem: nat, m: Msg) {
    !(|q| > 0 && Mem(q) + MsgSize(m) >= maxmem)
  }

  /** The bound the queue keeps: a lone message may be of any size. */
  predicate Bounded(q: seq<Msg>, maxmem: nat) { |q| >= 2 ==> Mem(q) < maxmem }

  lemma {:induction false} MemAppend(q: seq<Msg>, m: Msg)
    ensures Mem(q + [m]) == Mem(q) + MsgSize(m)
  {
    if q == [] {
      assert q + [m] == [m];
    } else {
      assert (q + [m])[1..] == q[1..] + [m];
      MemAppend(q[1..], m);
    }
  }

  /** All the bytes of the messages, headers and bodies. */
  function Bytes(q: seq<Msg>): seq<byte> {
    if q == [] then [] else q[0].sphdr + q[0].body + Bytes(q[1..])
  }

  lemma {:induction false} MemIsBytes(q: seq<Msg>)
    ensures Mem(q) == |Bytes(q)|
  {
    if q != [] { MemIsBytes(q[1..]); }
  }

  /** A message is refused only if the queue with it would break the bound. */
  lemma {:induction false} AcceptsIff(q: seq<Msg>, maxmem: nat, m: Msg)
    ensures Accepts(q, maxmem, m) <==> Bounded(q + [m], maxmem)
    ensures Accepts(q, maxmem, m) <==> q == [] || |Bytes(q + [m])| < maxmem
  {
    MemAppend(q, m);
    MemIsBytes(q + [m]);
  }

  /** Both operations of the queue keep the bound. */
  lemma {:induction false} KeepsBound(q: seq<Msg>, maxmem: nat, m: Msg)
    requires Bounded(q, maxmem)
    ensures Accepts(q, maxmem, m) ==> Bounded(q + [m], maxmem)
    ensures q != [] ==> Bounded(q[1..], maxmem)
  {
    MemAppend(q, m);
  }

  // ---------------------------------------------------------------- blocks of messages

  type Blocks = seq<seq<Msg>>

  /** The messages up to position `to` of the last block. */
  function Upto(blocks: Blocks, to: nat): seq<Msg>
    requires |blocks| > 0 && to <= |blocks[|blocks| - 1]|
  {
    if |blocks| == 1 then blocks[0][..to] else blocks[0] + Upto(blocks[1..], to)
  }

  /** The messages from position `from` of the first block on. */
  function Window(blocks: Blocks, from: nat, to: nat): seq<Msg>
    requires |blocks| > 0 && to <= |blocks[|blocks| - 1]| && from <= |Upto(blocks, to)|
  {
    Upto(blocks, to)[from..]
  }

  lemma {:induction false} UptoWrite(blocks: Blocks, to: nat, m: Msg)
    requires |blocks| > 0 && to < |blocks[|blocks| - 1]|
    ensures var n := |blocks| - 1;
            Upto(blocks[n := blocks[n][to := m]], to + 1) == Upto(blocks, to) + [m]
  {
    var n := |blocks| - 1;
    var blocks' := blocks[n := blocks[n][to := m]];
    if n > 0 {
      UptoWrite(blocks[1..], to, m);
      assert blocks'[1..] == blocks[1..][n - 1 := blocks[n][to := m]];
    }
  }

  lemma {:induction false} UptoFull(blocks: Blocks, block: seq<Msg>)
    requires |blocks| > 0
    ensures Upto(blocks + [block], 0) == Upto(blocks, |blocks[|blocks| - 1]|)
  {
    if |blocks| == 1 {
      assert (blocks + [block])[1..] == [block];
    } else {
      assert (blocks + [block])[1..] == blocks[1..] + [block];
      UptoFull(blocks[1..], block);
    }
  }

  lemma {:induction false} UptoLength(blocks: Blocks, to: nat, g: nat)
    requires |blocks| > 0 && to <= |blocks[|blocks| - 1]|
    requires forall i | 0 <= i < |blocks| :: |blocks[i]| == g
    ensures |blocks| == 1 ==> |Upto(blocks, to)| == to
    ensures |blocks| > 1 ==> |Upto(blocks, to)| >= g + to
  {
  }

  /** The positions, the counters and what the chunks hold describe the queue. */
  ghost predicate Describes(blocks: Blocks, from: nat, to: nat, queue: seq<Msg>, count: nat, mem: nat, maxmem: nat) {
    && |blocks| > 0
    && (forall i | 0 <= i < |blocks| :: |blocks[i]| == GRANULARITY)
    && from < GRANULARITY && to <= GRANULARITY
    && from <= |Upto(blocks, to)|
    && queue == Window(blocks, from, to)
    && count == |queue|
    && mem == Mem(queue)
    && Bounded(queue, maxmem)
  }

  lemma {:induction false} SendKeeps(blocks: Blocks, from: nat, to: nat, queue: seq<Msg>, count: nat, mem: nat, maxmem: nat, m: Msg)
    requires Describes(blocks, from, to, queue, count, mem, maxmem) && to < GRANULARITY
    requires Accepts(queue, maxmem, m)
    ensures var n := |blocks| - 1;
            Describes(blocks[n := blocks[n][to := m]], from, to + 1, queue + [m], count + 1, mem + MsgSize(m), maxmem)
  {
    MemAppend(queue, m);
    KeepsBound(queue, maxmem, m);
    UptoWrite(blocks, to, m);
  }

  lemma {:induction false} NextChunkKeeps(blocks: Blocks, from: nat, queue: seq<Msg>, count: nat, mem: nat, maxmem: nat, block: seq<Msg>)
    requires Describes(blocks, from, GRANULARITY, queue, count, mem, maxmem) && |block| == GRANULARITY
    ensures Describes(blocks + [block], from, 0, queue, count, mem, maxmem)
  {
    UptoFull(blocks, block);
  }

  /** Reading one message moves the window on, over the end of its block if need be. */
  lemma {:induction false} RecvKeeps(blocks: Blocks, from: nat, to: nat, queue: seq<Msg>, count: nat, mem: nat, maxmem: nat)
    requires Describes(blocks, from, to, queue, count, mem, maxmem) && to < GRANULARITY && count > 0
    ensures from < GRANULARITY && queue != [] && queue[0] == blocks[0][from] && mem >= MsgSize(queue[0])
    ensures from + 1 < GRANULARITY ==>
              Describes(blocks, from + 1, to, queue[1..], count - 1, mem - MsgSize(queue[0]), maxmem)
    ensures from + 1 == GRANULARITY ==>
              |blocks| > 1 && Describes(blocks[1..], 0, to, queue[1..], count - 1, mem - MsgSize(queue[0]), maxmem)
  {
    UptoLength(blocks, to, GRANULARITY);
    KeepsBound(queue, maxmem, queue[0]);
  }

  // ---------------------------------------------------------------- the queue

  class Chunk {
    const msgs: array<Msg>
    var next: Chunk?

    constructor ()
      ensures fresh(msgs) && msgs.Length == GRANULARITY && next == null
    {
      msgs := new Msg[GRANULARITY](_ => Msg([], []));
      next := null;
    }
  }

  class MsgQueue {
    var outChunk: Chunk
    var outPos: nat
    var inChunk: Chunk
    var inPos: nat
    var count: nat
    var mem: nat
    const maxmem: nat
    var cache: Chunk?
    /** The chunks from the one being read to the one being written, and what they hold. */
    ghost var chain: seq<Chunk>
    ghost var blocks: Blocks
    /** The messages in the queue, oldest first. */
    ghost var queue: seq<Msg>
    ghost var Repr: set<object>

    ghost predicate Owned(c: Chunk)
      reads this`Repr
    {
      c in Repr && c.msgs in Repr && c.msgs.Length == GRANULARITY
    }

    /** The chunks are linked in order; what the last one's next pointer holds does not matter. */
    ghost predicate Linked()
      reads this`chain, this`blocks, this`inChunk, this`outChunk, this`cache, this`Repr, Repr
    {
      && this !in Repr
      && |chain| == |blocks| > 0
      && chain[0] == inChunk && chain[|chain| - 1] == outChunk
      && (forall i | 0 <= i < |chain| :: Owned(chain[i]) && blocks[i] == chain[i].msgs[..])
      && (forall i, j | 0 <= i < j < |chain| :: chain[i] != chain[j] && chain[i].msgs != chain[j].msgs)
      && (forall i | 0 <= i < |chain| - 1 :: chain[i].next == chain[i + 1])
      && (cache != null ==> Owned(cache) && forall i | 0 <= i < |chain| :: chain[i] != cache && chain[i].msgs != cache.msgs)
    }

    ghost predicate Valid()
      reads this, Repr
    {
      && Linked()
      && Describes(blocks, inPos, outPos, queue, count, mem, maxmem)
      && outPos < GRANULARITY
    }

    /** nn_msgqueue_init */
    constructor (maxmem: nat)
      ensures Valid() && fresh(Repr) && queue == [] && this.maxmem == maxmem
    {
      var chunk := new Chunk();
      count, mem, this.maxmem := 0, 0, maxmem;
      outChunk, outPos, inChunk, inPos, cache := chunk, 0, chunk, 0, null;
      chain, blocks, queue := [chunk], [chunk.msgs[..]], [];
      Repr := {chunk, chunk.msgs};
    }

    /** An empty queue occupies a single chunk. */
    lemma EmptyIsOneChunk()
      requires Valid() && queue == []
      ensures |chain| == 1 && inChunk == outChunk && inPos == outPos
    {
    }

    /** Stores a message at the write position. */
    method Write(m: Msg)
      requires Linked() && outPos < GRANULARITY
      modifies this`blocks, outChunk.msgs
      ensures Linked()
      ensures |old(blocks)| > 0 && |old(blocks)[|old(blocks)| - 1]| == GRANULARITY
      ensures blocks == old(blocks)[|old(blocks)| - 1 := old(blocks)[|old(blocks)| - 1][outPos := m]]
    {
      ghost var n := |chain| - 1;
      outChunk.msgs[outPos] := m;
      blocks := blocks[n := outChunk.msgs[..]];
    }

    /** Links the spare chunk behind the last one. */
    method LinkSpare()
      requires Linked() && cache != null
      modifies this`chain, this`blocks, this`outChunk, this`cache, outChunk`next
      ensures Linked() && cache == null
      ensures blocks == old(blocks) + [old(cache.msgs[..])]
    {
      outChunk.next := cache;
      chain, blocks := chain + [cache], blocks + [cache.msgs[..]];
      outChunk := cache;
      cache := null;
    }

    lemma LinkedBasics()
      requires Linked()
      ensures this !in Repr && |chain| == |blocks| > 0 && Owned(outChunk) && Owned(inChunk)
      ensures inChunk.msgs[..] == blocks[0]
    {
    }

    /** nn_msgqueue_send: false stands for -EAGAIN. */
    method Send(m: Msg) returns (ok: bool)
      requires Valid()
      modifies this, Repr
      ensures Valid() && fresh(Repr - old(Repr))
      ensures ok <==> old(queue) == [] || |Bytes(old(queue) + [m])| < maxmem
      ensures queue == if ok then old(queue) + [m] else old(queue)
    {
      hide Linked, Bytes;
      AcceptsIff(queue, maxmem, m);
      if count > 0 && mem + MsgSize(m) >= maxmem { return false; }
      Append(m);
      if outPos == GRANULARITY { NextChunk(); }
      return true;
    }

    /** Puts the message at the write position and moves that on. */
    method Append(m: Msg)
      requires Valid() && Accepts(queue, maxmem, m)
      modifies this, Repr
      ensures Repr == old(Repr) && Linked() && Describes(blocks, inPos, outPos, queue, count, mem, maxmem)
      ensures queue == old(queue) + [m]
    {
      hide Linked, Describes;
      LinkedBasics();
      SendKeeps(blocks, inPos, outPos, queue, count, mem, maxmem, m);
      count, mem := count + 1, mem + MsgSize(m);
      Write(m);
      outPos, queue := outPos + 1, queue + [m];
    }

    /** Moves on to the cached chunk, or to a new one. */
    method NextChunk()
      requires Linked() && Describes(blocks, inPos, outPos, queue, count, mem, maxmem) && outPos == GRANULARITY
      modifies this, Repr
      ensures Valid() && fresh(Repr - old(Repr)) && queue == old(queue)
    {
      hide Linked, Describes;
      if cache == null { NewSpare(); }
      LinkedBasics();
      SpareOwned();
      NextChunkKeeps(blocks, inPos, queue, count, mem, maxmem, cache.msgs[..]);
      LinkSpare();
      LinkedBasics();
      outPos := 0;
    }

    lemma SpareOwned()
      requires Linked() && cache != null
      ensures Owned(cache)
    {
    }

    method NewSpare()
      requires Linked() && cache == null
      modifies this`cache, this`Repr
      ensures Linked() && cache != null && fresh(Repr - old(Repr))
    {
      var c := new Chunk();
      cache := c;
      Repr := Repr + {c, c.msgs};
    }

    /** Leaves the chunk that has been read to its end; it becomes the spare one if there is none. */
    method LeaveChunk()
      requires Linked() && |chain| > 1
      modifies this`inChunk, this`cache, this`chain, this`blocks
      ensures Linked() && blocks == old(blocks)[1..]
    {
      var o := inChunk;
      assert chain[0].next == chain[1];
      inChunk := inChunk.next;
      chain, blocks := chain[1..], blocks[1..];
      if cache == null { cache := o; }
    }

    /** nn_msgqueue_recv: None stands for -EAGAIN. */
    method Recv() returns (m: Option<Msg>)
      requires Valid()
      modifies this
      ensures Valid() && Repr == old(Repr)
      ensures m == if old(queue) == [] then None else Some(old(queue)[0])
      ensures queue == if old(queue) == [] then [] else old(queue)[1..]
    {
      if count == 0 { return None; }
      var msg := Take();
      return Some(msg);
    }

    method Take() returns (m: Msg)
      requires Valid() && count > 0
      modifies this
      ensures Valid() && Repr == old(Repr)
      ensures old(queue) == [m] + queue
    {
      hide Linked, Describes;
      LinkedBasics();
      RecvKeeps(blocks, inPos, outPos, queue, count, mem, maxmem);
      m := inChunk.msgs[inPos];
      count, mem, queue := count - 1, mem - MsgSize(m), queue[1..];
      inPos := inPos + 1;
      if inPos == GRANULARITY {
        LeaveChunk();
        LinkedBasics();
        inPos := 0;
      }
    }

    /** The drain loop of nn_msgqueue_term; afterwards a single chunk is left to free. */
    method Drain()
      requires Valid()
      modifies this
      ensures Valid() && queue == [] && inChunk == outChunk
    {
      hide Linked, Describes;
      while true
        invariant Valid() && Repr == old(Repr)
        decreases |queue|
      {
        var m := Recv();
        if m.None? { break; }
      }
      EmptyIsOneChunk();
    }
  }
}
