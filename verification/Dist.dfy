/** Sending one message to many pipes (protocols/utils/dist.c): the copies share the chunks of the
    message (utils/chunkref.c, utils/chunk.c), which count the references to them. */
module Dist {
  import opened Common

  type ChunkId = nat

  datatype Ref = Inline(data: seq<byte>) | Heap(chunk: ChunkId)
  datatype Parcel = Parcel(sphdr: Ref, hdrs: Ref, body: Ref)

  function One(r: Ref, c: ChunkId): nat { if r == Heap(c) then 1 else 0 }

  /** How many references to the chunk a message holds. */
  function Refs(m: Parcel, c: ChunkId): nat { One(m.sphdr, c) + One(m.hdrs, c) + One(m.body, c) }

  /** The reference count of a chunk; none if it is not allocated. */
  function Count(rc: map<ChunkId, nat>, c: ChunkId): nat { if c in rc then rc[c] else 0 }

  /** The counts of rc with k more of the references in a message. */
  ghost predicate Differ(rc: map<ChunkId, nat>, k: int, m: Parcel, rc': map<ChunkId, nat>) {
    forall c :: Count(rc', c) == Count(rc, c) + k * Refs(m, c)
  }

  /** The message holds counted references. */
  ghost predicate Owned(rc: map<ChunkId, nat>, m: Parcel) {
    forall c :: Count(rc, c) >= Refs(m, c)
  }

  lemma {:induction false} Multiples(m: Parcel, c: ChunkId, n: nat)
    ensures n * Refs(m, c) == (if m.sphdr == Heap(c) then n else 0) + (if m.hdrs == Heap(c) then n else 0)
                              + (if m.body == Heap(c) then n else 0)
  {
  }

  /** The chunks and their reference counts. */
  class Memory {
    var rc: map<ChunkId, nat>

    /** No chunk outlives its last reference. */
    ghost predicate Valid()
      reads this
    {
      forall c | c in rc :: rc[c] > 0
    }

    /** nn_chunkref_term */
    method Term(r: Ref)
      requires Valid() && (r.Heap? ==> r.chunk in rc)
      modifies this
      ensures Valid() && forall c :: Count(rc, c) == old(Count(rc, c)) - One(r, c)
    {
      if r.Heap? {
        if rc[r.chunk] <= 1 {
          rc := rc - {r.chunk};
        } else {
          rc := rc[r.chunk := rc[r.chunk] - 1];
        }
      }
    }

    /** nn_chunkref_bulkcopy_start */
    method Start(r: Ref, copies: nat)
      requires Valid() && (r.Heap? ==> r.chunk in rc)
      modifies this
      ensures Valid() && forall c :: Count(rc, c) == old(Count(rc, c)) + if r == Heap(c) then copies else 0
    {
      if r.Heap? { rc := rc[r.chunk := rc[r.chunk] + copies]; }
    }

    /** nn_msg_term */
    method TermMsg(m: Parcel)
      requires Valid() && Owned(rc, m)
      modifies this
      ensures Valid() && Differ(old(rc), -1, m, rc)
    {
      assert forall c :: Count(rc, c) >= Refs(m, c);
      assert m.sphdr.Heap? ==> Refs(m, m.sphdr.chunk) > 0;
      Term(m.sphdr);
      assert m.hdrs.Heap? ==> Count(rc, m.hdrs.chunk) > 0;
      Term(m.hdrs);
      assert m.body.Heap? ==> Count(rc, m.body.chunk) > 0;
      Term(m.body);
    }

    /** nn_msg_bulkcopy_start */
    method StartMsg(m: Parcel, copies: nat)
      requires Valid() && Owned(rc, m)
      modifies this
      ensures Valid() && Differ(old(rc), copies, m, rc)
    {
      assert m.sphdr.Heap? ==> Count(rc, m.sphdr.chunk) >= Refs(m, m.sphdr.chunk) > 0;
      assert m.hdrs.Heap? ==> Count(rc, m.hdrs.chunk) >= Refs(m, m.hdrs.chunk) > 0;
      assert m.body.Heap? ==> Count(rc, m.body.chunk) >= Refs(m, m.body.chunk) > 0;
      Start(m.sphdr, copies);
      Start(m.hdrs, copies);
      Start(m.body, copies);
      forall c ensures Count(rc, c) == old(Count(rc, c)) + copies * Refs(m, c) { Multiples(m, c, copies); }
    }
  }

  /** The pipes that get a copy. */
  function Receivers(pipes: seq<Pipe>, exclude: Option<Pipe>): seq<Pipe> {
    if pipes == [] then []
    else (if exclude == Some(pipes[0]) then [] else [pipes[0]]) + Receivers(pipes[1..], exclude)
  }

  /** The pipes left after a send that releases those given. */
  function Left(pipes: seq<Pipe>, exclude: Option<Pipe>, released: set<Pipe>): seq<Pipe> {
    if pipes == [] then []
    else (if exclude != Some(pipes[0]) && pipes[0] in released then [] else [pipes[0]])
         + Left(pipes[1..], exclude, released)
  }

  /** The positions rise, and r is what s has there. */
  ghost predicate Picks(s: seq<Pipe>, r: seq<Pipe>, at: seq<nat>) {
    && |at| == |r|
    && (forall i | 0 <= i < |at| :: at[i] < |s| && r[i] == s[at[i]])
    && forall i, j | 0 <= i < j < |at| :: at[i] < at[j]
  }

  /** A copy goes to every pipe but the excluded one, once for each place and in order. */
  lemma {:induction false} ReceiversAre(pipes: seq<Pipe>, exclude: Option<Pipe>) returns (at: seq<nat>)
    ensures Picks(pipes, Receivers(pipes, exclude), at)
    ensures forall j | 0 <= j < |pipes| :: j in at <==> exclude != Some(pipes[j])
  {
    if pipes == [] {
      at := [];
    } else {
      var n := |pipes| - 1;
      at := ReceiversAre(pipes[..n], exclude);
      assert pipes[..n] + [pipes[n]] == pipes;
      ReceiversStep(pipes[..n], pipes[n], exclude);
      if exclude != Some(pipes[n]) { at := at + [n]; }
    }
  }

  /** Those stay that were not sent to or whose pipe was not released by the send, in order. */
  lemma {:induction false} LeftAre(pipes: seq<Pipe>, exclude: Option<Pipe>, released: set<Pipe>) returns (at: seq<nat>)
    ensures Picks(pipes, Left(pipes, exclude, released), at)
    ensures forall j | 0 <= j < |pipes| :: j in at <==> exclude == Some(pipes[j]) || pipes[j] !in released
  {
    if pipes == [] {
      at := [];
    } else {
      var n := |pipes| - 1;
      at := LeftAre(pipes[..n], exclude, released);
      assert pipes[..n] + [pipes[n]] == pipes;
      LeftStep(pipes[..n], pipes[n], exclude, released);
      if exclude == Some(pipes[n]) || pipes[n] !in released { at := at + [n]; }
    }
  }

  lemma {:induction false} ReceiversStep(s: seq<Pipe>, pipe: Pipe, exclude: Option<Pipe>)
    ensures Receivers(s + [pipe], exclude) == Receivers(s, exclude) + if exclude == Some(pipe) then [] else [pipe]
  {
    if s == [] {
      assert s + [pipe] == [pipe];
    } else {
      assert (s + [pipe])[1..] == s[1..] + [pipe];
      ReceiversStep(s[1..], pipe, exclude);
      var first := if exclude == Some(s[0]) then [] else [s[0]];
      var last := if exclude == Some(pipe) then [] else [pipe];
      assert first + (Receivers(s[1..], exclude) + last) == (first + Receivers(s[1..], exclude)) + last;
    }
  }

  lemma {:induction false} LeftStep(s: seq<Pipe>, pipe: Pipe, exclude: Option<Pipe>, released: set<Pipe>)
    ensures Left(s + [pipe], exclude, released)
         == Left(s, exclude, released) + if exclude != Some(pipe) && pipe in released then [] else [pipe]
  {
    if s == [] {
      assert s + [pipe] == [pipe];
    } else {
      assert (s + [pipe])[1..] == s[1..] + [pipe];
      LeftStep(s[1..], pipe, exclude, released);
      var first := if exclude != Some(s[0]) && s[0] in released then [] else [s[0]];
      var last := if exclude != Some(pipe) && pipe in released then [] else [pipe];
      assert first + (Left(s[1..], exclude, released) + last) == (first + Left(s[1..], exclude, released)) + last;
    }
  }

  lemma NoPipes(exclude: Option<Pipe>, released: set<Pipe>)
    ensures Receivers([], exclude) == [] && Left([], exclude, released) == []
  {
  }

  lemma {:induction false} DifferThen(a: map<ChunkId, nat>, j: int, m: Parcel, b: map<ChunkId, nat>, k: int, c: map<ChunkId, nat>)
    requires Differ(a, j, m, b) && Differ(b, k, m, c)
    ensures Differ(a, j + k, m, c)
  {
  }

  lemma {:induction false} OwnedStill(a: map<ChunkId, nat>, k: int, m: Parcel, b: map<ChunkId, nat>)
    requires Owned(a, m) && Differ(a, k, m, b) && k >= 0
    ensures Owned(b, m)
  {
  }

  /** The first of the pipes still to come, and what comes after it whether it stays or goes. */
  lemma {:induction false} NextOf(pipes: seq<Pipe>, i: nat, all: seq<Pipe>, done: nat)
    requires i < |pipes| && done <= |all| && pipes[i..] == all[done..]
    ensures done < |all| && all[..done + 1] == all[..done] + [pipes[i]]
    ensures pipes[i + 1..] == all[done + 1..] && pipes[..i + 1] == pipes[..i] + [pipes[i]]
    ensures var rest := pipes[..i] + pipes[i + 1..]; rest[..i] == pipes[..i] && rest[i..] == pipes[i + 1..]
  {
    assert all[done] == all[done..][0] == pipes[i..][0];
    assert pipes[i + 1..] == pipes[i..][1..] && all[done + 1..] == all[done..][1..];
  }

  class Dist {
    var pipes: seq<Pipe>
    var count: nat
    const memory: Memory

    ghost predicate Valid()
      reads this, memory
    {
      count == |pipes| && memory.Valid()
    }

    /** nn_dist_init */
    constructor (memory: Memory)
      requires memory.Valid()
      ensures Valid() && pipes == [] && this.memory == memory
    {
      pipes, count, this.memory := [], 0, memory;
    }

    /** nn_dist_out of a pipe that is not in the list. */
    method Out(pipe: Pipe)
      requires Valid() && pipe !in pipes
      modifies this
      ensures Valid() && pipes == old(pipes) + [pipe]
    {
      count := count + 1;
      pipes := pipes + [pipe];
    }

    /** nn_dist_rm of a pipe that may be in the list. */
    method Rm(pipe: Pipe)
      requires Valid()
      modifies this
      ensures Valid()
      ensures pipe in old(pipes) ==> exists i ::
                0 <= i < |old(pipes)| && old(pipes)[i] == pipe && pipes == old(pipes[..i]) + old(pipes[i + 1..])
      ensures pipe !in old(pipes) ==> pipes == old(pipes)
    {
      if pipe in pipes {
        var i :| 0 <= i < |pipes| && pipes[i] == pipe;
        count := count - 1;
        pipes := pipes[..i] + pipes[i + 1..];
      }
    }

    /** nn_dist_send: which pipes the transports release is a parameter. Every pipe but the excluded one
        gets a copy, and the references the message held become those of the copies, one for one. */
    method Send(m: Parcel, exclude: Option<Pipe>, released: set<Pipe>) returns (given: seq<Pipe>)
      requires Valid() && Owned(memory.rc, m)
      modifies this, memory
      ensures Valid()
      ensures given == Receivers(old(pipes), exclude)
      ensures pipes == Left(old(pipes), exclude, released)
      ensures Differ(old(memory.rc), |given| - 1, m, memory.rc)
    {
      hide Receivers, Left, Differ, Owned, Memory.Valid;
      given := [];
      NoPipes(exclude, released);
      if count == 0 {
        memory.TermMsg(m);
        return;
      }
      ghost var all, rc0 := pipes, memory.rc;
      memory.StartMsg(m, count);
      var i := 0;
      ghost var done := 0;
      while i != |pipes|
        invariant 0 <= done <= |all| && 0 <= i <= |pipes| && pipes[i..] == all[done..]
        invariant pipes[..i] == Left(all[..done], exclude, released)
        invariant given == Receivers(all[..done], exclude)
        invariant count == |pipes| && memory.Valid()
        invariant Differ(rc0, |given| + (|all| - done), m, memory.rc)
        decreases |all| - done
      {
        var pipe := pipes[i];
        NextOf(pipes, i, all, done);
        ReceiversStep(all[..done], pipe, exclude);
        LeftStep(all[..done], pipe, exclude, released);
        if exclude == Some(pipe) {
          ghost var rc1 := memory.rc;
          OwnedStill(rc0, |given| + (|all| - done), m, rc1);
          memory.TermMsg(m);
          DifferThen(rc0, |given| + (|all| - done), m, rc1, -1, memory.rc);
          i := i + 1;
        } else {
          given := given + [pipe];
          if pipe in released {
            count := count - 1;
            pipes := pipes[..i] + pipes[i + 1..];
          } else {
            i := i + 1;
          }
        }
        done := done + 1;
      }
      assert all[..done] == all && pipes[..i] == pipes;
      ghost var rc2 := memory.rc;
      OwnedStill(rc0, |given|, m, rc2);
      memory.TermMsg(m);
      DifferThen(rc0, |given|, m, rc2, -1, memory.rc);
    }
  }
}
