/** Message chunks (utils/chunk.c) and references to them (utils/chunkref.c): trimming a message from
    the front, in place. */
module Chunks {
  import opened Common
  import opened Wire

  const TAG: uint32 := 0xdead_cafe
  /** The two words before the data: how far the data is from where it began, and the tag. */
  const WORDS: nat := 8
  const UINT32_MAX: nat := 0xffff_ffff

  /** The bytes of a chunk after its struct, and the size field of the struct. */
  datatype Block = Block(mem: seq<byte>, size: nat)

  /** p points to the data of the chunk: nn_chunk_getptr finds the tag and gets back to the struct, and
      the data extends to the end of the chunk. */
  ghost predicate Points(b: Block, p: nat) {
    && WORDS <= p <= |b.mem|
    && GetL(b.mem[p - 4..]) == TAG
    && GetL(b.mem[p - 8..]) == p - WORDS
    && b.size == |b.mem| - p
  }

  /** The two words written before position q. */
  function Retagged(mem: seq<byte>, q: nat): (r: seq<byte>)
    requires WORDS <= q <= |mem| && q - WORDS <= UINT32_MAX
    ensures |r| == |mem|
  {
    mem[..q - 8] + PutL(q - WORDS) + PutL(TAG) + mem[q..]
  }

  lemma {:induction false} RetaggedWords(mem: seq<byte>, q: nat)
    requires WORDS <= q <= |mem| && q - WORDS <= UINT32_MAX
    ensures var r := Retagged(mem, q);
            GetL(r[q - 4..]) == TAG && GetL(r[q - 8..]) == q - WORDS && r[q..] == mem[q..]
  {
    var r := Retagged(mem, q);
    assert r[q - 8..] == PutL(q - WORDS) + (PutL(TAG) + mem[q..]);
    assert r[q - 4..] == PutL(TAG) + mem[q..];
    GetPut(q - WORDS, PutL(TAG) + mem[q..]);
    GetPut(TAG, mem[q..]);
  }

  lemma {:induction false} RetagInTwo(mem: seq<byte>, tagged: seq<byte>, q: nat)
    requires WORDS <= q <= |mem| && q - WORDS <= UINT32_MAX
    requires tagged == mem[..q - 4] + PutL(TAG) + mem[q..]
    ensures tagged[..q - 8] + PutL(q - WORDS) + tagged[q - 4..] == Retagged(mem, q)
  {
  }

  function Trimmed(b: Block, p: nat, n: nat): Block
    requires WORDS <= p && p + n <= |b.mem| && p + n - WORDS <= UINT32_MAX && n <= b.size
  {
    Block(Retagged(b.mem, p + n), b.size - n)
  }

  function Sum(ns: seq<nat>): nat { if ns == [] then 0 else ns[0] + Sum(ns[1..]) }

  /** One trim after the other, each from where the last one left the pointer. */
  function TrimAll(b: Block, p: nat, ns: seq<nat>): Block
    requires WORDS <= p && p + Sum(ns) <= |b.mem| && p + Sum(ns) - WORDS <= UINT32_MAX && Sum(ns) <= b.size
    decreases |ns|
  {
    if ns == [] then b else TrimAll(Trimmed(b, p, ns[0]), p + ns[0], ns[1..])
  }

  /** After any trims the data is the original without the bytes trimmed, and the words before it still
      lead to the struct of the chunk. */
  lemma {:induction false} TrimsDrop(b: Block, p: nat, ns: seq<nat>)
    requires Points(b, p) && Sum(ns) <= b.size && p + Sum(ns) - WORDS <= UINT32_MAX
    ensures Points(TrimAll(b, p, ns), p + Sum(ns))
    ensures TrimAll(b, p, ns).mem[p + Sum(ns)..] == b.mem[p + Sum(ns)..]
    decreases |ns|
  {
    hide GetL, PutL, Retagged;
    if ns != [] {
      var q := p + ns[0];
      var b', rest := Trimmed(b, p, ns[0]), Sum(ns[1..]);
      RetaggedWords(b.mem, q);
      TrimsDrop(b', q, ns[1..]);
      assert b'.mem[q + rest..] == b'.mem[q..][rest..] == b.mem[q..][rest..] == b.mem[q + rest..];
    }
  }

  /** The size is kept with the chunk: another reference to the same chunk keeps its data over a trim
      only if the trim takes nothing off. */
  lemma {:induction false} TrimIsNotShared(b: Block, p: nat, n: nat)
    requires Points(b, p) && n <= b.size && p + n - WORDS <= UINT32_MAX
    ensures var b' := Trimmed(b, p, n);
            (Points(b', p) && b'.mem[p..] == b.mem[p..]) <==> n == 0
  {
    RetaggedWords(b.mem, p + n);
  }

  lemma {:induction false} NewWords(mem: seq<byte>, raw: seq<byte>)
    requires |mem| == |raw| >= WORDS && mem == PutL(0) + PutL(TAG) + raw[WORDS..]
    ensures GetL(mem[0..]) == 0 && GetL(mem[4..]) == TAG && mem[WORDS..] == raw[WORDS..]
  {
    hide GetL, PutL;
    var rest := raw[WORDS..];
    assert mem[0..] == PutL(0) + (PutL(TAG) + rest);
    assert mem[4..] == PutL(TAG) + rest;
    GetPut(0, PutL(TAG) + rest);
    GetPut(TAG, rest);
  }

  class Chunk {
    const mem: array<byte>
    var size: nat

    ghost function View(): Block
      reads this, mem
    {
      Block(mem[..], size)
    }

    /** nn_chunk_alloc; `raw` is what the allocated memory holds. */
    constructor (size: nat, raw: seq<byte>)
      requires |raw| == size + WORDS
      ensures fresh(mem) && this.size == size && mem.Length == size + WORDS && Points(View(), WORDS)
      ensures mem[WORDS..] == raw[WORDS..]
    {
      this.size := size;
      mem := new byte[size + WORDS](i requires 0 <= i < |raw| => raw[i]);
      new;
      hide PutL, GetL;
      PutLInto(mem, 0, 0);
      PutLInto(mem, 4, TAG);
      NewWords(mem[..], raw);
    }

    /** nn_chunk_getptr: the distance of the pointer from where the data first began. Without the tag
        the code stops. */
    method GetPtr(p: nat) returns (off: nat)
      requires Points(View(), p)
      ensures off == p - WORDS
    {
      assert mem[..][p - 8..] == mem[p - 8..];
      off := GetL(mem[p - 8..]);
    }

    /** The words nn_chunk_trim writes before position r; the second only if it fits. */
    method Retag(r: nat) returns (empty: nat)
      requires WORDS <= r <= mem.Length
      modifies mem
      ensures empty == r - WORDS && (empty < UINT32_MAX ==> mem[..] == Retagged(old(mem[..]), r))
    {
      hide PutL;
      ghost var was := mem[..];
      PutLInto(mem, r - 4, TAG);
      ghost var tagged := mem[..];
      empty := r - WORDS;
      if empty < UINT32_MAX {
        PutLInto(mem, r - 8, empty);
        RetagInTwo(was, tagged, r);
      }
    }

    /** nn_chunk_trim; -1 where the code asserts that the distance fits in 32 bits. */
    method Trim(p: nat, n: nat) returns (q: int)
      requires Points(View(), p) && n <= size
      modifies this, mem
      ensures q == -1 <==> p + n - WORDS >= UINT32_MAX
      ensures q != -1 ==> q == p + n && View() == Trimmed(old(View()), p, n) && Points(View(), q)
    {
      var off := GetPtr(p);
      var r := p + n;
      ghost var was := mem[..];
      var empty := Retag(r);
      if empty >= UINT32_MAX { return -1; }
      size := size - n;
      q := r;
      RetaggedWords(was, r);
    }
  }

  const REF_MAX: nat := 32

  /** The memmove of nn_chunkref_trim. */
  method MoveDown(ref: array<byte>, n: nat, count: nat)
    requires 1 + n + count <= ref.Length
    modifies ref
    ensures ref[1..1 + count] == old(ref[1 + n..1 + n + count]) && (ref.Length > 0 ==> ref[0] == old(ref[0]))
  {
    var i := 0;
    while i != count
      invariant 0 <= i <= count && (ref.Length > 0 ==> ref[0] == old(ref[0]))
      invariant forall k | 1 <= k < 1 + i :: ref[k] == old(ref[k + n])
      invariant forall k | 1 + i <= k < ref.Length :: ref[k] == old(ref[k])
    {
      ref[1 + i] := ref[1 + n + i];
      i := i + 1;
    }
  }

  /** nn_chunkref: a short message in the reference itself, with its size in the first byte, or 0xff
      there and a pointer to the data of a chunk. */
  class ChunkRef {
    const ref: array<byte>
    var chunk: Chunk?
    var p: nat

    ghost predicate Valid()
      reads this, ref, chunk, if chunk != null then {chunk.mem} else {}
    {
      && ref.Length == REF_MAX
      && (if ref[0] == 0xff then chunk != null && chunk.mem != ref && Points(chunk.View(), p) else ref[0] < REF_MAX)
    }

    ghost function Contents(): seq<byte>
      requires Valid()
      reads this, ref, chunk, if chunk != null then {chunk.mem} else {}
    {
      if ref[0] == 0xff then chunk.mem[p..] else ref[1..1 + ref[0]]
    }

    /** nn_chunkref_init; `own` and `raw` are what the reference and the memory of the chunk hold. */
    constructor (size: nat, own: seq<byte>, raw: seq<byte>)
      requires |own| == REF_MAX && |raw| == size + WORDS
      ensures Valid() && fresh(ref)
      ensures Contents() == if size < REF_MAX then own[1..1 + size] else raw[WORDS..]
      ensures chunk == null <==> size < REF_MAX
      ensures chunk != null ==> fresh(chunk) && fresh(chunk.mem)
    {
      ref := new byte[REF_MAX](i requires 0 <= i < |own| => own[i]);
      chunk, p := null, 0;
      new;
      if size < REF_MAX {
        ref[0] := size;
        return;
      }
      ref[0] := 0xff;
      chunk := new Chunk(size, raw);
      p := WORDS;
    }

    /** nn_chunkref_size */
    method Size() returns (n: nat)
      requires Valid()
      ensures n == |Contents()|
    {
      if ref[0] == 0xff { return chunk.size; }
      return ref[0];
    }

    /** nn_chunkref_trim; false where the code asserts that 32 bits are enough. */
    method Trim(n: nat) returns (ok: bool)
      requires Valid() && n <= |Contents()|
      modifies this, ref, chunk, if chunk != null then {chunk.mem} else {}
      ensures ok ==> Valid() && Contents() == old(Contents())[n..]
      ensures ok <==> !(old(ref[0]) == 0xff && old(p) + n - WORDS >= UINT32_MAX)
    {
      hide Retagged, GetL;
      if ref[0] == 0xff {
        ghost var was := chunk.View();
        var q := chunk.Trim(p, n);
        if q == -1 { return false; }
        RetaggedWords(was.mem, q);
        assert chunk.View().mem[q..] == was.mem[q..] == was.mem[p..][n..];
        p := q;
        return true;
      }
      var left := ref[0] - n;
      MoveDown(ref, n, left);
      ref[0] := left;
      return true;
    }
  }
}
