/** Big-endian 32-bit numbers (utils/wire.c), as the protocol headers carry them. */
module Wire {
  import opened Common

  /** nn_getl */
  function GetL(b: seq<byte>): uint32
    requires |b| >= 4
  {
    var b0: int, b1: int, b2: int, b3: int := b[0], b[1], b[2], b[3];
    b0 * 0x100_0000 + b1 * 0x1_0000 + b2 * 0x100 + b3
  }

  /** What nn_putl writes. */
  function PutL(v: uint32): (b: seq<byte>)
    ensures |b| == 4
  {
    [v / 0x100_0000, v / 0x1_0000 % 0x100, v / 0x100 % 0x100, v % 0x100]
  }

  /** nn_putl into a buffer. */
  method PutLInto(buf: array<byte>, off: nat, v: uint32)
    requires off + 4 <= buf.Length
    modifies buf
    ensures buf[..] == old(buf[..off]) + PutL(v) + old(buf[off + 4..])
  {
    buf[off] := v / 0x100_0000 % 0x100;
    buf[off + 1] := v / 0x1_0000 % 0x100;
    buf[off + 2] := v / 0x100 % 0x100;
    buf[off + 3] := v % 0x100;
  }

  lemma {:induction false} GetPut(v: uint32, rest: seq<byte>)
    ensures GetL(PutL(v) + rest) == v
  {
    assert v == v / 0x100_0000 * 0x100_0000 + v / 0x1_0000 % 0x100 * 0x1_0000 + v / 0x100 % 0x100 * 0x100 + v % 0x100;
  }

  lemma {:induction false} PutGet(b: seq<byte>)
    requires |b| >= 4
    ensures PutL(GetL(b)) == b[..4]
  {
    var v := GetL(b);
    var b0: int, b1: int, b2: int := b[0], b[1], b[2];
    assert v / 0x100 == b0 * 0x1_0000 + b1 * 0x100 + b2;
    assert v / 0x1_0000 == b0 * 0x100 + b1;
  }

  const TOP: int := 0x8000_0000

  /** v | 0x80000000 */
  function WithTop(v: uint32): uint32 { if v < TOP then v + TOP else v }

  /** v & 0x7fffffff */
  function WithoutTop(v: uint32): uint32 { if v < TOP then v else v - TOP }

  predicate HasTop(v: uint32) { v >= TOP }

  /** The first byte is the most significant one, so the top bit of a number is that of its first byte. */
  lemma {:induction false} TopComesFirst(b: seq<byte>)
    requires |b| >= 4
    ensures HasTop(GetL(b)) <==> b[0] >= 0x80
  {
  }

  /** Numbers are ordered as their bytes are, read from the first. */
  lemma {:induction false} OrderOfBytes(v: uint32, w: uint32)
    ensures v < w <==> exists i :: 0 <= i < 4 && PutL(v)[..i] == PutL(w)[..i] && PutL(v)[i] < PutL(w)[i]
  {
    GetPut(v, []);
    GetPut(w, []);
    var a, b := PutL(v), PutL(w);
    assert a + [] == a && b + [] == b;
    if v < w {
      var i := FirstDifference(a, b);
      BytesDecide(a, b, i);
    } else if i :| 0 <= i < 4 && a[..i] == b[..i] && a[i] < b[i] {
      BytesDecide(a, b, i);
    }
  }

  lemma {:induction false} FirstDifference(a: seq<byte>, b: seq<byte>) returns (i: nat)
    requires |a| == |b| == 4 && GetL(a) != GetL(b)
    ensures i < 4 && a[..i] == b[..i] && a[i] != b[i]
  {
    if a[0] != b[0] {
      i := 0;
    } else if a[1] != b[1] {
      i := 1;
    } else if a[2] != b[2] {
      i := 2;
    } else {
      i := 3;
    }
  }

  lemma {:induction false} BytesDecide(a: seq<byte>, b: seq<byte>, i: nat)
    requires |a| == |b| == 4 && i < 4 && a[..i] == b[..i] && a[i] != b[i]
    ensures GetL(a) < GetL(b) <==> a[i] < b[i]
  {
    assert forall j | 0 <= j < i :: a[j] == a[..i][j] == b[j];
  }

  /** Setting the top bit makes two numbers the same exactly if they differ in it at most. */
  lemma {:induction false} SameWithTop(v: uint32, w: uint32)
    ensures WithTop(v) == WithTop(w) <==> v % TOP == w % TOP
    ensures HasTop(WithTop(v)) && WithTop(v) % TOP == v % TOP && WithoutTop(v) == v % TOP
  {
  }
}
