/** The slab allocator of the cache (tools/slabs.c).

    A slab is one megabyte of memory cut into slots of the slab's class, with an allocation
    bitmap.  Addresses are numbers; a slab occupies SLAB_SIZE of them from its base on.  A
    status word of 32 bits is modelled as 32 booleans, most significant bit first; the module Words
    shows what the operations of the code on words do to them. */
module Slabs {
  import opened Common

  const MEMORY: nat := 0x10_0000
  const WORDS: nat := 512
  const BITS: nat := 16384
  /** sizeof (slab_obj): the memory, the class, the status words and isFull, aligned to four. */
  const SLAB_SIZE: nat := MEMORY + 4 + 4 * WORDS + 4
  const MIN_CLASS: nat := 64

  /** How often cls fits into the space. */
  function Fit(space: nat, cls: nat): nat
    requires cls > 0
  {
    if space < cls then 0 else 1 + Fit(space - cls, cls)
  }

  /** How many values of class cls fit into one slab. */
  function Slots(cls: nat): (n: nat)
    requires MIN_CLASS <= cls
    ensures n <= BITS
  {
    FitBound(MEMORY, cls);
    Fit(MEMORY, cls)
  }

  lemma {:induction false} FitBound(space: nat, cls: nat)
    requires MIN_CLASS <= cls
    ensures Fit(space, cls) * MIN_CLASS <= space
    ensures Offset(cls, Fit(space, cls)) <= space
  {
    if space >= cls { FitBound(space - cls, cls); }
  }

  /** Where slot i of a slab of class cls starts. */
  function Offset(cls: nat, i: nat): nat {
    if i == 0 then 0 else Offset(cls, i - 1) + cls
  }

  lemma {:induction false} OffsetMonotone(cls: nat, i: nat, j: nat)
    requires i < j
    ensures Offset(cls, i) + cls <= Offset(cls, j)
  {
    if i + 1 < j { OffsetMonotone(cls, i, j - 1); }
  }

  lemma {:induction false} OffsetIsMul(cls: nat, i: nat)
    ensures Offset(cls, i) == cls * i
  {
    if i > 0 {
      OffsetIsMul(cls, i - 1);
      assert cls * i == cls * (i - 1) + cls;
    }
  }

  lemma {:induction false} FitIsDiv(space: nat, cls: nat)
    requires cls > 0
    ensures Fit(space, cls) == space / cls
  {
    if space < cls {
      DivFloor(space, cls, 0);
    } else {
      FitIsDiv(space - cls, cls);
      var q := (space - cls) / cls;
      assert q * cls <= space - cls < (q + 1) * cls;
      assert (q + 1) * cls == q * cls + cls && (q + 2) * cls == (q + 1) * cls + cls;
      DivFloor(space, cls, q + 1);
    }
  }

  lemma {:induction false} SlotsBound(cls: nat)
    requires MIN_CLASS <= cls
    ensures Slots(cls) == MEMORY / cls
    ensures Slots(cls) * cls <= MEMORY < (Slots(cls) + 1) * cls
  {
    FitIsDiv(MEMORY, cls);
  }

  lemma {:induction false} MulMonotone(a: nat, b: nat, n: nat)
    requires a <= b
    ensures n * a <= n * b
  {
  }

  lemma {:induction false} DivFloor(a: nat, b: nat, q: nat)
    requires b > 0 && q * b <= a < (q + 1) * b
    ensures a / b == q
  {
    var d := a / b;
    assert d * b <= a < (d + 1) * b;
    if d < q {
      MulMonotone(d + 1, q, b);
      assert false;
    }
  }

  /** Dividing what the whole words leave of the memory counts the bits of the partial word. */
  lemma {:induction false} RemainderIsMod(cls: nat)
    requires MIN_CLASS <= cls <= MEMORY
    ensures MEMORY - Slots(cls) / 32 * 32 * cls >= 0
    ensures (MEMORY - Slots(cls) / 32 * 32 * cls) / cls == Slots(cls) % 32
    ensures Slots(cls) / 32 <= WORDS
  {
    SlotsBound(cls);
    var n := Slots(cls);
    var w, r := n / 32, n % 32;
    assert n == 32 * w + r;
    assert n * cls == w * 32 * cls + r * cls;
    DivFloor(MEMORY - w * 32 * cls, cls, r);
  }

  /** Writes one status word: all ones or all zeros. */
  method WriteWord(status: array<bool>, i: nat, v: bool)
    requires status.Length == BITS && i < WORDS
    modifies status
    ensures forall k | 0 <= k < BITS :: status[k] == if 32 * i <= k < 32 * i + 32 then v else old(status[k])
  {
    forall k | 32 * i <= k < 32 * i + 32 { status[k] := v; }
  }

  /** The status bits of a new slab: unusable ones are set, those of wholly usable words are
      clear, and the usable ones of a partly usable word keep what the memory held. */
  function NewBits(cls: nat, raw: seq<bool>): seq<bool>
    requires MIN_CLASS <= cls && |raw| == BITS
  {
    seq(BITS, k requires 0 <= k < BITS => k >= Slots(cls) || (k >= Slots(cls) / 32 * 32 && raw[k]))
  }

  /** The loops of allocate_slab.  If all words are used, which is so for class 64 alone, the code sets
      the bits of one word more: that word is isFull, and is cleared right after. */
  method InitStatus(status: array<bool>, cls: nat)
    requires status.Length == BITS && MIN_CLASS <= cls <= MEMORY
    modifies status
    ensures status[..] == NewBits(cls, old(status[..]))
  {
    ghost var n := Slots(cls);
    SlotsBound(cls);
    RemainderIsMod(cls);
    var words := MEMORY / cls / 32;
    var i := 0;
    while i < words
      invariant 0 <= i <= words
      invariant forall k | 0 <= k < BITS :: status[k] == (k >= 32 * i && old(status[k]))
    {
      WriteWord(status, i, false);
      i := i + 1;
    }
    var remainder := (MEMORY - i * 32 * cls) / cls;
    if i < WORDS {
      var j := remainder;
      while j < 32
        invariant remainder <= j <= 32
        invariant forall k | 0 <= k < BITS ::
                    status[k] == (n <= k < 32 * words + j || (k >= 32 * words && old(status[k])))
      {
        status[32 * i + j] := true;
        j := j + 1;
      }
      i := i + 1;
      while i < WORDS
        invariant words + 1 <= i <= WORDS
        invariant forall k | 0 <= k < BITS ::
                    status[k] == (n <= k < 32 * i || (k >= 32 * words && old(status[k])))
      {
        WriteWord(status, i, true);
        i := i + 1;
      }
    }
  }

  class Slab {
    const base: nat
    const cls: nat
    const memory: array<byte>
    const status: array<bool>
    var isFull: bool

    ghost predicate Valid()
      reads this, status
    {
      && MIN_CLASS <= cls <= MEMORY
      && memory.Length == MEMORY
      && status.Length == BITS
      && (forall k | Slots(cls) <= k < BITS :: status[k])
      && (isFull ==> forall k | 0 <= k < BITS :: status[k])
    }

    /** allocate_slab: `raw` is what the freshly allocated status words hold. */
    constructor (cls: nat, base: nat, raw: seq<bool>)
      requires MIN_CLASS <= cls <= MEMORY && |raw| == BITS
      ensures Valid() && this.cls == cls && this.base == base && !isFull
      ensures fresh(memory) && fresh(status)
      ensures status[..] == NewBits(cls, raw)
    {
      this.base, this.cls, isFull := base, cls, false;
      memory := new byte[MEMORY];
      status := new bool[BITS](i requires 0 <= i < BITS => raw[i]);
      new;
      assert status[..] == raw;
      SlotsBound(cls);
      InitStatus(status, cls);
    }

    /** Number of leading ones of status word i. */
    method LeadingOnes(i: nat) returns (j: nat)
      requires status.Length == BITS && i < WORDS
      ensures j <= 32
      ensures forall k | 32 * i <= k < 32 * i + j :: status[k]
      ensures j < 32 ==> !status[32 * i + j]
    {
      j := 0;
      while j < 32 && status[32 * i + j]
        invariant j <= 32
        invariant forall k | 32 * i <= k < 32 * i + j :: status[k]
      {
        j := j + 1;
      }
    }

    /** get_free_index: one more than the first clear bit, or 0 when there is none. */
    method FreeIndex() returns (r: nat)
      requires status.Length == BITS
      ensures r <= BITS
      ensures r == 0 <==> AllSet(status[..])
      ensures r > 0 ==> FirstClear(status[..], r - 1)
    {
      var i := 0;
      while i < WORDS
        invariant 0 <= i <= WORDS
        invariant forall k | 0 <= k < 32 * i :: status[k]
      {
        var j := LeadingOnes(i);
        if j < 32 {
          assert !status[..][32 * i + j];
          return 32 * i + j + 1;
        }
        i := i + 1;
      }
      return 0;
    }

    /** toggle_bit. */
    method Toggle(bit: nat)
      requires status.Length == BITS && bit < BITS
      modifies status
      ensures status[..] == old(status[..])[bit := !old(status[bit])]
    {
      status[bit] := !status[bit];
    }

    /** slab_delete: flips the bit, whichever way it was, and takes the full mark away. */
    method Delete(item: nat)
      requires Valid() && item < Slots(cls)
      modifies this`isFull, status
      ensures Valid() && !isFull
      ensures status[..] == old(status[..])[item := !old(status[item])]
    {
      SlotsBound(cls);
      Toggle(item);
      isFull := false;
    }
  }

  ghost predicate AllSet(bits: seq<bool>) {
    forall k | 0 <= k < |bits| :: bits[k]
  }

  ghost predicate FirstClear(bits: seq<bool>, i: nat) {
    && i < |bits|
    && !bits[i]
    && forall k | 0 <= k < i :: bits[k]
  }

  // ---------------------------------------------------------------- capacity of a new slab

  function CountClear(bits: seq<bool>): nat {
    if bits == [] then 0 else CountClear(bits[..|bits| - 1]) + if bits[|bits| - 1] then 0 else 1
  }

  lemma {:induction false} CountClearAppend(a: seq<bool>, b: seq<bool>)
    ensures CountClear(a + b) == CountClear(a) + CountClear(b)
  {
    if b == [] {
      assert a + b == a;
    } else {
      assert (a + b)[..|a + b| - 1] == a + b[..|b| - 1];
      CountClearAppend(a, b[..|b| - 1]);
    }
  }

  lemma {:induction false} CountClearBound(bits: seq<bool>)
    ensures CountClear(bits) <= |bits|
    ensures CountClear(bits) == |bits| <==> forall k | 0 <= k < |bits| :: !bits[k]
    ensures CountClear(bits) == 0 <==> AllSet(bits)
  {
    if bits != [] {
      var n := |bits| - 1;
      var init := bits[..n];
      CountClearBound(init);
      assert forall k | 0 <= k < n :: init[k] == bits[k];
      assert AllSet(bits) <==> AllSet(init) && bits[n];
      assert (forall k | 0 <= k < |bits| :: !bits[k]) <==> (forall k | 0 <= k < n :: !init[k]) && !bits[n];
    }
  }

  /** Bits that are clear below w, free to vary up to n and set from there on. */
  lemma {:induction false} ThreeParts(bits: seq<bool>, w: nat, n: nat)
    requires w <= n <= |bits|
    requires forall k | 0 <= k < w :: !bits[k]
    requires AllSet(bits[n..])
    ensures CountClear(bits) == w + CountClear(bits[w..n])
  {
    var a, b, c := bits[..w], bits[w..n], bits[n..];
    assert bits == a + (b + c);
    CountClearAppend(b, c);
    CountClearAppend(a, b + c);
    CountClearBound(a);
    CountClearBound(c);
  }

  /** A new slab of class cls has room for floor(2^20 / cls) values exactly when the memory it
      was given happens to hold zeros in the usable bits of its partly usable status word. */
  lemma {:induction false} NewSlabCapacity(cls: nat, raw: seq<bool>)
    requires MIN_CLASS <= cls <= MEMORY && |raw| == BITS
    ensures CountClear(NewBits(cls, raw)) <= Slots(cls)
    ensures CountClear(NewBits(cls, raw)) == Slots(cls)
            <==> forall k | Slots(cls) / 32 * 32 <= k < Slots(cls) :: !raw[k]
  {
    Capacity(NewBits(cls, raw), raw, Slots(cls) / 32 * 32, Slots(cls));
  }

  /** A slab of the class 65536 should hold sixteen values, and holds none if its memory held ones. */
  lemma {:induction false} NewSlabWithoutRoom()
    ensures 0x1_0000 in CLASSES && Slots(0x1_0000) == 16
    ensures CountClear(NewBits(0x1_0000, seq(BITS, _ => true))) == 0
  {
    hide Slots, CountClear;
    assert CLASSES[10] == 0x1_0000;
    SlotsBound(0x1_0000);
    CountClearBound(NewBits(0x1_0000, seq(BITS, _ => true)));
  }

  lemma {:induction false} Capacity(bits: seq<bool>, raw: seq<bool>, w: nat, n: nat)
    requires w <= n <= |bits| == |raw|
    requires forall k | 0 <= k < |bits| :: bits[k] == (k >= n || (k >= w && raw[k]))
    ensures CountClear(bits) <= n
    ensures CountClear(bits) == n <==> forall k | w <= k < n :: !raw[k]
  {
    var b := bits[w..n];
    ThreeParts(bits, w, n);
    CountClearBound(b);
    assert b == raw[w..n];
    assert forall k | w <= k < n :: raw[k] == b[k - w];
  }

  /** Every class the cache uses up to 32 KB fills whole words, so its capacity is exact. */
  lemma {:induction false} WholeWordClasses(cls: nat, raw: seq<bool>)
    requires cls in CLASSES && cls <= 0x8000 && |raw| == BITS
    ensures CountClear(NewBits(cls, raw)) == Slots(cls)
  {
    assert MEMORY / cls % 32 == 0;
    SlotsBound(cls);
    NewSlabCapacity(cls, raw);
  }

  /** The classes set up by initialize: the powers of two from 64 bytes to one megabyte. */
  const CLASSES: seq<nat> :=
    [64, 128, 256, 512, 1024, 2048, 4096, 8192, 16384, 32768, 65536, 131072, 262144, 524288, 1048576]

  /** Distinct slots of a slab occupy disjoint regions inside its memory. */
  lemma {:induction false} RegionsDisjoint(cls: nat, i: nat, j: nat)
    requires MIN_CLASS <= cls && i < j < Slots(cls)
    ensures Offset(cls, i) + cls <= Offset(cls, j)
    ensures Offset(cls, j) + cls <= MEMORY
  {
    OffsetMonotone(cls, i, j);
    OffsetMonotone(cls, j, Slots(cls));
    FitBound(MEMORY, cls);
  }
}
