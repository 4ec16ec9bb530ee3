/** The slab manager (tools/slabs.c): the list of slabs, first-fit allocation by class and
    release by address. */
module SlabManager {
  import opened Common
  import opened Slabs

  // ---------------------------------------------------------------- classes

  /** The first class of the table that holds `size` bytes, or the last one. */
  function ClassIn(classes: seq<nat>, size: nat): nat
    requires classes != []
  {
    if classes[0] >= size || |classes| == 1 then classes[0] else ClassIn(classes[1..], size)
  }

  lemma {:induction false} ClassInLaw(classes: seq<nat>, size: nat)
    requires classes != []
    requires forall i, j | 0 <= i < j < |classes| :: classes[i] < classes[j]
    ensures ClassIn(classes, size) in classes
    ensures size <= classes[|classes| - 1]
            ==> size <= ClassIn(classes, size) && forall d | d in classes && size <= d :: ClassIn(classes, size) <= d
    ensures size > classes[|classes| - 1] ==> ClassIn(classes, size) == classes[|classes| - 1]
  {
    if classes[0] < size && |classes| > 1 {
      ClassInLaw(classes[1..], size);
      assert classes == [classes[0]] + classes[1..];
    }
  }

  function ClassFor(size: nat): nat { ClassIn(CLASSES, size) }

  lemma {:induction false} ClassForLaw(size: nat)
    ensures ClassFor(size) in CLASSES
    ensures size <= MEMORY ==> size <= ClassFor(size) && forall d | d in CLASSES && size <= d :: ClassFor(size) <= d
    ensures size > MEMORY ==> ClassFor(size) == MEMORY
  {
    ClassInLaw(CLASSES, size);
  }

  /** A class is its own class: an allocation by class looks in the slabs of that class. */
  lemma {:induction false} ClassIsItsOwn(c: nat)
    requires c in CLASSES
    ensures ClassFor(c) == c
    ensures MIN_CLASS <= c <= MEMORY
  {
    ClassForLaw(c);
  }

  lemma {:induction false} ClassBounds(size: nat)
    requires size <= MEMORY
    ensures size <= ClassFor(size) && MIN_CLASS <= ClassFor(size) <= MEMORY && ClassFor(ClassFor(size)) == ClassFor(size)
  {
    ClassForLaw(size);
    ClassIsItsOwn(ClassFor(size));
  }

  /** get_slab_class over a zero-terminated table of classes. */
  method SlabClass(classes: seq<nat>, size: nat) returns (c: nat)
    requires |classes| > 1 && classes[|classes| - 1] == 0
    requires forall i | 0 <= i < |classes| - 1 :: classes[i] > 0
    ensures c == ClassIn(classes[..|classes| - 1], size)
  {
    ghost var table := classes[..|classes| - 1];
    var i := 0;
    while classes[i] != 0
      invariant 0 <= i <= |table|
      invariant i < |table| ==> ClassIn(table, size) == ClassIn(table[i..], size)
      invariant i == |table| ==> ClassIn(table, size) == table[i - 1]
      decreases |table| - i
    {
      if classes[i] >= size { return classes[i]; }
      assert i + 1 < |table| ==> table[i..][1..] == table[i + 1..];
      i := i + 1;
    }
    return classes[i - 1];
  }

  method ClassOfValue(size: nat) returns (c: nat)
    ensures c == ClassFor(size)
  {
    assert (CLASSES + [0])[..|CLASSES|] == CLASSES;
    c := SlabClass(CLASSES + [0], size);
  }

  // ---------------------------------------------------------------- allocation as values

  /** The allocation state: one bitmap a slab. */
  type Bitmaps = seq<seq<bool>>

  /** Every slab of class cls is full. */
  ghost predicate NoRoom(classes: seq<nat>, bits: Bitmaps, cls: nat)
    requires |classes| == |bits|
  {
    forall k | 0 <= k < |bits| && classes[k] == cls :: AllSet(bits[k])
  }

  /** Slot i of slab k is the first clear slot of the first slab of class cls that has one. */
  ghost predicate FirstFit(classes: seq<nat>, bits: Bitmaps, cls: nat, k: nat, i: nat)
    requires |classes| == |bits|
  {
    && k < |bits|
    && classes[k] == cls
    && FirstClear(bits[k], i)
    && forall j | 0 <= j < k && classes[j] == cls :: AllSet(bits[j])
  }

  /** Allocation finds a slot exactly when the class has room. */
  lemma {:induction false} FitIffRoom(classes: seq<nat>, bits: Bitmaps, cls: nat)
    requires |classes| == |bits|
    ensures NoRoom(classes, bits, cls) <==> !exists k: nat, i: nat :: FirstFit(classes, bits, cls, k, i)
  {
    if !NoRoom(classes, bits, cls) {
      var k := FirstOpen(classes, bits, cls, 0);
      var i := FirstClearOf(bits[k], 0);
      assert FirstFit(classes, bits, cls, k, i);
    }
  }

  ghost function FirstOpen(classes: seq<nat>, bits: Bitmaps, cls: nat, from: nat): (k: nat)
    requires |classes| == |bits| && !NoRoom(classes, bits, cls)
    requires from <= |bits| && forall j | 0 <= j < from && classes[j] == cls :: AllSet(bits[j])
    ensures k < |bits| && classes[k] == cls && !AllSet(bits[k])
    ensures forall j | 0 <= j < k && classes[j] == cls :: AllSet(bits[j])
    decreases |bits| - from
  {
    if classes[from] == cls && !AllSet(bits[from]) then from else FirstOpen(classes, bits, cls, from + 1)
  }

  ghost function FirstClearOf(bits: seq<bool>, from: nat): (i: nat)
    requires !AllSet(bits) && from <= |bits| && forall j | 0 <= j < from :: bits[j]
    ensures FirstClear(bits, i)
    decreases |bits| - from
  {
    if !bits[from] then from else FirstClearOf(bits, from + 1)
  }

  function Mark(bits: Bitmaps, k: nat, i: nat, v: bool): Bitmaps
    requires k < |bits| && i < |bits[k]|
  {
    bits[k := bits[k][i := v]]
  }

  // ---------------------------------------------------------------- whose the set bits are

  /** A slot: number of the slab and index in it. */
  datatype Place = Place(slab: nat, slot: nat)

  predicate BitAt(bits: Bitmaps, p: Place) {
    p.slab < |bits| && p.slot < |bits[p.slab]| && bits[p.slab][p.slot]
  }

  /** A bit is set if and only if its slot has been taken and not given back, or it is stuck: set
      without an allocation.  No slot is both. */
  ghost predicate Accounted(bits: Bitmaps, stuck: Bitmaps, taken: set<Place>) {
    && |stuck| == |bits|
    && (forall k | 0 <= k < |bits| :: |stuck[k]| == |bits[k]|)
    && (forall p :: BitAt(bits, p) <==> BitAt(stuck, p) || p in taken)
    && (forall p | p in taken :: !BitAt(stuck, p))
  }

  lemma {:induction false} TakeAccounted(bits: Bitmaps, stuck: Bitmaps, taken: set<Place>, k: nat, i: nat)
    requires Accounted(bits, stuck, taken) && k < |bits| && i < |bits[k]| && !bits[k][i]
    ensures Place(k, i) !in taken && Accounted(Mark(bits, k, i, true), stuck, taken + {Place(k, i)})
  {
    assert !BitAt(bits, Place(k, i));
    forall p ensures BitAt(Mark(bits, k, i, true), p) <==> BitAt(bits, p) || p == Place(k, i) { MarkAt(bits, k, i, true, p); }
  }

  lemma {:induction false} GiveAccounted(bits: Bitmaps, stuck: Bitmaps, taken: set<Place>, k: nat, i: nat)
    requires Accounted(bits, stuck, taken) && k < |bits| && i < |bits[k]| && Place(k, i) in taken
    ensures bits[k][i] && Accounted(Mark(bits, k, i, false), stuck, taken - {Place(k, i)})
  {
    assert BitAt(bits, Place(k, i)) && !BitAt(stuck, Place(k, i));
    forall p ensures BitAt(Mark(bits, k, i, false), p) <==> BitAt(bits, p) && p != Place(k, i) { MarkAt(bits, k, i, false, p); }
  }

  /** Flipping the bit of a slot that is not taken makes it stuck, or frees it. */
  lemma {:induction false} StrayAccounted(bits: Bitmaps, stuck: Bitmaps, taken: set<Place>, k: nat, i: nat)
    requires Accounted(bits, stuck, taken) && k < |bits| && i < |bits[k]| && Place(k, i) !in taken
    ensures |stuck| == |bits| && |stuck[k]| == |bits[k]| && stuck[k][i] == bits[k][i]
    ensures Accounted(Mark(bits, k, i, !bits[k][i]), Mark(stuck, k, i, !bits[k][i]), taken)
  {
    assert BitAt(bits, Place(k, i)) <==> BitAt(stuck, Place(k, i));
    var v := !bits[k][i];
    forall p
      ensures BitAt(Mark(bits, k, i, v), p) <==> if p == Place(k, i) then v else BitAt(bits, p)
      ensures BitAt(Mark(stuck, k, i, v), p) <==> if p == Place(k, i) then v else BitAt(stuck, p)
    {
      MarkAt(bits, k, i, v, p);
      MarkAt(stuck, k, i, v, p);
    }
  }

  lemma {:induction false} MarkAt(bits: Bitmaps, k: nat, i: nat, v: bool, p: Place)
    requires k < |bits| && i < |bits[k]|
    ensures BitAt(Mark(bits, k, i, v), p) == if p == Place(k, i) then v else BitAt(bits, p)
  {
  }

  lemma {:induction false} AddAccounted(bits: Bitmaps, stuck: Bitmaps, taken: set<Place>, born: seq<bool>)
    requires Accounted(bits, stuck, taken)
    ensures Accounted(bits + [born], stuck + [born], taken)
  {
    forall p
      ensures BitAt(bits + [born], p) == if p.slab == |bits| then p.slot < |born| && born[p.slot] else BitAt(bits, p)
      ensures BitAt(stuck + [born], p) == if p.slab == |bits| then p.slot < |born| && born[p.slot] else BitAt(stuck, p)
    {
    }
    forall p | p in taken ensures p.slab < |bits| { assert BitAt(bits, p); }
  }

  /** The bits of a slab as some malloc and allocate_slab leave them. */
  ghost predicate IsNew(cls: nat, bits: seq<bool>) {
    MIN_CLASS <= cls <= MEMORY && exists raw: seq<bool> :: |raw| == BITS && bits == NewBits(cls, raw)
  }

  /** No bit is stuck but those that a new slab is made with. */
  ghost predicate AllNew(classes: seq<nat>, stuck: Bitmaps) {
    |classes| == |stuck| && forall k | 0 <= k < |stuck| :: IsNew(classes[k], stuck[k])
  }

  lemma {:induction false} NewAppended(classes: seq<nat>, stuck: Bitmaps, cls: nat, raw: seq<bool>)
    requires AllNew(classes, stuck) && MIN_CLASS <= cls <= MEMORY && |raw| == BITS
    ensures AllNew(classes + [cls], stuck + [NewBits(cls, raw)])
  {
    assert IsNew(cls, NewBits(cls, raw));
  }

  // ---------------------------------------------------------------- the manager

  /** The address of slot i. */
  function SlotAddress(s: Slab, i: nat): nat { s.base + Offset(s.cls, i) }

  /** The slot at an address, as man_delete computes it. */
  function ItemAt(s: Slab, ptr: nat): int
    requires s.cls >= MIN_CLASS
  {
    (ptr - s.base) / s.cls
  }

  predicate Holds(s: Slab, ptr: nat) { s.base <= ptr < s.base + SLAB_SIZE }

  /** Two slabs share neither addresses nor storage. */
  predicate Apart(s: Slab, t: Slab) {
    && s != t
    && s.status != t.status
    && s.memory != t.memory
    && (s.base + SLAB_SIZE <= t.base || t.base + SLAB_SIZE <= s.base)
  }

  predicate AllApart(slabs: seq<Slab>) {
    forall j, k | 0 <= j < k < |slabs| :: Apart(slabs[j], slabs[k])
  }

  lemma ApartAt(slabs: seq<Slab>, j: nat, k: nat)
    requires AllApart(slabs) && j < |slabs| && k < |slabs| && j != k
    ensures Apart(slabs[j], slabs[k])
  {
    assert if j < k then Apart(slabs[j], slabs[k]) else Apart(slabs[k], slabs[j]);
  }

  lemma {:induction false} ApartAppend(slabs: seq<Slab>, s: Slab)
    requires AllApart(slabs) && forall k | 0 <= k < |slabs| :: Apart(slabs[k], s)
    ensures AllApart(slabs + [s])
  {
  }

  function ClassesOf(slabs: seq<Slab>): (r: seq<nat>)
    ensures |r| == |slabs|
  {
    seq(|slabs|, k requires 0 <= k < |slabs| => slabs[k].cls)
  }

  lemma {:induction false} ClassesAppend(slabs: seq<Slab>, s: Slab)
    ensures ClassesOf(slabs + [s]) == ClassesOf(slabs) + [s.cls]
  {
  }

  /** memcpy into the memory of a slab. */
  method CopyIn(memory: array<byte>, off: nat, val: seq<byte>)
    requires off + |val| <= memory.Length
    modifies memory
    ensures memory[..] == Overwrite(old(memory[..]), off, val)
  {
    var n := 0;
    while n < |val|
      invariant n <= |val|
      invariant forall m | 0 <= m < memory.Length ::
                  memory[m] == if off <= m < off + n then val[m - off] else old(memory[m])
    {
      memory[off + n] := val[n];
      n := n + 1;
    }
  }

  class Manager {
    var slabs: seq<Slab>
    /** The bitmaps of the slabs, in order. */
    ghost var bits: Bitmaps
    /** The memories of the slabs, in order. */
    ghost var mem: seq<seq<byte>>
    /** The slots allocated and not released, and the bits that are set for none of them. */
    ghost var taken: set<Place>
    ghost var stuck: Bitmaps
    ghost var Repr: set<object>

    /** Slab k and what is recorded of it. */
    ghost predicate Recorded(k: nat)
      reads this, Repr
    {
      && k < |slabs| == |bits| == |mem|
      && slabs[k] in Repr && slabs[k].status in Repr && slabs[k].memory in Repr
      && slabs[k].Valid()
      && bits[k] == slabs[k].status[..]
      && mem[k] == slabs[k].memory[..]
    }

    ghost predicate Valid()
      reads this, Repr
    {
      && this in Repr
      && |bits| == |mem| == |slabs|
      && (forall k | 0 <= k < |slabs| ::
            slabs[k] in Repr && MIN_CLASS <= slabs[k].cls <= MEMORY && |bits[k]| == BITS && |mem[k]| == MEMORY)
      && (forall k {:trigger Recorded(k)} | 0 <= k < |slabs| :: Recorded(k))
      && AllApart(slabs)
      && Accounted(bits, stuck, taken)
    }

    constructor ()
      ensures Valid() && fresh(Repr) && slabs == [] && bits == [] && taken == {} && stuck == []
    {
      slabs, bits, mem, taken, stuck := [], [], [], {}, [];
      Repr := {this};
    }

    lemma Basics()
      requires Valid()
      ensures this in Repr && |slabs| == |bits| == |mem| == |stuck| && Accounted(bits, stuck, taken)
    {
    }

    /** slab_add; `base` and `raw` are what malloc returns: an unused range and its contents. */
    method Add(cls: nat, base: nat, raw: seq<bool>)
      requires Valid() && MIN_CLASS <= cls <= MEMORY && |raw| == BITS
      requires forall k | 0 <= k < |slabs| :: base + SLAB_SIZE <= slabs[k].base || slabs[k].base + SLAB_SIZE <= base
      modifies this
      ensures Valid() && fresh(Repr - old(Repr))
      ensures |slabs| == |old(slabs)| + 1 && slabs[..|old(slabs)|] == old(slabs)
      ensures ClassesOf(slabs) == ClassesOf(old(slabs)) + [cls]
      ensures bits == old(bits) + [NewBits(cls, raw)]
      ensures mem[..|old(slabs)|] == old(mem)
      ensures taken == old(taken) && stuck == old(stuck) + [NewBits(cls, raw)]
      ensures slabs[|old(slabs)|].base == base
    {
      hide Accounted, NewBits, AllApart, ClassesOf;
      AddAccounted(bits, stuck, taken, NewBits(cls, raw));
      var s := new Slab(cls, base, raw);
      forall k | 0 <= k < |slabs| ensures Apart(slabs[k], s) { assert Recorded(k); }
      ApartAppend(slabs, s);
      ClassesAppend(slabs, s);
      ghost var n := |slabs|;
      slabs, bits, mem := slabs + [s], bits + [s.status[..]], mem + [s.memory[..]];
      stuck := stuck + [NewBits(cls, raw)];
      Repr := Repr + {s, s.status, s.memory};
      forall k | 0 <= k < |slabs| ensures Recorded(k) {
        if k < n { assert old(Recorded(k)); }
      }
    }

    /** get_slab: the first slab of the class that is not marked full. */
    method GetSlab(cls: nat) returns (k: nat)
      requires Valid()
      ensures k <= |slabs|
      ensures k < |slabs| ==> slabs[k].cls == cls && !slabs[k].isFull
      ensures forall j | 0 <= j < k && slabs[j].cls == cls :: slabs[j].isFull
    {
      k := 0;
      while k < |slabs|
        invariant k <= |slabs|
        invariant forall j | 0 <= j < k && slabs[j].cls == cls :: slabs[j].isFull
      {
        if slabs[k].cls == cls && !slabs[k].isFull { return; }
        k := k + 1;
      }
    }

    ghost function Unmarked(): set<Slab>
      reads this, Repr
      requires Valid()
    {
      set s | s in slabs && !s.isFull
    }

    method MarkFull(k: nat)
      requires Valid() && k < |slabs| && AllSet(bits[k]) && !slabs[k].isFull
      modifies Repr
      ensures Valid() && unchanged(this)
      ensures Unmarked() == old(Unmarked()) - {slabs[k]}
    {
      hide Accounted, AllApart;
      assert Recorded(k);
      assert forall i | 0 <= i < BITS :: slabs[k].status[..][i];
      slabs[k].isFull := true;
      forall j | 0 <= j < |slabs| ensures Recorded(j) {
        assert old(Recorded(j));
        if j != k { ApartAt(slabs, j, k); }
      }
    }

    /** Flips one allocation bit of a slab, by slab_delete or, if it is clear, by toggle_bit alone. */
    method Flip(k: nat, i: nat, release: bool, ghost taken': set<Place>, ghost stuck': Bitmaps)
      requires Valid() && k < |slabs| && i < Slots(slabs[k].cls) && i < BITS && (release || !bits[k][i])
      requires Accounted(Mark(bits, k, i, !bits[k][i]), stuck', taken')
      modifies Repr
      ensures Valid() && slabs == old(slabs) && mem == old(mem) && Repr == old(Repr)
      ensures bits == Mark(old(bits), k, i, !old(bits)[k][i]) && taken == taken' && stuck == stuck'
    {
      hide Accounted, AllApart;
      assert Recorded(k);
      taken, stuck := taken', stuck';
      if release {
        slabs[k].Delete(i);
      } else {
        slabs[k].Toggle(i);
      }
      bits := bits[k := slabs[k].status[..]];
      forall j | 0 <= j < |slabs| ensures Recorded(j) {
        assert old(Recorded(j));
        if j != k { ApartAt(slabs, j, k); }
      }
    }

    /** A slab that is marked full is full, so a class with marked slabs only has no room. */
    lemma MarkedHasNoRoom(cls: nat)
      requires Valid() && forall j | 0 <= j < |slabs| && slabs[j].cls == cls :: slabs[j].isFull
      ensures NoRoom(ClassesOf(slabs), bits, cls)
    {
      forall j | 0 <= j < |slabs| && slabs[j].cls == cls ensures AllSet(bits[j]) { assert Recorded(j); }
    }

    /** The first clear slot of the first slab that is not marked is the first fit. */
    lemma UnmarkedFits(cls: nat, k: nat, i: nat)
      requires Valid() && k < |slabs| && slabs[k].cls == cls && FirstClear(bits[k], i)
      requires forall j | 0 <= j < k && slabs[j].cls == cls :: slabs[j].isFull
      ensures FirstFit(ClassesOf(slabs), bits, cls, k, i)
    {
      forall j | 0 <= j < k && slabs[j].cls == cls ensures AllSet(bits[j]) { assert Recorded(j); }
    }

    /** Allocates slot i of slab k. */
    method Take(k: nat, i: nat) returns (a: nat)
      requires Valid() && k < |slabs| && FirstClear(bits[k], i)
      modifies Repr
      ensures Valid() && slabs == old(slabs) && mem == old(mem) && Repr == old(Repr)
      ensures i < Slots(slabs[k].cls) && a == SlotAddress(slabs[k], i)
      ensures bits == Mark(old(bits), k, i, true)
      ensures Place(k, i) !in old(taken) && taken == old(taken) + {Place(k, i)} && stuck == old(stuck)
    {
      hide Accounted, AllApart;
      assert Recorded(k);
      SlotsBound(slabs[k].cls);
      assert !slabs[k].status[..][i];
      TakeAccounted(bits, stuck, taken, k, i);
      Flip(k, i, false, taken + {Place(k, i)}, stuck);
      a := SlotAddress(slabs[k], i);
    }

    /** get_address: allocates the first clear slot of the first slab of the class that has one.
        The recursion ends because every call marks one more slab as full. */
    method GetAddress(size: nat) returns (a: Option<nat>, ghost k: nat, ghost i: nat)
      requires Valid()
      modifies Repr
      ensures Valid() && slabs == old(slabs) && mem == old(mem) && Repr == old(Repr)
      ensures stuck == old(stuck)
      ensures a.None? ==> NoRoom(ClassesOf(slabs), bits, ClassFor(size)) && bits == old(bits) && taken == old(taken)
      ensures a.Some? ==>
                && Place(k, i) !in old(taken) && taken == old(taken) + {Place(k, i)}
                && FirstFit(ClassesOf(slabs), old(bits), ClassFor(size), k, i)
                && i < Slots(slabs[k].cls)
                && a.value == SlotAddress(slabs[k], i)
                && bits == Mark(old(bits), k, i, true)
      decreases Unmarked()
    {
      hide Accounted, Manager.Valid, ClassFor, FirstFit, NoRoom, ClassesOf, Slots;
      Basics();
      var cls := ClassOfValue(size);
      var at := GetSlab(cls);
      k, i := at, 0;
      if at == |slabs| {
        MarkedHasNoRoom(cls);
        return None, k, i;
      }
      SlabBasics(at);
      var r := slabs[at].FreeIndex();
      if r == 0 {
        MarkFull(at);
        a, k, i := GetAddress(size);
      } else {
        i := r - 1;
        UnmarkedFits(cls, k, i);
        var address := Take(at, r - 1);
        a := Some(address);
      }
    }

    /** A slab and its record. */
    lemma SlabBasics(k: nat)
      requires Valid() && k < |slabs|
      ensures |bits[k]| == BITS && |mem[k]| == MEMORY && MIN_CLASS <= slabs[k].cls <= MEMORY
      ensures slabs[k].status.Length == BITS && bits[k] == slabs[k].status[..]
    {
      assert Recorded(k);
    }

    /** The slab that holds an address, or none: LL_find with find_val. */
    method Locate(ptr: nat) returns (j: nat)
      requires Valid()
      ensures j <= |slabs|
      ensures j < |slabs| ==> Holds(slabs[j], ptr)
      ensures forall k | 0 <= k < |slabs| && k != j :: !Holds(slabs[k], ptr)
    {
      j := 0;
      while j < |slabs| && !Holds(slabs[j], ptr)
        invariant j <= |slabs| && forall k | 0 <= k < j :: !Holds(slabs[k], ptr)
      {
        j := j + 1;
      }
      forall k | j < k < |slabs| ensures !Holds(slabs[k], ptr) { ApartAt(slabs, j, k); }
    }

    /** man_delete: flips the bit of the slot that holds the address, and does nothing if no slab does.
        A slot that was taken is free then. */
    method Delete(ptr: nat, ghost k: nat, ghost i: nat)
      requires Valid()
      requires k < |slabs| ==> MIN_CLASS <= slabs[k].cls && Holds(slabs[k], ptr) && i == ItemAt(slabs[k], ptr) < Slots(slabs[k].cls) && i < BITS
      requires k >= |slabs| ==> forall j | 0 <= j < |slabs| :: !Holds(slabs[j], ptr)
      modifies Repr
      ensures Valid() && slabs == old(slabs) && mem == old(mem) && Repr == old(Repr)
      ensures bits == if k < |slabs| then Mark(old(bits), k, i, !old(bits)[k][i]) else old(bits)
      ensures taken == old(taken) - {Place(k, i)}
      ensures stuck == if k < |slabs| && Place(k, i) !in old(taken) then Mark(old(stuck), k, i, !old(bits)[k][i]) else old(stuck)
    {
      hide Accounted, Manager.Valid, ItemAt, Slots, Mark;
      Basics();
      var j := Locate(ptr);
      if j == |slabs| {
        NoneTaken(k, i);
        return;
      }
      SlabBasics(j);
      ghost var stuck' := stuck;
      if Place(k, i) in taken {
        GiveAccounted(bits, stuck, taken, k, i);
      } else {
        StrayAccounted(bits, stuck, taken, k, i);
        assert taken - {Place(k, i)} == taken;
        stuck' := Mark(stuck, k, i, !bits[k][i]);
      }
      var item := ItemAt(slabs[j], ptr);
      Flip(j, item, true, taken - {Place(k, i)}, stuck');
    }

    lemma NoneTaken(k: nat, i: nat)
      requires Valid() && k >= |slabs|
      ensures Place(k, i) !in taken
    {
      assert !BitAt(bits, Place(k, i));
    }

    /** memcpy of a value to an address inside a slab. */
    method Store(ptr: nat, val: seq<byte>, ghost k: nat)
      requires Valid() && k < |slabs|
      requires slabs[k].base <= ptr < slabs[k].base + MEMORY && ptr + |val| <= slabs[k].base + MEMORY
      modifies Repr
      ensures Valid() && slabs == old(slabs) && bits == old(bits) && Repr == old(Repr)
      ensures taken == old(taken) && stuck == old(stuck)
      ensures mem == old(mem)[k := Overwrite(old(mem)[k], ptr - slabs[k].base, val)]
    {
      hide Accounted, AllApart;
      var j := Locate(ptr);
      assert Recorded(j);
      var s := slabs[j];
      CopyIn(s.memory, ptr - s.base, val);
      mem := mem[j := s.memory[..]];
      forall t | 0 <= t < |slabs| ensures Recorded(t) {
        assert old(Recorded(t));
        if t != j { ApartAt(slabs, t, j); }
      }
    }

    /** The bytes at an address inside a slab. */
    method Load(ptr: nat, n: nat, ghost k: nat) returns (v: seq<byte>)
      requires Valid() && k < |slabs|
      requires slabs[k].base <= ptr && ptr + n <= slabs[k].base + MEMORY && ptr < slabs[k].base + MEMORY
      ensures v == mem[k][ptr - slabs[k].base..][..n]
    {
      var j := Locate(ptr);
      assert Recorded(j);
      var off := ptr - slabs[j].base;
      v := slabs[j].memory[off..off + n];
    }
  }

  function Overwrite(m: seq<byte>, off: nat, val: seq<byte>): seq<byte>
    requires off + |val| <= |m|
  {
    m[..off] + val + m[off + |val|..]
  }

  /** The address of a slot lies inside its slab's memory, and gives the slot back. */
  lemma {:induction false} AddressInSlab(s: Slab, i: nat)
    requires MIN_CLASS <= s.cls && i < Slots(s.cls)
    ensures Holds(s, SlotAddress(s, i))
    ensures s.base <= SlotAddress(s, i) <= s.base + MEMORY - s.cls
    ensures ItemAt(s, SlotAddress(s, i)) == i
  {
    OffsetMonotone(s.cls, i, Slots(s.cls));
    FitBound(MEMORY, s.cls);
    OffsetIsMul(s.cls, i);
    DivFloor(s.cls * i, s.cls, i);
  }
}
