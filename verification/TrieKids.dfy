/** The child arrays of a subscription-trie node (nanomsg/src/protocols/pubsub/trie.c).

    A node keeps up to SPARSE_MAX children in a sparse array (parallel lists of key bytes
    and pointers) and more than that in a dense array covering the bytes min..max, where a
    byte without a child holds a null pointer and nbr counts the others.  This module gives
    the two layouts, every rewrite the code performs on them, and the laws that let the rest
    of the model forget the layout: what a lookup finds after each rewrite. */
module TrieKids {
  import opened Common

  const PREFIX_MAX: nat := 10
  const SPARSE_MAX: nat := 8

  datatype Node = Node(refcount: nat, prefix: seq<byte>, kids: Kids)

  datatype Kids =
    | Sparse(keys: seq<byte>, subs: seq<Node>)
    | Dense(min: byte, max: byte, nbr: nat, slots: seq<Option<Node>>)

  const NoKids: Kids := Sparse([], [])

  /** The pointer a dense array starting at byte min holds for byte d. */
  function SlotAt(min: byte, slots: seq<Option<Node>>, d: byte): Option<Node> {
    if min <= d < min + |slots| then slots[d - min] else None
  }

  /** The child reached by byte c (nn_node_next followed by the dereference). */
  function Lookup(k: Kids, c: byte): Option<Node> {
    match k
    case Sparse(keys, subs) =>
      var i := IndexOf(keys, c);
      if i < |keys| && i < |subs| then Some(subs[i]) else None
    case Dense(min, max, _, slots) =>
      if min <= c <= max then SlotAt(min, slots, c) else None
  }

  /** Number of non-null pointers. */
  function CountSome<T>(slots: seq<Option<T>>): nat {
    if slots == [] then 0
    else CountSome(slots[..|slots| - 1]) + if slots[|slots| - 1].Some? then 1 else 0
  }

  /** The shape every child array keeps. */
  predicate Shape(k: Kids) {
    match k
    case Sparse(keys, subs) =>
      |keys| == |subs| <= SPARSE_MAX && Distinct(keys)
    case Dense(min, max, nbr, slots) =>
      && min <= max
      && |slots| == max - min + 1
      && slots[0].Some?
      && slots[|slots| - 1].Some?
      && nbr == CountSome(slots)
      && nbr > SPARSE_MAX
  }

  /** How many children there are, as the node itself counts them. */
  function Size(k: Kids): nat {
    match k
    case Sparse(keys, _) => |keys|
    case Dense(_, _, nbr, _) => nbr
  }

  /** The bytes that have a child. */
  ghost function Keys(k: Kids): set<byte> {
    set c: byte | Lookup(k, c).Some?
  }

  // ---------------------------------------------------------------- rewrites

  /** Overwrites the pointer of an existing child. */
  function Replace(k: Kids, c: byte, n: Node): Kids
    requires Shape(k) && Lookup(k, c).Some?
  {
    match k
    case Sparse(keys, subs) => Sparse(keys, subs[IndexOf(keys, c) := n])
    case Dense(min, max, nbr, slots) => Dense(min, max, nbr, slots[c - min := Some(n)])
  }

  function Nones(n: nat): (r: seq<Option<Node>>)
    ensures |r| == n
    ensures forall i | 0 <= i < n :: r[i] == None
  {
    seq(n, _ => None)
  }

  function MinByte(a: byte, b: byte): byte { if a < b then a else b }
  function MaxByte(a: byte, b: byte): byte { if a > b then a else b }

  /** Running minimum over the keys, starting from 255. */
  function Lowest(keys: seq<byte>): (m: byte)
    ensures forall i | 0 <= i < |keys| :: m <= keys[i]
    ensures m == 255 || m in keys
  {
    if keys == [] then 255 else MinByte(Lowest(keys[..|keys| - 1]), keys[|keys| - 1])
  }

  /** Running maximum over the keys, starting from 0. */
  function Highest(keys: seq<byte>): (m: byte)
    ensures forall i | 0 <= i < |keys| :: keys[i] <= m
    ensures m == 0 || m in keys
  {
    if keys == [] then 0 else MaxByte(Highest(keys[..|keys| - 1]), keys[|keys| - 1])
  }

  /** A sparse array spread over the bytes lo..hi. */
  function Spread(k: Kids, lo: byte, hi: byte): (r: seq<Option<Node>>)
    requires lo <= hi
    ensures |r| == hi - lo + 1
  {
    seq(hi - lo + 1, i requires 0 <= i < hi - lo + 1 => Lookup(k, lo + i))
  }

  /** A dense array widened so that c falls inside it. */
  function Widen(min: byte, max: byte, slots: seq<Option<Node>>, c: byte): (r: seq<Option<Node>>)
    requires min <= max && |slots| == max - min + 1
    ensures |r| == MaxByte(max, c) - MinByte(min, c) + 1
  {
    if c < min then Nones(min - c) + slots
    else if c > max then slots + Nones(c - max)
    else slots
  }

  /** Adds a child under a byte that has none: step 3 of nn_trie_subscribe, and the write of
      the new node by step 4. */
  function Add(k: Kids, c: byte, n: Node): Kids
    requires Shape(k) && Lookup(k, c).None?
  {
    match k
    case Sparse(keys, subs) =>
      if |keys| < SPARSE_MAX then Sparse(keys + [c], subs + [n])
      else
        var lo, hi := MinByte(Lowest(keys), c), MaxByte(Highest(keys), c);
        Dense(lo, hi, |keys| + 1, Spread(k, lo, hi)[c - lo := Some(n)])
    case Dense(min, max, nbr, slots) =>
      var lo, hi := MinByte(min, c), MaxByte(max, c);
      Dense(lo, hi, nbr + 1, Widen(min, max, slots, c)[c - lo := Some(n)])
  }

  /** True when adding a child turns the sparse array into a dense one. */
  predicate AddConverts(k: Kids) { k.Sparse? && |k.keys| >= SPARSE_MAX }

  function LeadingNones(slots: seq<Option<Node>>): (i: nat)
    ensures i <= |slots|
    ensures forall j | 0 <= j < i :: slots[j] == None
    ensures i < |slots| ==> slots[i].Some?
  {
    if slots == [] || slots[0].Some? then 0
    else
      var i := LeadingNones(slots[1..]);
      assert forall j | 0 <= j < i + 1 :: slots[j] == if j == 0 then slots[0] else slots[1..][j - 1];
      i + 1
  }

  /** Index of the last non-null pointer, or 0 when there is none. */
  function LastSome(slots: seq<Option<Node>>): (i: nat)
    requires slots != []
    ensures i < |slots|
    ensures forall j | i < j < |slots| :: slots[j] == None
    ensures i > 0 ==> slots[i].Some?
  {
    if |slots| == 1 || slots[|slots| - 1].Some? then |slots| - 1
    else LastSome(slots[..|slots| - 1])
  }

  /** Keys of the non-null pointers of a dense array that starts at byte min. */
  function DenseKeys(min: byte, slots: seq<Option<Node>>): seq<byte>
    requires min + |slots| <= 256
  {
    if slots == [] then []
    else
      var rest := DenseKeys(min, slots[..|slots| - 1]);
      if slots[|slots| - 1].Some? then rest + [min + |slots| - 1] else rest
  }

  /** The non-null pointers of a dense array. */
  function DenseSubs(slots: seq<Option<Node>>): seq<Node> {
    if slots == [] then []
    else
      var rest := DenseSubs(slots[..|slots| - 1]);
      if slots[|slots| - 1].Some? then rest + [slots[|slots| - 1].value] else rest
  }

  /** Removes the child under c.  The result is None exactly where the code's assertion that
      a shrinking dense array has SPARSE_MAX children left would fail. */
  function Remove(k: Kids, c: byte): Option<Kids>
    requires Shape(k)
    requires k.Sparse? ==> c in k.keys
    requires k.Dense? ==> k.min <= c <= k.max
  {
    match k
    case Sparse(keys, subs) =>
      var i := IndexOf(keys, c);
      Some(Sparse(Without(keys, i), Without(subs, i)))
    case Dense(min, max, nbr, slots) =>
      var cleared := slots[c - min := None];
      if nbr > SPARSE_MAX + 1 then
        if c == min then
          var i := LeadingNones(cleared);
          assert i < |slots| by {
            CountSomeUpdate(slots, c - min, None);
            if i == |slots| { CountSomeNones(cleared); }
          }
          Some(Dense(min + i, max, nbr - 1, cleared[i..]))
        else if c == max then
          var i := LastSome(cleared);
          Some(Dense(min, min + i, nbr - 1, cleared[..i + 1]))
        else Some(Dense(min, max, nbr - 1, cleared))
      else
        if CountSome(cleared) == SPARSE_MAX
        then Some(Sparse(DenseKeys(min, cleared), DenseSubs(cleared)))
        else None
  }

  /** True when removing a child turns the dense array into a sparse one. */
  predicate RemoveConverts(k: Kids) { k.Dense? && k.nbr <= SPARSE_MAX + 1 }

  // ---------------------------------------------------------------- laws of CountSome

  lemma {:induction false} CountSomeAppend<T>(a: seq<Option<T>>, b: seq<Option<T>>)
    ensures CountSome(a + b) == CountSome(a) + CountSome(b)
  {
    if b == [] {
      assert a + b == a;
    } else {
      var m := |b| - 1;
      assert (a + b)[..|a + b| - 1] == a + b[..m];
      CountSomeAppend(a, b[..m]);
    }
  }

  lemma {:induction false} CountSomeNones<T>(s: seq<Option<T>>)
    requires forall i | 0 <= i < |s| :: s[i] == None
    ensures CountSome(s) == 0
  {
    if s != [] { CountSomeNones(s[..|s| - 1]); }
  }

  lemma {:induction false} CountSomeUpdate<T>(s: seq<Option<T>>, i: nat, x: Option<T>)
    requires i < |s|
    ensures CountSome(s[i := x]) == CountSome(s) - (if s[i].Some? then 1 else 0) + (if x.Some? then 1 else 0)
  {
    assert s == s[..i] + ([s[i]] + s[i + 1..]);
    assert s[i := x] == s[..i] + ([x] + s[i + 1..]);
    CountSomeAppend([s[i]], s[i + 1..]);
    CountSomeAppend([x], s[i + 1..]);
    CountSomeAppend(s[..i], [s[i]] + s[i + 1..]);
    CountSomeAppend(s[..i], [x] + s[i + 1..]);
    assert [s[i]][..0] == [] && [x][..0] == [];
  }

  // ---------------------------------------------------------------- laws of the rewrites

  lemma {:induction false} ReplaceLaw(k: Kids, c: byte, n: Node)
    requires Shape(k) && Lookup(k, c).Some?
    ensures Shape(Replace(k, c, n))
    ensures Size(Replace(k, c, n)) == Size(k)
    ensures forall d: byte :: Lookup(Replace(k, c, n), d) == if d == c then Some(n) else Lookup(k, d)
  {
    if k.Dense? {
      CountSomeUpdate(k.slots, c - k.min, Some(n));
    }
  }

  /** A key found in a list of distinct keys is found at its own position. */
  lemma {:induction false} IndexOfDistinct(keys: seq<byte>, i: nat)
    requires Distinct(keys) && i < |keys|
    ensures IndexOf(keys, keys[i]) == i
  {
  }

  lemma {:induction false} IndexOfAppend(keys: seq<byte>, c: byte, d: byte)
    requires c !in keys
    ensures IndexOf(keys + [c], d) == if d == c then |keys| else if d in keys then IndexOf(keys, d) else |keys| + 1
  {
    var i, j := IndexOf(keys + [c], d), IndexOf(keys, d);
    if d in keys {
      assert (keys + [c])[j] == d;
    } else if d == c {
      assert (keys + [c])[|keys|] == d;
    }
  }

  lemma {:induction false} AddSparseLaw(k: Kids, c: byte, n: Node)
    requires Shape(k) && Lookup(k, c).None? && k.Sparse? && |k.keys| < SPARSE_MAX
    ensures Shape(Add(k, c, n))
    ensures Size(Add(k, c, n)) == Size(k) + 1
    ensures forall d: byte :: Lookup(Add(k, c, n), d) == if d == c then Some(n) else Lookup(k, d)
  {
    assert c !in k.keys;
    forall d: byte
      ensures Lookup(Add(k, c, n), d) == if d == c then Some(n) else Lookup(k, d)
    {
      IndexOfAppend(k.keys, c, d);
    }
  }

  lemma {:induction false} SlotAtUpdate(min: byte, slots: seq<Option<Node>>, c: byte, x: Option<Node>)
    requires min <= c < min + |slots|
    ensures CountSome(slots[c - min := x])
            == CountSome(slots) - (if slots[c - min].Some? then 1 else 0) + (if x.Some? then 1 else 0)
    ensures forall d: byte :: SlotAt(min, slots[c - min := x], d) == if d == c then x else SlotAt(min, slots, d)
  {
    CountSomeUpdate(slots, c - min, x);
    forall d: byte
      ensures SlotAt(min, slots[c - min := x], d) == if d == c then x else SlotAt(min, slots, d)
    {
      if min <= d < min + |slots| {
        assert slots[c - min := x][d - min] == if d - min == c - min then x else slots[d - min];
      }
    }
  }

  /** The dense array that takes over from a sparse one holds the same children. */
  lemma {:induction false} SpreadAt(k: Kids, lo: byte, hi: byte)
    requires Shape(k) && k.Sparse? && lo <= hi
    requires forall i | 0 <= i < |k.keys| :: lo <= k.keys[i] <= hi
    ensures forall d: byte :: SlotAt(lo, Spread(k, lo, hi), d) == Lookup(k, d)
  {
  }

  lemma {:induction false} SpreadAppend(k: Kids, c: byte, n: Node, lo: byte, hi: byte)
    requires Shape(k) && k.Sparse? && |k.keys| < SPARSE_MAX && Lookup(k, c).None? && lo <= c <= hi
    ensures Spread(Add(k, c, n), lo, hi) == Spread(k, lo, hi)[c - lo := Some(n)]
    ensures Spread(k, lo, hi)[c - lo] == None
  {
    AddSparseLaw(k, c, n);
    var r, r' := Spread(k, lo, hi), Spread(Add(k, c, n), lo, hi);
    forall i | 0 <= i < |r'|
      ensures r'[i] == r[c - lo := Some(n)][i]
    {
      assert r'[i] == Lookup(Add(k, c, n), lo + i);
    }
  }

  /** A sparse array is made from that without its last child. */
  lemma {:induction false} WithoutLast(k: Kids)
    requires Shape(k) && k.Sparse? && k.keys != []
    ensures var m := |k.keys| - 1;
            var k' := Sparse(k.keys[..m], k.subs[..m]);
            && Shape(k') && |k'.keys| == m < SPARSE_MAX
            && Lookup(k', k.keys[m]).None? && Add(k', k.keys[m], k.subs[m]) == k
  {
    var m := |k.keys| - 1;
    assert k.keys[..m] + [k.keys[m]] == k.keys && k.subs[..m] + [k.subs[m]] == k.subs;
  }

  lemma {:induction false} SpreadNothing(k: Kids, lo: byte, hi: byte)
    requires k.Sparse? && k.keys == [] && lo <= hi
    ensures CountSome(Spread(k, lo, hi)) == 0
  {
    forall i | 0 <= i < hi - lo + 1 ensures Spread(k, lo, hi)[i] == None {
      assert Lookup(k, lo + i).None?;
    }
    CountSomeNones(Spread(k, lo, hi));
  }

  lemma {:induction false} SpreadCount(k: Kids, lo: byte, hi: byte)
    requires Shape(k) && k.Sparse? && lo <= hi
    requires forall i | 0 <= i < |k.keys| :: lo <= k.keys[i] <= hi
    ensures CountSome(Spread(k, lo, hi)) == |k.keys|
    decreases |k.keys|
  {
    assert |k.keys| == |k.subs|;
    hide CountSome, Add, Shape, Spread, Lookup;
    if k.keys == [] {
      SpreadNothing(k, lo, hi);
    } else {
      var m := |k.keys| - 1;
      var c, n := k.keys[m], k.subs[m];
      var k' := Sparse(k.keys[..m], k.subs[..m]);
      WithoutLast(k);
      SpreadCount(k', lo, hi);
      SpreadAppend(k', c, n, lo, hi);
      CountSomeUpdate(Spread(k', lo, hi), c - lo, Some(n));
    }
  }

  /** Both ends of the converted range belong to a child. */
  lemma {:induction false} RangeEnds(k: Kids, c: byte)
    requires Shape(k) && AddConverts(k)
    ensures var lo, hi := MinByte(Lowest(k.keys), c), MaxByte(Highest(k.keys), c);
            && lo <= c <= hi
            && (forall i | 0 <= i < |k.keys| :: lo <= k.keys[i] <= hi)
            && (lo == c || Lookup(k, lo).Some?)
            && (hi == c || Lookup(k, hi).Some?)
  {
  }

  /** The slots of a sparse array converted to make room for c. */
  lemma {:induction false} ConvertedSlots(k: Kids, c: byte, n: Node, lo: byte, hi: byte)
    requires Shape(k) && Lookup(k, c).None? && AddConverts(k)
    requires lo == MinByte(Lowest(k.keys), c) && hi == MaxByte(Highest(k.keys), c)
    ensures lo <= c <= hi
    ensures CountSome(Spread(k, lo, hi)[c - lo := Some(n)]) == |k.keys| + 1
    ensures forall d: byte :: SlotAt(lo, Spread(k, lo, hi)[c - lo := Some(n)], d) == if d == c then Some(n) else Lookup(k, d)
  {
    RangeEnds(k, c);
    SpreadAt(k, lo, hi);
    SpreadCount(k, lo, hi);
    SlotAtUpdate(lo, Spread(k, lo, hi), c, Some(n));
  }

  lemma {:induction false} AddConvertIs(k: Kids, c: byte, n: Node, lo: byte, hi: byte)
    requires Shape(k) && Lookup(k, c).None? && AddConverts(k)
    requires lo == MinByte(Lowest(k.keys), c) && hi == MaxByte(Highest(k.keys), c) && lo <= c <= hi
    ensures Add(k, c, n) == Dense(lo, hi, |k.keys| + 1, Spread(k, lo, hi)[c - lo := Some(n)])
  {
  }

  lemma {:induction false} AddConvertLaw(k: Kids, c: byte, n: Node)
    requires Shape(k) && Lookup(k, c).None? && AddConverts(k)
    ensures Shape(Add(k, c, n))
    ensures Size(Add(k, c, n)) == Size(k) + 1
    ensures forall d: byte :: Lookup(Add(k, c, n), d) == if d == c then Some(n) else Lookup(k, d)
  {
    var lo, hi := MinByte(Lowest(k.keys), c), MaxByte(Highest(k.keys), c);
    RangeEnds(k, c);
    ConvertedSlots(k, c, n, lo, hi);
    AddConvertIs(k, c, n, lo, hi);
    hide Add, Lookup, SlotAt, Spread, Lowest, Highest, CountSome;
    var slots := Spread(k, lo, hi)[c - lo := Some(n)];
    assert SlotAt(lo, slots, lo).Some? && SlotAt(lo, slots, hi).Some?;
    DenseShape(lo, hi, |k.keys| + 1, slots);
  }

  lemma {:induction false} DenseShape(min: byte, max: byte, nbr: nat, slots: seq<Option<Node>>)
    requires min <= max && |slots| == max - min + 1
    requires SlotAt(min, slots, min).Some? && SlotAt(min, slots, max).Some?
    requires nbr == CountSome(slots) > SPARSE_MAX
    ensures Shape(Dense(min, max, nbr, slots))
    ensures forall d: byte :: Lookup(Dense(min, max, nbr, slots), d) == SlotAt(min, slots, d)
  {
  }

  lemma {:induction false} WidenAt(min: byte, max: byte, slots: seq<Option<Node>>, c: byte)
    requires min <= max && |slots| == max - min + 1
    ensures CountSome(Widen(min, max, slots, c)) == CountSome(slots)
    ensures forall d: byte :: SlotAt(MinByte(min, c), Widen(min, max, slots, c), d) == SlotAt(min, slots, d)
  {
    if c < min {
      CountSomeAppend(Nones(min - c), slots);
      CountSomeNones(Nones(min - c));
    } else if c > max {
      CountSomeAppend(slots, Nones(c - max));
      CountSomeNones(Nones(c - max));
    }
  }

  lemma {:induction false} AddDenseAt(k: Kids, c: byte, n: Node, d: byte)
    requires Shape(k) && Lookup(k, c).None? && k.Dense?
    ensures Lookup(Add(k, c, n), d) == if d == c then Some(n) else Lookup(k, d)
  {
    hide Widen, CountSome;
    WidenAt(k.min, k.max, k.slots, c);
    var lo, w := MinByte(k.min, c), Widen(k.min, k.max, k.slots, c);
    SlotAtUpdate(lo, w, c, Some(n));
    assert SlotAt(lo, w, d) == SlotAt(k.min, k.slots, d);
  }

  lemma {:induction false} AddDenseLaw(k: Kids, c: byte, n: Node)
    requires Shape(k) && Lookup(k, c).None? && k.Dense?
    ensures Shape(Add(k, c, n))
    ensures Size(Add(k, c, n)) == Size(k) + 1
    ensures forall d: byte :: Lookup(Add(k, c, n), d) == if d == c then Some(n) else Lookup(k, d)
  {
    AddDenseShape(k, c, n);
    forall d: byte ensures Lookup(Add(k, c, n), d) == if d == c then Some(n) else Lookup(k, d) {
      AddDenseAt(k, c, n, d);
    }
  }

  lemma {:induction false} AddDenseShape(k: Kids, c: byte, n: Node)
    requires Shape(k) && Lookup(k, c).None? && k.Dense?
    ensures Shape(Add(k, c, n)) && Size(Add(k, c, n)) == Size(k) + 1
  {
    WidenAt(k.min, k.max, k.slots, c);
    hide Widen, CountSome;
    var lo, w := MinByte(k.min, c), Widen(k.min, k.max, k.slots, c);
    SlotAtUpdate(lo, w, c, Some(n));
    assert SlotAt(k.min, k.slots, k.min).Some? && SlotAt(k.min, k.slots, k.max).Some?;
    DenseShape(lo, MaxByte(k.max, c), k.nbr + 1, w[c - lo := Some(n)]);
  }

  lemma {:induction false} AddLaw(k: Kids, c: byte, n: Node)
    requires Shape(k) && Lookup(k, c).None?
    ensures Shape(Add(k, c, n))
    ensures Size(Add(k, c, n)) == Size(k) + 1
    ensures forall d: byte :: Lookup(Add(k, c, n), d) == if d == c then Some(n) else Lookup(k, d)
  {
    if k.Dense? {
      AddDenseLaw(k, c, n);
    } else if |k.keys| < SPARSE_MAX {
      AddSparseLaw(k, c, n);
    } else {
      AddConvertLaw(k, c, n);
    }
  }

  lemma {:induction false} IndexOfWithout(keys: seq<byte>, i: nat, d: byte)
    requires Distinct(keys) && i < |keys|
    ensures Distinct(Without(keys, i))
    ensures var j := IndexOf(keys, d);
            IndexOf(Without(keys, i), d) == if j == i then |keys| - 1 else if j < i then j else j - 1
  {
    var r, j := Without(keys, i), IndexOf(keys, d);
    if j == |keys| || j == i {
      assert d !in r;
    } else {
      var j' := if j < i then j else j - 1;
      assert r[j'] == d;
      IndexOfDistinct(r, j');
    }
  }

  lemma {:induction false} RemoveSparseLaw(k: Kids, c: byte)
    requires Shape(k) && k.Sparse? && c in k.keys
    ensures var r := Remove(k, c);
            && r.Some? && Shape(r.value) && Size(r.value) == Size(k) - 1
            && forall d: byte :: Lookup(r.value, d) == if d == c then None else Lookup(k, d)
  {
    forall d: byte
      ensures Lookup(Remove(k, c).value, d) == if d == c then None else Lookup(k, d)
    {
      RemoveSparseAt(k, c, d);
    }
    IndexOfWithout(k.keys, IndexOf(k.keys, c), c);
  }

  lemma {:induction false} RemoveSparseAt(k: Kids, c: byte, d: byte)
    requires Shape(k) && k.Sparse? && c in k.keys
    ensures Lookup(Remove(k, c).value, d) == if d == c then None else Lookup(k, d)
  {
    IndexOfWithout(k.keys, IndexOf(k.keys, c), d);
    hide Distinct, IndexOf;
  }

  lemma {:induction false} LookupAppend(keys: seq<byte>, subs: seq<Node>, c: byte, n: Node, d: byte)
    requires |keys| == |subs| && c !in keys
    ensures Lookup(Sparse(keys + [c], subs + [n]), d) == if d == c then Some(n) else Lookup(Sparse(keys, subs), d)
  {
    IndexOfAppend(keys, c, d);
  }

  /** Collecting the non-null pointers of a dense array yields a well-formed sparse array of
      the same children, in increasing key order. */
  lemma {:induction false} CollectLaw(min: byte, slots: seq<Option<Node>>)
    requires min + |slots| <= 256
    ensures |DenseKeys(min, slots)| == |DenseSubs(slots)| == CountSome(slots)
    ensures Distinct(DenseKeys(min, slots))
    ensures forall i | 0 <= i < |DenseKeys(min, slots)| :: min <= DenseKeys(min, slots)[i] < min + |slots|
    ensures forall d: byte :: Lookup(Sparse(DenseKeys(min, slots), DenseSubs(slots)), d)
                              == SlotAt(min, slots, d)
  {
    if slots != [] {
      var m := |slots| - 1;
      CollectLaw(min, slots[..m]);
      var keys, subs := DenseKeys(min, slots[..m]), DenseSubs(slots[..m]);
      if slots[m].Some? {
        var c: byte := min + m;
        assert c !in keys;
        forall d: byte
          ensures Lookup(Sparse(keys + [c], subs + [slots[m].value]), d)
                  == SlotAt(min, slots, d)
        {
          assert Lookup(Sparse(keys, subs), d) == SlotAt(min, slots[..m], d);
          LookupAppend(keys, subs, c, slots[m].value, d);
        }
      }
    }
  }

  lemma {:induction false} RemoveLeftmostLaw(k: Kids)
    requires Shape(k) && k.Dense? && k.nbr > SPARSE_MAX + 1
    ensures var r := Remove(k, k.min);
            && r.Some? && Shape(r.value) && Size(r.value) == Size(k) - 1
            && forall d: byte :: Lookup(r.value, d) == if d == k.min then None else Lookup(k, d)
  {
    hide CountSome;
    var cleared := k.slots[0 := None];
    CountSomeUpdate(k.slots, 0, None);
    var i := LeadingNones(cleared);
    if i == |cleared| { CountSomeNones(cleared); }
    assert cleared == cleared[..i] + cleared[i..];
    CountSomeAppend(cleared[..i], cleared[i..]);
    CountSomeNones(cleared[..i]);
  }

  lemma {:induction false} RemoveRightmostLaw(k: Kids)
    requires Shape(k) && k.Dense? && k.nbr > SPARSE_MAX + 1 && k.min != k.max
    ensures var r := Remove(k, k.max);
            && r.Some? && Shape(r.value) && Size(r.value) == Size(k) - 1
            && forall d: byte :: Lookup(r.value, d) == if d == k.max then None else Lookup(k, d)
  {
    hide CountSome;
    var cleared := k.slots[k.max - k.min := None];
    CountSomeUpdate(k.slots, k.max - k.min, None);
    var i := LastSome(cleared);
    assert cleared == cleared[..i + 1] + cleared[i + 1..];
    CountSomeAppend(cleared[..i + 1], cleared[i + 1..]);
    CountSomeNones(cleared[i + 1..]);
  }

  lemma {:induction false} RemoveConvertLaw(k: Kids, c: byte)
    requires Shape(k) && RemoveConverts(k) && Lookup(k, c).Some?
    ensures var r := Remove(k, c);
            && r.Some? && Shape(r.value) && Size(r.value) == Size(k) - 1
            && forall d: byte :: Lookup(r.value, d) == if d == c then None else Lookup(k, d)
  {
    CountSomeUpdate(k.slots, c - k.min, None);
    CollectLaw(k.min, k.slots[c - k.min := None]);
  }

  lemma {:induction false} RemoveDenseLaw(k: Kids, c: byte)
    requires Shape(k) && k.Dense? && Lookup(k, c).Some?
    ensures var r := Remove(k, c);
            && r.Some? && Shape(r.value) && Size(r.value) == Size(k) - 1
            && forall d: byte :: Lookup(r.value, d) == if d == c then None else Lookup(k, d)
  {
    if RemoveConverts(k) {
      RemoveConvertLaw(k, c);
    } else if c == k.min {
      RemoveLeftmostLaw(k);
    } else if c == k.max {
      RemoveRightmostLaw(k);
    } else {
      CountSomeUpdate(k.slots, c - k.min, None);
    }
  }

  lemma {:induction false} RemoveLaw(k: Kids, c: byte)
    requires Shape(k) && Lookup(k, c).Some?
    ensures var r := Remove(k, c);
            && r.Some? && Shape(r.value) && Size(r.value) == Size(k) - 1
            && forall d: byte :: Lookup(r.value, d) == if d == c then None else Lookup(k, d)
  {
    if k.Dense? { RemoveDenseLaw(k, c); } else { RemoveSparseLaw(k, c); }
  }

  lemma {:induction false} SparseKeysCard(keys: seq<byte>, subs: seq<Node>)
    requires |keys| == |subs| && Distinct(keys)
    ensures |Keys(Sparse(keys, subs))| == |keys|
  {
    if keys == [] {
      assert Keys(Sparse(keys, subs)) == {};
    } else {
      var m := |keys| - 1;
      SparseKeysCard(keys[..m], subs[..m]);
      assert keys == keys[..m] + [keys[m]];
      forall d: byte
        ensures Lookup(Sparse(keys, subs), d).Some? <==> d == keys[m] || Lookup(Sparse(keys[..m], subs[..m]), d).Some?
      {
        IndexOfAppend(keys[..m], keys[m], d);
      }
      assert keys[m] !in Keys(Sparse(keys[..m], subs[..m]));
      assert Keys(Sparse(keys, subs)) == Keys(Sparse(keys[..m], subs[..m])) + {keys[m]};
    }
  }

  /** The count a node keeps of its children is the number of bytes that have one. */
  lemma {:induction false} SizeIsKeys(k: Kids)
    requires Shape(k)
    ensures Size(k) == |Keys(k)|
  {
    match k
    case Sparse(keys, subs) =>
      SparseKeysCard(keys, subs);
    case Dense(min, max, nbr, slots) =>
      CollectLaw(min, slots);
      SparseKeysCard(DenseKeys(min, slots), DenseSubs(slots));
      assert Keys(k) == Keys(Sparse(DenseKeys(min, slots), DenseSubs(slots)));
  }
}
