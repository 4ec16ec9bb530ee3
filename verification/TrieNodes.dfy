/** The subscription trie in place (nanomsg/src/protocols/pubsub/trie.c): nodes that point to their
    children and are rewritten as subscriptions come and go.  Each node carries the value it stands
    for, and every operation is proved to change that value as the module Trie says. */
module TrieNodes {
  import opened Common
  import opened TrieKids
  import Trie

  class TrieNode {
    var refcount: nat
    /** The prefix_len bytes of the prefix. */
    var prefix: seq<byte>
    /** Whether type is NN_TRIE_DENSE_TYPE; if not it is the number of keys. */
    var dense: bool
    var keys: seq<byte>
    var min: byte
    var max: byte
    var nbr: nat
    /** The array of pointers that follows the node. */
    var subs: seq<TrieNode?>
    /** The value of the node and of all nodes below it, and those nodes themselves. */
    ghost var view: Node
    ghost var Repr: set<TrieNode>

    /** The child array stands for these children. */
    ghost predicate Holds(kids: Kids)
      reads this, subs
    {
      match kids
      case Sparse(ks, ns) =>
        && !dense && ks == keys && |keys| == |subs| == |ns|
        && forall i | 0 <= i < |subs| :: subs[i] != null && subs[i].view == ns[i]
      case Dense(lo, hi, n, slots) =>
        && dense && min == lo && max == hi && nbr == n && |subs| == |slots|
        && forall i | 0 <= i < |subs| :: slots[i] == if subs[i] == null then None else Some(subs[i].view)
    }

    /** The children are below this node and do not overlap. */
    ghost predicate Separate()
      reads this, subs
    {
      && this in Repr
      && (forall i | 0 <= i < |subs| && subs[i] != null :: subs[i] in Repr && subs[i].Repr <= Repr - {this})
      && (forall i, j | 0 <= i < j < |subs| && subs[i] != null && subs[j] != null :: subs[i].Repr !! subs[j].Repr)
    }

    ghost predicate Valid()
      reads this, Repr
      decreases Repr
    {
      && this in Repr
      && (forall i | 0 <= i < |subs| && subs[i] != null :: subs[i] in Repr)
      && Separate()
      && Holds(view.kids)
      && view.refcount == refcount && view.prefix == prefix
      && forall i | 0 <= i < |subs| && subs[i] != null :: subs[i].Valid()
    }

    lemma Parts()
      requires Valid()
      ensures Separate() && Holds(view.kids) && view.refcount == refcount && view.prefix == prefix
      ensures forall i | 0 <= i < |subs| && subs[i] != null :: subs[i].Valid()
    {
    }

    lemma Assemble()
      requires Separate() && Holds(view.kids) && view.refcount == refcount && view.prefix == prefix
      requires forall i | 0 <= i < |subs| && subs[i] != null :: subs[i].Valid()
      ensures Valid()
    {
    }

    /** A node without children. */
    constructor (refcount: nat, prefix: seq<byte>)
      ensures Valid() && fresh(Repr) && Repr == {this} && view == Node(refcount, prefix, NoKids)
    {
      this.refcount, this.prefix := refcount, prefix;
      dense, keys, min, max, nbr, subs := false, [], 0, 0, 0, [];
      view := Node(refcount, prefix, NoKids);
      Repr := {this};
    }

    /** nn_node_check_prefix */
    method CheckPrefix(data: seq<byte>) returns (i: nat)
      requires Valid()
      ensures i == Trie.CheckPrefix(view.prefix, data)
    {
      i := 0;
      while i != |prefix|
        invariant i <= |prefix| && i <= |data|
        invariant Trie.CheckPrefix(prefix, data) == i + Trie.CheckPrefix(prefix[i..], data[i..])
      {
        if i == |data| || prefix[i] != data[i] { return; }
        assert prefix[i..][1..] == prefix[i + 1..] && data[i..][1..] == data[i + 1..];
        i := i + 1;
      }
    }

    /** nn_node_next: where the pointer for the byte is, or -1 if there is no such place. */
    method Next(c: byte) returns (i: int)
      requires Valid() && Shape(view.kids)
      ensures i == -1 <==> !Trie.HasSlot(view.kids, c)
      ensures i != -1 ==> 0 <= i < |subs|
      ensures Lookup(view.kids, c).Some? <==> i != -1 && subs[i] != null
      ensures i != -1 && subs[i] != null ==> subs[i].view == Lookup(view.kids, c).value
      ensures i != -1 ==> if dense then i == c - min else i == IndexOf(keys, c)
    {
      if !dense {
        i := 0;
        while i != |keys|
          invariant 0 <= i <= |keys|
          invariant forall j | 0 <= j < i :: keys[j] != c
        {
          if keys[i] == c { return; }
          i := i + 1;
        }
        return -1;
      }
      if c < min || c > max { return -1; }
      return c - min;
    }

    /** nn_node_compact: this node, or its only child with both prefixes. */
    method Compact() returns (r: TrieNode)
      requires Valid() && Shape(view.kids)
      modifies Repr
      ensures r.Valid() && r.Repr <= old(Repr) && r.view == Trie.Compact(old(view))
    {
      r := this;
      if refcount > 0 { return; }
      if dense || |keys| != 1 { return; }
      var ch := subs[0];
      if |prefix| + |ch.prefix| + 1 > PREFIX_MAX { return; }
      ch.prefix := prefix + [keys[0]] + ch.prefix;
      ch.view := ch.view.(prefix := ch.prefix);
      r := ch;
    }

    /** Step 3 of nn_trie_subscribe in a sparse array with room: the byte and its node at the end. */
    method AddSparse(c: byte, n: TrieNode)
      requires Valid() && Shape(view.kids) && Lookup(view.kids, c).None? && !dense && |keys| < SPARSE_MAX
      requires n.Valid() && n.Repr !! Repr
      modifies this
      ensures Valid() && Repr == old(Repr) + n.Repr
      ensures view == old(view).(kids := Add(old(view.kids), c, n.view))
    {
      hide TrieNode.Valid;
      Parts();
      n.Parts();
      view := view.(kids := Add(view.kids, c, n.view));
      keys := keys + [c];
      subs := subs + [n];
      Repr := Repr + n.Repr;
      Assemble();
    }

    lemma DenseBasics()
      requires Valid() && dense
      ensures view.kids.Dense? && view.kids.min == min && view.kids.max == max && view.kids.nbr == nbr
      ensures |view.kids.slots| == |subs|
      ensures forall i | 0 <= i < |subs| :: subs[i] == null <==> view.kids.slots[i].None?
    {
    }

    lemma DenseChild(i: nat)
      requires Valid() && dense && i < |subs|
      ensures view.kids.slots[i] == if subs[i] == null then None else Some(subs[i].view)
    {
    }

    /** Resizes a dense array so that it extends to the byte. */
    method WidenTo(c: byte)
      requires Valid() && dense && min <= max && |subs| == max - min + 1
      modifies this
      ensures Valid() && Repr == old(Repr) && dense && nbr == old(nbr)
      ensures min == MinByte(old(min), c) && max == MaxByte(old(max), c)
      ensures view == old(view).(kids := Dense(min, max, nbr, Widen(old(min), old(max), old(view.kids.slots), c)))
    {
      hide TrieNode.Valid;
      Parts();
      ghost var slots := Widen(min, max, view.kids.slots, c);
      if c < min {
        subs := Nulls(min - c) + subs;
        min := c;
      } else if c > max {
        subs := subs + Nulls(c - max);
        max := c;
      }
      view := view.(kids := Dense(min, max, nbr, slots));
      Assemble();
    }

    /** Puts a node where a dense array has a null pointer. */
    method Fill(c: byte, n: TrieNode)
      requires Valid() && dense && min <= c < min + |subs| && subs[c - min] == null
      requires n.Valid() && n.Repr !! Repr
      modifies this
      ensures Valid() && Repr == old(Repr) + n.Repr
      ensures min == old(min) && max == old(max) && nbr == old(nbr) + 1
      ensures view == old(view).(kids := Dense(min, max, nbr, old(view.kids.slots)[c - min := Some(n.view)]))
    {
      hide TrieNode.Valid;
      Parts();
      n.Parts();
      nbr := nbr + 1;
      subs := subs[c - min := n];
      Repr := Repr + n.Repr;
      view := view.(kids := Dense(min, max, nbr, view.kids.slots[c - min := Some(n.view)]));
      Assemble();
    }

    /** Step 3 in a dense array, which is resized first if it does not extend to the byte. */
    method AddDense(c: byte, n: TrieNode)
      requires Valid() && Shape(view.kids) && Lookup(view.kids, c).None? && dense
      requires n.Valid() && n.Repr !! Repr
      modifies this
      ensures Valid() && Repr == old(Repr) + n.Repr
      ensures view == old(view).(kids := Add(old(view.kids), c, n.view))
    {
      hide TrieNode.Valid, Widen, SlotAt, TrieNode.Holds;
      ghost var k := view.kids;
      Parts();
      DenseBasics();
      WidenAt(k.min, k.max, k.slots, c);
      NoSlot(k, c);
      WidenTo(c);
      DenseBasics();
      SlotIs(min, view.kids.slots, c);
      Fill(c, n);
    }

    /** Step 3 in a full sparse array: a new node with a dense array takes over the children.  The
        number of subscriptions is not taken over. */
    method ToDense(c: byte, n: TrieNode) returns (r: TrieNode)
      requires Valid() && Shape(view.kids) && Lookup(view.kids, c).None? && AddConverts(view.kids)
      requires n.Valid() && n.Repr !! Repr
      ensures fresh(r) && r.Valid() && r.Repr == Repr - {this} + {r} + n.Repr
      ensures r.view == Node(0, view.prefix, Add(view.kids, c, n.view))
    {
      hide TrieNode.Valid, Spread, SpreadPtrs, PtrFor, Lowest, Highest;
      SparseBasics();
      RangeEnds(view.kids, c);
      var lo, hi := Range(keys, c);
      var slots := SpreadOut(keys, subs, lo, hi);
      r := new TrieNode(0, prefix);
      forall j | 0 <= j < |slots|
        ensures slots[j] != null ==> slots[j] in Repr - {this} && slots[j].Repr <= Repr - {this} && slots[j].Valid()
        ensures Spread(view.kids, lo, hi)[j] == if slots[j] == null then None else Some(slots[j].view)
      {
        SlotFacts(lo, hi, j);
      }
      forall i, j | 0 <= i < j < |slots| && slots[i] != null && slots[j] != null ensures slots[i].Repr !! slots[j].Repr {
        SlotsApart(lo, hi, i, j);
      }
      r.SetDense(lo, hi, |keys|, slots, Spread(view.kids, lo, hi), Repr - {this});
      r.DenseBasics();
      SpreadIs(view.kids, lo, hi, c);
      r.Fill(c, n);
    }

    lemma SparseBasics()
      requires Valid() && view.kids.Sparse?
      ensures !dense && view.kids.keys == keys && |view.kids.subs| == |subs| == |keys|
      ensures view.refcount == refcount && view.prefix == prefix
    {
    }

    lemma SlotFacts(lo: byte, hi: byte, j: nat)
      requires Valid() && !dense && lo <= hi && j < hi - lo + 1
      ensures var p := SpreadPtrs(subs, keys, lo, hi)[j];
              && (p != null ==> p in Repr - {this} && p.Repr <= Repr - {this} && p.Valid())
              && Spread(view.kids, lo, hi)[j] == if p == null then None else Some(p.view)
    {
      var i := IndexOf(keys, lo + j);
      assert SpreadPtrs(subs, keys, lo, hi)[j] == PtrFor(subs, keys, lo + j);
      assert Spread(view.kids, lo, hi)[j] == Lookup(view.kids, lo + j);
      if i < |keys| { assert subs[i] != null && subs[i].view == view.kids.subs[i]; }
    }

    lemma SlotsApart(lo: byte, hi: byte, i: nat, j: nat)
      requires Valid() && !dense && lo <= hi && i < j < hi - lo + 1
      ensures var ps := SpreadPtrs(subs, keys, lo, hi);
              ps[i] != null && ps[j] != null ==> ps[i].Repr !! ps[j].Repr
    {
      var ps := SpreadPtrs(subs, keys, lo, hi);
      assert ps[i] == PtrFor(subs, keys, lo + i) && ps[j] == PtrFor(subs, keys, lo + j);
      var m, n := IndexOf(keys, lo + i), IndexOf(keys, lo + j);
      assert m < |keys| && n < |keys| ==> m != n;
    }

    /** Gives a node a dense array. */
    method SetDense(lo: byte, hi: byte, n: nat, slots: seq<TrieNode?>, ghost values: seq<Option<Node>>,
                    ghost below: set<TrieNode>)
      requires this !in below && |values| == |slots|
      requires forall j | 0 <= j < |slots| && slots[j] != null ::
                 slots[j] in below && slots[j].Repr <= below && slots[j].Valid()
      requires forall j | 0 <= j < |slots| :: values[j] == if slots[j] == null then None else Some(slots[j].view)
      requires forall i, j | 0 <= i < j < |slots| && slots[i] != null && slots[j] != null ::
                 slots[i].Repr !! slots[j].Repr
      modifies this
      ensures Valid() && Repr == below + {this} && dense && min == lo && max == hi && nbr == n
      ensures view == Node(old(refcount), old(prefix), Dense(lo, hi, n, values))
    {
      hide TrieNode.Valid;
      dense, min, max, nbr, subs := true, lo, hi, n, slots;
      Repr := below + {this};
      view := Node(refcount, prefix, Dense(lo, hi, n, values));
      Assemble();
    }

    /** Gives a node without children its first child. */
    method FirstChild(c: byte, n: TrieNode)
      requires Valid() && view.kids == NoKids && n.Valid() && this !in n.Repr && Repr == {this}
      modifies this
      ensures Valid() && Repr == {this} + n.Repr
      ensures view == old(view).(kids := Sparse([c], [n.view]))
    {
      keys, subs := [c], [n];
      Repr := Repr + n.Repr;
      view := view.(kids := Sparse([c], [n.view]));
    }

    /** Step 5 of nn_trie_subscribe. */
    method Increment() returns (code: int)
      requires Valid()
      modifies this
      ensures Valid() && Repr == old(Repr) && view == old(view).(refcount := old(view).refcount + 1)
      ensures code == if old(view).refcount > 0 then 0 else 1
    {
      refcount := refcount + 1;
      view := view.(refcount := refcount);
      return if refcount == 1 then 1 else 0;
    }

    /** Steps 3 to 5 of nn_trie_subscribe: the node itself is subscribed to, or it gets a new branch. */
    method Extend(rest: seq<byte>) returns (r: TrieNode, code: int)
      requires Valid() && Shape(view.kids) && (rest != [] ==> Lookup(view.kids, rest[0]).None?)
      modifies this
      ensures r.Valid() && fresh(r.Repr - old(Repr))
      ensures r.view == Trie.Extend(old(view), rest)
      ensures code == if rest == [] && old(view).refcount > 0 then 0 else 1
    {
      hide TrieNode.Valid, Shape, Add, Lookup;
      r, code := this, 1;
      LayoutBasics();
      if rest == [] {
        code := Increment();
        return;
      }
      var n := Build(rest[1..]);
      if !dense && |keys| < SPARSE_MAX {
        AddSparse(rest[0], n);
      } else if dense {
        AddDense(rest[0], n);
      } else {
        r := ToDense(rest[0], n);
      }
    }

    lemma LayoutBasics()
      requires Valid()
      ensures dense <==> view.kids.Dense?
      ensures !dense ==> view.kids.keys == keys
      ensures view.refcount == refcount && view.prefix == prefix
      ensures this in Repr
    {
    }

    method SetPrefix(p: seq<byte>)
      requires Valid()
      modifies this
      ensures Valid() && Repr == old(Repr) && view == old(view).(prefix := p)
    {
      prefix := p;
      view := view.(prefix := p);
    }

    /** Step 2 of nn_trie_subscribe: a new node with the first pos bytes of the prefix above this one. */
    method Split(pos: nat) returns (r: TrieNode)
      requires Valid() && Shape(view.kids) && pos < |prefix|
      modifies Repr
      ensures r.Valid() && fresh(r.Repr - old(Repr)) && fresh(r)
      ensures r.view == Trie.Split(old(view), pos)
    {
      hide TrieNode.Valid, Shape, Trie.Compact;
      LayoutBasics();
      r := new TrieNode(0, prefix[..pos]);
      var c := prefix[pos];
      SetPrefix(prefix[pos + 1..]);
      var ch := Compact();
      r.FirstChild(c, ch);
    }

    /** Everything but the child at position i is as it should be; the other children lie within the
        nodes given. */
    ghost predicate ValidBut(i: nat, others: set<TrieNode>)
      reads this, others
    {
      && i < |subs| && this !in others && others + {this} <= Repr
      && view.refcount == refcount && view.prefix == prefix
      && (forall j | 0 <= j < |subs| && j != i && subs[j] != null ::
            subs[j] in others && subs[j].Repr <= others && subs[j].Valid())
      && (forall j, k | 0 <= j < k < |subs| && j != i && k != i && subs[j] != null && subs[k] != null ::
            subs[j].Repr !! subs[k].Repr)
      && match view.kids
         case Sparse(ks, ns) =>
           && !dense && ks == keys && |keys| == |subs| == |ns|
           && forall j | 0 <= j < |subs| && j != i :: subs[j] != null && subs[j].view == ns[j]
         case Dense(lo, hi, n, slots) =>
           && dense && min == lo && max == hi && nbr == n && |subs| == |slots|
           && forall j | 0 <= j < |subs| && j != i :: slots[j] == if subs[j] == null then None else Some(subs[j].view)
    }

    lemma Detach(i: nat)
      requires Valid() && i < |subs|
      ensures subs[i] != null ==> subs[i] in Repr && subs[i].Valid() && subs[i].Repr <= Repr - {this}
      ensures ValidBut(i, Repr - {this} - if subs[i] == null then {} else subs[i].Repr)
    {
    }

    /** The child at position i is the one for byte c. */
    lemma ChildIs(i: nat, c: byte)
      requires Valid() && Trie.HasSlot(view.kids, c) && Shape(view.kids) && i < |subs|
      requires if dense then i == c - min else i == IndexOf(keys, c)
      ensures ViewOf(subs[i]) == Lookup(view.kids, c)
    {
    }

    /** Writes the pointer to the child at position i. */
    method Relink(i: nat, ch: TrieNode, ghost others: set<TrieNode>)
      requires ValidBut(i, others) && ch.Valid() && ch.Repr !! others && this !in ch.Repr
      modifies this
      ensures Valid() && Repr == old(Repr) + ch.Repr
      ensures view == old(view).(kids := PutAt(old(view).kids, i, ch.view))
    {
      hide TrieNode.Valid;
      ch.Parts();
      subs := subs[i := ch];
      Repr := Repr + ch.Repr;
      view := view.(kids := PutAt(view.kids, i, ch.view));
      Assemble();
    }

    /** nn_trie_subscribe from this node on; r takes the place of this node.  The code is 1 if the
        string was not subscribed to before. */
    method Subscribe(data: seq<byte>) returns (r: TrieNode, code: int)
      requires Valid() && Trie.Valid(view)
      modifies Repr
      ensures r.Valid() && fresh(r.Repr - old(Repr))
      ensures r.view == Trie.SubscribeN(old(view), data)
      ensures code == if Trie.CountN(old(view), data) > 0 then 0 else 1
      decreases |data|, 1
    {
      hide TrieNode.Valid, Trie.Split, Trie.Extend, Trie.SubscribeN, Trie.CountN, Shape, Replace, Lookup;
      LayoutBasics();
      var pos := CheckPrefix(data);
      var rest := data[pos..];
      ghost var n := view;
      SubscribeCases(n, data);
      if pos < |prefix| {
        SplitHasNone(n, data);
        r := Split(pos);
        r, code := r.Extend(rest);
        return;
      }
      if rest == [] {
        code := Increment();
        return this, code;
      }
      var i := Next(rest[0]);
      if i == -1 || subs[i] == null {
        r, code := Extend(rest);
        return;
      }
      code := SubscribeBelow(i, rest);
      return this, code;
    }

    /** nn_trie_subscribe from the child at position i on. */
    method SubscribeBelow(i: nat, rest: seq<byte>) returns (code: int)
      requires Valid() && Trie.Valid(view) && rest != [] && i < |subs| && subs[i] != null
      requires Trie.HasSlot(view.kids, rest[0]) && if dense then i == rest[0] - min else i == IndexOf(keys, rest[0])
      modifies Repr
      ensures Valid() && fresh(Repr - old(Repr)) && Lookup(old(view).kids, rest[0]).Some?
      ensures var ch := Lookup(old(view).kids, rest[0]).value;
              && view == old(view).(kids := Replace(old(view).kids, rest[0], Trie.SubscribeN(ch, rest[1..])))
              && code == if Trie.CountN(ch, rest[1..]) > 0 then 0 else 1
      decreases |rest|, 0
    {
      hide TrieNode.Valid, Replace;
      ghost var c, n := rest[0], view;
      LayoutBasics();
      ChildIs(i, c);
      Detach(i);
      ghost var others := Repr - {this} - subs[i].Repr;
      var ch;
      ch, code := subs[i].Subscribe(rest[1..]);
      ReplaceAt(n.kids, c, ch.view, i);
      Relink(i, ch, others);
    }

    /** The child at position i is gone: a sparse array closes the gap. */
    method DropSparse(i: nat, ghost others: set<TrieNode>)
      requires ValidBut(i, others) && !dense
      modifies this
      ensures Valid() && Repr == others + {this} && !dense
      ensures view == old(view).(kids := Sparse(Without(old(view).kids.keys, i), Without(old(view).kids.subs, i)))
    {
      view := view.(kids := Sparse(Without(keys, i), Without(view.kids.subs, i)));
      keys, subs := Without(keys, i), Without(subs, i);
      Repr := others + {this};
    }

    /** The child at position i is gone: a dense array has a null pointer there. */
    method DropDense(i: nat, ghost others: set<TrieNode>)
      requires ValidBut(i, others) && dense
      modifies this
      ensures Valid() && Repr == others + {this} && dense && min == old(min) && max == old(max) && nbr == old(nbr)
      ensures view == old(view).(kids := Dense(min, max, nbr, old(view).kids.slots[i := None]))
    {
      subs := subs[i := null];
      Repr := others + {this};
      view := view.(kids := Dense(min, max, nbr, view.kids.slots[i := None]));
    }

    /** Cuts a dense array down to the pointers from position lo to position hi; nbr loses one. */
    method Trim(lo: nat, hi: nat)
      requires Valid() && dense && lo <= hi < |subs| && nbr > 0 && min + hi <= 255
      modifies this
      ensures Valid() && Repr == old(Repr) && dense
      ensures view == old(view).(kids := Dense(old(min) + lo, old(min) + hi, old(nbr) - 1,
                                               old(view).kids.slots[lo..hi + 1]))
    {
      view := view.(kids := Dense(min + lo, min + hi, nbr - 1, view.kids.slots[lo..hi + 1]));
      subs := subs[lo..hi + 1];
      min, max, nbr := min + lo, min + hi, nbr - 1;
    }

    /** The first position with a child. */
    method FirstChildAt() returns (i: nat)
      requires Valid() && dense
      ensures i == LeadingNones(view.kids.slots)
    {
      i := 0;
      while i != |subs| && subs[i] == null
        invariant i <= |subs| && forall j | 0 <= j < i :: subs[j] == null
      {
        i := i + 1;
      }
    }

    /** The last position with a child. */
    method LastChildAt() returns (i: nat)
      requires Valid() && dense && subs != []
      ensures i == LastSome(view.kids.slots)
    {
      i := |subs| - 1;
      while i != 0 && subs[i] == null
        invariant i < |subs| && forall j | i < j < |subs| :: subs[j] == null
      {
        i := i - 1;
      }
    }

    /** The loop that moves the children of a dense array to a sparse one; from says where each was. */
    method Collect() returns (ks: seq<byte>, ps: seq<TrieNode?>, ghost from: seq<nat>)
      requires Valid() && dense && min + |subs| <= 256
      ensures ks == DenseKeys(min, view.kids.slots)
      ensures |ps| == |from| == |DenseSubs(view.kids.slots)|
      ensures forall j | 0 <= j < |ps| ::
                from[j] < |subs| && ps[j] == subs[from[j]] != null && ps[j].view == DenseSubs(view.kids.slots)[j]
      ensures forall j, k | 0 <= j < k < |from| :: from[j] < from[k]
    {
      hide TrieNode.Valid;
      DenseBasics();
      ghost var slots := view.kids.slots;
      ks, ps, from := [], [], [];
      var i := 0;
      while i != |subs|
        invariant 0 <= i <= |subs|
        invariant ks == DenseKeys(min, slots[..i])
        invariant |ps| == |from| == |DenseSubs(slots[..i])|
        invariant forall j | 0 <= j < |ps| ::
                    from[j] < i && ps[j] == subs[from[j]] != null && ps[j].view == DenseSubs(slots[..i])[j]
        invariant forall j, k | 0 <= j < k < |from| :: from[j] < from[k]
      {
        CollectStep(min, slots, i);
        DenseChild(i);
        if subs[i] != null {
          ks, ps, from := ks + [min + i], ps + [subs[i]], from + [i];
        }
        i := i + 1;
      }
      assert slots[..i] == slots;
    }

    /** Gives a node a sparse array. */
    method SetSparse(ks: seq<byte>, ps: seq<TrieNode?>, ghost values: seq<Node>, ghost below: set<TrieNode>)
      requires this !in below && |values| == |ps| == |ks|
      requires forall j | 0 <= j < |ps| ::
                 ps[j] != null && ps[j] in below && ps[j].Repr <= below && ps[j].Valid() && ps[j].view == values[j]
      requires forall i, j | 0 <= i < j < |ps| :: ps[i].Repr !! ps[j].Repr
      modifies this
      ensures Valid() && Repr == below + {this}
      ensures view == Node(old(refcount), old(prefix), Sparse(ks, values))
    {
      hide TrieNode.Valid;
      dense, keys, subs := false, ks, ps;
      Repr := below + {this};
      view := Node(refcount, prefix, Sparse(ks, values));
      Assemble();
    }

    /** The end of nn_node_unsubscribe: a new node with a sparse array takes over the children.  The
        number of subscriptions is not taken over.  No node if there are not as many as there should. */
    method ToSparse() returns (r: TrieNode?)
      requires Valid() && dense && min + |subs| <= 256
      ensures r == null <==> CountSome(view.kids.slots) != SPARSE_MAX
      ensures r != null ==> fresh(r) && r.Valid() && r.Repr == Repr - {this} + {r}
      ensures r != null ==> r.view == Node(0, view.prefix, Sparse(DenseKeys(min, view.kids.slots), DenseSubs(view.kids.slots)))
    {
      ghost var slots := view.kids.slots;
      CollectLaw(min, slots);
      var ks, ps;
      ghost var from;
      ks, ps, from := Collect();
      if |ks| != SPARSE_MAX { return null; }
      var n := new TrieNode(0, prefix);
      n.SetSparse(ks, ps, DenseSubs(slots), Repr - {this});
      r := n;
    }

    /** The child for byte c, at position i, is gone from a sparse array: the node goes too if nothing
        is left of it, or it is merged with its only child. */
    method PruneSparse(i: nat, c: byte, ghost others: set<TrieNode>) returns (r: TrieNode?)
      requires ValidBut(i, others) && Shape(view.kids) && view.kids.Sparse? && c in view.kids.keys && i == IndexOf(view.kids.keys, c)
      modifies this, others
      ensures Trie.Prune(old(view), c) == Trie.Return(1, ViewOf(r))
      ensures r != null ==> r.Valid() && r.Repr <= others + {this}
    {
      RemoveSparseLaw(view.kids, c);
      DropSparse(i, others);
      LayoutBasics();
      if keys == [] && refcount == 0 { return null; }
      r := Compact();
    }

    lemma ButBasics(i: nat, others: set<TrieNode>)
      requires ValidBut(i, others)
      ensures i < |subs| && (dense <==> view.kids.Dense?) && view.refcount == refcount && view.prefix == prefix
      ensures dense ==> view.kids.min == min && view.kids.max == max && view.kids.nbr == nbr && |view.kids.slots| == |subs|
    {
    }

    /** The child for byte c, at position i, is gone from a dense array: the array is trimmed, or it is
        converted to a sparse one.  No node where the code's assertion fails. */
    method PruneDense(i: nat, c: byte, ghost others: set<TrieNode>) returns (r: TrieNode?)
      requires ValidBut(i, others) && Shape(view.kids) && view.kids.Dense? && min <= c <= max && i == c - min
      modifies this
      ensures r == null <==> Trie.Prune(old(view), c).Fault?
      ensures r != null ==> Trie.Prune(old(view), c) == Trie.Return(1, Some(r.view))
      ensures r != null ==> r.Valid() && (r == this || fresh(r)) && r.Repr <= others + {r}
    {
      hide TrieNode.Valid, TrieNode.ValidBut, TrieKids.Remove, LeadingNones, LastSome, Shape, CountSome;
      ghost var k0 := view.kids;
      ButBasics(i, others);
      DenseSize(k0);
      DropDense(i, others);
      DenseBasics();
      if nbr <= SPARSE_MAX + 1 {
        RemoveConvert(k0, c);
        r := ToSparse();
        return;
      }
      r := this;
      if c == min {
        RemoveLeft(k0, c);
        var k := FirstChildAt();
        Trim(k, max - min);
      } else if c == max {
        RemoveRight(k0, c);
        var k := LastChildAt();
        Trim(0, k);
      } else {
        RemoveMiddle(k0, c);
        Trim(0, max - min);
      }
    }
  }

  /** What Remove makes of a dense array, case by case. */
  lemma {:induction false} RemoveLeft(k: Kids, c: byte)
    requires Shape(k) && k.Dense? && c == k.min && k.nbr > SPARSE_MAX + 1
    ensures var cleared := k.slots[0 := None];
            var lo := LeadingNones(cleared);
            && lo < |k.slots| == k.max - k.min + 1
            && TrieKids.Remove(k, c) == Some(Dense(k.min + lo, k.max, k.nbr - 1, cleared[lo..|k.slots|]))
  {
    hide CountSome, LeadingNones;
    var cleared := k.slots[0 := None];
    CountSomeUpdate(k.slots, 0, None);
    var lo := LeadingNones(cleared);
    if lo == |cleared| { CountSomeNones(cleared); }
    assert cleared[lo..|cleared|] == cleared[lo..];
  }

  lemma DenseSize(k: Kids)
    requires Shape(k) && k.Dense?
    ensures k.nbr > SPARSE_MAX && |k.slots| == k.max - k.min + 1
  {
  }

  lemma {:induction false} RemoveConvert(k: Kids, c: byte)
    requires Shape(k) && k.Dense? && k.min <= c <= k.max && k.nbr <= SPARSE_MAX + 1
    ensures |k.slots| == k.max - k.min + 1
    ensures var cleared := k.slots[c - k.min := None];
            TrieKids.Remove(k, c) == if CountSome(cleared) == SPARSE_MAX
                                     then Some(Sparse(DenseKeys(k.min, cleared), DenseSubs(cleared))) else None
  {
    hide CountSome, DenseKeys, DenseSubs;
  }

  lemma {:induction false} RemoveRight(k: Kids, c: byte)
    requires Shape(k) && k.Dense? && k.min < c == k.max && k.nbr > SPARSE_MAX + 1
    ensures |k.slots| == k.max - k.min + 1
    ensures var cleared := k.slots[c - k.min := None];
            var hi := LastSome(cleared);
            TrieKids.Remove(k, c) == Some(Dense(k.min, k.min + hi, k.nbr - 1, cleared[0..hi + 1]))
  {
  }

  lemma {:induction false} RemoveMiddle(k: Kids, c: byte)
    requires Shape(k) && k.Dense? && k.min < c < k.max && k.nbr > SPARSE_MAX + 1
    ensures |k.slots| == k.max - k.min + 1
    ensures var cleared := k.slots[c - k.min := None];
            TrieKids.Remove(k, c) == Some(Dense(k.min, k.max, k.nbr - 1, cleared[0..|k.slots|]))
  {
    hide CountSome;
    var cleared := k.slots[c - k.min := None];
    assert cleared[0..|cleared|] == cleared;
  }

  /** The end of nn_node_unsubscribe, at the label found. */
  method Found(t: TrieNode?) returns (code: int, r: TrieNode?)
    requires ValidPtr(t) && Trie.ValidRoot(ViewOf(t))
    modifies if t == null then {} else t.Repr
    ensures Trie.Found(old(ViewOf(t))) == Trie.Return(code, ViewOf(r))
    ensures r != null ==> t != null && r.Valid() && r.Repr <= old(t.Repr)
  {
    if t == null || t.refcount == 0 { return -Trie.EINVAL, t; }
    t.refcount := t.refcount - 1;
    t.view := t.view.(refcount := t.refcount);
    if t.refcount > 0 { return 0, t; }
    if !t.dense && t.keys == [] { return 1, null; }
    r := t.Compact();
    return 1, r;
  }

  /** nn_node_unsubscribe: r takes the place of t.  A fault is a null pointer dereferenced or an
      assertion that fails. */
  method Unsubscribe(t: TrieNode?, data: seq<byte>) returns (fault: bool, code: int, r: TrieNode?)
    requires ValidPtr(t) && Trie.ValidRoot(ViewOf(t))
    modifies if t == null then {} else t.Repr
    ensures fault <==> Trie.UnsubscribeN(old(ViewOf(t)), data).Fault?
    ensures !fault ==> Trie.UnsubscribeN(old(ViewOf(t)), data) == Trie.Return(code, ViewOf(r))
    ensures !fault && r != null ==> t != null && r.Valid() && fresh(r.Repr - old(t.Repr))
    decreases |data|
  {
    hide TrieNode.Valid, Trie.Found, Trie.Prune;
    fault := false;
    if data == [] {
      code, r := Found(t);
      return;
    }
    if t == null { return true, 0, null; }
    t.LayoutBasics();
    var pos := t.CheckPrefix(data);
    if pos != |t.prefix| { return false, 0, t; }
    var rest := data[pos..];
    if rest == [] {
      code, r := Found(t);
      return;
    }
    var i := t.Next(rest[0]);
    if i == -1 { return false, 0, t; }
    fault, code, r := UnsubscribeBelow(t, i, rest);
  }

  /** nn_node_unsubscribe from where it moves to the next node. */
  method UnsubscribeBelow(t: TrieNode, i: nat, rest: seq<byte>) returns (fault: bool, code: int, r: TrieNode?)
    requires t.Valid() && Trie.Valid(t.view) && rest != [] && i < |t.subs| && Trie.HasSlot(t.view.kids, rest[0])
    requires if t.dense then i == rest[0] - t.min else i == IndexOf(t.keys, rest[0])
    modifies t.Repr
    ensures fault <==> Below(old(t.view), rest).Fault?
    ensures !fault ==> Below(old(t.view), rest) == Trie.Return(code, ViewOf(r))
    ensures !fault && r != null ==> r.Valid() && fresh(r.Repr - old(t.Repr))
    decreases |rest|, 0
  {
    hide TrieNode.Valid, TrieNode.ValidBut, Trie.Prune, TrieKids.Replace;
    var c := rest[0];
    t.LayoutBasics();
    t.ChildIs(i, c);
    t.Detach(i);
    ghost var others := t.Repr - {t} - if t.subs[i] == null then {} else t.subs[i].Repr;
    var ch;
    fault, code, ch := Unsubscribe(t.subs[i], rest[1..]);
    if fault { return true, 0, null; }
    if ch != null {
      ReplaceAt(t.view.kids, c, ch.view, i);
      t.Relink(i, ch, others);
      return false, if code == 0 then 0 else 1, t;
    }
    code := 1;
    if !t.dense {
      r := t.PruneSparse(i, c, others);
    } else {
      r := t.PruneDense(i, c, others);
      fault := r == null;
    }
  }

  /** The part of UnsubscribeN below a node. */
  function Below(n: Node, rest: seq<byte>): Trie.Outcome
    requires Trie.Valid(n) && rest != [] && Trie.HasSlot(n.kids, rest[0])
  {
    match Trie.UnsubscribeN(Lookup(n.kids, rest[0]), rest[1..])
    case Fault => Trie.Fault
    case Return(code, t') =>
      if t'.None? then Trie.Prune(n, rest[0])
      else Trie.Return(if code == 0 then 0 else 1, Some(n.(kids := TrieKids.Replace(n.kids, rest[0], t'.value))))
  }

  /** Step 4 of nn_trie_subscribe: a chain of new nodes. */
  method Build(data: seq<byte>) returns (r: TrieNode)
    ensures r.Valid() && fresh(r.Repr) && r.view == Trie.Build(data)
    decreases |data|
  {
    if |data| <= PREFIX_MAX {
      r := new TrieNode(1, data);
      return;
    }
    var n := Build(data[PREFIX_MAX + 1..]);
    r := new TrieNode(0, data[..PREFIX_MAX]);
    r.FirstChild(data[PREFIX_MAX], n);
  }

  /** The pointer for a byte in a sparse array, or null. */
  function PtrFor(subs: seq<TrieNode?>, keys: seq<byte>, d: byte): TrieNode?
    requires |keys| <= |subs|
  {
    if IndexOf(keys, d) < |keys| then subs[IndexOf(keys, d)] else null
  }

  /** The pointers of a sparse array laid out from byte lo to byte hi. */
  function SpreadPtrs(subs: seq<TrieNode?>, keys: seq<byte>, lo: byte, hi: byte): (r: seq<TrieNode?>)
    requires lo <= hi && |keys| <= |subs|
    ensures |r| == hi - lo + 1
  {
    seq(hi - lo + 1, i requires 0 <= i < hi - lo + 1 => PtrFor(subs, keys, lo + i))
  }

  /** The loop that fills a new dense array. */
  method SpreadOut(keys: seq<byte>, subs: seq<TrieNode?>, lo: byte, hi: byte) returns (slots: seq<TrieNode?>)
    requires lo <= hi && |keys| == |subs| && Distinct(keys)
    requires forall i | 0 <= i < |keys| :: lo <= keys[i] <= hi
    ensures slots == SpreadPtrs(subs, keys, lo, hi)
  {
    slots := Nulls(hi - lo + 1);
    ghost var none := SpreadPtrs(subs, keys[..0], lo, hi);
    assert forall j | 0 <= j < |none| :: none[j] == PtrFor(subs, [], lo + j);
    var i := 0;
    while i != |keys|
      invariant 0 <= i <= |keys|
      invariant slots == SpreadPtrs(subs, keys[..i], lo, hi)
    {
      SpreadStep(subs, keys, lo, hi, i);
      slots := slots[keys[i] - lo := subs[i]];
      i := i + 1;
    }
    assert keys[..i] == keys;
  }

  lemma {:induction false} CollectStep(min: byte, slots: seq<Option<Node>>, i: nat)
    requires i < |slots| && min + |slots| <= 256
    ensures DenseKeys(min, slots[..i + 1])
         == DenseKeys(min, slots[..i]) + if slots[i].Some? then [(min + i) as byte] else []
    ensures DenseSubs(slots[..i + 1]) == DenseSubs(slots[..i]) + if slots[i].Some? then [slots[i].value] else []
  {
    assert slots[..i + 1][..i] == slots[..i];
  }

  lemma {:induction false} SpreadStep(subs: seq<TrieNode?>, keys: seq<byte>, lo: byte, hi: byte, i: nat)
    requires lo <= hi && i < |keys| == |subs| && Distinct(keys) && lo <= keys[i] <= hi
    ensures SpreadPtrs(subs, keys[..i + 1], lo, hi) == SpreadPtrs(subs, keys[..i], lo, hi)[keys[i] - lo := subs[i]]
  {
    assert keys[..i + 1] == keys[..i] + [keys[i]];
    var a, b := SpreadPtrs(subs, keys[..i], lo, hi), SpreadPtrs(subs, keys[..i + 1], lo, hi);
    forall j | 0 <= j < |b| ensures b[j] == a[keys[i] - lo := subs[i]][j] {
      PtrForStep(subs, keys, lo + j, i);
    }
  }

  lemma {:induction false} PtrForStep(subs: seq<TrieNode?>, keys: seq<byte>, c: byte, i: nat)
    requires i < |keys| == |subs| && Distinct(keys)
    ensures PtrFor(subs, keys[..i + 1], c) == if c == keys[i] then subs[i] else PtrFor(subs, keys[..i], c)
  {
    assert keys[..i + 1] == keys[..i] + [keys[i]];
    IndexOfAppend(keys[..i], keys[i], c);
    if c in keys[..i] {
      assert IndexOf(keys[..i], c) < i;
      assert c != keys[i];
    } else {
      assert IndexOf(keys[..i], c) == i;
    }
  }

  /** The place for the new byte is empty. */
  lemma {:induction false} SpreadIs(k: Kids, lo: byte, hi: byte, c: byte)
    requires lo <= c <= hi
    ensures Spread(k, lo, hi)[c - lo] == Lookup(k, c)
  {
  }

  /** A child array with another node at position i. */
  function PutAt(k: Kids, i: nat, n: Node): Kids {
    match k
    case Sparse(keys, subs) => if i < |subs| then Sparse(keys, subs[i := n]) else k
    case Dense(min, max, nbr, slots) => if i < |slots| then Dense(min, max, nbr, slots[i := Some(n)]) else k
  }

  lemma {:induction false} ReplaceAt(k: Kids, c: byte, n: Node, i: nat)
    requires Shape(k) && Lookup(k, c).Some? && i == if k.Dense? then c - k.min else IndexOf(k.keys, c)
    ensures Replace(k, c, n) == PutAt(k, i, n)
  {
  }

  /** The cases of SubscribeN, and how many subscriptions to the string there were in each. */
  lemma {:induction false} SubscribeCases(n: Node, data: seq<byte>)
    requires Trie.Valid(n)
    ensures Shape(n.kids)
    ensures var pos := Trie.CheckPrefix(n.prefix, data);
            var rest := data[pos..];
            if pos < |n.prefix| then
              Shape(Trie.Split(n, pos).kids) && (rest != [] ==> Lookup(Trie.Split(n, pos).kids, rest[0]).None?)
              && Trie.SubscribeN(n, data) == Trie.Extend(Trie.Split(n, pos), rest) && Trie.CountN(n, data) == 0
            else if rest == [] then
              Trie.SubscribeN(n, data) == n.(refcount := n.refcount + 1) && Trie.CountN(n, data) == n.refcount
            else if Lookup(n.kids, rest[0]).None? then
              Trie.SubscribeN(n, data) == Trie.Extend(n, rest) && Trie.CountN(n, data) == 0
            else
              var ch := Lookup(n.kids, rest[0]).value;
              Trie.Valid(ch)
              && Trie.SubscribeN(n, data) == n.(kids := Replace(n.kids, rest[0], Trie.SubscribeN(ch, rest[1..])))
              && Trie.CountN(n, data) == Trie.CountN(ch, rest[1..])
  {
    var pos := Trie.CheckPrefix(n.prefix, data);
    if pos < |n.prefix| {
      SplitHasNone(n, data);
    } else {
      assert n.prefix[..pos] == n.prefix;
    }
  }

  /** A string that leaves the prefix of a node is not below the node, nor below the node that splits
      the prefix. */
  lemma {:induction false} SplitHasNone(n: Node, data: seq<byte>)
    requires Shape(n.kids) && Trie.CheckPrefix(n.prefix, data) < |n.prefix|
    ensures Trie.CountN(n, data) == 0
    ensures var pos := Trie.CheckPrefix(n.prefix, data);
            var top := Trie.Split(n, pos);
            Shape(top.kids) && top.refcount == 0 && (data[pos..] != [] ==> Lookup(top.kids, data[pos]).None?)
  {
  }

  lemma NoSlot(k: Kids, c: byte)
    requires k.Dense? && Shape(k) && Lookup(k, c).None?
    ensures SlotAt(k.min, k.slots, c) == None
  {
  }

  lemma SlotIs(min: byte, slots: seq<Option<Node>>, c: byte)
    requires min <= c < min + |slots|
    ensures SlotAt(min, slots, c) == slots[c - min]
  {
  }

  function Nulls(n: nat): (r: seq<TrieNode?>)
    ensures |r| == n && forall i | 0 <= i < n :: r[i] == null
  {
    seq(n, _ => null)
  }

  /** The range of the keys and one more byte, as the conversion to a dense array computes it. */
  method Range(keys: seq<byte>, c: byte) returns (lo: byte, hi: byte)
    ensures lo == MinByte(Lowest(keys), c) && hi == MaxByte(Highest(keys), c)
  {
    lo, hi := 255, 0;
    var i := 0;
    while i != |keys|
      invariant 0 <= i <= |keys| && lo == Lowest(keys[..i]) && hi == Highest(keys[..i])
    {
      assert keys[..i + 1][..i] == keys[..i];
      lo, hi := MinByte(lo, keys[i]), MaxByte(hi, keys[i]);
      i := i + 1;
    }
    assert keys[..i] == keys;
    lo, hi := MinByte(lo, c), MaxByte(hi, c);
  }

  ghost function ViewOf(t: TrieNode?): Trie.Root
    reads t
  {
    if t == null then None else Some(t.view)
  }

  ghost predicate ValidPtr(t: TrieNode?)
    reads t, if t == null then {} else t.Repr
  {
    t != null ==> t.Valid()
  }
}
