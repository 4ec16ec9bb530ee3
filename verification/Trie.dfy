/** The subscription trie as a value: every operation of nanomsg/src/protocols/pubsub/trie.c as
    a function from the old trie to the new one, exactly as the code rewrites it. */
module Trie {
  import opened Common
  import opened TrieKids

  type Str = seq<byte>
  /** The root pointer: null or a node. */
  type Root = Option<Node>

  /** The shape invariant of a node and everything below it. */
  predicate Valid(n: Node) {
    && |n.prefix| <= PREFIX_MAX
    && Shape(n.kids)
    && (Size(n.kids) == 0 ==> n.refcount > 0)
    && forall c: byte | Lookup(n.kids, c).Some? :: Valid(Lookup(n.kids, c).value)
  }

  predicate ValidRoot(t: Root) { t.Some? ==> Valid(t.value) }

  /** How many subscriptions to s the trie below n holds. */
  function CountN(n: Node, s: Str): nat
    decreases |s|
  {
    if !(n.prefix <= s) then 0
    else
      var rest := s[|n.prefix|..];
      if rest == [] then n.refcount
      else
        var ch := Lookup(n.kids, rest[0]);
        if ch.None? then 0 else CountN(ch.value, rest[1..])
  }

  function Count(t: Root, s: Str): nat {
    if t.None? then 0 else CountN(t.value, s)
  }

  /** How many bytes of the data match the prefix. */
  function CheckPrefix(prefix: Str, data: Str): (i: nat)
    ensures i <= |prefix| && i <= |data|
    ensures prefix[..i] == data[..i]
    ensures i < |prefix| && i < |data| ==> prefix[i] != data[i]
  {
    if prefix == [] || data == [] || prefix[0] != data[0] then 0
    else
      var i := CheckPrefix(prefix[1..], data[1..]);
      assert prefix[..i + 1] == [prefix[0]] + prefix[1..][..i];
      assert data[..i + 1] == [data[0]] + data[1..][..i];
      i + 1
  }

  // ---------------------------------------------------------------- rewriting a node

  /** Merges a node that is no subscription with its only child, if the prefixes fit. */
  function Compact(n: Node): Node
    requires Shape(n.kids)
  {
    if n.refcount > 0 || !n.kids.Sparse? || |n.kids.keys| != 1 then n
    else
      var ch := n.kids.subs[0];
      if |n.prefix| + |ch.prefix| + 1 > PREFIX_MAX then n
      else ch.(prefix := n.prefix + [n.kids.keys[0]] + ch.prefix)
  }

  /** Step 2: the node's prefix is cut after pos bytes; the rest of the node becomes the only
      child of a new node. */
  function Split(n: Node, pos: nat): Node
    requires Shape(n.kids) && pos < |n.prefix|
  {
    Node(0, n.prefix[..pos], Sparse([n.prefix[pos]], [Compact(n.(prefix := n.prefix[pos + 1..]))]))
  }

  /** Step 4: a chain of new nodes for the rest of the subscription, with step 5's count. */
  function Build(s: Str): Node
    decreases |s|
  {
    if |s| > PREFIX_MAX
    then Node(0, s[..PREFIX_MAX], Sparse([s[PREFIX_MAX]], [Build(s[PREFIX_MAX + 1..])]))
    else Node(1, s, NoKids)
  }

  /** Steps 3 to 5 at a node whose whole prefix matched and that has no child for what is left
      of the subscription.  A node whose child array changes mode is allocated anew with its
      reference count at zero. */
  function Extend(n: Node, rest: Str): Node
    requires Shape(n.kids) && (rest != [] ==> Lookup(n.kids, rest[0]).None?)
  {
    if rest == [] then n.(refcount := n.refcount + 1)
    else Node(if AddConverts(n.kids) then 0 else n.refcount, n.prefix,
              Add(n.kids, rest[0], Build(rest[1..])))
  }

  // ---------------------------------------------------------------- nn_trie_subscribe

  function SubscribeN(n: Node, s: Str): Node
    requires Valid(n)
    decreases |s|
  {
    var pos := CheckPrefix(n.prefix, s);
    var rest := s[pos..];
    if pos < |n.prefix| then Extend(Split(n, pos), rest)
    else if rest == [] then n.(refcount := n.refcount + 1)
    else
      var ch := Lookup(n.kids, rest[0]);
      if ch.None? then Extend(n, rest)
      else n.(kids := Replace(n.kids, rest[0], SubscribeN(ch.value, rest[1..])))
  }

  function Subscribe(t: Root, s: Str): Root
    requires ValidRoot(t)
  {
    if t.None? then Some(Build(s)) else Some(SubscribeN(t.value, s))
  }

  // ---------------------------------------------------------------- nn_trie_match

  /** nn_trie_match on size = |data| bytes, with `beyond` in memory after them.  A node reached
      with no data left and no subscribers makes the code look at the next byte all the same,
      and from there on at everything that follows. */
  function MatchN(n: Node, data: Str, beyond: Str): bool
    decreases |data| + |beyond|
  {
    if !(n.prefix <= data) then false
    else
      var rest := data[|n.prefix|..];
      if n.refcount > 0 then true
      else if rest != [] then
        var ch := Lookup(n.kids, rest[0]);
        ch.Some? && MatchN(ch.value, rest[1..], beyond)
      else if beyond == [] then false
      else
        var ch := Lookup(n.kids, beyond[0]);
        ch.Some? && MatchN(ch.value, beyond[1..], [])
  }

  function Match(t: Root, data: Str, beyond: Str): bool {
    t.Some? && MatchN(t.value, data, beyond)
  }

  // ---------------------------------------------------------------- nn_trie_unsubscribe

  const EINVAL: int := 22

  /** What a call of nn_node_unsubscribe ends in: it dereferences a null pointer or fails an
      assertion, or it returns a code and leaves a node (or null) behind. */
  datatype Outcome = Fault | Return(code: int, t: Root)

  /** The code at the label `found`. */
  function Found(t: Root): Outcome
    requires ValidRoot(t)
  {
    if t.None? || t.value.refcount == 0 then Return(-EINVAL, t)
    else
      var n := t.value.(refcount := t.value.refcount - 1);
      if n.refcount > 0 then Return(0, Some(n))
      else if Size(n.kids) == 0 then Return(1, None)
      else Return(1, Some(Compact(n)))
  }

  /** Drops the null child under c from the child array and prunes the node. */
  function Prune(n: Node, c: byte): Outcome
    requires Shape(n.kids)
    requires n.kids.Sparse? ==> c in n.kids.keys
    requires n.kids.Dense? ==> n.kids.min <= c <= n.kids.max
  {
    var kids := Remove(n.kids, c);
    if kids.None? then Fault
    else
      var n' := Node(if RemoveConverts(n.kids) then 0 else n.refcount, n.prefix, kids.value);
      if n.kids.Dense? then Return(1, Some(n'))
      else if Size(n'.kids) == 0 && n'.refcount == 0 then Return(1, None)
      else
        RemoveSparseLaw(n.kids, c);
        Return(1, Some(Compact(n')))
  }

  /** Whether nn_node_next finds a pointer (null or not) for c. */
  predicate HasSlot(k: Kids, c: byte) {
    match k
    case Sparse(keys, _) => c in keys
    case Dense(min, max, _, _) => min <= c <= max
  }

  function UnsubscribeN(t: Root, s: Str): (r: Outcome)
    requires ValidRoot(t)
    ensures r.Return? && r.code == 0 ==> t.Some? && r.t.Some?
    ensures r.Return? && t.None? ==> r.t.None?
    decreases |s|
  {
    if s == [] then Found(t)
    else if t.None? then Fault
    else
      var n := t.value;
      if !(n.prefix <= s) then Return(0, t)
      else
        var rest := s[|n.prefix|..];
        if rest == [] then Found(t)
        else if !HasSlot(n.kids, rest[0]) then Return(0, t)
        else
          var ch := Lookup(n.kids, rest[0]);
          match UnsubscribeN(ch, rest[1..])
          case Fault => Fault
          case Return(code, t') =>
            if t'.None? then Prune(n, rest[0])
            else Return(if code == 0 then 0 else 1, Some(n.(kids := Replace(n.kids, rest[0], t'.value))))
  }
}
