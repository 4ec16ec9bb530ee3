/** The trie against its contract (trie.h): a multiset of subscriptions under prefix matching.

    The code keeps the contract except at a change of the child array's mode, where it zeroes
    the reference count of the node.  The theorems here say, for every trie and every string,
    what subscribe, unsubscribe and match do in terms of the live subscriptions alone. */
module TrieContract {
  import opened Common
  import opened TrieKids
  import opened Trie
  import opened TrieCounts

  /** The trie holds exactly the subscriptions of m. */
  ghost predicate Denotes(t: Root, m: multiset<Str>) {
    forall s: Str :: Count(t, s) == m[s]
  }

  /** The bytes that follow p in some live subscription. */
  ghost function NextBytes(m: multiset<Str>, p: Str): set<byte> {
    set c: byte | Continues(m, p, c)
  }

  ghost predicate Continues(m: multiset<Str>, p: Str, c: byte) {
    exists x :: x in m && p + [c] <= x
  }

  // ---------------------------------------------------------------- nodes and live strings

  /** Every node leads to a live subscription. */
  lemma {:induction false} LiveBelow(n: Node) returns (s: Str)
    requires Valid(n)
    ensures CountN(n, s) > 0
    decreases n
  {
    if n.refcount > 0 {
      s := n.prefix;
    } else {
      SizeIsKeys(n.kids);
      assert Keys(n.kids) != {};
      var c :| c in Keys(n.kids);
      var y := LiveBelow(Lookup(n.kids, c).value);
      s := n.prefix + [c] + y;
      CountBelow(n, c, s);
      assert s[|n.prefix| + 1..] == y;
    }
  }

  /** The node that stands for exactly the string p. */
  function NodeAt(n: Node, p: Str): Option<Node>
    decreases |p|
  {
    if !(n.prefix <= p) then None
    else
      var rest := p[|n.prefix|..];
      if rest == [] then Some(n)
      else
        var ch := Lookup(n.kids, rest[0]);
        if ch.None? then None else NodeAt(ch.value, rest[1..])
  }

  /** A node without subscribers that has one child disappears into it, unless the joined prefix is too
      long: afterwards there is no node for its string. */
  lemma {:induction false} CompactMerges(n: Node)
    requires Valid(n) && n.refcount == 0 && n.kids.Sparse? && |n.kids.keys| == 1
    ensures var ch, n' := n.kids.subs[0], Compact(n);
            var joined := n.prefix + n.kids.keys + ch.prefix;
            && (NodeAt(n', n.prefix).Some? <==> |joined| > PREFIX_MAX)
            && (|joined| > PREFIX_MAX ==> n' == n)
            && (|joined| <= PREFIX_MAX ==> n' == ch.(prefix := joined) && NodeAt(n', joined) == Some(n'))
  {
    assert n.kids.keys == [n.kids.keys[0]];
  }

  lemma {:induction false} NodeAtValid(n: Node, p: Str)
    requires Valid(n) && NodeAt(n, p).Some?
    ensures Valid(NodeAt(n, p).value)
    decreases |p|
  {
    var rest := p[|n.prefix|..];
    if rest != [] { NodeAtValid(Lookup(n.kids, rest[0]).value, rest[1..]); }
  }

  lemma {:induction false} NodeAtLive(n: Node, p: Str)
    requires CountN(n, p) > 0
    ensures NodeAt(n, p).Some?
    decreases |p|
  {
    var rest := p[|n.prefix|..];
    if rest != [] { NodeAtLive(Lookup(n.kids, rest[0]).value, rest[1..]); }
  }

  /** Below the node of p, strings count what they count below its children. */
  lemma {:induction false} CountFrom(n: Node, p: Str, c: byte, y: Str)
    requires NodeAt(n, p).Some?
    ensures CountN(n, p + [c] + y) == Count(Lookup(NodeAt(n, p).value.kids, c), y)
    decreases |p|
  {
    var x := p + [c] + y;
    if |p| == |n.prefix| {
      assert p == n.prefix;
      CountBelow(n, c, x);
      assert x[|n.prefix| + 1..] == y;
    } else {
      var d, q := p[|n.prefix|], p[|n.prefix|..][1..];
      assert p == n.prefix + [d] + q;
      CountBelow(n, d, x);
      assert x[|n.prefix| + 1..] == q + [c] + y;
      CountFrom(Lookup(n.kids, d).value, q, c, y);
    }
  }

  /** The children of the node of p are the bytes that follow p in the live subscriptions. */
  lemma {:induction false} KeysAreNextBytes(n: Node, m: multiset<Str>, p: Str)
    requires Valid(n) && Denotes(Some(n), m) && NodeAt(n, p).Some?
    ensures Keys(NodeAt(n, p).value.kids) == NextBytes(m, p)
    ensures Size(NodeAt(n, p).value.kids) == |NextBytes(m, p)|
  {
    var q := NodeAt(n, p).value;
    NodeAtValid(n, p);
    SizeIsKeys(q.kids);
    forall c: byte
      ensures Lookup(q.kids, c).Some? <==> Continues(m, p, c)
    {
      KeyContinues(n, m, p, c);
    }
  }

  lemma {:induction false} CountEntered(n: Node, m: multiset<Str>, p: Str, c: byte, x: Str)
    requires Denotes(Some(n), m) && NodeAt(n, p).Some? && p + [c] <= x
    ensures x == p + [c] + x[|p| + 1..]
    ensures Count(Lookup(NodeAt(n, p).value.kids, c), x[|p| + 1..]) == m[x]
  {
    var y := x[|p| + 1..];
    assert x == p + [c] + y;
    CountFrom(n, p, c, y);
    assert Count(Some(n), x) == m[x];
  }

  lemma {:induction false} KeyContinues(n: Node, m: multiset<Str>, p: Str, c: byte)
    requires Valid(n) && Denotes(Some(n), m) && NodeAt(n, p).Some?
    ensures Lookup(NodeAt(n, p).value.kids, c).Some? <==> Continues(m, p, c)
  {
    var ch := Lookup(NodeAt(n, p).value.kids, c);
    if ch.Some? {
      NodeAtValid(n, p);
      var y := LiveBelow(ch.value);
      var x := p + [c] + y;
      assert p + [c] <= x && x[|p| + 1..] == y;
      CountEntered(n, m, p, c, x);
      assert x in m;
    } else if x :| x in m && p + [c] <= x {
      CountEntered(n, m, p, c, x);
    }
  }

  // ---------------------------------------------------------------- subscribe

  /** Subscribing to s loses the live subscriptions to p: p has exactly SPARSE_MAX
      continuations and s brings another one. */
  ghost predicate SubLoses(m: multiset<Str>, s: Str, p: Str) {
    && p in m
    && p < s
    && |NextBytes(m, p)| == SPARSE_MAX
    && s[|p|] !in NextBytes(m, p)
  }

  lemma {:induction false} ConvertsAtNode(n: Node, s: Str, p: Str)
    requires Valid(n)
    ensures ConvertsAt(n, s, p)
            <==> p < s && NodeAt(n, p).Some?
                 && Lookup(NodeAt(n, p).value.kids, s[|p|]).None? && AddConverts(NodeAt(n, p).value.kids)
    decreases |s|
  {
    if n.prefix <= s && |s| > |n.prefix| {
      var c, t := s[|n.prefix|], s[|n.prefix| + 1..];
      assert s[|n.prefix|..][0] == c && s[|n.prefix|..][1..] == t;
      assert s == n.prefix + [c] + t;
      if Lookup(n.kids, c).Some? {
        ConvertsBelow(n, s, p);
        if n.prefix + [c] <= p {
          var q := p[|n.prefix| + 1..];
          assert p == n.prefix + [c] + q;
          assert p[|n.prefix|..][0] == c && p[|n.prefix|..][1..] == q;
          ConvertsAtNode(Lookup(n.kids, c).value, t, q);
          assert p < s <==> q < t;
        } else if p < s && NodeAt(n, p).Some? {
          assert p == n.prefix;
        }
      }
    }
  }

  /** A live string is lost by the code exactly when the subscriptions say so. */
  lemma {:induction false} ConvertsAtLive(n: Node, m: multiset<Str>, s: Str, p: Str)
    requires Valid(n) && Denotes(Some(n), m) && p in m
    ensures ConvertsAt(n, s, p) <==> SubLoses(m, s, p)
  {
    assert Count(Some(n), p) == m[p];
    NodeAtLive(n, p);
    NodeAtValid(n, p);
    KeysAreNextBytes(n, m, p);
    ConvertsAtNode(n, s, p);
    var k := NodeAt(n, p).value.kids;
    if p < s {
      assert s[|p|] in NextBytes(m, p) <==> Lookup(k, s[|p|]).Some?;
    }
  }

  /** Subscribe, exactly: s gains one subscription, p loses all of its own when SubLoses says
      so, and no other count changes. */
  lemma {:induction false} SubscribeExact(t: Root, m: multiset<Str>, s: Str)
    requires ValidRoot(t) && Denotes(t, m)
    ensures ValidRoot(Subscribe(t, s))
    ensures forall x: Str :: Count(Subscribe(t, s), x)
                             == if x == s then m[s] + 1 else if SubLoses(m, s, x) then 0 else m[x]
  {
    match t
    case None =>
      BuildValid(s);
      forall x: Str
        ensures Count(Subscribe(t, s), x) == if x == s then m[s] + 1 else if SubLoses(m, s, x) then 0 else m[x]
      {
        BuildCount(s, x);
        assert Count(t, x) == m[x] && Count(t, s) == m[s];
      }
    case Some(n) =>
      SubscribeValid(n, s);
      forall x: Str
        ensures Count(Subscribe(t, s), x) == if x == s then m[s] + 1 else if SubLoses(m, s, x) then 0 else m[x]
      {
        SubscribeCount(n, s, x);
        assert Count(t, x) == m[x] && Count(t, s) == m[s];
        if x in m { ConvertsAtLive(n, m, s, x); }
      }
  }

  /** The contract of subscribe holds exactly when no live subscription is lost. */
  lemma {:induction false} SubscribeMeetsContract(t: Root, m: multiset<Str>, s: Str)
    requires ValidRoot(t) && Denotes(t, m)
    ensures Denotes(Subscribe(t, s), m + multiset{s}) <==> !exists p :: SubLoses(m, s, p)
  {
    SubscribeExact(t, m, s);
    if p :| SubLoses(m, s, p) {
      assert Count(Subscribe(t, s), p) == 0;
      assert (m + multiset{s})[p] > 0;
    } else {
      forall x: Str
        ensures Count(Subscribe(t, s), x) == (m + multiset{s})[x]
      {
        assert !SubLoses(m, s, x);
      }
    }
  }

  // ---------------------------------------------------------------- unsubscribe

  /** Removing the last subscription to s loses the live subscriptions to p: p has one more
      than SPARSE_MAX continuations and loses the one that s gave it. */
  ghost predicate UnsubLoses(m: multiset<Str>, s: Str, p: Str) {
    && p in m
    && p < s
    && |NextBytes(m, p)| == SPARSE_MAX + 1
    && s[|p|] !in NextBytes(m - multiset{s}, p)
  }

  /** The node of p is dense with one child too many for sparse mode, and the child that s
      enters from there disappears. */
  ghost predicate ShrinksHere(n: Node, s: Str, p: Str)
    requires Valid(n)
  {
    && p < s
    && NodeAt(n, p).Some?
    && var q := NodeAt(n, p).value;
    && Valid(q)
    && RemoveConverts(q.kids)
    && Lookup(q.kids, s[|p|]).Some?
    && Gone(UnsubscribeN(Lookup(q.kids, s[|p|]), s[|p| + 1..]))
  }

  lemma {:induction false} NodeAtBelow(n: Node, c: byte, q: Str)
    requires Lookup(n.kids, c).Some?
    ensures NodeAt(n, n.prefix + [c] + q) == NodeAt(Lookup(n.kids, c).value, q)
  {
  }

  lemma {:induction false} ShrinksHereBelow(n: Node, c: byte, t: Str, q: Str)
    requires Valid(n) && Lookup(n.kids, c).Some?
    ensures ShrinksHere(n, n.prefix + [c] + t, n.prefix + [c] + q) <==> ShrinksHere(Lookup(n.kids, c).value, t, q)
  {
    hide NodeAt, UnsubscribeN, Gone, RemoveConverts, Lookup, Valid;
    NodeAtBelow(n, c, q);
    BelowPrefix(n.prefix + [c], t, q);
  }

  lemma {:induction false} BelowPrefix(a: Str, t: Str, q: Str)
    ensures a + q < a + t <==> q < t
    ensures q < t ==> (a + t)[|a + q|] == t[|q|] && (a + t)[|a + q| + 1..] == t[|q| + 1..]
  {
    if a + q <= a + t { assert q == (a + q)[|a|..] && t == (a + t)[|a|..]; }
  }

  lemma {:induction false} ShrinksAtNode(n: Node, s: Str, p: Str)
    requires Valid(n) && CountN(n, s) > 0
    ensures ShrinksAt(n, s, p) <==> ShrinksHere(n, s, p)
    decreases |s|
  {
    if |s| == |n.prefix| {
      assert s == n.prefix;
    } else {
      var c, t := s[|n.prefix|], s[|n.prefix| + 1..];
      assert s[|n.prefix|..][0] == c && s[|n.prefix|..][1..] == t;
      assert s == n.prefix + [c] + t;
      var ch := Lookup(n.kids, c).value;
      CountBelow(n, c, s);
      ShrinksBelow(n, s, p);
      if n.prefix + [c] <= p {
        var q := p[|n.prefix| + 1..];
        assert p == n.prefix + [c] + q;
        ShrinksHereBelow(n, c, t, q);
        ShrinksAtNode(ch, t, q);
        if Gone(UnsubscribeN(Some(ch), t)) { GoneDoesNotShrink(ch, t, q); }
      } else if p < s && NodeAt(n, p).Some? {
        assert p == n.prefix;
      }
    }
  }

  /** s is the only subscription below n. */
  ghost predicate Alone(n: Node, s: Str) {
    CountN(n, s) == 1 && forall y: Str | y != s :: CountN(n, y) == 0
  }

  /** Removing s makes the whole subtree vanish exactly when s was its only subscription. */
  lemma {:induction false} GoneIffAlone(n: Node, s: Str)
    requires Valid(n) && CountN(n, s) > 0
    ensures Gone(UnsubscribeN(Some(n), s)) <==> Alone(n, s)
  {
    var r := UnsubscribeN(Some(n), s);
    UnsubscribeCount(n, s, s);
    if Gone(r) {
      forall y: Str | y != s
        ensures CountN(n, y) == 0
      {
        UnsubscribeCount(n, s, y);
        GoneDoesNotShrink(n, s, y);
      }
    } else if Alone(n, s) {
      var w := LiveBelow(r.t.value);
      UnsubscribeCount(n, s, w);
    }
  }

  /** The subtree entered by s from the node of p holds other subscriptions exactly when the
      byte still follows p without s. */
  lemma {:induction false} AloneIffNotNext(n: Node, m: multiset<Str>, s: Str, p: Str, ch: Node)
    requires Denotes(Some(n), m) && s in m && p < s && NodeAt(n, p).Some?
    requires Lookup(NodeAt(n, p).value.kids, s[|p|]) == Some(ch)
    ensures Alone(ch, s[|p| + 1..]) <==> !Continues(m - multiset{s}, p, s[|p|])
  {
    hide NodeAt, Lookup, CountN, Denotes;
    var c, t := s[|p|], s[|p| + 1..];
    assert p + [c] <= s;
    CountEntered(n, m, p, c, s);
    if Continues(m - multiset{s}, p, c) {
      var x :| x in m - multiset{s} && p + [c] <= x;
      CountEntered(n, m, p, c, x);
      assert CountN(ch, x[|p| + 1..]) == m[x];
    } else {
      forall y: Str
        ensures CountN(ch, y) == if y == t then 1 else 0
      {
        AloneAt(n, m, s, p, ch, y);
      }
    }
  }

  lemma {:induction false} AloneAt(n: Node, m: multiset<Str>, s: Str, p: Str, ch: Node, y: Str)
    requires Denotes(Some(n), m) && s in m && p < s && NodeAt(n, p).Some?
    requires Lookup(NodeAt(n, p).value.kids, s[|p|]) == Some(ch)
    requires !Continues(m - multiset{s}, p, s[|p|])
    ensures CountN(ch, y) == if y == s[|p| + 1..] then 1 else 0
  {
    var c := s[|p|];
    var x := p + [c] + y;
    assert p + [c] <= x && x[|p| + 1..] == y;
    CountEntered(n, m, p, c, x);
    assert p + [c] <= s;
    CountEntered(n, m, p, c, s);
    assert x !in m - multiset{s};
  }

  lemma {:induction false} ShrinksAtLive(n: Node, m: multiset<Str>, s: Str, p: Str)
    requires Valid(n) && Denotes(Some(n), m) && p in m && s in m
    ensures ShrinksAt(n, s, p) <==> UnsubLoses(m, s, p)
  {
    assert Count(Some(n), p) == m[p] && Count(Some(n), s) == m[s];
    NodeAtLive(n, p);
    NodeAtValid(n, p);
    KeysAreNextBytes(n, m, p);
    ShrinksAtNode(n, s, p);
    if p < s {
      assert p + [s[|p|]] <= s;
      CountEntered(n, m, p, s[|p|], s);
      var ch := Lookup(NodeAt(n, p).value.kids, s[|p|]).value;
      AloneIffNotNext(n, m, s, p, ch);
      GoneIffAlone(ch, s[|p| + 1..]);
    }
  }

  /** Unsubscribe of a live string, exactly: the code returns 1 when the last subscription
      went and 0 otherwise, s loses one subscription, p loses all of its own when UnsubLoses
      says so, and no other count changes. */
  lemma {:induction false} UnsubscribeExact(t: Root, m: multiset<Str>, s: Str)
    requires ValidRoot(t) && Denotes(t, m) && s in m
    ensures var r := UnsubscribeN(t, s);
            && r.Return?
            && r.code == (if m[s] == 1 then 1 else 0)
            && ValidRoot(r.t)
            && forall x: Str :: Count(r.t, x)
                                == if x == s then m[s] - 1 else if UnsubLoses(m, s, x) then 0 else m[x]
  {
    assert Count(t, s) == m[s];
    var n := t.value;
    UnsubscribeCount(n, s, s);
    forall x: Str
      ensures Count(UnsubscribeN(t, s).t, x) == if x == s then m[s] - 1 else if UnsubLoses(m, s, x) then 0 else m[x]
    {
      UnsubscribeCount(n, s, x);
      assert Count(t, x) == m[x];
      if x in m { ShrinksAtLive(n, m, s, x); }
    }
  }

  lemma {:induction false} UnsubscribeMeetsContract(t: Root, m: multiset<Str>, s: Str)
    requires ValidRoot(t) && Denotes(t, m) && s in m
    ensures UnsubscribeN(t, s).Return?
    ensures Denotes(UnsubscribeN(t, s).t, m - multiset{s}) <==> !exists p :: UnsubLoses(m, s, p)
  {
    UnsubscribeExact(t, m, s);
    if p :| UnsubLoses(m, s, p) {
      assert Count(UnsubscribeN(t, s).t, p) == 0;
      assert (m - multiset{s})[p] > 0;
    } else {
      forall x: Str
        ensures Count(UnsubscribeN(t, s).t, x) == (m - multiset{s})[x]
      {
        assert !UnsubLoses(m, s, x);
      }
    }
  }

  // ---------------------------------------------------------------- match

  /** Some live subscription is a prefix of the data. */
  ghost predicate LivePrefix(t: Root, data: Str) {
    exists p: Str :: p <= data && Count(t, p) > 0
  }

  /** Some live subscription starts with the data, goes on, and ends within what follows. */
  ghost predicate LiveBeyond(t: Root, data: Str, beyond: Str) {
    exists z: Str :: z != [] && z <= beyond && Count(t, data + z) > 0
  }

  lemma {:induction false} LivePrefixUp(n: Node, data: Str, q: Str)
    requires n.prefix <= data && |data| > |n.prefix|
    requires q <= data[|n.prefix| + 1..] && Count(Lookup(n.kids, data[|n.prefix|]), q) > 0
    ensures LivePrefix(Some(n), data)
  {
    var c := data[|n.prefix|];
    var p := n.prefix + [c] + q;
    CountBelow(n, c, p);
    assert p[|n.prefix| + 1..] == q;
    assert data == n.prefix + [c] + data[|n.prefix| + 1..];
    assert p <= data && Count(Some(n), p) > 0;
  }

  lemma {:induction false} LivePrefixDown(n: Node, data: Str, p: Str)
    requires n.refcount == 0 && p <= data && Count(Some(n), p) > 0
    ensures n.prefix <= data && |data| > |n.prefix|
    ensures LivePrefix(Lookup(n.kids, data[|n.prefix|]), data[|n.prefix| + 1..])
  {
    var m := |n.prefix|;
    assert n.prefix + [data[m]] <= p by { assert n.prefix + [p[m]] == p[..m + 1]; }
    CountBelow(n, data[m], p);
    assert p[m + 1..] <= data[m + 1..];
  }

  lemma {:induction false} LivePrefixStep(n: Node, data: Str)
    requires n.prefix <= data
    ensures LivePrefix(Some(n), data)
            <==> n.refcount > 0
                 || (|data| > |n.prefix| && LivePrefix(Lookup(n.kids, data[|n.prefix|]), data[|n.prefix| + 1..]))
  {
    if n.refcount > 0 {
      assert n.prefix <= data && Count(Some(n), n.prefix) > 0;
    } else if p :| p <= data && Count(Some(n), p) > 0 {
      LivePrefixDown(n, data, p);
    } else if |data| > |n.prefix| {
      forall q | q <= data[|n.prefix| + 1..]
        ensures Count(Lookup(n.kids, data[|n.prefix|]), q) == 0
      {
        if Count(Lookup(n.kids, data[|n.prefix|]), q) > 0 { LivePrefixUp(n, data, q); }
      }
    }
  }

  /** With nothing to read past the data, match finds exactly the live prefixes. */
  lemma {:induction false} MatchExactN(n: Node, data: Str)
    ensures MatchN(n, data, []) <==> LivePrefix(Some(n), data)
    decreases |data|
  {
    if n.prefix <= data {
      LivePrefixStep(n, data);
      if |data| > |n.prefix| {
        var c, t := data[|n.prefix|], data[|n.prefix| + 1..];
        assert data[|n.prefix|..][0] == c && data[|n.prefix|..][1..] == t;
        if Lookup(n.kids, c).Some? { MatchExactN(Lookup(n.kids, c).value, t); }
      }
    } else {
      forall p: Str | p <= data
        ensures Count(Some(n), p) == 0
      {
      }
    }
  }

  lemma {:induction false} MatchExact(t: Root, data: Str)
    ensures Match(t, data, []) <==> LivePrefix(t, data)
  {
    if t.Some? { MatchExactN(t.value, data); }
  }

  lemma {:induction false} LiveBeyondStep(n: Node, data: Str, beyond: Str)
    requires n.prefix <= data && |data| > |n.prefix|
    ensures LiveBeyond(Some(n), data, beyond)
            <==> LiveBeyond(Lookup(n.kids, data[|n.prefix|]), data[|n.prefix| + 1..], beyond)
  {
    var c, t := data[|n.prefix|], data[|n.prefix| + 1..];
    forall z: Str
      ensures Count(Some(n), data + z) == Count(Lookup(n.kids, c), t + z)
    {
      assert data + z == n.prefix + [c] + (t + z);
      CountBelow(n, c, data + z);
      assert (data + z)[|n.prefix| + 1..] == t + z;
    }
  }

  /** Reading on from a node at which the data ended. */
  lemma {:induction false} LiveBeyondHere(n: Node, beyond: Str)
    ensures LiveBeyond(Some(n), n.prefix, beyond)
            <==> beyond != [] && LivePrefix(Lookup(n.kids, beyond[0]), beyond[1..])
  {
    forall z: Str | z != []
      ensures Count(Some(n), n.prefix + z) == Count(Lookup(n.kids, z[0]), z[1..])
    {
      assert n.prefix + z == n.prefix + [z[0]] + z[1..];
      CountBelow(n, z[0], n.prefix + z);
      assert (n.prefix + z)[|n.prefix| + 1..] == z[1..];
    }
    if z :| z != [] && z <= beyond && Count(Some(n), n.prefix + z) > 0 {
      assert z[1..] <= beyond[1..];
    } else if beyond != [] {
      forall q | q <= beyond[1..]
        ensures Count(Lookup(n.kids, beyond[0]), q) == 0
      {
        var z := [beyond[0]] + q;
        assert z[1..] == q && z <= beyond;
      }
    }
  }

  lemma {:induction false} MatchBeyondN(n: Node, data: Str, beyond: Str)
    ensures MatchN(n, data, beyond)
            <==> LivePrefix(Some(n), data) || (NodeAt(n, data).Some? && LiveBeyond(Some(n), data, beyond))
    decreases |data|
  {
    if !(n.prefix <= data) {
      MatchExactN(n, data);
    } else {
      LivePrefixStep(n, data);
      if |data| > |n.prefix| {
        var c, t := data[|n.prefix|], data[|n.prefix| + 1..];
        assert data[|n.prefix|..][0] == c && data[|n.prefix|..][1..] == t;
        LiveBeyondStep(n, data, beyond);
        if Lookup(n.kids, c).Some? { MatchBeyondN(Lookup(n.kids, c).value, t, beyond); }
      } else {
        assert data == n.prefix;
        LiveBeyondHere(n, beyond);
        if beyond != [] && Lookup(n.kids, beyond[0]).Some? {
          MatchExactN(Lookup(n.kids, beyond[0]).value, beyond[1..]);
        }
      }
    }
  }

  ghost predicate EndsAtNode(t: Root, data: Str) { t.Some? && NodeAt(t.value, data).Some? }

  /** Match keeps its contract exactly when the walk does not read past the data into a longer
      live subscription: that takes data ending at a node, with no live prefix, and the bytes
      in memory after it completing a live subscription. */
  lemma {:induction false} MatchMeetsContract(t: Root, data: Str, beyond: Str)
    ensures (Match(t, data, beyond) <==> LivePrefix(t, data))
            <==> !(!LivePrefix(t, data) && EndsAtNode(t, data) && LiveBeyond(t, data, beyond))
  {
    if t.Some? { MatchBeyondN(t.value, data, beyond); }
  }
}
