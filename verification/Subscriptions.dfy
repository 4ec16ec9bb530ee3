/** The subscription trie as its users see it (nn_trie in nanomsg/src/protocols/pubsub/trie.c): nodes
    in place, and what each call does to the number of subscriptions to every string. */
module Subscriptions {
  import opened Common
  import opened TrieKids
  import Trie
  import TrieCounts
  import TrieContract
  import opened TrieRuns
  import opened TrieNodes

  ghost function NodesOf(t: TrieNode?): set<TrieNode>
    reads t
  {
    if t == null then {} else t.Repr
  }

  class Subscriptions {
    var root: TrieNode?

    ghost predicate Valid()
      reads this, root, NodesOf(root)
    {
      ValidPtr(root) && Trie.ValidRoot(ViewOf(root))
    }

    /** How many subscriptions to the string there are. */
    ghost function Count(s: seq<byte>): nat
      reads this, root
    {
      Trie.Count(ViewOf(root), s)
    }

    /** nn_trie_init */
    constructor ()
      ensures Valid() && root == null && forall x :: Count(x) == 0
    {
      root := null;
    }

    /** nn_trie_match: size bytes of data, and whatever is in memory after them.  Without any, it tells
        whether the data begins with a string subscribed to. */
    method Match(data: seq<byte>, beyond: seq<byte>) returns (r: bool)
      requires Valid()
      ensures r == Trie.Match(ViewOf(root), data, beyond)
      ensures beyond == [] ==> (r <==> exists p :: p <= data && Count(p) > 0)
    {
      hide TrieNode.Valid, Trie.Match;
      r := Walk(data, beyond);
      TrieContract.MatchExact(ViewOf(root), data);
      if r && beyond == [] {
        ghost var p :| p <= data && Trie.Count(ViewOf(root), p) > 0;
        assert Count(p) > 0;
      }
    }

    /** The loop of nn_trie_match. */
    method Walk(data: seq<byte>, beyond: seq<byte>) returns (r: bool)
      requires Valid()
      ensures r == Trie.Match(ViewOf(root), data, beyond)
    {
      hide TrieNode.Valid, Shape;
      var node, rest, more := root, data, beyond;
      while node != null
        invariant ValidPtr(node) && Trie.ValidRoot(ViewOf(node))
        invariant Trie.Match(ViewOf(root), data, beyond) == Trie.Match(ViewOf(node), rest, more)
        decreases |rest| + |more|, node != null
      {
        node.LayoutBasics();
        var pos := node.CheckPrefix(rest);
        if pos != |node.prefix| { return false; }
        rest := rest[pos..];
        if node.refcount > 0 { return true; }
        if rest == [] { rest, more := more, []; }
        if rest == [] { return false; }
        var i := node.Next(rest[0]);
        if i != -1 { node.Detach(i); }
        node := if i == -1 then null else node.subs[i];
        rest := rest[1..];
      }
      return false;
    }

    /** nn_trie_subscribe: one subscription more to the string, and none left to the string of a node
        whose child array changes mode; the code is 1 if there was none to the string before. */
    method Subscribe(data: seq<byte>) returns (code: int)
      requires Valid()
      modifies this, NodesOf(root)
      ensures Valid() && ViewOf(root) == Trie.Subscribe(old(ViewOf(root)), data)
      ensures fresh(NodesOf(root) - old(NodesOf(root)))
      ensures code == if old(Count(data)) == 0 then 1 else 0
      ensures forall x :: Count(x) == if x == data then old(Count(x)) + 1
                                      else if old(root) != null && TrieCounts.ConvertsAt(old(root.view), data, x) then 0
                                      else old(Count(x))
    {
      ghost var t := ViewOf(root);
      if root == null {
        root := Build(data);
        code := 1;
        TrieCounts.BuildValid(data);
        forall x ensures Count(x) == if x == data then 1 else 0 { TrieCounts.BuildCount(data, x); }
        return;
      }
      ghost var n := root.view;
      root, code := root.Subscribe(data);
      TrieCounts.SubscribeValid(n, data);
      forall x
        ensures Count(x) == if x == data then Trie.Count(t, x) + 1
                            else if TrieCounts.ConvertsAt(n, data, x) then 0 else Trie.Count(t, x)
      {
        TrieCounts.SubscribeCount(n, data, x);
      }
    }

    /** nn_trie_unsubscribe: of a string subscribed to, one subscription less, and the code is 1 if it
        was the last. */
    method Unsubscribe(data: seq<byte>) returns (fault: bool, code: int)
      requires Valid()
      modifies this, NodesOf(root)
      ensures !fault ==> fresh(NodesOf(root) - old(NodesOf(root)))
      ensures fault <==> Trie.UnsubscribeN(old(ViewOf(root)), data).Fault?
      ensures !fault ==> ValidPtr(root) && Trie.UnsubscribeN(old(ViewOf(root)), data) == Trie.Return(code, ViewOf(root))
      ensures old(Count(data)) > 0 ==> !fault && Valid() && code == if old(Count(data)) == 1 then 1 else 0
      ensures old(Count(data)) > 0 ==>
                forall x :: Count(x) == if x == data then old(Count(x)) - 1
                                        else if TrieCounts.ShrinksAt(old(root.view), data, x) then 0
                                        else old(Count(x))
    {
      hide TrieNode.Valid, Trie.UnsubscribeN, TrieCounts.ShrinksAt;
      ghost var t := ViewOf(root);
      if Trie.Count(t, data) > 0 {
        forall x ensures TrieCounts.Removes(t.value, data, x) { TrieCounts.UnsubscribeCount(t.value, data, x); }
        assert TrieCounts.Removes(t.value, data, data);
      }
      var r;
      fault, code, r := TrieNodes.Unsubscribe(root, data);
      if fault { return; }
      root := r;
      if Trie.Count(t, data) > 0 {
        forall x ensures Count(x) == if x == data then Trie.Count(t, x) - 1
                                     else if TrieCounts.ShrinksAt(t.value, data, x) then 0 else Trie.Count(t, x)
        {
          assert TrieCounts.Removes(t.value, data, x);
        }
      }
    }
  }

  /** Any run of subscribe and unsubscribe on an empty trie, as long as only strings are unsubscribed
      that the trie still counts, leaves the trie that the run is said to leave. */
  method Replay(trie: Subscriptions, ops: seq<Op>)
    requires trie.root == null && Counted(ops)
    modifies trie
    ensures trie.Valid() && Run(ops) == Some(ViewOf(trie.root))
  {
    hide TrieNode.Valid, Trie.UnsubscribeN, Trie.Subscribe, Trie.ValidRoot;
    StartsEmpty();
    var n := 0;
    while n < |ops|
      invariant 0 <= n <= |ops| && trie.Valid() && fresh(NodesOf(trie.root))
      invariant Run(ops[..n]) == Some(ViewOf(trie.root))
    {
      assert ops[..n + 1][..n] == ops[..n];
      CountedPrefix(ops, n + 1);
      match ops[n] {
        case Sub(s) =>
          var code := trie.Subscribe(s);
        case Unsub(s) =>
          var fault, code := trie.Unsubscribe(s);
      }
      n := n + 1;
    }
    assert ops[..n] == ops;
  }

  lemma StartsEmpty()
    ensures Trie.ValidRoot(None) && Run([]) == Some(None)
  {
  }

  lemma {:induction false} CountedPrefix(ops: seq<Op>, n: nat)
    requires Counted(ops) && n <= |ops|
    ensures Counted(ops[..n])
    decreases |ops|
  {
    if n == |ops| {
      assert ops[..n] == ops;
    } else {
      CountedPrefix(Init(ops), n);
      assert Init(ops)[..n] == ops[..n];
    }
  }
}
