/** Whole runs of the subscription trie, and unsubscribing strings that are not subscribed. */
module TrieRuns {
  import opened Common
  import opened TrieKids
  import opened Trie
  import opened TrieCounts
  import opened TrieContract

  datatype Op = Sub(s: Str) | Unsub(s: Str)

  /** The plain ledger of subscriptions the contract speaks about. */
  function Post(m: multiset<Str>, op: Op): multiset<Str> {
    match op
    case Sub(s) => m + multiset{s}
    case Unsub(s) => m - multiset{s}
  }

  function Ledger(ops: seq<Op>): multiset<Str> {
    if ops == [] then multiset{} else Post(Ledger(ops[..|ops| - 1]), ops[|ops| - 1])
  }

  /** The trie after the operations, from the empty trie; None after a fault. */
  ghost function Run(ops: seq<Op>): Option<Root> {
    if ops == [] then Some(None)
    else
      var t := Run(ops[..|ops| - 1]);
      if t.None? || !ValidRoot(t.value) then None
      else
        match ops[|ops| - 1]
        case Sub(s) => Some(Subscribe(t.value, s))
        case Unsub(s) => var r := UnsubscribeN(t.value, s); if r.Fault? then None else Some(r.t)
  }

  ghost predicate RunDenotes(ops: seq<Op>) {
    Run(ops).Some? && ValidRoot(Run(ops).value) && Denotes(Run(ops).value, Ledger(ops))
  }

  /** The trie denotes the ledger after every operation of the run. */
  ghost predicate AlwaysDenotes(ops: seq<Op>) {
    RunDenotes(ops) && (ops != [] ==> AlwaysDenotes(Init(ops)))
  }

  /** Only live strings are unsubscribed. */
  predicate Legal(ops: seq<Op>) {
    ops != [] ==> Legal(Init(ops)) && (Last(ops).Unsub? ==> Last(ops).s in Ledger(Init(ops)))
  }

  /** The operation loses no live subscription other than the one it removes. */
  ghost predicate Safe(m: multiset<Str>, op: Op) {
    match op
    case Sub(s) => !exists p :: SubLoses(m, s, p)
    case Unsub(s) => !exists p :: UnsubLoses(m, s, p)
  }

  ghost predicate AllSafe(ops: seq<Op>) {
    ops != [] ==> AllSafe(Init(ops)) && Safe(Ledger(Init(ops)), Last(ops))
  }

  /** One step of a run that is still right stays right exactly when the step is safe. */
  lemma {:induction false} RunStep(ops: seq<Op>)
    requires ops != [] && RunDenotes(Init(ops))
    requires Last(ops).Unsub? ==> Last(ops).s in Ledger(Init(ops))
    ensures Run(ops).Some? && ValidRoot(Run(ops).value)
    ensures Denotes(Run(ops).value, Ledger(ops)) <==> Safe(Ledger(Init(ops)), Last(ops))
  {
    var t, m := Run(Init(ops)).value, Ledger(Init(ops));
    match Last(ops)
    case Sub(s) =>
      SubscribeExact(t, m, s);
      SubscribeMeetsContract(t, m, s);
    case Unsub(s) =>
      UnsubscribeExact(t, m, s);
      UnsubscribeMeetsContract(t, m, s);
  }

  /** Over every run that unsubscribes live strings only: the trie denotes the ledger all along
      exactly when no operation loses a live subscription. */
  lemma {:induction false} RunExact(ops: seq<Op>)
    requires Legal(ops)
    ensures AlwaysDenotes(ops) <==> AllSafe(ops)
  {
    if ops != [] {
      RunExact(Init(ops));
      if AlwaysDenotes(Init(ops)) { RunStep(ops); }
    }
  }

  /** Only strings the trie still counts are unsubscribed. */
  ghost predicate Counted(ops: seq<Op>) {
    ops != [] ==>
      && Counted(Init(ops))
      && (Last(ops).Unsub? ==> Run(Init(ops)).Some? && Count(Run(Init(ops)).value, Last(ops).s) > 0)
  }

  /** Even where counts are lost the shape is kept, over every run. */
  lemma {:induction false} RunKeepsShape(ops: seq<Op>)
    requires Counted(ops)
    ensures Run(ops).Some? && ValidRoot(Run(ops).value)
  {
    if ops != [] {
      RunKeepsShape(Init(ops));
      var t := Run(Init(ops)).value;
      match Last(ops)
      case Sub(s) =>
        if t.Some? { SubscribeValid(t.value, s); } else { BuildValid(s); }
      case Unsub(s) =>
        UnsubscribeCount(t.value, s, s);
    }
  }

  // ---------------------------------------------------------------- runs that lose a count

  /** Subscriptions to the k one-byte strings below k, after one to the empty string or without it. */
  function Fan(k: nat, root: bool): seq<Op>
    requires k <= 256
  {
    if k == 0 then (if root then [Sub([])] else []) else Fan(k - 1, root) + [Sub([(k - 1) as byte])]
  }

  lemma {:induction false} LedgerStep(ops: seq<Op>, op: Op)
    ensures Init(ops + [op]) == ops && Last(ops + [op]) == op
    ensures Ledger(ops + [op]) == Post(Ledger(ops), op)
  {
  }

  lemma {:induction false} SafeStep(ops: seq<Op>, op: Op)
    requires Legal(ops) && AllSafe(ops)
    requires op.Unsub? ==> op.s in Ledger(ops)
    requires Safe(Ledger(ops), op)
    ensures Legal(ops + [op]) && AllSafe(ops + [op])
  {
    hide Ledger, Safe;
    LedgerStep(ops, op);
  }

  lemma {:induction false} OneMore(m: multiset<Str>, s: Str, x: Str)
    ensures (m + multiset{s})[x] == m[x] + if x == s then 1 else 0
  {
  }

  lemma {:induction false} FanLedger(k: nat, root: bool, x: Str)
    requires k <= 256
    ensures Ledger(Fan(k, root))[x] == if (root && x == []) || (|x| == 1 && x[0] < k) then 1 else 0
  {
    hide Ledger;
    NoOps();
    if k == 0 {
      if root {
        LedgerStep([], Sub([]));
        OneMore(multiset{}, [], x);
        assert [] + [Sub([])] == Fan(0, root);
      }
    } else {
      FanLedger(k - 1, root, x);
      var c: byte := k - 1;
      LedgerStep(Fan(k - 1, root), Sub([c]));
      OneMore(Ledger(Fan(k - 1, root)), [c], x);
      assert x == [c] <==> |x| == 1 && x[0] == c;
    }
  }

  lemma NoOps()
    ensures Ledger([]) == multiset{} && Legal([]) && AllSafe([])
  {
  }

  function BytesBelow(k: nat): (b: set<byte>)
    requires k <= 256
    ensures |b| == k
    ensures forall c: byte :: c in b <==> c < k
  {
    if k == 0 then {} else BytesBelow(k - 1) + {(k - 1) as byte}
  }

  lemma {:induction false} FanNext(k: nat, root: bool)
    requires k <= 256
    ensures NextBytes(Ledger(Fan(k, root)), []) == BytesBelow(k)
  {
    var m := Ledger(Fan(k, root));
    forall c: byte
      ensures Continues(m, [], c) <==> c < k
    {
      if c < k {
        FanLedger(k, root, [c]);
        assert [c] in m && [] + [c] <= [c];
      } else if x :| x in m && [] + [c] <= x {
        FanLedger(k, root, x);
      }
    }
  }

  lemma {:induction false} FanSafe(k: nat, root: bool)
    requires k <= if root then SPARSE_MAX else 256
    ensures Legal(Fan(k, root)) && AllSafe(Fan(k, root))
  {
    hide Ledger, Legal, AllSafe, Safe;
    NoOps();
    if k == 0 {
      if root {
        EmptyIsSafe(multiset{});
        SafeStep([], Sub([]));
        assert [] + [Sub([])] == Fan(0, root);
      }
    } else {
      FanSafe(k - 1, root);
      FanStepSafe(k - 1, root);
      SafeStep(Fan(k - 1, root), Sub([(k - 1) as byte]));
    }
  }

  lemma {:induction false} EmptyIsSafe(m: multiset<Str>)
    ensures Safe(m, Sub([]))
  {
  }

  lemma {:induction false} FanStepSafe(k: nat, root: bool)
    requires k < if root then SPARSE_MAX else 256
    ensures Safe(Ledger(Fan(k, root)), Sub([k as byte]))
  {
    hide Ledger, NextBytes;
    FanNext(k, root);
    FanLedger(k, root, []);
    var m, s := Ledger(Fan(k, root)), [k as byte];
    forall p ensures !SubLoses(m, s, p) {
      if p < s { assert p == []; }
    }
  }

  lemma {:induction false} LossStep(ops: seq<Op>, op: Op, p: Str)
    requires RunDenotes(ops)
    requires match op
             case Sub(s) => SubLoses(Ledger(ops), s, p)
             case Unsub(s) => s in Ledger(ops) && UnsubLoses(Ledger(ops), s, p)
    ensures Count(Run(ops).value, p) > 0
    ensures Run(ops + [op]).Some? && Count(Run(ops + [op]).value, p) == 0
  {
    hide Ledger, NextBytes, Valid;
    LedgerStep(ops, op);
    match op
    case Sub(s) => SubscribeExact(Run(ops).value, Ledger(ops), s);
    case Unsub(s) => UnsubscribeExact(Run(ops).value, Ledger(ops), s);
  }

  /** One one-byte subscription more than SPARSE_MAX makes the code forget a subscription to
      the empty string. */
  lemma {:induction false} NextChildLosesCount()
    ensures exists ops, s :: Legal(ops) && RunDenotes(ops) && Count(Run(ops).value, []) > 0
                             && Run(ops + [Sub(s)]).Some? && Count(Run(ops + [Sub(s)]).value, []) == 0
  {
    var k: nat :| k == SPARSE_MAX;
    var ops, s: Str := Fan(k, true), [k as byte];
    FanSafe(k, true);
    RunExact(ops);
    FanLedger(k, true, []);
    FanNext(k, true);
    assert SubLoses(Ledger(ops), s, []);
    LossStep(ops, Sub(s), []);
  }

  /** One more than SPARSE_MAX one-byte subscriptions, then one to the empty string. */
  lemma {:induction false} FullFan(k: nat)
    requires k == SPARSE_MAX + 1
    ensures var ops := Fan(k, false) + [Sub([])];
            && Legal(ops) && RunDenotes(ops)
            && [(k - 1) as byte] in Ledger(ops) && UnsubLoses(Ledger(ops), [(k - 1) as byte], [])
  {
    hide Ledger, Legal, AllSafe, Safe, NextBytes, AlwaysDenotes;
    var fan := Fan(k, false);
    FanSafe(k, false);
    EmptyIsSafe(Ledger(fan));
    SafeStep(fan, Sub([]));
    LedgerStep(fan, Sub([]));
    RunExact(fan + [Sub([])]);
    DenotesNow(fan + [Sub([])]);
    FullFanLoses(k, Ledger(fan + [Sub([])]));
  }

  lemma DenotesNow(ops: seq<Op>)
    requires AlwaysDenotes(ops)
    ensures RunDenotes(ops)
  {
  }

  lemma {:induction false} EmptyContinuesNothing(m: multiset<Str>)
    ensures NextBytes(m + multiset{[]}, []) == NextBytes(m, [])
  {
    var m': multiset<Str> := m + multiset{[]};
    forall c: byte ensures Continues(m', [], c) <==> Continues(m, [], c) {
      if x :| x in m && [] + [c] <= x { assert x in m'; }
      if x :| x in m' && [] + [c] <= x { assert x != [] && x in m; }
    }
  }

  lemma {:induction false} FanMember(k: nat, x: Str)
    requires k <= 256
    ensures (Ledger(Fan(k, false)) + multiset{[]})[x] == if x == [] || (|x| == 1 && x[0] < k) then 1 else 0
  {
    FanLedger(k, false, x);
    OneMore(Ledger(Fan(k, false)), [], x);
  }

  lemma {:induction false} FullFanLoses(k: nat, m: multiset<Str>)
    requires k == SPARSE_MAX + 1 && m == Ledger(Fan(k, false)) + multiset{[]}
    ensures [(k - 1) as byte] in m && UnsubLoses(m, [(k - 1) as byte], [])
  {
    hide Ledger, Fan, NextBytes, BytesBelow;
    var c: byte := k - 1;
    FanMember(k, []);
    FanMember(k, [c]);
    FanNext(k, false);
    EmptyContinuesNothing(Ledger(Fan(k, false)));
    LastContinuation(k, m, c);
  }

  lemma {:induction false} LastContinuation(k: nat, m: multiset<Str>, c: byte)
    requires c < k <= 256 && m == Ledger(Fan(k, false)) + multiset{[]}
    ensures c !in NextBytes(m - multiset{[c]}, [])
  {
    hide Ledger, Fan;
    forall x: Str | [] + [c] <= x ensures x !in m - multiset{[c]} {
      FanMember(k, x);
      if x != [c] { assert |x| > 1; }
    }
  }

  /** Removing one of them makes the code forget the subscription to the empty string. */
  lemma {:induction false} LastChildLosesCount()
    ensures exists ops, s :: Legal(ops) && RunDenotes(ops) && s in Ledger(ops) && Count(Run(ops).value, []) > 0
                             && Run(ops + [Unsub(s)]).Some? && Count(Run(ops + [Unsub(s)]).value, []) == 0
  {
    var k: nat :| k == SPARSE_MAX + 1;
    FullFan(k);
    LossStep(Fan(k, false) + [Sub([])], Unsub([(k - 1) as byte]), []);
  }

  // ---------------------------------------------------------------- strings not subscribed

  /** Below the root, the walk along s ends at a pointer or at the end of a node's prefix. */
  predicate RunsOut(t: Root, s: Str)
    decreases |s|
  {
    || s == []
    || t.None?
    || (&& t.value.prefix <= s
        && var rest := s[|t.value.prefix|..];
        && (rest == []
            || (HasSlot(t.value.kids, rest[0]) && RunsOut(Lookup(t.value.kids, rest[0]), rest[1..]))))
  }

  /** The strings that unsubscribe mistakes for subscriptions. */
  predicate Stray(t: Root, s: Str) {
    if s == [] then t.Some? && t.value.refcount > 0
    else
      || t.None?
      || (&& t.value.prefix <= s
          && var rest := s[|t.value.prefix|..];
          && rest != []
          && HasSlot(t.value.kids, rest[0])
          && RunsOut(Lookup(t.value.kids, rest[0]), rest[1..]))
  }

  /** A call from above that finds nothing must return 0 and leave the node alone. */
  lemma {:induction false} UntouchedBelow(t: Root, s: Str)
    requires ValidRoot(t) && Count(t, s) == 0
    ensures UnsubscribeN(t, s) == Return(0, t) <==> !RunsOut(t, s)
    decreases |s|
  {
    if s != [] && t.Some? && t.value.prefix <= s {
      var n := t.value;
      var rest := s[|n.prefix|..];
      if rest != [] && HasSlot(n.kids, rest[0]) {
        StrayChild(n, s);
        UntouchedBelow(Lookup(n.kids, rest[0]), rest[1..]);
      }
    }
  }

  /** What the parent of a child that was not left alone returns. */
  lemma {:induction false} StrayChild(n: Node, s: Str)
    requires Valid(n) && s != [] && n.prefix <= s && |s| > |n.prefix| && HasSlot(n.kids, s[|n.prefix|..][0])
    requires CountN(n, s) == 0
    ensures var rest := s[|n.prefix|..];
            var ch := Lookup(n.kids, rest[0]);
            && Count(ch, rest[1..]) == 0
            && (UnsubscribeN(ch, rest[1..]) == Return(0, ch) ==> UnsubscribeN(Some(n), s) == Return(0, Some(n)))
            && (UnsubscribeN(ch, rest[1..]) != Return(0, ch)
                ==> UnsubscribeN(Some(n), s) != Return(0, Some(n)) && UnsubscribeN(Some(n), s) != Return(-EINVAL, Some(n)))
  {
    var rest := s[|n.prefix|..];
    var c, ch := rest[0], Lookup(n.kids, rest[0]);
    match UnsubscribeN(ch, rest[1..])
    case Fault =>
    case Return(code, None) =>
    case Return(code, Some(ch')) =>
      ReplaceLaw(n.kids, c, ch');
      if ch == Some(ch') {
        assert Replace(n.kids, c, ch') == n.kids;
      } else {
        assert Lookup(Replace(n.kids, c, ch'), c) != Lookup(n.kids, c);
      }
  }

  /** Unsubscribing a string that is not subscribed leaves the trie as it is, with a code that reports no
      removal, exactly when the walk does not stray; the code is -EINVAL if it ends at the root. */
  lemma {:induction false} UnsubscribeOthers(t: Root, s: Str)
    requires ValidRoot(t) && Count(t, s) == 0
    ensures (UnsubscribeN(t, s) == Return(0, t) || UnsubscribeN(t, s) == Return(-EINVAL, t)) <==> !Stray(t, s)
    ensures !Stray(t, s) ==>
              UnsubscribeN(t, s) == Return(if s == [] || (t.Some? && s == t.value.prefix) then -EINVAL else 0, t)
  {
    if s != [] && t.Some? && t.value.prefix <= s {
      var n := t.value;
      var rest := s[|n.prefix|..];
      if rest != [] && HasSlot(n.kids, rest[0]) {
        StrayChild(n, s);
        UntouchedBelow(Lookup(n.kids, rest[0]), rest[1..]);
      }
    }
  }

  /** Unsubscribing the empty string removes the only subscription of a one-node trie. */
  lemma {:induction false} StrayRemovesAnother(s: Str)
    requires 0 < |s| <= PREFIX_MAX
    ensures Count(Subscribe(None, s), []) == 0
    ensures ValidRoot(Subscribe(None, s))
    ensures UnsubscribeN(Subscribe(None, s), []) == Return(1, None)
  {
  }

  // ---------------------------------------------------------------- matching past the data

  /** With subscriptions to two one-byte strings the empty data does not match; but with one of the bytes
      in memory after it, it does. */
  lemma {:induction false} MatchReadsOn(a: byte, b: byte)
    requires a != b
    ensures var t := Subscribe(Subscribe(None, [a]), [b]);
            ValidRoot(t) && !LivePrefix(t, []) && Match(t, [], [a])
  {
    var t1: Root := Some(Node(1, [a], NoKids));
    assert Subscribe(None, [a]) == t1;
    BuildValid([a]);
    var leaf := Node(1, [], NoKids);
    var top := Node(0, [], Sparse([a], [leaf]));
    assert CheckPrefix([a], [b]) == 0;
    assert Split(t1.value, 0) == top by { assert [a][..0] == [] && [a][1..] == []; }
    assert Build([]) == leaf;
    var t := Subscribe(t1, [b]);
    assert [b][0..] == [b] && [b][1..] == [];
    assert t == Some(Extend(top, [b]));
    assert Add(top.kids, b, leaf) == Sparse([a] + [b], [leaf] + [leaf]);
    assert [a] + [b] == [a, b] && [leaf] + [leaf] == [leaf, leaf];
    assert t.value == Node(0, [], Sparse([a, b], [leaf, leaf]));
    SubscribeValid(t1.value, [b]);
    var none: Str := [];
    assert none[0..] == none && [a][1..] == none;
    assert IndexOf([a, b], a) == 0;
    assert MatchN(leaf, [], []);
    forall p | p <= [] ensures Count(t, p) == 0 { assert p == []; }
  }
}
