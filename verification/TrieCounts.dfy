/** What every trie operation does to the counts of all strings, and to the shape. */
module TrieCounts {
  import opened Common
  import opened TrieKids
  import opened Trie

  lemma {:induction false} PrefixShift(n: Node, p: Str, s: Str)
    ensures CountN(n.(prefix := p + n.prefix), s) == if p <= s then CountN(n, s[|p|..]) else 0
  {
  }

  /** A string entering child c counts what it counts below that child. */
  lemma {:induction false} CountBelow(n: Node, c: byte, x: Str)
    requires n.prefix + [c] <= x
    ensures CountN(n, x) == Count(Lookup(n.kids, c), x[|n.prefix| + 1..])
  {
  }

  lemma {:induction false} ReplaceCount(n: Node, c: byte, ch: Node, x: Str)
    requires Shape(n.kids) && Lookup(n.kids, c).Some?
    ensures CountN(n.(kids := Replace(n.kids, c, ch)), x)
            == if n.prefix + [c] <= x then CountN(ch, x[|n.prefix| + 1..]) else CountN(n, x)
  {
  }

  lemma {:induction false} CompactCount(n: Node, s: Str)
    requires Valid(n)
    ensures CountN(Compact(n), s) == CountN(n, s)
  {
    if Compact(n) != n {
      var c, ch := n.kids.keys[0], n.kids.subs[0];
      var p := n.prefix + [c];
      assert p + ch.prefix == n.prefix + [c] + ch.prefix;
      PrefixShift(ch, p, s);
      if n.prefix <= s && |s| > |n.prefix| {
        var rest := s[|n.prefix|..];
        assert Lookup(n.kids, rest[0]) == if rest[0] == c then Some(ch) else None;
        assert p <= s <==> rest[0] == c;
        assert s[|p|..] == rest[1..];
      }
    }
  }

  lemma {:induction false} CompactValid(n: Node)
    requires Valid(n)
    ensures Valid(Compact(n))
  {
    if Compact(n) != n {
      assert Lookup(n.kids, n.kids.keys[0]) == Some(n.kids.subs[0]);
    }
  }

  lemma {:induction false} SplitCount(n: Node, pos: nat, s: Str)
    requires Valid(n) && pos < |n.prefix|
    ensures CountN(Split(n, pos), s) == CountN(n, s)
  {
    var c, ch := n.prefix[pos], n.(prefix := n.prefix[pos + 1..]);
    var p := n.prefix[..pos + 1];
    assert p + ch.prefix == n.prefix;
    PrefixShift(ch, p, s);
    var q := n.prefix[..pos];
    assert p == q + [c];
    if q <= s && |s| > |q| {
      var rest := s[|q|..];
      CompactCount(ch, rest[1..]);
      assert p <= s <==> rest[0] == c;
      assert s[|p|..] == rest[1..];
    }
  }

  lemma {:induction false} SplitValid(n: Node, pos: nat)
    requires Valid(n) && pos < |n.prefix|
    ensures Valid(Split(n, pos))
  {
    CompactValid(n.(prefix := n.prefix[pos + 1..]));
  }

  lemma {:induction false} BuildCount(s: Str, x: Str)
    ensures CountN(Build(s), x) == if x == s then 1 else 0
    decreases |s|
  {
    if |s| > PREFIX_MAX {
      var p := s[..PREFIX_MAX];
      if p <= x && |x| > PREFIX_MAX {
        assert x[..PREFIX_MAX] == p;
        BuildCount(s[PREFIX_MAX + 1..], x[PREFIX_MAX..][1..]);
        assert s == p + [s[PREFIX_MAX]] + s[PREFIX_MAX + 1..];
        assert x == p + [x[PREFIX_MAX]] + x[PREFIX_MAX..][1..];
      }
    } else if s <= x && |x| == |s| {
      assert x == s;
    }
  }

  lemma {:induction false} BuildValid(s: Str)
    ensures Valid(Build(s))
    decreases |s|
  {
    if |s| > PREFIX_MAX {
      BuildValid(s[PREFIX_MAX + 1..]);
    }
  }

  // ---------------------------------------------------------------- subscribe

  lemma {:induction false} ExtendValid(n: Node, rest: Str)
    requires Valid(n) && (rest != [] ==> Lookup(n.kids, rest[0]).None?)
    ensures Valid(Extend(n, rest))
  {
    if rest != [] {
      AddLaw(n.kids, rest[0], Build(rest[1..]));
      BuildValid(rest[1..]);
    }
  }

  /** Extending a node counts one more subscription to the new string, and forgets the node's
      own when its child array changes mode. */
  lemma {:induction false} ExtendCount(n: Node, rest: Str, x: Str)
    requires Valid(n) && (rest != [] ==> Lookup(n.kids, rest[0]).None?)
    ensures CountN(Extend(n, rest), x)
            == if x == n.prefix + rest then CountN(n, x) + 1
               else if x == n.prefix && AddConverts(n.kids) then 0
               else CountN(n, x)
  {
    if rest != [] {
      var c, b := rest[0], Build(rest[1..]);
      AddLaw(n.kids, c, b);
      if n.prefix <= x && |x| > |n.prefix| {
        var y := x[|n.prefix|..];
        assert x == n.prefix + y;
        if y[0] == c {
          BuildCount(rest[1..], y[1..]);
          assert y == [c] + y[1..] && rest == [c] + rest[1..];
        }
      }
    } else if n.prefix <= x && |x| == |n.prefix| {
      assert x == n.prefix;
    }
  }

  /** The walk along s ends in a full sparse node of string p that must become dense. */
  predicate ConvertsAt(n: Node, s: Str, p: Str)
    decreases |s|
  {
    && n.prefix <= s
    && var rest := s[|n.prefix|..];
    && rest != []
    && var ch := Lookup(n.kids, rest[0]);
    && if ch.None? then AddConverts(n.kids) && p == n.prefix
       else n.prefix + [rest[0]] <= p && ConvertsAt(ch.value, rest[1..], p[|n.prefix| + 1..])
  }

  lemma {:induction false} SubscribeValid(n: Node, s: Str)
    requires Valid(n)
    ensures Valid(SubscribeN(n, s))
    decreases |s|
  {
    var pos := CheckPrefix(n.prefix, s);
    var rest := s[pos..];
    if pos < |n.prefix| {
      SplitValid(n, pos);
      ExtendValid(Split(n, pos), rest);
    } else if rest != [] {
      var ch := Lookup(n.kids, rest[0]);
      if ch.None? {
        ExtendValid(n, rest);
      } else {
        SubscribeValid(ch.value, rest[1..]);
        ReplaceLaw(n.kids, rest[0], SubscribeN(ch.value, rest[1..]));
      }
    }
  }

  lemma {:induction false} SubscribeCount(n: Node, s: Str, x: Str)
    requires Valid(n)
    ensures CountN(SubscribeN(n, s), x)
            == if x == s then CountN(n, s) + 1 else if ConvertsAt(n, s, x) then 0 else CountN(n, x)
    decreases |s|, 1
  {
    var pos := CheckPrefix(n.prefix, s);
    var rest := s[pos..];
    assert s == s[..pos] + rest;
    if pos < |n.prefix| {
      assert !(n.prefix <= s);
      SplitValid(n, pos);
      ExtendCount(Split(n, pos), rest, x);
      SplitCount(n, pos, x);
    } else {
      assert n.prefix <= s;
      if rest == [] {
        assert s == n.prefix;
        if n.prefix <= x && |x| == |n.prefix| { assert x == s; }
      } else {
        if Lookup(n.kids, rest[0]).None? {
          ExtendCount(n, rest, x);
        } else {
          SubscribeCountBelow(n, s, x);
        }
      }
    }
  }

  lemma {:induction false} SubscribeCountBelow(n: Node, s: Str, x: Str)
    requires Valid(n) && n.prefix <= s && |s| > |n.prefix| && Lookup(n.kids, s[|n.prefix|]).Some?
    ensures CountN(SubscribeN(n, s), x)
            == if x == s then CountN(n, s) + 1 else if ConvertsAt(n, s, x) then 0 else CountN(n, x)
    decreases |s|, 0
  {
    hide SubscribeN, ConvertsAt, CountN, Replace, Shape;
    var c := s[|n.prefix|];
    var ch, t := Lookup(n.kids, c).value, s[|n.prefix| + 1..];
    SubscribeBelow(n, s);
    ReplaceCount(n, c, SubscribeN(ch, t), x);
    if n.prefix + [c] <= x {
      var y := x[|n.prefix| + 1..];
      CountBelow(n, c, x);
      CountBelow(n, c, s);
      SubscribeCount(ch, t, y);
      assert x == n.prefix + [c] + y && s == n.prefix + [c] + t;
      ConvertsBelow(n, s, x);
    } else {
      ConvertsBelow(n, s, x);
    }
  }

  lemma {:induction false} SubscribeBelow(n: Node, s: Str)
    requires Valid(n) && n.prefix <= s && |s| > |n.prefix| && Lookup(n.kids, s[|n.prefix|]).Some?
    ensures var c, t := s[|n.prefix|], s[|n.prefix| + 1..];
            && n.prefix + [c] <= s
            && SubscribeN(n, s) == n.(kids := Replace(n.kids, c, SubscribeN(Lookup(n.kids, c).value, t)))
  {
    var m := |n.prefix|;
    CheckPrefixFull(n.prefix, s);
    assert n.prefix + [s[m]] == s[..m + 1];
    var rest := s[m..];
    assert rest[0] == s[m] && rest[1..] == s[m + 1..];
    var ch := Lookup(n.kids, rest[0]);
    var sub := SubscribeN(ch.value, rest[1..]);
    assert SubscribeN(n, s) == n.(kids := Replace(n.kids, rest[0], sub));
  }

  lemma {:induction false} CheckPrefixFull(prefix: Str, s: Str)
    requires prefix <= s
    ensures CheckPrefix(prefix, s) == |prefix|
  {
  }

  lemma {:induction false} ConvertsBelow(n: Node, s: Str, x: Str)
    requires Valid(n) && n.prefix <= s && |s| > |n.prefix| && Lookup(n.kids, s[|n.prefix|]).Some?
    ensures var c, t := s[|n.prefix|], s[|n.prefix| + 1..];
            ConvertsAt(n, s, x) <==> n.prefix + [c] <= x && ConvertsAt(Lookup(n.kids, c).value, t, x[|n.prefix| + 1..])
  {
  }

  // ---------------------------------------------------------------- unsubscribe

  lemma {:induction false} FoundCount(n: Node, x: Str)
    requires Valid(n) && n.refcount > 0
    ensures var r := Found(Some(n));
            && r.Return?
            && r.code == (if n.refcount == 1 then 1 else 0)
            && ValidRoot(r.t)
            && Count(r.t, x) == if x == n.prefix then n.refcount - 1 else CountN(n, x)
  {
    var n' := n.(refcount := n.refcount - 1);
    if n.prefix <= x && |x| == |n.prefix| { assert x == n.prefix; }
    if n.refcount == 1 {
      if Size(n.kids) == 0 {
        assert forall c: byte :: Lookup(n.kids, c).None?;
      } else {
        CompactValid(n');
        CompactCount(n', x);
      }
    }
  }

  /** What is left of the child array once the child under c is gone. */
  lemma {:induction false} PrunedKids(n: Node, c: byte, n': Node, x: Str)
    requires Valid(n) && Lookup(n.kids, c).Some?
    requires n'.prefix == n.prefix && Remove(n.kids, c) == Some(n'.kids)
    requires n'.refcount == n.refcount || (n'.refcount == 0 && n.kids.Dense?)
    ensures Size(n'.kids) > 0 || n'.refcount > 0 ==> Valid(n')
    ensures CountN(n', x)
            == if n.prefix + [c] <= x then 0 else if x == n.prefix then n'.refcount else CountN(n, x)
  {
    RemoveLaw(n.kids, c);
    if n.prefix + [c] <= x {
      CountBelow(n', c, x);
    } else if n.prefix <= x && |x| > |n.prefix| {
      assert x[|n.prefix|..][0] != c;
    } else if n.prefix <= x {
      assert x == n.prefix;
    }
  }

  lemma {:induction false} PruneCount(n: Node, c: byte, x: Str)
    requires Valid(n) && Lookup(n.kids, c).Some?
    ensures var r := Prune(n, c);
            && r.Return? && r.code == 1
            && ValidRoot(r.t)
            && Count(r.t, x)
               == if n.prefix + [c] <= x then 0
                  else if x == n.prefix && RemoveConverts(n.kids) then 0
                  else CountN(n, x)
  {
    hide Remove;
    RemoveLaw(n.kids, c);
    var n' := Node(if RemoveConverts(n.kids) then 0 else n.refcount, n.prefix, Remove(n.kids, c).value);
    PrunedKids(n, c, n', x);
    if n.kids.Sparse? {
      if Size(n'.kids) == 0 && n'.refcount == 0 {
        assert forall d: byte :: Lookup(n'.kids, d).None?;
      } else {
        CompactValid(n');
        CompactCount(n', x);
      }
    }
  }

  predicate Gone(r: Outcome) { r.Return? && r.t.None? }

  /** Removing s takes the last child but SPARSE_MAX from the dense node of string p. */
  predicate ShrinksAt(n: Node, s: Str, p: Str)
    requires Valid(n)
    decreases |s|
  {
    && n.prefix <= s
    && var rest := s[|n.prefix|..];
    && rest != []
    && var ch := Lookup(n.kids, rest[0]);
    && ch.Some?
    && if Gone(UnsubscribeN(ch, rest[1..])) then RemoveConverts(n.kids) && p == n.prefix
       else n.prefix + [rest[0]] <= p && ShrinksAt(ch.value, rest[1..], p[|n.prefix| + 1..])
  }

  /** What removing one subscription to s leaves of the count of x. */
  ghost predicate Removes(n: Node, s: Str, x: Str)
    requires Valid(n)
  {
    var r := UnsubscribeN(Some(n), s);
    && r.Return?
    && r.code == (if CountN(n, s) == 1 then 1 else 0)
    && ValidRoot(r.t)
    && Count(r.t, x)
       == if x == s then CountN(n, s) - 1
          else if ShrinksAt(n, s, x) then 0
          else CountN(n, x)
  }

  lemma {:induction false} UnsubscribeCount(n: Node, s: Str, x: Str)
    requires Valid(n) && CountN(n, s) > 0
    ensures Removes(n, s, x)
    decreases |s|
  {
    if |s| == |n.prefix| {
      assert s == n.prefix;
      FoundCount(n, x);
    } else {
      var c := s[|n.prefix|];
      var ch, t := Lookup(n.kids, c).value, s[|n.prefix| + 1..];
      UnsubscribeBelow(n, s);
      CountBelow(n, c, s);
      UnsubscribeCount(ch, t, if n.prefix + [c] <= x then x[|n.prefix| + 1..] else []);
      if UnsubscribeN(Some(ch), t).t.None? {
        UnsubscribeCount(ch, t, t);
        ChildGone(n, s, x);
      } else {
        ChildKept(n, s, x);
      }
    }
  }

  /** A node that disappears was not converted, and neither was anything below it. */
  lemma {:induction false} GoneDoesNotShrink(n: Node, s: Str, p: Str)
    requires Valid(n) && Gone(UnsubscribeN(Some(n), s))
    ensures !ShrinksAt(n, s, p)
  {
  }

  lemma {:induction false} ChildGone(n: Node, s: Str, x: Str)
    requires Valid(n) && n.prefix <= s && |s| > |n.prefix| && Lookup(n.kids, s[|n.prefix|]).Some?
    requires CountN(n, s) > 0
    requires var ch, t := Lookup(n.kids, s[|n.prefix|]).value, s[|n.prefix| + 1..];
             && Gone(UnsubscribeN(Some(ch), t))
             && Removes(ch, t, t)
             && Removes(ch, t, if n.prefix + [s[|n.prefix|]] <= x then x[|n.prefix| + 1..] else [])
    ensures Removes(n, s, x)
  {
    var c, t := s[|n.prefix|], s[|n.prefix| + 1..];
    UnsubscribeBelow(n, s);
    CountBelow(n, c, s);
    ShrinksBelow(n, s, x);
    PruneCount(n, c, x);
    assert s == n.prefix + [c] + t;
    if n.prefix + [c] <= x {
      GoneDoesNotShrink(Lookup(n.kids, c).value, t, x[|n.prefix| + 1..]);
      CountBelow(n, c, x);
      assert x == n.prefix + [c] + x[|n.prefix| + 1..];
    }
  }

  lemma {:induction false} ChildKept(n: Node, s: Str, x: Str)
    requires Valid(n) && n.prefix <= s && |s| > |n.prefix| && Lookup(n.kids, s[|n.prefix|]).Some?
    requires CountN(n, s) > 0
    requires var ch, t := Lookup(n.kids, s[|n.prefix|]).value, s[|n.prefix| + 1..];
             && UnsubscribeN(Some(ch), t).Return? && UnsubscribeN(Some(ch), t).t.Some?
             && Removes(ch, t, if n.prefix + [s[|n.prefix|]] <= x then x[|n.prefix| + 1..] else [])
    ensures Removes(n, s, x)
  {
    var c, t := s[|n.prefix|], s[|n.prefix| + 1..];
    var ch' := UnsubscribeN(Lookup(n.kids, c), t).t.value;
    UnsubscribeBelow(n, s);
    CountBelow(n, c, s);
    ShrinksBelow(n, s, x);
    ReplaceValid(n, c, ch');
    ReplaceCount(n, c, ch', x);
    assert s == n.prefix + [c] + t;
    if n.prefix + [c] <= x {
      CountBelow(n, c, x);
      assert x == n.prefix + [c] + x[|n.prefix| + 1..];
    }
  }

  lemma {:induction false} ReplaceValid(n: Node, c: byte, ch: Node)
    requires Valid(n) && Lookup(n.kids, c).Some? && Valid(ch)
    ensures Valid(n.(kids := Replace(n.kids, c, ch)))
  {
    ReplaceLaw(n.kids, c, ch);
  }

  lemma {:induction false} UnsubscribeBelow(n: Node, s: Str)
    requires Valid(n) && n.prefix <= s && |s| > |n.prefix| && Lookup(n.kids, s[|n.prefix|]).Some?
    ensures var c, t := s[|n.prefix|], s[|n.prefix| + 1..];
            && n.prefix + [c] <= s
            && UnsubscribeN(Some(n), s)
               == match UnsubscribeN(Lookup(n.kids, c), t)
                  case Fault => Fault
                  case Return(code, None) => Prune(n, c)
                  case Return(code, Some(ch)) =>
                    Return(if code == 0 then 0 else 1, Some(n.(kids := Replace(n.kids, c, ch))))
  {
  }

  lemma {:induction false} ShrinksBelow(n: Node, s: Str, x: Str)
    requires Valid(n) && n.prefix <= s && |s| > |n.prefix| && Lookup(n.kids, s[|n.prefix|]).Some?
    ensures var c, t := s[|n.prefix|], s[|n.prefix| + 1..];
            var ch := Lookup(n.kids, c);
            ShrinksAt(n, s, x)
            <==> if Gone(UnsubscribeN(ch, t)) then RemoveConverts(n.kids) && x == n.prefix
                 else n.prefix + [c] <= x && ShrinksAt(ch.value, t, x[|n.prefix| + 1..])
  {
  }
}
