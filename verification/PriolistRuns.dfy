/** How long a pipe waits for its turn in a prioritised list (protocols/utils/priolist.c). */
module PriolistRuns {
  import opened Common
  import opened Priolist

  /** What happens to the list: the current pipe is served, a pipe becomes active, a pipe is removed. */
  datatype Step = Serve(release: bool) | Wake(pipe: Pipe, level: nat) | Leave(pipe: Pipe, level: nat)

  predicate Ok(ls: seq<Level>) {
    |ls| == SLOTS && forall i | 0 <= i < SLOTS :: LevelOk(ls[i])
  }

  predicate Enabled(ls: seq<Level>, e: Step)
    requires Ok(ls)
  {
    match e
    case Serve(_) => Top(ls) < SLOTS
    case Wake(pipe, p) => p < SLOTS && pipe !in Order(ls[p])
    case Leave(pipe, p) => p < SLOTS && pipe in Order(ls[p])
  }

  function Do(ls: seq<Level>, e: Step): (ls': seq<Level>)
    requires Ok(ls) && Enabled(ls, e)
    ensures Ok(ls')
  {
    match e
    case Serve(release) =>
      NextOrder(ls[Top(ls)], release);
      ls[Top(ls) := Next(ls[Top(ls)], release)]
    case Wake(pipe, p) =>
      InsertOrder(ls[p], pipe);
      ls[p := Insert(ls[p], pipe)]
    case Leave(pipe, p) =>
      RemoveOrder(ls[p], pipe);
      ls[p := Remove(ls[p], pipe)]
  }

  predicate Plays(ls: seq<Level>, steps: seq<Step>)
    requires Ok(ls)
    decreases |steps|
  {
    steps == [] || (Enabled(ls, steps[0]) && Plays(Do(ls, steps[0]), steps[1..]))
  }

  function Run(ls: seq<Level>, steps: seq<Step>): (ls': seq<Level>)
    requires Ok(ls) && Plays(ls, steps)
    ensures Ok(ls')
    decreases |steps|
  {
    if steps == [] then ls else Run(Do(ls, steps[0]), steps[1..])
  }

  /** The step serves pipe x of level p. */
  predicate Serves(ls: seq<Level>, e: Step, x: Pipe, p: nat)
    requires Ok(ls) && Enabled(ls, e)
  {
    e.Serve? && Top(ls) == p && ls[p].ahead[0] == x
  }

  /** In the run pipe x of level p is neither served nor removed. */
  predicate Waits(ls: seq<Level>, steps: seq<Step>, x: Pipe, p: nat)
    requires Ok(ls) && Plays(ls, steps)
    decreases |steps|
  {
    steps == []
    || (!Serves(ls, steps[0], x, p) && steps[0] != Leave(x, p) && Waits(Do(ls, steps[0]), steps[1..], x, p))
  }

  /** How often the run serves a pipe of level p. */
  function Turns(ls: seq<Level>, steps: seq<Step>, p: nat): nat
    requires Ok(ls) && Plays(ls, steps)
    decreases |steps|
  {
    if steps == [] then 0
    else (if steps[0].Serve? && Top(ls) == p then 1 else 0) + Turns(Do(ls, steps[0]), steps[1..], p)
  }

  /** How many pipes become active at level p while x is behind the cursor: each is put before x. */
  function PushedBack(ls: seq<Level>, steps: seq<Step>, x: Pipe, p: nat): nat
    requires Ok(ls) && Plays(ls, steps) && p < SLOTS
    decreases |steps|
  {
    if steps == [] then 0
    else (if steps[0].Wake? && steps[0].level == p && x in ls[p].behind then 1 else 0)
         + PushedBack(Do(ls, steps[0]), steps[1..], x, p)
  }

  /** How many pipes of level p are removed while they are to be served before x. */
  function MadeWay(ls: seq<Level>, steps: seq<Step>, x: Pipe, p: nat): nat
    requires Ok(ls) && Plays(ls, steps) && p < SLOTS
    decreases |steps|
  {
    if steps == [] then 0
    else (if steps[0].Leave? && steps[0].level == p && Before(ls[p], steps[0].pipe, x) then 1 else 0)
         + MadeWay(Do(ls, steps[0]), steps[1..], x, p)
  }

  function Place(l: Level, x: Pipe): nat
    requires x in Order(l)
  {
    IndexOf(Order(l), x)
  }

  predicate Before(l: Level, pipe: Pipe, x: Pipe) {
    pipe in Order(l) && x in Order(l) && Place(l, pipe) < Place(l, x)
  }

  lemma {:induction false} ServeMovesUp(l: Level, release: bool, x: Pipe)
    requires LevelOk(l) && l.ahead != [] && x in Order(l) && l.ahead[0] != x
    ensures LevelOk(Next(l, release)) && x in Order(Next(l, release))
    ensures Place(Next(l, release), x) == Place(l, x) - 1
  {
    NextOrder(l, release);
    var s, k := Order(l), Place(l, x);
    var s' := Order(Next(l, release));
    assert s'[k - 1] == x && forall j | 0 <= j < k - 1 :: s'[j] == s[j + 1];
    IndexIs(s', x, k - 1);
  }

  lemma {:induction false} BehindCursor(l: Level, x: Pipe)
    requires LevelOk(l) && x in Order(l)
    ensures x in l.behind <==> Place(l, x) >= |l.ahead|
  {
    var k := Place(l, x);
    if k >= |l.ahead| { assert l.behind[k - |l.ahead|] == x; }
    if x in l.behind {
      var j :| 0 <= j < |l.behind| && l.behind[j] == x;
      assert Order(l)[|l.ahead| + j] == x;
    }
  }

  lemma {:induction false} WakeMovesDown(l: Level, pipe: Pipe, x: Pipe)
    requires LevelOk(l) && x in Order(l) && pipe !in Order(l)
    ensures x in Order(Insert(l, pipe))
    ensures Place(Insert(l, pipe), x) == Place(l, x) + if x in l.behind then 1 else 0
  {
    InsertOrder(l, pipe);
    var s, k := Order(l), Place(l, x);
    BehindCursor(l, x);
    var s', k' := Order(Insert(l, pipe)), if k < |l.ahead| then k else k + 1;
    assert s'[k'] == x;
    assert forall j | 0 <= j < k' :: s'[j] == if j < |l.ahead| then s[j] else if j == |l.ahead| then pipe else s[j - 1];
    IndexIs(s', x, k');
  }

  lemma {:induction false} LeaveMovesUp(l: Level, pipe: Pipe, x: Pipe)
    requires LevelOk(l) && x in Order(l) && pipe in Order(l) && pipe != x
    ensures x in Order(Remove(l, pipe))
    ensures Place(Remove(l, pipe), x) == Place(l, x) - if Before(l, pipe, x) then 1 else 0
  {
    RemoveOrder(l, pipe);
    var s, k, i := Order(l), Place(l, x), IndexOf(Order(l), pipe);
    var s', k' := Without(s, i), if k < i then k else k - 1;
    assert s'[k'] == x;
    assert forall j | 0 <= j < k' :: s'[j] == s[if j < i then j else j + 1];
    IndexIs(s', x, k');
  }

  /** In every run the place of a waiting pipe is settled: it moves up by one with every turn of its level
      and with every pipe that leaves from before it, and down by one with every pipe that becomes active
      while it is behind the cursor. */
  lemma {:induction false} WaitIsExact(ls: seq<Level>, steps: seq<Step>, x: Pipe, p: nat)
    requires Ok(ls) && Plays(ls, steps) && p < SLOTS && x in Order(ls[p]) && Waits(ls, steps, x, p)
    ensures x in Order(Run(ls, steps)[p])
    ensures Place(Run(ls, steps)[p], x) + Turns(ls, steps, p) + MadeWay(ls, steps, x, p)
         == Place(ls[p], x) + PushedBack(ls, steps, x, p)
    decreases |steps|
  {
    hide Place, LevelOk, Order;
    if steps != [] {
      StepIsExact(ls, steps[0], x, p);
      WaitIsExact(Do(ls, steps[0]), steps[1..], x, p);
    }
  }

  lemma {:induction false} StepIsExact(ls: seq<Level>, e: Step, x: Pipe, p: nat)
    requires Ok(ls) && Enabled(ls, e) && p < SLOTS && x in Order(ls[p])
    requires !Serves(ls, e, x, p) && e != Leave(x, p)
    ensures x in Order(Do(ls, e)[p])
    ensures Place(Do(ls, e)[p], x) + (if e.Serve? && Top(ls) == p then 1 else 0)
              + (if e.Leave? && e.level == p && Before(ls[p], e.pipe, x) then 1 else 0)
         == Place(ls[p], x) + if e.Wake? && e.level == p && x in ls[p].behind then 1 else 0
  {
    hide Place, Order, Before, Next, Insert, Remove;
    var l := ls[p];
    match e {
      case Serve(release) => if Top(ls) == p { ServeMovesUp(l, release, x); }
      case Wake(pipe, level) => if level == p { WakeMovesDown(l, pipe, x); }
      case Leave(pipe, level) => if level == p { LeaveMovesUp(l, pipe, x); }
    }
  }

  /** If no pipe becomes active at its level while it is behind the cursor, a pipe is served before its
      level has had as many turns as it has pipes, or it is removed. */
  lemma {:induction false} ServedInOneRound(ls: seq<Level>, steps: seq<Step>, x: Pipe, p: nat)
    requires Ok(ls) && Plays(ls, steps) && p < SLOTS && x in Order(ls[p])
    requires PushedBack(ls, steps, x, p) == 0 && Turns(ls, steps, p) >= |Order(ls[p])|
    ensures !Waits(ls, steps, x, p)
  {
    if Waits(ls, steps, x, p) { WaitIsExact(ls, steps, x, p); }
  }

  /** The pipes of a level that are served if each turn releases the pipe or not as given. */
  function ServedBy(l: Level, releases: seq<bool>): seq<Pipe>
    decreases |releases|
  {
    if releases == [] || l.ahead == [] then []
    else [l.ahead[0]] + ServedBy(Next(l, releases[0]), releases[1..])
  }

  /** One round of a level serves its pipes in order and each once, releases included. */
  lemma {:induction false} RoundInOrder(l: Level, releases: seq<bool>)
    requires LevelOk(l) && |releases| <= |Order(l)|
    ensures ServedBy(l, releases) == Order(l)[..|releases|]
    decreases |releases|
  {
    if releases != [] {
      var next, s := Next(l, releases[0]), Order(l);
      NextOrder(l, releases[0]);
      RoundInOrder(next, releases[1..]);
      assert Order(next)[..|releases| - 1] == s[1..|releases|] by { hide LevelOk; }
      assert s[..|releases|] == [s[0]] + s[1..|releases|];
    }
  }

  /** Pipes a and b take turns: each becomes active before the other is served and released. */
  function Alternate(n: nat, a: Pipe, b: Pipe, p: nat): seq<Step> {
    if n == 0 then [] else [Wake(b, p), Serve(true)] + Alternate(n - 1, b, a, p)
  }

  lemma {:induction false} AlternateStep(n: nat, a: Pipe, b: Pipe, p: nat)
    requires n > 0
    ensures Alternate(n, a, b, p) == [Wake(b, p)] + ([Serve(true)] + Alternate(n - 1, b, a, p))
  {
  }

  lemma {:induction false} WakeTurn(ls: seq<Level>, a: Pipe, b: Pipe, x: Pipe, p: nat)
    requires Ok(ls) && Top(ls) == p < SLOTS && ls[p] == Level([a], [x])
    requires a != b && b != x
    ensures Enabled(ls, Wake(b, p))
    ensures var awake := Do(ls, Wake(b, p)); Top(awake) == p && awake[p] == Level([a, b], [x])
  {
    assert [a] + [b] == [a, b];
    TopPut(ls, p, Level([a, b], [x]));
  }

  lemma {:induction false} ServeTurn(ls: seq<Level>, a: Pipe, b: Pipe, x: Pipe, p: nat)
    requires Ok(ls) && Top(ls) == p < SLOTS && ls[p] == Level([a, b], [x])
    ensures Enabled(ls, Serve(true))
    ensures var served := Do(ls, Serve(true)); Top(served) == p && served[p] == Level([b], [x])
  {
    assert [a, b][1..] == [b];
    TopPut(ls, p, Level([b], [x]));
  }

  lemma NotServed(ls: seq<Level>, e: Step, x: Pipe, p: nat)
    requires Ok(ls) && Enabled(ls, e) && (e.Serve? ==> p < SLOTS && ls[p].ahead != [] && ls[p].ahead[0] != x)
    ensures !Serves(ls, e, x, p)
  {
  }

  lemma NoStep(ls: seq<Level>, x: Pipe, p: nat)
    requires Ok(ls)
    ensures Plays(ls, []) && Waits(ls, [], x, p) && Turns(ls, [], p) == 0
  {
  }

  lemma {:induction false} StepThen(ls: seq<Level>, e: Step, rest: seq<Step>, x: Pipe, p: nat)
    requires Ok(ls) && Enabled(ls, e) && Plays(Do(ls, e), rest)
    requires Waits(Do(ls, e), rest, x, p) && !Serves(ls, e, x, p) && e != Leave(x, p)
    ensures Plays(ls, [e] + rest) && Waits(ls, [e] + rest, x, p)
    ensures Turns(ls, [e] + rest, p)
         == (if e.Serve? && Top(ls) == p then 1 else 0) + Turns(Do(ls, e), rest, p)
  {
  }

  /** A pipe behind the cursor may wait for any number of turns, if each time another becomes active. */
  lemma {:induction false} CanWaitForever(ls: seq<Level>, n: nat, a: Pipe, b: Pipe, x: Pipe, p: nat)
    requires Ok(ls) && Top(ls) == p < SLOTS && ls[p] == Level([a], [x])
    requires a != b && a != x && b != x
    ensures Plays(ls, Alternate(n, a, b, p)) && Waits(ls, Alternate(n, a, b, p), x, p)
    ensures Turns(ls, Alternate(n, a, b, p), p) == n
    decreases n
  {
    hide Do, Ok, Top, Plays, Waits, Turns, Enabled, Serves;
    if n == 0 {
      NoStep(ls, x, p);
    } else {
      AlternateStep(n, a, b, p);
      hide Alternate;
      var rest := Alternate(n - 1, b, a, p);
      WakeTurn(ls, a, b, x, p);
      NotServed(ls, Wake(b, p), x, p);
      var awake := Do(ls, Wake(b, p));
      ServeTurn(awake, a, b, x, p);
      NotServed(awake, Serve(true), x, p);
      CanWaitForever(Do(awake, Serve(true)), n - 1, b, a, x, p);
      StepThen(awake, Serve(true), rest, x, p);
      StepThen(ls, Wake(b, p), [Serve(true)] + rest, x, p);
    }
  }

  // ---------------------------------------------------------------- runs of the list itself

  /** The pipes the run serves. */
  function Served(ls: seq<Level>, steps: seq<Step>): seq<Pipe>
    requires Ok(ls) && Plays(ls, steps)
    decreases |steps|
  {
    if steps == [] then []
    else (if steps[0].Serve? then [ls[Top(ls)].ahead[0]] else []) + Served(Do(ls, steps[0]), steps[1..])
  }

  /** Pipes only become active at the level of their priority. */
  predicate Fits(steps: seq<Step>, prio: map<Pipe, nat>) {
    forall i | 0 <= i < |steps| && steps[i].Wake? ::
      steps[i].pipe in prio && prio[steps[i].pipe] == steps[i].level + 1
  }

  predicate Agrees(prio: map<Pipe, nat>, prios: map<Pipe, nat>) {
    forall pipe | pipe in prio :: pipe in prios && prio[pipe] == prios[pipe]
  }

  /** One step on the list: a pipe is added before it becomes active for the first time. */
  method Act(list: Priolist, e: Step, ghost prios: map<Pipe, nat>) returns (served: seq<Pipe>)
    requires list.Valid() && Ok(list.levels) && Enabled(list.levels, e) && Agrees(list.prio, prios)
    requires e.Wake? ==> e.pipe in prios && prios[e.pipe] == e.level + 1
    modifies list, list.slots
    ensures list.Valid() && list.slots == old(list.slots) && Agrees(list.prio, prios)
    ensures list.levels == Do(old(list.levels), e)
    ensures served == if e.Serve? then [old(list.levels[Top(list.levels)].ahead[0])] else []
  {
    hide Order, LevelOk, Mirrors, Next, Insert, Remove;
    match e
    case Serve(release) =>
      var pipe := list.GetPipe();
      list.Advance(release);
      served := [pipe.value];
    case Wake(pipe, p) =>
      if pipe !in list.prio { list.Add(pipe, p + 1); }
      list.Activate(pipe);
      served := [];
    case Leave(pipe, p) =>
      list.Rm(pipe);
      served := [];
  }

  lemma NothingLeft(ls: seq<Level>)
    requires Ok(ls)
    ensures Plays(ls, []) && Run(ls, []) == ls && Served(ls, []) == []
  {
  }

  lemma {:induction false} Unfold(ls: seq<Level>, steps: seq<Step>, i: nat)
    requires Ok(ls) && i < |steps| && Plays(ls, steps[i..])
    ensures Enabled(ls, steps[i]) && Plays(Do(ls, steps[i]), steps[i + 1..])
    ensures Run(ls, steps[i..]) == Run(Do(ls, steps[i]), steps[i + 1..])
    ensures Served(ls, steps[i..])
         == (if steps[i].Serve? then [ls[Top(ls)].ahead[0]] else []) + Served(Do(ls, steps[i]), steps[i + 1..])
  {
    assert steps[i..][0] == steps[i] && steps[i..][1..] == steps[i + 1..];
  }

  /** The list of the code goes through every run as described, and serves those pipes. */
  method Replay(list: Priolist, steps: seq<Step>, ghost prios: map<Pipe, nat>) returns (served: seq<Pipe>)
    requires list.Valid() && Ok(list.levels) && Plays(list.levels, steps)
    requires Fits(steps, prios) && Agrees(list.prio, prios)
    modifies list, list.slots
    ensures list.Valid() && list.slots == old(list.slots)
    ensures list.levels == Run(old(list.levels), steps) && served == Served(old(list.levels), steps)
  {
    hide Priolist.Valid, Ok, Plays, Run, Served, Do, Enabled, Agrees;
    served := [];
    var i := 0;
    while i < |steps|
      invariant 0 <= i <= |steps| && list.slots == old(list.slots)
      invariant list.Valid() && Ok(list.levels) && Agrees(list.prio, prios)
      invariant Plays(list.levels, steps[i..])
      invariant Run(list.levels, steps[i..]) == Run(old(list.levels), steps)
      invariant served + Served(list.levels, steps[i..]) == Served(old(list.levels), steps)
    {
      Unfold(list.levels, steps, i);
      ghost var rest := Served(Do(list.levels, steps[i]), steps[i + 1..]);
      var more := Act(list, steps[i], prios);
      assert (served + more) + rest == served + (more + rest);
      served := served + more;
      i := i + 1;
    }
    assert steps[i..] == [];
    NothingLeft(list.levels);
  }
}
