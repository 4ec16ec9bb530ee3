/** The prioritised list of pipes (protocols/utils/priolist.c): sixteen levels of round robin, of
    which the highest that has a pipe is served. */
module Priolist {
  import opened Common

  const SLOTS: nat := 16

  /** A level: the pipes from the cursor on, and those before it. */
  datatype Level = Level(ahead: seq<Pipe>, behind: seq<Pipe>)

  /** The pipes of a level in the order in which they are to be served. */
  function Order(l: Level): seq<Pipe> { l.ahead + l.behind }

  predicate LevelOk(l: Level) {
    && (l.ahead == [] ==> l.behind == [])
    && Distinct(Order(l))
  }

  /** At the end of the list the cursor goes back to the begin. */
  function Wrap(l: Level): Level { if l.ahead == [] then Level(l.behind, []) else l }

  function Next(l: Level, release: bool): Level
    requires l.ahead != []
  {
    Wrap(Level(l.ahead[1..], if release then l.behind else l.behind + [l.ahead[0]]))
  }

  function Insert(l: Level, pipe: Pipe): Level { l.(ahead := l.ahead + [pipe]) }

  lemma {:induction false} IndexIs(s: seq<Pipe>, pipe: Pipe, i: nat)
    requires i < |s| && s[i] == pipe && forall j | 0 <= j < i :: s[j] != pipe
    ensures pipe in s && IndexOf(s, pipe) == i
  {
  }

  function Minus(s: seq<Pipe>, pipe: Pipe): seq<Pipe>
    requires pipe in s
  {
    Without(s, IndexOf(s, pipe))
  }

  function Remove(l: Level, pipe: Pipe): Level
    requires pipe in Order(l)
  {
    if pipe in l.ahead then Wrap(l.(ahead := Minus(l.ahead, pipe)))
    else l.(behind := Minus(l.behind, pipe))
  }

  lemma DifferAt(s: seq<Pipe>, i: nat, j: nat)
    requires Distinct(s) && i < j < |s|
    ensures s[i] != s[j]
  {
  }

  lemma {:induction false} RotateDistinct(s: seq<Pipe>, release: bool)
    requires Distinct(s) && s != []
    ensures Distinct(s[1..] + if release then [] else [s[0]])
  {
  }

  lemma {:induction false} WithoutDistinct(s: seq<Pipe>, i: nat)
    requires Distinct(s) && i < |s|
    ensures Distinct(Without(s, i)) && s[i] !in Without(s, i)
  {
  }

  lemma {:induction false} InsertDistinct(s: seq<Pipe>, n: nat, pipe: Pipe)
    requires Distinct(s) && n <= |s| && pipe !in s
    ensures Distinct(s[..n] + [pipe] + s[n..])
  {
  }

  /** Serving moves the first pipe to the end of the order, or takes it out of it. */
  lemma {:induction false} NextOrder(l: Level, release: bool)
    requires LevelOk(l) && l.ahead != []
    ensures LevelOk(Next(l, release))
    ensures Order(Next(l, release)) == Order(l)[1..] + if release then [] else [Order(l)[0]]
  {
    var rest := if release then [] else [l.ahead[0]];
    var moved := Level(l.ahead[1..], l.behind + rest);
    assert Order(moved) == Order(l)[1..] + rest;
    assert l.behind + [] == l.behind;
    WrapOrder(moved);
    RotateDistinct(Order(l), release);
  }

  lemma {:induction false} WrapOrder(l: Level)
    ensures Order(Wrap(l)) == Order(l)
    ensures Distinct(Order(l)) ==> LevelOk(Wrap(l))
  {
  }

  lemma {:induction false} RemoveOrder(l: Level, pipe: Pipe)
    requires LevelOk(l) && pipe in Order(l)
    ensures LevelOk(Remove(l, pipe))
    ensures Order(Remove(l, pipe)) == Minus(Order(l), pipe)
  {
    var i := IndexOf(Order(l), pipe);
    WithoutDistinct(Order(l), i);
    if pipe in l.ahead {
      var k := IndexOf(l.ahead, pipe);
      assert Order(l)[k] == pipe;
      assert i == k;
      var cut := l.(ahead := Without(l.ahead, k));
      assert Order(cut) == Without(Order(l), i);
      WrapOrder(cut);
    } else {
      var k := IndexOf(l.behind, pipe);
      assert Order(l)[|l.ahead| + k] == pipe;
      assert i == |l.ahead| + k;
      assert Order(Remove(l, pipe)) == Without(Order(l), i);
    }
  }

  lemma {:induction false} InsertOrder(l: Level, pipe: Pipe)
    requires LevelOk(l) && pipe !in Order(l)
    ensures LevelOk(Insert(l, pipe))
    ensures Order(Insert(l, pipe)) == l.ahead + [pipe] + l.behind
  {
    var s, n := Order(l), |l.ahead|;
    assert s[..n] == l.ahead && s[n..] == l.behind;
    InsertDistinct(s, n, pipe);
  }

  /** The index of the highest level with a pipe, or the number of levels. */
  function Top(ls: seq<Level>): (t: nat)
    ensures t <= |ls| && (forall i | 0 <= i < t :: ls[i].ahead == []) && (t < |ls| ==> ls[t].ahead != [])
  {
    if ls == [] || ls[0].ahead != [] then 0 else 1 + Top(ls[1..])
  }

  lemma {:induction false} TopIs(ls: seq<Level>, t: nat)
    requires t <= |ls| && (forall i | 0 <= i < t :: ls[i].ahead == []) && (t < |ls| ==> ls[t].ahead != [])
    ensures Top(ls) == t
  {
  }

  lemma {:induction false} TopPut(ls: seq<Level>, p: nat, l: Level)
    requires p < |ls|
    ensures l.ahead != [] ==> Top(ls[p := l]) == if p < Top(ls) then p else Top(ls)
    ensures l.ahead == [] && p != Top(ls) ==> Top(ls[p := l]) == Top(ls)
  {
    if l.ahead != [] && p < Top(ls) { TopIs(ls[p := l], p); }
    if (l.ahead != [] && p >= Top(ls)) || (l.ahead == [] && p != Top(ls)) { TopIs(ls[p := l], Top(ls)); }
  }

  /** What the code keeps for a level: the list of its pipes and the cursor. */
  datatype Slot = Slot(pipes: seq<Pipe>, current: Option<Pipe>)

  function SlotOf(l: Level): Slot { Slot(l.behind + l.ahead, Begin(l.ahead)) }

  /** nn_list_begin */
  function Begin(s: seq<Pipe>): Option<Pipe> { if s == [] then None else Some(s[0]) }

  /** nn_list_next, and what nn_list_erase returns */
  function After(s: seq<Pipe>, i: nat): Option<Pipe> { if i + 1 < |s| then Some(s[i + 1]) else None }

  /** The cursor on its way from the pipe at i to the next, with or without the pipe at i. */
  function Moved(s: seq<Pipe>, i: nat, release: bool): Slot
    requires i < |s|
  {
    var pipes := if release then Without(s, i) else s;
    Slot(pipes, if After(s, i).Some? then After(s, i) else Begin(pipes))
  }

  lemma {:induction false} CursorAt(l: Level)
    requires LevelOk(l) && l.ahead != []
    ensures l.ahead[0] in SlotOf(l).pipes && IndexOf(SlotOf(l).pipes, l.ahead[0]) == |l.behind|
  {
    var s := SlotOf(l).pipes;
    assert s[|l.behind|] == l.ahead[0];
    var i := IndexOf(s, l.ahead[0]);
    assert forall j | 0 <= j < |l.behind| :: s[j] == Order(l)[|l.ahead| + j] != Order(l)[0];
  }

  lemma {:induction false} MovedIsNext(l: Level, release: bool)
    requires LevelOk(l) && l.ahead != []
    ensures Moved(SlotOf(l).pipes, |l.behind|, release) == SlotOf(Next(l, release))
  {
    hide LevelOk;
    var s, n := l.behind + l.ahead, |l.behind|;
    assert Without(s, n) == l.behind + l.ahead[1..];
    assert s == (l.behind + [l.ahead[0]]) + l.ahead[1..];
    if |l.ahead| > 1 { assert s[n + 1] == l.ahead[1] == l.ahead[1..][0]; }
  }

  lemma {:induction false} SlotBasics(l: Level)
    requires LevelOk(l)
    ensures SlotOf(l).pipes == [] <==> l.ahead == []
    ensures forall pipe :: pipe in SlotOf(l).pipes <==> pipe in Order(l)
  {
  }

  lemma {:induction false} EraseAhead(l: Level, pipe: Pipe)
    requires LevelOk(l) && pipe in l.ahead
    ensures pipe in SlotOf(l).pipes && IndexOf(SlotOf(l).pipes, pipe) == |l.behind| + IndexOf(l.ahead, pipe)
    ensures Minus(SlotOf(l).pipes, pipe) == l.behind + Minus(l.ahead, pipe)
  {
    hide Distinct, IndexOf;
    var s, b, k := l.behind + l.ahead, |l.behind|, IndexOf(l.ahead, pipe);
    forall j | 0 <= j < b + k ensures s[j] != pipe {
      if j < b {
        DifferAt(Order(l), k, |l.ahead| + j);
      } else {
        assert s[j] == l.ahead[j - b];
      }
    }
    IndexIs(s, pipe, b + k);
    assert Without(s, b + k) == l.behind + Without(l.ahead, k);
  }

  lemma {:induction false} EraseBehind(l: Level, pipe: Pipe)
    requires pipe in l.behind
    ensures pipe in SlotOf(l).pipes && Minus(SlotOf(l).pipes, pipe) == Minus(l.behind, pipe) + l.ahead
  {
    var s, k := SlotOf(l).pipes, IndexOf(l.behind, pipe);
    assert s[k] == pipe;
    assert IndexOf(s, pipe) == k;
  }

  /** Taking out a pipe that is not at the cursor leaves the cursor where it is. */
  lemma {:induction false} EraseIsRemove(l: Level, pipe: Pipe)
    requires LevelOk(l) && pipe in Order(l)
    ensures pipe in SlotOf(l).pipes
    ensures SlotOf(Remove(l, pipe))
              == if l.ahead[0] == pipe then Moved(SlotOf(l).pipes, IndexOf(SlotOf(l).pipes, pipe), true)
                 else Slot(Minus(SlotOf(l).pipes, pipe), Some(l.ahead[0]))
  {
    hide Moved;
    if pipe in l.ahead {
      EraseAhead(l, pipe);
      if l.ahead[0] == pipe { MovedIsNext(l, true); }
    } else {
      EraseBehind(l, pipe);
    }
  }

  predicate LevelsOk(ls: seq<Level>, prio: map<Pipe, nat>) {
    && |ls| == SLOTS
    && (forall i | 0 <= i < SLOTS :: LevelOk(ls[i]))
    && forall i | 0 <= i < SLOTS :: Belong(ls[i], prio, i + 1)
  }

  predicate Belong(l: Level, prio: map<Pipe, nat>, priority: nat) {
    forall pipe | pipe in Order(l) :: pipe in prio && prio[pipe] == priority
  }

  lemma LevelBasics(ls: seq<Level>, prio: map<Pipe, nat>)
    requires LevelsOk(ls, prio)
    ensures |ls| == SLOTS && forall i | 0 <= i < SLOTS :: LevelOk(ls[i]) && Belong(ls[i], prio, i + 1)
  {
  }

  lemma {:induction false} LevelPut(ls: seq<Level>, prio: map<Pipe, nat>, p: nat, l: Level)
    requires LevelsOk(ls, prio) && p < SLOTS && LevelOk(l) && Belong(l, prio, p + 1)
    ensures LevelsOk(ls[p := l], prio)
  {
  }

  lemma {:induction false} BelongAfter(l: Level, prio: map<Pipe, nat>, priority: nat, release: bool, pipe: Pipe)
    requires Belong(l, prio, priority) && LevelOk(l)
    ensures l.ahead != [] ==> Belong(Next(l, release), prio, priority)
    ensures pipe in prio && prio[pipe] == priority ==> Belong(Insert(l, pipe), prio, priority)
    ensures pipe in Order(l) ==> Belong(Remove(l, pipe), prio - {pipe}, priority)
  {
    if l.ahead != [] {
      NextOrder(l, release);
      assert forall other | other in Order(Next(l, release)) :: other in Order(l);
    }
    if pipe in Order(l) {
      RemoveOrder(l, pipe);
      WithoutDistinct(Order(l), IndexOf(Order(l), pipe));
      assert forall other | other in Minus(Order(l), pipe) :: other in Order(l);
    }
  }

  lemma {:induction false} BelongWithout(l: Level, prio: map<Pipe, nat>, priority: nat, pipe: Pipe)
    requires Belong(l, prio, priority) && pipe !in Order(l)
    ensures Belong(l, prio - {pipe}, priority)
  {
  }

  /** Forgetting a pipe that is in no other level than p. */
  lemma {:induction false} LevelForget(ls: seq<Level>, prio: map<Pipe, nat>, pipe: Pipe, l: Level)
    requires LevelsOk(ls, prio) && pipe in prio && 1 <= prio[pipe] <= SLOTS
    requires LevelOk(l) && Belong(l, prio - {pipe}, prio[pipe])
    ensures LevelsOk(ls[prio[pipe] - 1 := l], prio - {pipe})
  {
  }

  ghost predicate Mirrors(slots: seq<Slot>, ls: seq<Level>) {
    && |slots| == |ls|
    && forall i | 0 <= i < |ls| :: slots[i] == SlotOf(ls[i])
  }

  class Priolist {
    var slots: array<Slot>
    var current: int
    /** The priority in the data of each pipe. */
    var prio: map<Pipe, nat>
    ghost var levels: seq<Level>

    ghost predicate Linked()
      reads this, slots
    {
      && LevelsOk(levels, prio)
      && (forall pipe | pipe in prio :: 1 <= prio[pipe] <= SLOTS)
      && slots.Length == SLOTS
      && Mirrors(slots[..], levels)
    }

    /** current is the highest priority at which there is a pipe, and -1 if there is none. */
    ghost predicate Valid()
      reads this, slots
    {
      && Linked()
      && current == if Top(levels) < SLOTS then Top(levels) + 1 else -1
    }

    constructor ()
      ensures Valid() && fresh(slots) && levels == seq(SLOTS, _ => Level([], [])) && prio == map[]
    {
      slots := new Slot[SLOTS](_ => Slot([], None));
      current := -1;
      prio := map[];
      levels := seq(SLOTS, _ => Level([], []));
    }

    /** nn_priolist_add: the pipe is not active yet. */
    method Add(pipe: Pipe, priority: nat)
      requires Valid() && pipe !in prio && 1 <= priority <= SLOTS
      modifies this`prio
      ensures Valid() && prio == old(prio)[pipe := priority]
    {
      prio := prio[pipe := priority];
      assert forall i | 0 <= i < SLOTS :: Belong(levels[i], old(prio), i + 1);
    }

    /** nn_priolist_getpipe: a pipe of the highest priority there is, and none only if there is none. */
    method GetPipe() returns (r: Option<Pipe>)
      requires Valid()
      ensures r == if Top(levels) < SLOTS then Some(levels[Top(levels)].ahead[0]) else None
    {
      if current == -1 { return None; }
      return slots[current - 1].current;
    }

    /** Writes a slot and the level it stands for. */
    method Put(p: nat, slot: Slot, ghost l: Level)
      requires slots.Length == SLOTS == |levels| && p < SLOTS && Mirrors(slots[..], levels) && slot == SlotOf(l)
      modifies this`levels, slots
      ensures Mirrors(slots[..], levels) && levels == old(levels)[p := l]
    {
      slots[p] := slot;
      levels := levels[p := l];
    }

    /** nn_priolist_activate of a pipe that is not active. */
    method Activate(pipe: Pipe)
      requires Valid() && pipe in prio && pipe !in Order(levels[prio[pipe] - 1])
      modifies this, slots
      ensures Valid() && slots == old(slots) && prio == old(prio)
      ensures var p := prio[pipe] - 1;
              levels == old(levels)[p := Insert(old(levels[p]), pipe)]
    {
      hide LevelsOk, LevelOk, Order, Top;
      LevelBasics(levels, prio);
      var p := prio[pipe] - 1;
      var slot := slots[p];
      ghost var ls, l := levels, levels[p];
      ghost var l' := Insert(l, pipe);
      SlotBasics(l);
      assert slots[..][p] == slot == SlotOf(l);
      InsertOrder(l, pipe);
      BelongAfter(l, prio, p + 1, false, pipe);
      LevelPut(ls, prio, p, l');
      TopPut(ls, p, l');
      assert slot.pipes + [pipe] == l'.behind + l'.ahead;
      if slot.pipes != [] {
        Put(p, Slot(slot.pipes + [pipe], slot.current), l');
        return;
      }
      Put(p, Slot(slot.pipes + [pipe], Some(pipe)), l');
      if current == -1 {
        current := prio[pipe];
      } else if current > prio[pipe] {
        current := prio[pipe];
      }
    }

    /** The loop of nn_priolist_rm and nn_priolist_advance that leaves a level without pipes. */
    method SkipEmpty()
      requires Linked() && 0 < current <= SLOTS
      requires forall i | 0 <= i < current - 1 :: levels[i].ahead == []
      modifies this`current
      ensures Valid()
    {
      while slots[current - 1].pipes == []
        invariant 0 < current <= SLOTS && Linked()
        invariant forall i | 0 <= i < current - 1 :: levels[i].ahead == []
        decreases SLOTS - current
      {
        current := current + 1;
        if current > SLOTS {
          current := -1;
          TopIs(levels, SLOTS);
          return;
        }
      }
      TopIs(levels, current - 1);
    }

    /** nn_priolist_advance: the pipe just served goes to the end of the order, or out of it. */
    method Advance(release: bool)
      requires Valid() && current > 0
      modifies this, slots
      ensures Valid() && slots == old(slots) && prio == old(prio)
      ensures var p := old(current) - 1;
              levels == old(levels)[p := Next(old(levels[p]), release)]
    {
      hide LevelsOk, Moved, Next;
      LevelBasics(levels, prio);
      var p := current - 1;
      ghost var ls, l := levels, levels[p];
      CursorAt(l);
      MovedIsNext(l, release);
      NextOrder(l, release);
      BelongAfter(l, prio, p + 1, release, 0);
      LevelPut(ls, prio, p, Next(l, release));
      var slot := slots[p];
      assert slots[..][p] == slot == SlotOf(l);
      var i := IndexOf(slot.pipes, slot.current.value);
      Put(p, Moved(slot.pipes, i, release), Next(l, release));
      SkipEmpty();
    }

    /** nn_priolist_rm, of a pipe that may or may not be active. */
    method Rm(pipe: Pipe)
      requires Valid() && pipe in prio
      modifies this, slots
      ensures Valid() && slots == old(slots) && prio == old(prio) - {pipe}
      ensures var p := old(prio[pipe]) - 1;
              levels == if pipe in old(Order(levels[p])) then old(levels)[p := Remove(old(levels[p]), pipe)]
                        else old(levels)
    {
      hide LevelsOk, LevelOk, Order, Top, Moved, Remove, Belong;
      LevelBasics(levels, prio);
      var p := prio[pipe] - 1;
      var slot := slots[p];
      ghost var ls, l := levels, levels[p];
      SlotBasics(l);
      assert slots[..][p] == slot == SlotOf(l);
      if pipe !in slot.pipes {
        BelongWithout(l, prio, p + 1, pipe);
        LevelForget(ls, prio, pipe, l);
        assert ls[p := l] == ls;
        prio := prio - {pipe};
        return;
      }
      RemoveOrder(l, pipe);
      EraseIsRemove(l, pipe);
      BelongAfter(l, prio, p + 1, false, pipe);
      LevelForget(ls, prio, pipe, Remove(l, pipe));
      TopPut(ls, p, Remove(l, pipe));
      prio := prio - {pipe};
      var i := IndexOf(slot.pipes, pipe);
      if slot.current != Some(pipe) {
        Put(p, Slot(Without(slot.pipes, i), slot.current), Remove(l, pipe));
        return;
      }
      Put(p, Moved(slot.pipes, i, true), Remove(l, pipe));
      if current != p + 1 { return; }
      SkipEmpty();
    }
  }
}
