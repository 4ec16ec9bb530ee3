/** The singly linked lists of the cache's buckets (tools/list.c), node by node. */
module LinkedList {
  import opened Common

  class Node<T> {
    const obj: T
    var next: Node?<T>

    constructor (obj: T)
      ensures this.obj == obj && next == null
    {
      this.obj, next := obj, null;
    }
  }

  /** The node at a position, or null after the end. */
  function At<T>(nodes: seq<Node<T>>, i: nat): Node?<T> { if i < |nodes| then nodes[i] else null }

  /** Position of the first object that matches, or the length if there is none. */
  function FirstMatch<T>(objs: seq<T>, eq: T -> bool): (i: nat)
    ensures i <= |objs| && (i < |objs| ==> eq(objs[i])) && forall j | 0 <= j < i :: !eq(objs[j])
  {
    if objs == [] || eq(objs[0]) then 0 else 1 + FirstMatch(objs[1..], eq)
  }

  lemma {:induction false} FirstMatchIs<T>(objs: seq<T>, eq: T -> bool, i: nat)
    requires i <= |objs| && forall j | 0 <= j < i :: !eq(objs[j])
    ensures i < |objs| && eq(objs[i]) ==> FirstMatch(objs, eq) == i
    ensures i == |objs| ==> FirstMatch(objs, eq) == i
  {
  }

  class LinkedList<T(!new)> {
    var head: Node?<T>
    ghost var nodes: seq<Node<T>>
    /** The objects in the list. */
    ghost var objs: seq<T>

    ghost predicate Valid()
      reads this, nodes
    {
      && |objs| == |nodes|
      && (forall i | 0 <= i < |nodes| :: nodes[i].obj == objs[i])
      && (forall i, j | 0 <= i < j < |nodes| :: nodes[i] != nodes[j])
      && head == At(nodes, 0)
      && forall i | 0 <= i < |nodes| :: nodes[i].next == At(nodes, i + 1)
    }

    /** LL_create */
    constructor ()
      ensures Valid() && objs == []
    {
      head, nodes, objs := null, [], [];
    }

    /** LL_append */
    method Append(obj: T)
      requires Valid()
      modifies this, nodes
      ensures Valid() && objs == old(objs) + [obj] && fresh(set n | n in nodes && n !in old(nodes))
    {
      var n := new Node(obj);
      var current, prev := head, null;
      ghost var i := 0;
      while current != null
        invariant i <= |nodes| && current == At(nodes, i) && prev == if i == 0 then null else nodes[i - 1]
        decreases |nodes| - i
      {
        prev := current;
        current := current.next;
        i := i + 1;
      }
      if prev == null { head := n; } else { prev.next := n; }
      nodes, objs := nodes + [n], objs + [obj];
    }

    /** LL_find */
    method Find(eq: T -> bool) returns (r: Option<T>)
      requires Valid()
      ensures r == if FirstMatch(objs, eq) < |objs| then Some(objs[FirstMatch(objs, eq)]) else None
    {
      var current := head;
      ghost var i := 0;
      while current != null
        invariant i <= |nodes| && current == At(nodes, i)
        invariant forall j | 0 <= j < i :: !eq(objs[j])
        decreases |nodes| - i
      {
        if eq(current.obj) { return Some(current.obj); }
        current := current.next;
        i := i + 1;
      }
      return None;
    }

    /** Takes the node at position i out of the list, behind its predecessor. */
    method Unlink(previous: Node<T>, current: Node<T>, ghost i: nat)
      requires Valid() && 0 < i < |nodes| && previous == nodes[i - 1] && current == nodes[i]
      modifies this, previous
      ensures Valid() && objs == Without(old(objs), i)
    {
      previous.next := current.next;
      ghost var was := nodes;
      nodes, objs := Without(nodes, i), Without(objs, i);
      forall j | 0 <= j < |nodes| ensures nodes[j].next == At(nodes, j + 1) {
        assert nodes[j] == was[if j < i then j else j + 1];
      }
    }

    /** LL_delete: only the first object that matches goes. */
    method Delete(eq: T -> bool)
      requires Valid()
      modifies this, nodes
      ensures Valid()
      ensures var i := FirstMatch(old(objs), eq);
              objs == if i < |old(objs)| then Without(old(objs), i) else old(objs)
    {
      var current := head;
      if current == null { return; }
      FirstMatchIs(objs, eq, 0);
      if eq(current.obj) {
        head := current.next;
        nodes, objs := Without(nodes, 0), Without(objs, 0);
        return;
      }
      var previous := current;
      ghost var i := 0;
      while current != null
        invariant i < |nodes| && current == nodes[i] && nodes == old(nodes) && objs == old(objs) && Valid()
        invariant forall j | 0 <= j <= i :: !eq(objs[j])
        decreases |nodes| - i
      {
        previous := current;
        current := current.next;
        i := i + 1;
        if current == null {
          FirstMatchIs(objs, eq, i);
          return;
        }
        if eq(current.obj) {
          FirstMatchIs(objs, eq, i);
          Unlink(previous, current, i);
          return;
        }
      }
    }
  }
}
