/** The hash table of pipes (utils/hash.c): lists of items in slots, with the number of slots
    doubled when the table gets half full. */
module PipeHash {
  import opened Common

  datatype Item = Item(key: uint32, pipe: Pipe)

  const INITIAL_SLOTS: nat := 32
  const MAX_SLOTS: nat := 0x8000_0000

  type Table = seq<seq<Item>>
  type View = map<uint32, Pipe>

  predicate SlotOk(hash: uint32 -> uint32, n: nat, s: nat, items: seq<Item>, view: View)
    requires n > 0
  {
    && (forall i, j | 0 <= i < j < |items| :: items[i].key != items[j].key)
    && forall i | 0 <= i < |items| ::
         items[i].key in view && view[items[i].key] == items[i].pipe && hash(items[i].key) % n == s
  }

  predicate Has(items: seq<Item>, key: uint32) { exists i | 0 <= i < |items| :: items[i].key == key }

  /** The lists of the table hold exactly the items of the view, each in the slot of its key. */
  ghost predicate Holds(hash: uint32 -> uint32, table: Table, view: View) {
    && |table| > 0
    && (forall s {:trigger SlotOk(hash, |table|, s, table[s], view)} | 0 <= s < |table| ::
          SlotOk(hash, |table|, s, table[s], view))
    && (forall key {:trigger Has(table[hash(key) % |table|], key)} | key in view ::
          Has(table[hash(key) % |table|], key))
  }

  lemma {:induction false} AppendHolds(hash: uint32 -> uint32, table: Table, view: View, item: Item)
    requires Holds(hash, table, view) && item.key !in view
    ensures var s := hash(item.key) % |table|;
            Holds(hash, table[s := table[s] + [item]], view[item.key := item.pipe])
  {
    var n, s := |table|, hash(item.key) % |table|;
    var table', view' := table[s := table[s] + [item]], view[item.key := item.pipe];
    forall t | 0 <= t < n ensures SlotOk(hash, n, t, table'[t], view') {
      assert SlotOk(hash, |table|, t, table[t], view);
    }
    forall key | key in view' ensures Has(table'[hash(key) % n], key) {
      if key == item.key {
        assert table'[s][|table[s]|].key == key;
      } else {
        assert Has(table[hash(key) % |table|], key);
        var i :| 0 <= i < |table[hash(key) % n]| && table[hash(key) % n][i].key == key;
        assert table'[hash(key) % n][i].key == key;
      }
    }
  }

  lemma {:induction false} DropHolds(hash: uint32 -> uint32, table: Table, view: View, s: nat, i: nat)
    requires Holds(hash, table, view) && s < |table| && i < |table[s]|
    ensures table[s][i].key in view && view[table[s][i].key] == table[s][i].pipe
    ensures Holds(hash, table[s := Without(table[s], i)], view - {table[s][i].key})
  {
    var n, key0 := |table|, table[s][i].key;
    var table', view' := table[s := Without(table[s], i)], view - {key0};
    assert SlotOk(hash, |table|, s, table[s], view);
    forall t | 0 <= t < n ensures SlotOk(hash, n, t, table'[t], view') {
      assert SlotOk(hash, |table|, t, table[t], view);
      if t == s {
        forall j | 0 <= j < |table'[t]| ensures table'[t][j].key in view' {
          assert table[s][if j < i then j else j + 1].key != key0;
        }
      } else {
        forall j | 0 <= j < |table[t]| ensures table[t][j].key != key0 {
          assert hash(key0) % n == s;
        }
      }
    }
    forall key | key in view' ensures Has(table'[hash(key) % n], key) {
      assert Has(table[hash(key) % |table|], key);
      var t := hash(key) % n;
      var j :| 0 <= j < |table[t]| && table[t][j].key == key;
      assert table'[t][if t == s && j > i then j - 1 else j].key == key;
    }
  }

  /** The number of slots after k doublings. */
  function Doubled(k: nat): nat { if k == 0 then INITIAL_SLOTS else 2 * Doubled(k - 1) }

  lemma HoldsSomewhere(hash: uint32 -> uint32, table: Table, view: View)
    requires Holds(hash, table, view)
    ensures |table| > 0
  {
  }

  lemma {:induction false} HoldsEmpty(hash: uint32 -> uint32, table: Table)
    requires |table| > 0 && forall s | 0 <= s < |table| :: table[s] == []
    ensures Holds(hash, table, map[])
  {
  }

  lemma {:induction false} EmptyHolds(hash: uint32 -> uint32, table: Table, view: View)
    requires Holds(hash, table, view) && forall s | 0 <= s < |table| :: table[s] == []
    ensures view == map[]
  {
    assert forall key | key in view :: Has(table[hash(key) % |table|], key);
  }

  lemma {:induction false} DoubledIsLow(k: nat)
    requires Doubled(k) < MAX_SLOTS
    ensures Doubled(k + 1) == 2 * Doubled(k) <= MAX_SLOTS
  {
    assert Doubled(13) == 0x4_0000;
    assert Doubled(26) == MAX_SLOTS;
    if k < 26 {
      DoubledGrows(k + 1, 26);
    } else {
      DoubledGrows(26, k);
    }
  }

  lemma {:induction false} DoubledGrows(j: nat, k: nat)
    requires j <= k
    ensures Doubled(j) <= Doubled(k)
    decreases k
  {
    if j < k { DoubledGrows(j, k - 1); }
  }

  /** The view is split between the items still in the old slots and those already moved. */
  predicate Parted(rest: View, moved: View, view: View) {
    && rest.Keys !! moved.Keys
    && rest + moved == view
  }

  lemma {:induction false} PartedStep(rest: View, moved: View, view: View, key: uint32)
    requires Parted(rest, moved, view) && key in rest
    ensures Parted(rest - {key}, moved[key := rest[key]], view)
  {
  }

  lemma PartedStarts(view: View)
    ensures Parted(view, map[], view)
  {
  }

  lemma PartedEnds(rest: View, moved: View, view: View)
    requires Parted(rest, moved, view)
    ensures rest.Keys !! moved.Keys && (rest == map[] ==> moved == view)
  {
  }

  class Hash {
    const hash: uint32 -> uint32
    var items: nat
    var table: array<seq<Item>>
    /** The finite map the table stands for. */
    ghost var view: View

    ghost predicate Valid()
      reads this, table
    {
      && Holds(hash, table[..], view)
      && items == |view|
      && INITIAL_SLOTS <= table.Length <= MAX_SLOTS
      && (items * 2 <= table.Length || table.Length == MAX_SLOTS)
      && exists k :: table.Length == Doubled(k)
    }

    /** nn_hash_init; the hash function is a parameter. */
    constructor (hash: uint32 -> uint32)
      ensures Valid() && fresh(table) && view == map[] && this.hash == hash
    {
      this.hash := hash;
      items, view := 0, map[];
      table := new seq<Item>[INITIAL_SLOTS](_ => []);
      new;
      HoldsEmpty(hash, table[..]);
      assert table.Length == Doubled(0);
    }

    /** nn_hash_get */
    method Get(key: uint32) returns (r: Option<Pipe>)
      requires Valid()
      ensures r == if key in view then Some(view[key]) else None
    {
      var slot := hash(key) % table.Length;
      assert SlotOk(hash, |table[..]|, slot, table[..][slot], view);
      assert key in view ==> Has(table[..][hash(key) % |table[..]|], key);
      var i := 0;
      while i < |table[slot]|
        invariant 0 <= i <= |table[slot]|
        invariant forall j | 0 <= j < i :: table[slot][j].key != key
      {
        if table[slot][i].key == key { return Some(table[slot][i].pipe); }
        i := i + 1;
      }
      return None;
    }

    /** nn_hash_insert; false where the code asserts that the key is new. */
    method Insert(key: uint32, pipe: Pipe) returns (ok: bool)
      requires Valid()
      modifies this, table
      ensures Valid() && (table == old(table) || fresh(table))
      ensures ok <==> key !in old(view)
      ensures view == if ok then old(view)[key := pipe] else old(view)
    {
      hide Holds;
      var present := Get(key);
      if present.Some? { return false; }
      var i := hash(key) % table.Length;
      AppendHolds(hash, table[..], view, Item(key, pipe));
      ghost var was := table[..];
      table[i] := table[i] + [Item(key, pipe)];
      assert table[..] == was[i := was[i] + [Item(key, pipe)]];
      view := view[key := pipe];
      items := items + 1;
      if items * 2 % 0x1_0000_0000 > table.Length && table.Length < MAX_SLOTS { Rehash(); }
      return true;
    }

    /** One turn of the inner loop of nn_hash_rehash: the first item of an old slot goes to the
        end of its new slot. */
    method MoveFirst(from: array<seq<Item>>, i: nat, to: array<seq<Item>>, ghost rest: View, ghost moved: View)
      requires from != to && i < from.Length && from[i] != []
      requires Holds(hash, from[..], rest) && Holds(hash, to[..], moved) && rest.Keys !! moved.Keys
      modifies from, to
      ensures from[..] == old(from[..])[i := Without(old(from[i]), 0)]
      ensures var item := old(from[i][0]);
              && item.key in rest && rest[item.key] == item.pipe
              && Holds(hash, from[..], rest - {item.key})
              && Holds(hash, to[..], moved[item.key := item.pipe])
    {
      hide Holds;
      var item := from[i][0];
      DropHolds(hash, from[..], rest, i, 0);
      ghost var was := from[..];
      from[i] := Without(from[i], 0);
      assert from[..] == was[i := Without(was[i], 0)];
      HoldsSomewhere(hash, to[..], moved);
      var slot := hash(item.key) % to.Length;
      was := to[..];
      AppendHolds(hash, was, moved, item);
      to[slot] := to[slot] + [item];
      assert to[..] == was[slot := was[slot] + [item]];
    }

    /** The inner loop of nn_hash_rehash: an old slot is emptied. */
    method MoveSlot(from: array<seq<Item>>, i: nat, to: array<seq<Item>>, ghost rest0: View, ghost moved0: View)
      returns (ghost rest: View, ghost moved: View)
      requires from != to && i < from.Length && Parted(rest0, moved0, view)
      requires Holds(hash, from[..], rest0) && Holds(hash, to[..], moved0)
      modifies from, to
      ensures Holds(hash, from[..], rest) && Holds(hash, to[..], moved) && Parted(rest, moved, view)
      ensures from[i] == [] && forall s | 0 <= s < from.Length && s != i :: from[s] == old(from[s])
    {
      hide Holds, Parted, Without;
      rest, moved := rest0, moved0;
      while from[i] != []
        invariant Parted(rest, moved, view)
        invariant Holds(hash, from[..], rest) && Holds(hash, to[..], moved)
        invariant forall s | 0 <= s < from.Length && s != i :: from[s] == old(from[s])
        decreases |from[i]|
      {
        ghost var item, was := from[i][0], from[..];
        PartedEnds(rest, moved, view);
        MoveFirst(from, i, to, rest, moved);
        assert forall s | 0 <= s < from.Length :: from[..][s] == if s == i then Without(was[i], 0) else was[s];
        PartedStep(rest, moved, view, item.key);
        rest, moved := rest - {item.key}, moved[item.key := item.pipe];
      }
    }

    /** nn_hash_rehash: twice the slots, the same items. */
    method Rehash()
      requires Holds(hash, table[..], view) && items == |view|
      requires INITIAL_SLOTS <= table.Length < MAX_SLOTS && exists k :: table.Length == Doubled(k)
      requires items <= table.Length
      modifies this, table
      ensures Valid() && fresh(table) && view == old(view)
      ensures table.Length == 2 * old(table.Length)
    {
      hide Holds, Parted, Doubled, Without;
      var oldTable := table;
      ghost var k: nat :| oldTable.Length == Doubled(k);
      DoubledIsLow(k);
      var newTable := new seq<Item>[2 * oldTable.Length](_ => []);
      HoldsEmpty(hash, newTable[..]);
      ghost var rest, moved: View := view, map[];
      assert Parted(rest, moved, view) by { PartedStarts(view); }
      var i := 0;
      while i != oldTable.Length
        invariant 0 <= i <= oldTable.Length
        invariant Parted(rest, moved, view)
        invariant Holds(hash, oldTable[..], rest) && Holds(hash, newTable[..], moved)
        invariant forall s | 0 <= s < i :: oldTable[s] == []
        modifies oldTable, newTable
      {
        rest, moved := MoveSlot(oldTable, i, newTable, rest, moved);
        i := i + 1;
      }
      EmptyHolds(hash, oldTable[..], rest);
      PartedEnds(rest, moved, view);
      table := newTable;
    }

    /** nn_hash_erase of an item that is in the table. */
    method Erase(key: uint32)
      requires Valid() && key in view
      modifies this, table
      ensures Valid() && table == old(table) && view == old(view) - {key}
    {
      var slot := hash(key) % table.Length;
      assert Has(table[..][hash(key) % |table[..]|], key);
      assert SlotOk(hash, |table[..]|, slot, table[..][slot], view);
      var i := 0;
      while table[slot][i].key != key
        decreases |table[slot]| - i
        invariant 0 <= i < |table[slot]|
        invariant forall j | 0 <= j < i :: table[slot][j].key != key
        invariant exists j :: i <= j < |table[slot]| && table[slot][j].key == key
      {
        i := i + 1;
      }
      DropHolds(hash, table[..], view, slot, i);
      ghost var was := table[..];
      table[slot] := Without(table[slot], i);
      assert table[..] == was[slot := Without(was[slot], i)];
      view := view - {key};
      items := items - 1;
    }
  }
}
