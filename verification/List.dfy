/** The intrusive doubly linked list (utils/list.c): the links live in the items. */
module List {

  /** A pointer to an item, the null pointer, or the mark of an item that is in no list. */
  datatype Link = NotInList | Null | To(item: Item)

  class Item {
    var prev: Link
    var next: Link

    /** nn_list_item_init */
    constructor ()
      ensures prev == next == NotInList
    {
      prev, next := NotInList, NotInList;
    }

    /** nn_list_item_isinlist */
    predicate IsInList()
      reads this
    {
      prev != NotInList
    }
  }

  /** What points to position i of a list: nothing before its begin and after its end. */
  function At(items: seq<Item>, i: int): Link { if 0 <= i < |items| then To(items[i]) else Null }

  ghost predicate Linked(items: seq<Item>, i: nat)
    requires i < |items|
    reads items[i]
  {
    items[i].prev == At(items, i - 1) && items[i].next == At(items, i + 1)
  }

  ghost predicate Apart(items: seq<Item>) { forall i, j | 0 <= i < j < |items| :: items[i] != items[j] }

  lemma ApartAt(items: seq<Item>, i: nat, j: nat)
    requires Apart(items) && i < |items| && j < |items| && i != j
    ensures items[i] != items[j]
  {
  }

  lemma {:induction false} ApartInserted(items: seq<Item>, i: nat, item: Item)
    requires Apart(items) && i <= |items| && forall j | 0 <= j < |items| :: items[j] != item
    ensures Apart(items[..i] + [item] + items[i..])
  {
  }

  lemma {:induction false} ApartErased(items: seq<Item>, i: nat)
    requires Apart(items) && i < |items|
    ensures Apart(items[..i] + items[i + 1..])
  {
  }

  /** What points to the places of a list with an item more, and with one less. */
  lemma AtInserted(items: seq<Item>, i: nat, item: Item, j: int)
    requires i <= |items|
    ensures At(items[..i] + [item] + items[i..], j)
         == if j < i then At(items, j) else if j == i then To(item) else At(items, j - 1)
  {
  }

  lemma AtErased(items: seq<Item>, i: nat, j: int)
    requires i < |items|
    ensures At(items[..i] + items[i + 1..], j) == if j < i then At(items, j) else At(items, j + 1)
  {
  }

  lemma AtIs(items: seq<Item>, i: int)
    ensures At(items, i).To? <==> 0 <= i < |items|
    ensures At(items, i) != NotInList
    ensures 0 <= i < |items| ==> At(items, i) == To(items[i])
  {
  }

  class List {
    var first: Link
    var last: Link
    /** The items in their order. */
    ghost var items: seq<Item>

    ghost predicate Valid()
      reads this, items
    {
      && Apart(items)
      && (forall i | 0 <= i < |items| :: Linked(items, i))
      && first == At(items, 0)
      && last == At(items, |items| - 1)
    }

    /** nn_list_init */
    constructor ()
      ensures Valid() && items == []
    {
      first, last, items := Null, Null, [];
    }

    /** nn_list_empty */
    method Empty() returns (r: bool)
      requires Valid()
      ensures r <==> items == []
    {
      return first == Null;
    }

    /** nn_list_next of the item at position i. */
    method Next(item: Item, ghost i: nat) returns (r: Link)
      requires Valid() && i < |items| && items[i] == item
      ensures r == At(items, i + 1)
    {
      assert Linked(items, i);
      return item.next;
    }

    /** nn_list_prev of the item at position i, or of the end. */
    method Prev(it: Link, ghost i: nat) returns (r: Link)
      requires Valid() && i <= |items| && it == At(items, i)
      ensures r == At(items, i - 1)
    {
      if it == Null { return last; }
      assert Linked(items, i);
      return it.item.prev;
    }

    /** nn_list_insert before the item at position i, or at the end. */
    method Insert(item: Item, it: Link, ghost i: nat)
      requires Valid() && i <= |items| && it == At(items, i)
      requires !item.IsInList()
      modifies this, item, items
      ensures Valid() && items == old(items[..i]) + [item] + old(items[i..]) && item.IsInList()
    {
      hide At, Apart;
      AtIs(items, 0);
      AtIs(items, i - 1);
      AtIs(items, i);
      forall j | 0 <= j < |items| ensures items[j] != item {
        assert Linked(items, j);
        AtIs(items, j - 1);
      }
      assert i < |items| ==> Linked(items, i);
      if 0 < i < |items| { ApartAt(items, 0, i); ApartAt(items, i - 1, i); }
      item.prev := if it.To? then it.item.prev else last;
      item.next := it;
      if item.prev.To? { item.prev.item.next := To(item); }
      if item.next.To? { item.next.item.prev := To(item); }
      if first == Null || first == it { first := To(item); }
      if it == Null { last := To(item); }
      ghost var was := items;
      items := was[..i] + [item] + was[i..];
      ApartInserted(was, i, item);
      AtInserted(was, i, item, 0);
      AtInserted(was, i, item, |was|);
      forall j | 0 <= j < |items| ensures Linked(items, j) {
        AtInserted(was, i, item, j - 1);
        AtInserted(was, i, item, j + 1);
        if j != i {
          var k := if j < i then j else j - 1;
          assert old(Linked(was, k));
          if 0 < i && k != i - 1 { ApartAt(was, k, i - 1); }
          if i < |was| && k != i { ApartAt(was, k, i); }
        }
      }
    }

    /** nn_list_erase of the item at position i; the result is what followed it. */
    method Erase(item: Item, ghost i: nat) returns (r: Link)
      requires Valid() && i < |items| && items[i] == item
      modifies this, items
      ensures Valid() && items == old(items[..i]) + old(items[i + 1..]) && !item.IsInList()
      ensures r == At(items, i)
    {
      hide At, Apart;
      assert Linked(items, i);
      AtIs(items, i - 1);
      AtIs(items, i + 1);
      if 0 < i { ApartAt(items, i - 1, i); }
      if i + 1 < |items| { ApartAt(items, i, i + 1); }
      if item.prev.To? { item.prev.item.next := item.next; } else { first := item.next; }
      if item.next.To? { item.next.item.prev := item.prev; } else { last := item.prev; }
      r := item.next;
      item.prev := NotInList;
      item.next := NotInList;
      ghost var was := items;
      items := was[..i] + was[i + 1..];
      ApartErased(was, i);
      AtErased(was, i, 0);
      AtErased(was, i, i);
      AtErased(was, i, |was| - 2);
      forall j | 0 <= j < |items| ensures Linked(items, j) {
        AtErased(was, i, j - 1);
        AtErased(was, i, j + 1);
        var k := if j < i then j else j + 1;
        assert old(Linked(was, k));
        ApartAt(was, k, i);
        if 0 < i && k != i - 1 { ApartAt(was, k, i - 1); }
        if i + 1 < |was| && k != i + 1 { ApartAt(was, k, i + 1); }
      }
    }
  }
}
