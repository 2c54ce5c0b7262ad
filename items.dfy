/** The packing list itself: the item record, the seed list and the three
    list updates the App component's handlers apply (add, toggle, delete).
    Each update builds a new list from the old one and never changes an item
    in place, so each is a function on sequences. */
module Items {
  import opened Seqs
  import opened Text

  /** One entry of the packing list. `id` comes from a millisecond clock
      reading and nothing guarantees that ids are distinct. */
  datatype Item = Item(id: int, description: string, quantity: int, packed: bool)

  /** The list the application starts with. */
  function InitialItems(): (items: seq<Item>)
    ensures |items| == 2 && UniqueIds(items)
    ensures forall i :: 0 <= i < |items| ==> !items[i].packed && !IsBlank(items[i].description)
  {
    [ Item(1, "Shirt", 5, false),
      Item(2, "Pants", 2, false) ]
  }

  /** No two items of the list share an id. */
  predicate UniqueIds(items: seq<Item>)
  {
    forall i, j :: 0 <= i < j < |items| ==> items[i].id != items[j].id
  }

  /** Some item of the list has the given id. */
  predicate HasId(items: seq<Item>, id: int)
  {
    exists i :: 0 <= i < |items| && items[i].id == id
  }

  // ---------------------------------------------------------------------
  // Add: `[...items, newItem]`

  /** The list with newItem appended at the end. */
  function Add(items: seq<Item>, newItem: Item): (r: seq<Item>)
    ensures |r| == |items| + 1
    ensures r[..|items|] == items && r[|items|] == newItem
  {
    items + [newItem]
  }

  /** Appending keeps ids distinct exactly when the new id is not taken. */
  lemma AddUniqueIds(items: seq<Item>, newItem: Item)
    requires UniqueIds(items)
    ensures UniqueIds(Add(items, newItem)) <==> !HasId(items, newItem.id)
  {
  }

  // ---------------------------------------------------------------------
  // Toggle: `items.map(item => item.id === id ? { ...item, packed: !item.packed } : item)`

  /** The per-item step of the toggle: flip `packed` when the id matches. */
  function Flip(item: Item, id: int): Item
  {
    if item.id == id then item.(packed := !item.packed) else item
  }

  /** The list with `packed` flipped on every item whose id is `id`. */
  function Toggle(items: seq<Item>, id: int): (r: seq<Item>)
    ensures |r| == |items|
    ensures forall i :: 0 <= i < |items| ==>
              && r[i].id == items[i].id
              && r[i].description == items[i].description
              && r[i].quantity == items[i].quantity
              && r[i].packed == (if items[i].id == id then !items[i].packed else items[i].packed)
  {
    Map(items, item => Flip(item, id))
  }

  /** Toggling an id no item carries leaves the list as it was. */
  lemma ToggleAbsent(items: seq<Item>, id: int)
    requires !HasId(items, id)
    ensures Toggle(items, id) == items
  {
  }

  /** Toggling the same id twice restores the original list. */
  lemma ToggleInvolution(items: seq<Item>, id: int)
    ensures Toggle(Toggle(items, id), id) == items
  {
  }

  /** Toggles of two ids commute. */
  lemma ToggleCommute(items: seq<Item>, a: int, b: int)
    ensures Toggle(Toggle(items, a), b) == Toggle(Toggle(items, b), a)
  {
  }

  /** Toggling acts on concatenations piece by piece. */
  lemma ToggleAppend(a: seq<Item>, b: seq<Item>, id: int)
    ensures Toggle(a + b, id) == Toggle(a, id) + Toggle(b, id)
  {
  }

  /** Toggling never changes the ids, so distinct ids stay distinct. */
  lemma ToggleUniqueIds(items: seq<Item>, id: int)
    ensures UniqueIds(Toggle(items, id)) <==> UniqueIds(items)
    ensures HasId(Toggle(items, id), id) <==> HasId(items, id)
  {
  }

  // ---------------------------------------------------------------------
  // Delete: `items.filter(item => item.id !== id)`

  /** The filter predicate of the delete handler. */
  function NotId(id: int): Item -> bool
  {
    (item: Item) => item.id != id
  }

  /** The complementary predicate: the items a delete of `id` removes. */
  function WithId(id: int): Item -> bool
  {
    (item: Item) => item.id == id
  }

  /** The list without any item whose id is `id`, the others in their
      original order. */
  function Delete(items: seq<Item>, id: int): (r: seq<Item>)
    ensures !HasId(r, id)
    ensures forall x :: x in r <==> x in items && x.id != id
    ensures |r| == |items| - Count(items, WithId(id))
  {
    FilterLength(items, NotId(id));
    CountComplement(items, WithId(id), NotId(id));
    Filter(items, NotId(id))
  }

  /** Deleting an id no item carries leaves the list as it was. */
  lemma DeleteAbsent(items: seq<Item>, id: int)
    requires !HasId(items, id)
    ensures Delete(items, id) == items
  {
    FilterKeepsAll(items, NotId(id));
  }

  /** Delete works item by item, so it keeps the surviving items in their
      original relative order: deleting from a concatenation deletes from
      both halves, and a single item survives exactly when its id differs. */
  lemma DeleteKeepsOrder(a: seq<Item>, b: seq<Item>, id: int)
    ensures Delete(a + b, id) == Delete(a, id) + Delete(b, id)
    ensures forall x: Item :: Delete([x], id) == if x.id == id then [] else [x]
  {
    FilterAppend(a, b, NotId(id));
  }

  /** With distinct ids, deleting a present id removes exactly one item and
      deleting an absent id removes none. */
  lemma {:induction false} DeleteUniqueLength(items: seq<Item>, id: int)
    requires UniqueIds(items)
    ensures |Delete(items, id)| == if HasId(items, id) then |items| - 1 else |items|
  {
    if items == [] {
    } else {
      var rest := items[1..];
      assert UniqueIds(rest) by {
        forall i, j | 0 <= i < j < |rest| ensures rest[i].id != rest[j].id {
          assert rest[i] == items[i + 1] && rest[j] == items[j + 1];
        }
      }
      DeleteUniqueLength(rest, id);
      assert Count(items, WithId(id)) == (if items[0].id == id then 1 else 0) + Count(rest, WithId(id));
      if items[0].id == id {
        assert !HasId(rest, id) by {
          forall i | 0 <= i < |rest| ensures rest[i].id != id {
            assert rest[i] == items[i + 1];
          }
        }
        assert HasId(items, id);
      } else {
        assert HasId(items, id) <==> HasId(rest, id) by {
          if HasId(items, id) {
            var i :| 0 <= i < |items| && items[i].id == id;
            assert rest[i - 1] == items[i];
          }
          if HasId(rest, id) {
            var i :| 0 <= i < |rest| && rest[i].id == id;
            assert items[i + 1] == rest[i];
          }
        }
      }
    }
  }

  /** Ids are distinct in a list with a head item exactly when they are
      distinct in the tail and no tail item has the head's id. */
  lemma UniqueIdsCons(x: Item, rest: seq<Item>)
    ensures UniqueIds([x] + rest) <==> UniqueIds(rest) && forall y :: y in rest ==> y.id != x.id
  {
    var l := [x] + rest;
    if UniqueIds(l) {
      forall i, j | 0 <= i < j < |rest| ensures rest[i].id != rest[j].id {
        assert rest[i] == l[i + 1] && rest[j] == l[j + 1];
      }
      forall y | y in rest ensures y.id != x.id {
        var k :| 0 <= k < |rest| && rest[k] == y;
        assert l[0] == x && l[k + 1] == y;
      }
    }
    if UniqueIds(rest) && forall y :: y in rest ==> y.id != x.id {
      forall i, j | 0 <= i < j < |l| ensures l[i].id != l[j].id {
        assert l[j] == rest[j - 1];
        if i > 0 {
          assert l[i] == rest[i - 1];
        }
      }
    }
  }

  /** Deleting keeps ids distinct. */
  lemma {:induction false} DeleteUniqueIds(items: seq<Item>, id: int)
    requires UniqueIds(items)
    ensures UniqueIds(Delete(items, id))
  {
    if items != [] {
      var x, rest := items[0], items[1..];
      assert items == [x] + rest;
      UniqueIdsCons(x, rest);
      DeleteUniqueIds(rest, id);
      DeleteKeepsOrder([x], rest, id);
      if x.id != id {
        UniqueIdsCons(x, Delete(rest, id));
      }
    }
  }

  /** Deleting an id after toggling it gives the same list as deleting it
      straight away: the toggled items are exactly the deleted ones. */
  lemma {:induction false} DeleteAfterToggle(items: seq<Item>, id: int)
    ensures Delete(Toggle(items, id), id) == Delete(items, id)
  {
    if items != [] {
      var rest := items[1..];
      var t := Toggle(items, id);
      assert t == [t[0]] + t[1..];
      assert t[1..] == Toggle(rest, id);
      assert items == [items[0]] + rest;
      DeleteAfterToggle(rest, id);
      DeleteKeepsOrder([t[0]], t[1..], id);
      DeleteKeepsOrder([items[0]], rest, id);
      if items[0].id != id {
        assert t[0] == items[0];
      }
    }
  }
}
