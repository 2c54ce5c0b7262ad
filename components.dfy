/** The state the components hold and the handlers that replace it. The App
    component owns the item list and exposes the add, toggle and delete
    handlers; the Form component owns the entry fields (description text and
    selected quantity) and, on submit, builds an item and hands it to the
    App's add handler. A state cell and its setter become a field and an
    assignment to it. */
module Components {
  import opened Text
  import opened Items

  /** The quantities the entry form's drop-down offers. */
  predicate IsOffered(quantity: int)
  {
    1 <= quantity <= 3
  }

  class App {
    /** The `items` state cell. */
    var items: seq<Item>

    /** The list starts as the seed list. */
    constructor ()
      ensures items == InitialItems()
    {
      items := InitialItems();
    }

    /** `handleAddItem`: the list becomes the old one with newItem at its end. */
    method HandleAddItem(newItem: Item)
      modifies this
      ensures items == Add(old(items), newItem)
    {
      items := Add(items, newItem);
    }

    /** `handleTogglePacked`: every item carrying id has its packed flag flipped. */
    method HandleTogglePacked(id: int)
      modifies this
      ensures items == Toggle(old(items), id)
    {
      items := Toggle(items, id);
    }

    /** `handleDeleteItem`: every item carrying id is dropped. */
    method HandleDeleteItem(id: int)
      modifies this
      ensures items == Delete(old(items), id)
    {
      items := Delete(items, id);
    }
  }

  class Form {
    /** The `itemDescription` state cell, bound to the text input. */
    var itemDescription: string
    /** The `quantity` state cell, bound to the drop-down. */
    var quantity: int
    /** The component whose add handler receives submitted items. */
    const onAddItem: App

    /** The drop-down can only hold one of the offered quantities. */
    ghost predicate Valid()
      reads this
    {
      IsOffered(quantity)
    }

    /** The fields start empty and at quantity 1. */
    constructor (onAddItem: App)
      ensures Valid()
      ensures itemDescription == "" && quantity == 1 && this.onAddItem == onAddItem
    {
      itemDescription := "";
      quantity := 1;
      this.onAddItem := onAddItem;
    }

    /** The text input's change handler stores whatever was typed, untrimmed. */
    method SetItemDescription(value: string)
      modifies this
      ensures itemDescription == value && quantity == old(quantity)
    {
      itemDescription := value;
    }

    /** The drop-down's change handler stores the chosen option. */
    method SetQuantity(value: int)
      requires IsOffered(value)
      modifies this
      ensures Valid()
      ensures quantity == value && itemDescription == old(itemDescription)
    {
      quantity := value;
    }

    /** `handleSubmit`, with `now` standing for the clock reading that
        becomes the new item's id. A blank description changes nothing.
        Otherwise an unpacked item holding the description exactly as typed
        and the selected quantity is appended to the App's list, and the
        fields return to an empty description and quantity 1. */
    method HandleSubmit(now: int)
      requires Valid()
      modifies this, onAddItem
      ensures Valid()
      ensures IsBlank(old(itemDescription)) ==>
                && itemDescription == old(itemDescription) && quantity == old(quantity)
                && onAddItem.items == old(onAddItem.items)
      ensures !IsBlank(old(itemDescription)) ==>
                && onAddItem.items
                   == Add(old(onAddItem.items), Item(now, old(itemDescription), old(quantity), false))
                && itemDescription == "" && quantity == 1
    {
      if IsBlank(itemDescription) {
        return;
      }
      var newItem := Item(now, itemDescription, quantity, false);
      onAddItem.HandleAddItem(newItem);
      itemDescription := "";
      quantity := 1;
    }
  }

  /** A session on a fresh page: typing "Socks", choosing 2 and submitting
      appends one unpacked item to the seed list and clears the form; a blank
      entry then adds nothing; toggling the new item twice restores the list;
      deleting it returns to the seed list. */
  method Session(now: int)
    requires now != 1 && now != 2
  {
    var app := new App();
    var form := new Form(app);
    form.SetItemDescription("Socks");
    form.SetQuantity(2);
    assert !IsBlank(form.itemDescription) by {
      assert !IsWhiteSpace(form.itemDescription[0]);
    }
    form.HandleSubmit(now);
    var socks := Item(now, "Socks", 2, false);
    assert app.items == InitialItems() + [socks];
    assert form.itemDescription == "" && form.quantity == 1;

    form.SetItemDescription("  ");
    assert IsBlank(form.itemDescription);
    form.HandleSubmit(now + 1);
    assert app.items == InitialItems() + [socks];

    app.HandleTogglePacked(now);
    assert app.items[2].packed;
    app.HandleTogglePacked(now);
    ToggleInvolution(InitialItems() + [socks], now);
    assert app.items == InitialItems() + [socks];

    app.HandleDeleteItem(now);
    DeleteKeepsOrder(InitialItems(), [socks], now);
    DeleteAbsent(InitialItems(), now);
    assert app.items == InitialItems();
  }
}
