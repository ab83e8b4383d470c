/**
  The application's owned state: the packing list, replaced wholesale by each
  handler with a new list computed from the old one.
 */
module PackingApp {
  import opened Items
  import opened ItemList
  import Sorting
  import PackingStats

  class App {
    /** The packing list, in input order. */
    var items: seq<Item>

    /** The list starts empty. */
    constructor ()
      ensures items == []
    {
      items := [];
    }

    /** `handleItems`: appends `item` after every existing item. */
    method HandleItems(item: Item)
      modifies this
      ensures items == old(items) + [item]
      ensures |items| == |old(items)| + 1 && items[|items| - 1] == item
      ensures forall i :: 0 <= i < |old(items)| ==> items[i] == old(items)[i]
    {
      items := items + [item];
    }

    /** The add form's submit followed by `onAdd`: an empty description adds
        nothing; otherwise a fresh unpacked item stamped with the clock reading
        `now` is appended. `now` need not differ from the ids already present. */
    method HandleSubmit(description: string, quantity: int, now: Id) returns (added: bool)
      modifies this
      ensures added <==> description != ""
      ensures !added ==> items == old(items)
      ensures added ==> items == old(items) + [Item(description, quantity, false, now)]
    {
      var newItem := NewItem(description, quantity, now);
      if newItem.None? {
        return false;
      }
      HandleItems(newItem.value);
      added := true;
    }

    /** `handleDelete`: keeps exactly the items whose id is not `id`. */
    method HandleDelete(id: Id)
      modifies this
      ensures items == Delete(old(items), id)
      ensures forall x :: x in items <==> x in old(items) && x.id != id
    {
      items := Delete(items, id);
    }

    /** `handleClear`: empties the list only when the user confirmed. */
    method HandleClear(confirmed: bool)
      modifies this
      ensures items == if confirmed then [] else old(items)
    {
      if confirmed {
        items := [];
      }
    }

    /** `handlePack`: flips the packed flag of every item carrying `id`. */
    method HandlePack(id: Id)
      modifies this
      ensures items == Toggle(old(items), id)
      ensures |items| == |old(items)|
      ensures forall i :: 0 <= i < |items| && old(items)[i].id != id ==> items[i] == old(items)[i]
    {
      items := Toggle(items, id);
    }

    /** The list as displayed under `sortBy`: a read of the state that leaves
        it untouched and holds the same items. */
    method View(sortBy: string) returns (sorted: seq<Item>)
      ensures multiset(sorted) == multiset(items)
      ensures sortBy == "input" ==> sorted == items
      ensures sortBy == "description" ==>
        Sorting.Sorted(Sorting.ByDescription, sorted) && Sorting.Stable(Sorting.ByDescription, items, sorted)
      ensures sortBy != "input" && sortBy != "description" ==>
        sorted == WithPacked(items, false) + WithPacked(items, true)
    {
      sorted := Sorting.SortedView(sortBy, items);
    }

    /** The footer for the current list. */
    method Footer() returns (f: PackingStats.Footer)
      ensures f == PackingStats.FooterOf(items)
      ensures f.AddSomeItems? <==> items == []
      ensures f.GoodToGo? <==> items != [] && AllPacked(items)
      ensures f.Progress? ==> f.numPacked == |PackedPositions(items)|
    {
      f := PackingStats.FooterOf(items);
    }
  }

  /** Two submissions in the same millisecond give two items with one id;
      deleting that id then removes both, and toggling it flips both. */
  method SameMillisecond(now: Id)
  {
    var app := new App();
    var added := app.HandleSubmit("tent", 1, now);
    added := app.HandleSubmit("socks", 2, now);
    assert app.items == [Item("tent", 1, false, now), Item("socks", 2, false, now)];
    app.HandlePack(now);
    assert app.items[0].packed && app.items[1].packed;
    app.HandleDelete(now);
    assert app.items == [];
  }

  /** A blank description is rejected, but one made of spaces is accepted. */
  method OnlyEmptyDescriptionRejected(now: Id)
  {
    var app := new App();
    var added := app.HandleSubmit("", 3, now);
    assert !added && app.items == [];
    added := app.HandleSubmit(" ", 3, now);
    assert added && |app.items| == 1;
    app.HandleClear(false);
    assert |app.items| == 1;
    app.HandleClear(true);
    assert app.items == [];
    var footer := app.Footer();
    assert footer.AddSomeItems?;
  }
}
