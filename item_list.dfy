/**
  The two per-item transitions of the packing list, as the pure list
  transformations the handlers hand to the state setter: delete by id
  (an array `filter`) and toggle-packed by id (an array `map`).
 */
module ItemList {
  import opened Items

  /** The items whose id differs from `id`, in their original order. */
  function Delete(items: seq<Item>, id: Id): (r: seq<Item>)
    ensures |r| <= |items|
    ensures forall x :: x in r <==> x in items && x.id != id
    ensures forall x :: multiset(r)[x] == if x.id == id then 0 else multiset(items)[x]
  {
    if items == [] then []
    else
      assert items == [items[0]] + items[1..];
      (if id != items[0].id then [items[0]] else []) + Delete(items[1..], id)
  }

  /** Deleting distributes over concatenation: the survivors of each part stay
      in the same relative order. */
  lemma {:induction false} DeleteAppend(a: seq<Item>, b: seq<Item>, id: Id)
    ensures Delete(a + b, id) == Delete(a, id) + Delete(b, id)
  {
    if a == [] {
      assert a + b == b;
    } else {
      assert (a + b)[1..] == a[1..] + b;
      DeleteAppend(a[1..], b, id);
    }
  }

  /** Deleting an id that no item carries changes nothing. */
  lemma {:induction false} DeleteUnmatched(items: seq<Item>, id: Id)
    requires forall i :: 0 <= i < |items| ==> items[i].id != id
    ensures Delete(items, id) == items
  {
    if items != [] {
      DeleteUnmatched(items[1..], id);
    }
  }

  /** Deleting twice is deleting once. */
  lemma DeleteIdempotent(items: seq<Item>, id: Id)
    ensures Delete(Delete(items, id), id) == Delete(items, id)
  {
    var once := Delete(items, id);
    forall i | 0 <= i < |once| ensures once[i].id != id {
      assert once[i] in once;
    }
    DeleteUnmatched(once, id);
  }

  /** `item` with its packed flag flipped when it carries `id`, untouched otherwise. */
  function Flip(item: Item, id: Id): (r: Item)
    ensures r.id == item.id && r.description == item.description && r.quantity == item.quantity
    ensures r.packed <==> (item.packed != (item.id == id))
  {
    if id == item.id then item.(packed := !item.packed) else item
  }

  /** Every item carrying `id` has its packed flag flipped; every other item is
      left identical; length and order are kept. */
  function Toggle(items: seq<Item>, id: Id): (r: seq<Item>)
    ensures |r| == |items|
    ensures forall i :: 0 <= i < |items| ==>
      r[i].id == items[i].id && r[i].description == items[i].description &&
      r[i].quantity == items[i].quantity
    ensures forall i :: 0 <= i < |items| ==>
      r[i].packed == (if items[i].id == id then !items[i].packed else items[i].packed)
    ensures forall i :: 0 <= i < |items| && items[i].id != id ==> r[i] == items[i]
  {
    if items == [] then []
    else [Flip(items[0], id)] + Toggle(items[1..], id)
  }

  /** Toggling the same id twice restores the list. */
  lemma ToggleInvolutive(items: seq<Item>, id: Id)
    ensures Toggle(Toggle(items, id), id) == items
  {
    var twice := Toggle(Toggle(items, id), id);
    forall i | 0 <= i < |items| ensures twice[i] == items[i] {
    }
  }

  /** Toggling an id that no item carries changes nothing. */
  lemma ToggleUnmatched(items: seq<Item>, id: Id)
    requires forall i :: 0 <= i < |items| ==> items[i].id != id
    ensures Toggle(items, id) == items
  {
  }

  /** Deleting an id undoes any toggling of it: the items that survive a delete
      are exactly those the toggle never touched. */
  lemma {:induction false} DeleteAfterToggle(items: seq<Item>, id: Id)
    ensures Delete(Toggle(items, id), id) == Delete(items, id)
  {
    if items != [] {
      assert Toggle(items, id)[1..] == Toggle(items[1..], id);
      DeleteAfterToggle(items[1..], id);
    }
  }
}
