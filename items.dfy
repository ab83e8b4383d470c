/**
  The packing-list item record and its construction by the add form.
 */
module Items {

  /** An item id: the millisecond timestamp read when the item was submitted.
      Two submissions in the same millisecond get the same id, so nothing in
      this model assumes ids are distinct. */
  type Id = int

  /** One line of the packing list. */
  datatype Item = Item(description: string, quantity: int, packed: bool, id: Id)

  datatype Option<+T> = None | Some(value: T)

  /** The add form's submit handler: an empty description is rejected (no item);
      anything else, whitespace included, becomes a fresh unpacked item whose id
      is the clock reading `now`. */
  function NewItem(description: string, quantity: int, now: Id): (r: Option<Item>)
    ensures r.None? <==> description == ""
    ensures r.Some? ==> !r.value.packed && r.value.id == now
    ensures r.Some? ==> r.value.description == description && r.value.quantity == quantity
  {
    if description == "" then None
    else Some(Item(description, quantity, false, now))
  }

  /** Every item of `s` is packed. */
  predicate AllPacked(s: seq<Item>)
  {
    forall i :: 0 <= i < |s| ==> s[i].packed
  }

  /** The items of `s` whose packed flag is `b`, in their order in `s`. */
  function WithPacked(s: seq<Item>, b: bool): (r: seq<Item>)
    ensures |r| <= |s|
    ensures forall i :: 0 <= i < |r| ==> r[i].packed == b
  {
    if s == [] then []
    else (if s[0].packed == b then [s[0]] else []) + WithPacked(s[1..], b)
  }

  lemma {:induction false} WithPackedAppend(a: seq<Item>, b: seq<Item>, p: bool)
    ensures WithPacked(a + b, p) == WithPacked(a, p) + WithPacked(b, p)
  {
    if a == [] {
      assert a + b == b;
    } else {
      assert (a + b)[1..] == a[1..] + b;
      WithPackedAppend(a[1..], b, p);
    }
  }

  /** Filtering by the packed flag splits the list: the two halves together hold
      every item exactly as often as the list does. */
  lemma {:induction false} WithPackedSplit(s: seq<Item>)
    ensures |WithPacked(s, false)| + |WithPacked(s, true)| == |s|
    ensures multiset(WithPacked(s, false)) + multiset(WithPacked(s, true)) == multiset(s)
  {
    if s != [] {
      WithPackedSplit(s[1..]);
      assert s == [s[0]] + s[1..];
    }
  }

  /** The packed items are the whole list exactly when every item is packed. */
  lemma {:induction false} WithPackedAll(s: seq<Item>)
    ensures |WithPacked(s, true)| == |s| <==> AllPacked(s)
  {
    if s != [] {
      WithPackedAll(s[1..]);
      if AllPacked(s) {
        assert AllPacked(s[1..]) by {
          forall i | 0 <= i < |s[1..]| ensures s[1..][i].packed {
            assert s[1..][i] == s[i + 1];
          }
        }
      }
      if !s[0].packed {
        assert |WithPacked(s[1..], true)| <= |s[1..]|;
      } else if AllPacked(s[1..]) {
        forall i | 0 <= i < |s| ensures s[i].packed {
          if i > 0 { assert s[i] == s[1..][i - 1]; }
        }
      }
    }
  }

  /** The positions of the packed items of `s`. */
  ghost function PackedPositions(s: seq<Item>): set<int>
  {
    set i | 0 <= i < |s| && s[i].packed
  }

  /** Appending `x` adds its position to the packed positions exactly when it is packed. */
  lemma PackedPositionsSnoc(t: seq<Item>, x: Item)
    ensures PackedPositions(t + [x])
         == PackedPositions(t) + (if x.packed then {|t|} else {})
  {
    var s := t + [x];
    forall i | 0 <= i < |t| ensures s[i] == t[i] { }
  }

  /** Appending `x` adds one to the packed filter exactly when it is packed. */
  lemma WithPackedSnoc(t: seq<Item>, x: Item)
    ensures |WithPacked(t + [x], true)| == |WithPacked(t, true)| + (if x.packed then 1 else 0)
  {
    WithPackedAppend(t, [x], true);
    assert [x][1..] == [];
  }

  /** The packed filter holds exactly as many items as there are packed positions. */
  lemma {:induction false} WithPackedCountsPositions(s: seq<Item>)
    ensures |WithPacked(s, true)| == |PackedPositions(s)|
    decreases |s|
  {
    if s != [] {
      var t, x := s[..|s| - 1], s[|s| - 1];
      assert s == t + [x];
      WithPackedCountsPositions(t);
      WithPackedSnoc(t, x);
      PackedPositionsSnoc(t, x);
      assert |t| !in PackedPositions(t);
    }
  }
}
