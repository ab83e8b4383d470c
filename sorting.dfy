/**
  The packing list's derived display order. The list offers three criteria:
  input order (the list itself), description (a comparator sort of a copy)
  and packing status (a comparator sort of a copy on the packed flag read as
  0 or 1). `Array.prototype.sort` is stable, so the comparator sorts are
  modelled by a stable insertion sort.
 */
module Sorting {
  import opened Items
  import Strings

  /** The two comparators the list passes to `sort`. */
  datatype Order = ByDescription | ByPacked

  /** `Number(item.packed)`: 0 for an unpacked item, 1 for a packed one. */
  function PackedNumber(item: Item): (n: int)
    ensures 0 <= n <= 1
    ensures n == 1 <==> item.packed
  {
    if item.packed then 1 else 0
  }

  /** The comparator: negative when `a` is to go before `b`, zero on a tie.
      By packing status, only an unpacked item goes strictly before a packed one. */
  function Comparator(order: Order, a: Item, b: Item): (c: int)
    ensures order.ByDescription? ==> (c == 0 <==> a.description == b.description)
    ensures order.ByPacked? ==> (c < 0 <==> !a.packed && b.packed)
    ensures order.ByPacked? ==> (c == 0 <==> a.packed == b.packed)
  {
    match order
    case ByDescription => Strings.Compare(a.description, b.description)
    case ByPacked => PackedNumber(a) - PackedNumber(b)
  }

  /** `a` may go before `b`. */
  predicate InOrder(order: Order, a: Item, b: Item)
  {
    Comparator(order, a, b) <= 0
  }

  /** The comparator cannot tell `a` and `b` apart. */
  predicate Tied(order: Order, a: Item, b: Item)
  {
    Comparator(order, a, b) == 0
  }

  /** Ties are items with equal descriptions, or equal packed flags. */
  lemma TiedIff(order: Order, a: Item, b: Item)
    ensures Tied(order, a, b) <==>
      match order
      case ByDescription => a.description == b.description
      case ByPacked => a.packed == b.packed
  {
  }

  /** Any two items are comparable one way or the other. */
  lemma InOrderTotal(order: Order, a: Item, b: Item)
    ensures InOrder(order, a, b) || InOrder(order, b, a)
  {
    if order.ByDescription? {
      Strings.CompareAntisymmetric(a.description, b.description);
    }
  }

  lemma InOrderTransitive(order: Order, a: Item, b: Item, c: Item)
    requires InOrder(order, a, b) && InOrder(order, b, c)
    ensures InOrder(order, a, c)
  {
    if order.ByDescription? {
      Strings.CompareTransitive(a.description, b.description, c.description);
    }
  }

  /** Every earlier item may go before every later one. */
  predicate Sorted(order: Order, s: seq<Item>)
  {
    forall i, j :: 0 <= i < j < |s| ==> InOrder(order, s[i], s[j])
  }

  /** The items of `s` tied with `x`, in their order in `s`. */
  function TiedWith(order: Order, x: Item, s: seq<Item>): seq<Item>
  {
    if s == [] then []
    else (if Tied(order, x, s[0]) then [s[0]] else []) + TiedWith(order, x, s[1..])
  }

  /** `r` keeps the input order of `s` among items the comparator ties. */
  ghost predicate Stable(order: Order, s: seq<Item>, r: seq<Item>)
  {
    forall x :: TiedWith(order, x, r) == TiedWith(order, x, s)
  }

  /** Places `x` in front of the first item of `r` it may go before. */
  function Insert(order: Order, x: Item, r: seq<Item>): (t: seq<Item>)
    ensures |t| == |r| + 1
  {
    if r == [] then [x]
    else if InOrder(order, x, r[0]) then [x] + r
    else [r[0]] + Insert(order, x, r[1..])
  }

  /** Stable sort of a copy of `s` under the comparator of `order`. */
  function Sort(order: Order, s: seq<Item>): (r: seq<Item>)
    ensures |r| == |s|
  {
    if s == [] then [] else Insert(order, s[0], Sort(order, s[1..]))
  }

  lemma {:induction false} InsertPermutes(order: Order, x: Item, r: seq<Item>)
    ensures multiset(Insert(order, x, r)) == multiset(r) + multiset{x}
  {
    if r != [] && !InOrder(order, x, r[0]) {
      InsertPermutes(order, x, r[1..]);
      assert r == [r[0]] + r[1..];
    }
  }

  lemma {:induction false} InsertSorted(order: Order, x: Item, r: seq<Item>)
    requires Sorted(order, r)
    ensures Sorted(order, Insert(order, x, r))
  {
    if r == [] {
    } else if InOrder(order, x, r[0]) {
      var t := [x] + r;
      forall i, j | 0 <= i < j < |t| ensures InOrder(order, t[i], t[j]) {
        if i == 0 && j > 1 {
          InOrderTransitive(order, x, r[0], r[j - 1]);
        }
      }
    } else {
      var rest := Insert(order, x, r[1..]);
      InsertSorted(order, x, r[1..]);
      InsertPermutes(order, x, r[1..]);
      InOrderTotal(order, x, r[0]);
      var t := [r[0]] + rest;
      forall i, j | 0 <= i < j < |t| ensures InOrder(order, t[i], t[j]) {
        if i == 0 {
          assert t[j] in multiset(rest);
          assert t[j] == x || t[j] in multiset(r[1..]);
          if t[j] != x {
            var k :| 0 <= k < |r[1..]| && r[1..][k] == t[j];
            assert r[k + 1] == t[j];
          }
        }
      }
    }
  }

  /** Inserting `x` adds it to the front of the items tied with it, which is
      where it belongs when it precedes all of them in the input. */
  lemma {:induction false} InsertTiedWith(order: Order, y: Item, x: Item, r: seq<Item>)
    ensures TiedWith(order, y, Insert(order, x, r))
         == (if Tied(order, y, x) then [x] else []) + TiedWith(order, y, r)
  {
    if r == [] {
    } else if InOrder(order, x, r[0]) {
      assert ([x] + r)[1..] == r;
    } else {
      InsertTiedWith(order, y, x, r[1..]);
      var t := [r[0]] + Insert(order, x, r[1..]);
      assert t[1..] == Insert(order, x, r[1..]);
      // x does not tie with r[0], so y cannot tie with both of them
      TiedIff(order, y, x);
      TiedIff(order, y, r[0]);
      TiedIff(order, x, r[0]);
    }
  }

  lemma {:induction false} SortPermutes(order: Order, s: seq<Item>)
    ensures multiset(Sort(order, s)) == multiset(s)
  {
    if s != [] {
      SortPermutes(order, s[1..]);
      InsertPermutes(order, s[0], Sort(order, s[1..]));
      assert s == [s[0]] + s[1..];
    }
  }

  lemma {:induction false} SortSorted(order: Order, s: seq<Item>)
    ensures Sorted(order, Sort(order, s))
  {
    if s != [] {
      SortSorted(order, s[1..]);
      InsertSorted(order, s[0], Sort(order, s[1..]));
    }
  }

  lemma {:induction false} SortStable(order: Order, s: seq<Item>)
    ensures Stable(order, s, Sort(order, s))
  {
    if s != [] {
      SortStable(order, s[1..]);
      forall y ensures TiedWith(order, y, Sort(order, s)) == TiedWith(order, y, s) {
        InsertTiedWith(order, y, s[0], Sort(order, s[1..]));
      }
    }
  }

  /** The sorted copy holds the same items, is ordered by the comparator and
      keeps input order among ties. */
  lemma SortCorrect(order: Order, s: seq<Item>)
    ensures multiset(Sort(order, s)) == multiset(s)
    ensures Sorted(order, Sort(order, s))
    ensures Stable(order, s, Sort(order, s))
  {
    SortPermutes(order, s);
    SortSorted(order, s);
    SortStable(order, s);
  }

  /** Inserting a packed item into "unpacked, then packed" puts it at the head
      of the packed items. */
  lemma {:induction false} InsertPackedAfterUnpacked(x: Item, u: seq<Item>, p: seq<Item>)
    requires x.packed
    requires forall i :: 0 <= i < |u| ==> !u[i].packed
    requires forall i :: 0 <= i < |p| ==> p[i].packed
    ensures Insert(ByPacked, x, u + p) == u + [x] + p
  {
    if u != [] {
      assert (u + p)[0] == u[0];
      assert (u + p)[1..] == u[1..] + p;
      InsertPackedAfterUnpacked(x, u[1..], p);
    } else {
      assert u + p == p;
    }
  }

  /** An unpacked item may go before anything, so it is inserted at the front. */
  lemma {:induction false} InsertUnpacked(x: Item, r: seq<Item>)
    requires !x.packed
    ensures Insert(ByPacked, x, r) == [x] + r
  {
  }

  /** Inserting the head of `s` into the split of its tail gives the split of `s`. */
  lemma {:induction false} InsertIntoSplit(s: seq<Item>)
    requires s != []
    ensures Insert(ByPacked, s[0], WithPacked(s[1..], false) + WithPacked(s[1..], true))
         == WithPacked(s, false) + WithPacked(s, true)
  {
    var u, p := WithPacked(s[1..], false), WithPacked(s[1..], true);
    if s[0].packed {
      InsertPackedAfterUnpacked(s[0], u, p);
      assert u + [s[0]] + p == u + ([s[0]] + p);
    } else {
      InsertUnpacked(s[0], u + p);
      assert [s[0]] + (u + p) == ([s[0]] + u) + p;
    }
  }

  /** Sorting on packing status lists the unpacked items in input order, then
      the packed items in input order. */
  lemma {:induction false} SortByPackedPartitions(s: seq<Item>)
    ensures Sort(ByPacked, s) == WithPacked(s, false) + WithPacked(s, true)
  {
    if s != [] {
      SortByPackedPartitions(s[1..]);
      InsertIntoSplit(s);
    }
  }

  /** The list as displayed under the criterion `sortBy`: the list itself for
      "input", a description sort of a copy for "description", and a sort of a
      copy on packing status for any other value. */
  function SortedView(sortBy: string, items: seq<Item>): (sorted: seq<Item>)
    ensures multiset(sorted) == multiset(items)
    ensures sortBy == "input" ==> sorted == items
    ensures sortBy == "description" ==>
      Sorted(ByDescription, sorted) && Stable(ByDescription, items, sorted)
    ensures sortBy != "input" && sortBy != "description" ==>
      Sorted(ByPacked, sorted) && Stable(ByPacked, items, sorted) &&
      sorted == WithPacked(items, false) + WithPacked(items, true)
  {
    if sortBy == "input" then items
    else if sortBy == "description" then
      SortCorrect(ByDescription, items);
      Sort(ByDescription, items)
    else
      SortCorrect(ByPacked, items);
      SortByPackedPartitions(items);
      Sort(ByPacked, items)
  }

  /** Ties on the description keep input order: "b", "a" (first), "a" (second)
      displays as the first "a", the second "a", then "b". */
  lemma DescriptionTiesKeepInputOrder()
    ensures SortedView("description", [Item("b", 1, false, 1), Item("a", 2, false, 2), Item("a", 3, false, 3)])
         == [Item("a", 2, false, 2), Item("a", 3, false, 3), Item("b", 1, false, 1)]
  {
    var b, a2, a3 := Item("b", 1, false, 1), Item("a", 2, false, 2), Item("a", 3, false, 3);
    assert Strings.Compare("a", "a") == 0;
    assert Strings.Compare("b", "a") == 1 by {
      assert "b"[0] == 'b' && "a"[0] == 'a';
    }
    var s := [b, a2, a3];
    assert s[1..] == [a2, a3] && s[1..][1..] == [a3] && s[1..][1..][1..] == [];
    calc {
      Sort(ByDescription, [a3]);
      Insert(ByDescription, a3, []);
      [a3];
    }
    calc {
      Sort(ByDescription, [a2, a3]);
      Insert(ByDescription, a2, [a3]);
      { assert InOrder(ByDescription, a2, a3); }
      [a2, a3];
    }
    assert !InOrder(ByDescription, b, a2) && !InOrder(ByDescription, b, a3);
    assert [a2, a3][1..] == [a3];
    calc {
      Sort(ByDescription, s);
      Insert(ByDescription, b, [a2, a3]);
      [a2] + Insert(ByDescription, b, [a3]);
      { assert [a3][1..] == []; }
      [a2] + ([a3] + Insert(ByDescription, b, []));
      [a2, a3, b];
    }
  }
}
