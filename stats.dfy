/**
  The statistics footer: how many items there are, how many are packed and
  what percentage that is, with a separate message for the empty list and a
  "good to go" message at 100 percent.
 */
module PackingStats {
  import opened Items

  /** What the footer is computed from: nothing for the empty list, the counts
      and the truncated percentage otherwise. */
  datatype Summary = EmptyList | Counts(numItems: nat, numPacked: nat, percent: nat)

  /** The three messages the footer can show. `shownPercent` is the value
      `numPacked && percent` prints: 0 when nothing is packed, else `percent`. */
  datatype Footer = AddSomeItems | GoodToGo | Progress(numItems: nat, numPacked: nat, shownPercent: nat)

  /** The percentage of `numPacked` in `numItems`, truncated toward zero: the
      largest whole percentage not above the exact ratio. */
  function Percent(numPacked: nat, numItems: nat): (percent: nat)
    requires 0 < numItems && numPacked <= numItems
    ensures percent * numItems <= numPacked * 100 < percent * numItems + numItems
    ensures percent <= 100
    ensures percent == 100 <==> numPacked == numItems
    ensures numPacked == 0 ==> percent == 0
  {
    var q: int := (numPacked * 100) / numItems;
    PercentBounds(numPacked, numItems, q);
    q
  }

  /** Multiplying by a positive number keeps the order of the factors. */
  lemma MulLe(a: int, b: int, n: int)
    requires 0 < n
    ensures a <= b <==> a * n <= b * n
  {
    assert b * n - a * n == (b - a) * n;
  }

  /** What integer division promises of the quotient `q` of `100 * numPacked`
      by `numItems`. */
  lemma PercentBounds(numPacked: nat, numItems: nat, q: int)
    requires 0 < numItems && numPacked <= numItems
    requires q == (numPacked * 100) / numItems
    ensures 0 <= q <= 100
    ensures q * numItems <= numPacked * 100 < q * numItems + numItems
    ensures q == 100 <==> numPacked == numItems
    ensures numPacked == 0 ==> q == 0
  {
    var m := (numPacked * 100) % numItems;
    assert numPacked * 100 == q * numItems + m && 0 <= m < numItems;
    MulLe(q, -1, numItems);
    MulLe(1, q, numItems);
    MulLe(q, 99, numItems);
    MulLe(100, q, numItems);
    MulLe(101, q, numItems);
  }

  /** The number of packed items, `items.filter(i => i.packed).length`: one
      for every position of the list that holds a packed item. */
  function NumPacked(items: seq<Item>): (n: nat)
    ensures n == |PackedPositions(items)|
    ensures n <= |items|
    ensures n == |items| <==> AllPacked(items)
  {
    WithPackedAll(items);
    WithPackedCountsPositions(items);
    |WithPacked(items, true)|
  }

  /** The statistics of `items`: the empty-list case never divides; otherwise
      the packed count is within the item count and the percentage within
      0..100, reaching 100 exactly when every item is packed. */
  function Stats(items: seq<Item>): (st: Summary)
    ensures st.EmptyList? <==> items == []
    ensures st.Counts? ==> st.numItems == |items| && st.numPacked <= st.numItems
    ensures st.Counts? ==> st.numPacked == |PackedPositions(items)|
    ensures st.Counts? ==> st.percent <= 100
    ensures st.Counts? ==> (st.percent == 100 <==> AllPacked(items))
    ensures st.Counts? ==> st.percent * st.numItems <= st.numPacked * 100 < st.percent * st.numItems + st.numItems
  {
    if |items| == 0 then EmptyList
    else
      var numItems := |items|;
      var numPacked := NumPacked(items);
      Counts(numItems, numPacked, Percent(numPacked, numItems))
  }

  /** The footer shown for `items`: the invitation for an empty list, "good to
      go" when the percentage is 100, the counts otherwise. The percentage it
      prints, `numPacked && percent`, is always the percentage itself, since
      nothing packed means 0 percent. */
  function FooterOf(items: seq<Item>): (f: Footer)
    ensures f.AddSomeItems? <==> items == []
    ensures f.GoodToGo? <==> items != [] && AllPacked(items)
    ensures f.Progress? ==> f.numItems == |items| && f.numPacked < f.numItems
    ensures f.Progress? ==> f.numPacked == |PackedPositions(items)|
    ensures f.Progress? ==> f.shownPercent < 100 && f.shownPercent == Stats(items).percent
  {
    match Stats(items)
    case EmptyList => AddSomeItems
    case Counts(numItems, numPacked, percent) =>
      if percent == 100 then GoodToGo
      // `numPacked && percent`: 0 when nothing is packed, the percentage otherwise
      else Progress(numItems, numPacked, if numPacked == 0 then 0 else percent)
  }

  /** Two packed items out of three is 66 percent, truncated rather than rounded. */
  lemma TwoOfThreePacked()
    ensures Stats([Item("a", 1, true, 1), Item("b", 1, false, 2), Item("c", 1, true, 3)])
         == Counts(3, 2, 66)
  {
    var s := [Item("a", 1, true, 1), Item("b", 1, false, 2), Item("c", 1, true, 3)];
    assert s[1..] == [Item("b", 1, false, 2), Item("c", 1, true, 3)];
    assert s[1..][1..] == [Item("c", 1, true, 3)];
    assert s[1..][1..][1..] == [];
    assert WithPacked(s, true) == [s[0], s[2]];
  }
}
