# Packing list ("Far Away") — a Dafny model

The application is a travel packing list. The user adds items, each with a
description and a quantity. The user can tick items as packed, delete them, or
clear the list after confirming. The list can be shown in input order, sorted
alphabetically or sorted by packing status. A footer counts the items and
shows the percentage packed.

This project models the list logic behind that UI:

- `Items` (items.dfy): the item record, and the submit guard that builds an
  item. Only an empty description is rejected.
- `ItemList` (item_list.dfy): delete-by-id (a `filter`) and toggle-packed-by-id
  (a `map`) as pure list transformations.
- `Strings` (strings.dfy): the three-way description comparison used by the
  alphabetical sort.
- `Sorting` (sorting.dfy): the three display orders. The two comparator sorts
  are a stable insertion sort on a copy, proved to give a sorted, stable
  permutation. The packing-status view is also proved to equal "unpacked items
  in input order, then packed items in input order".
- `PackingStats` (stats.dfy): the footer statistics (item count, packed
  count, truncated percentage) and the choice between the footer's three
  messages.
- `PackingApp` (app.dfy): the owned state as a class `App`. Its field
  `items: seq<Item>` is replaced by one method per handler. Two client methods
  there walk through a same-millisecond id collision and the blank-description
  guard.

Three behaviours of the code that the model keeps as they are:

- Ids are clock readings, so two items can share one. Delete and toggle act on
  every item that carries the id (see `PackingApp.SameMillisecond`).
- Only the empty description is rejected. A description of spaces is accepted,
  and nothing is trimmed.
- Clear happens only when the user confirms. `HandleClear` takes the answer as
  a parameter.

Inputs the code reads from the environment are parameters here:

- the clock reading `Date.now()` is `now`;
- the confirm dialog's answer is `confirmed`;
- the sort selector's value is `sortBy`;
- the form's fields are `description` and `quantity`.

## Model

| member | source | states |
|---|---|---|
| Items.NewItem | src/App.js:50-55 | an empty description yields no item; any other description, including whitespace, yields an unpacked item with that description, that quantity and the clock reading as id |
| Items.WithPacked | src/App.js:147 | the filtered list is no longer than the input and every item in it has the requested packed flag |
| Items.WithPackedAppend | src/App.js:147 | filtering by the packed flag distributes over concatenation (input order is kept) |
| Items.WithPackedSplit | src/App.js:147 | the unpacked and the packed items together are the whole list, by count and by multiset |
| Items.WithPackedAll | src/App.js:147 | the packed items are the whole list exactly when every item is packed |
| Items.PackedPositionsSnoc | src/App.js:147 | appending an item adds its position to the packed positions exactly when it is packed |
| Items.WithPackedSnoc | src/App.js:147 | appending an item grows the packed filter by one exactly when it is packed |
| Items.WithPackedCountsPositions | src/App.js:147 | the length of the packed filter is the number of positions holding a packed item |
| ItemList.Delete | src/App.js:10-12 | the result holds an item exactly when the input does and its id differs from the given id; each other item keeps its multiplicity; matching items have multiplicity 0 |
| ItemList.DeleteAppend | src/App.js:11 | delete distributes over concatenation, so survivors keep their relative order |
| ItemList.DeleteUnmatched | src/App.js:11 | deleting an id no item carries leaves the list unchanged |
| ItemList.DeleteIdempotent | src/App.js:10-12 | deleting the same id twice equals deleting it once |
| ItemList.Flip | src/App.js:22 | the map callback keeps id, description and quantity, and flips the packed flag exactly when the id matches |
| ItemList.Toggle | src/App.js:19-25 | length and order are kept; every item keeps its id, description and quantity; the packed flag is flipped exactly on items whose id matches; non-matching items are identical |
| ItemList.ToggleInvolutive | src/App.js:19-25 | toggling the same id twice restores the original list |
| ItemList.ToggleUnmatched | src/App.js:21-23 | toggling an id no item carries leaves the list unchanged |
| ItemList.DeleteAfterToggle | src/App.js:10-25 | deleting an id after toggling it gives the same list as deleting it without toggling |
| Strings.Compare | src/App.js:94 | the description comparison returns -1, 0 or 1, and returns 0 exactly for equal strings |
| Strings.CompareAntisymmetric | src/App.js:94 | swapping the descriptions negates the comparison |
| Strings.CompareTransitive | src/App.js:94 | "before or equal" under the description comparison is transitive |
| Sorting.PackedNumber | src/App.js:96 | `Number(packed)` is 0 or 1, and 1 exactly for a packed item |
| Sorting.Comparator | src/App.js:94-96 | the description comparator is 0 exactly on equal descriptions; the packed comparator is negative exactly when an unpacked item meets a packed one, and 0 exactly on equal flags |
| Sorting.TiedIff | src/App.js:94-96 | the description comparator ties exactly equal descriptions; the packed comparator ties exactly equal packed flags |
| Sorting.InOrderTotal | src/App.js:94-96 | either comparator orders any two items one way or the other |
| Sorting.InOrderTransitive | src/App.js:94-96 | either comparator's "may go before" is transitive |
| Sorting.Insert | src/App.js:92-96 | one insertion step of the sort adds exactly one item to the list |
| Sorting.Sort | src/App.js:92-96 | the sorted copy has as many items as the list |
| Sorting.InsertPermutes | src/App.js:92-96 | inserting an item adds exactly that item to the multiset |
| Sorting.InsertSorted | src/App.js:92-96 | inserting into a sorted list keeps it sorted |
| Sorting.InsertTiedWith | src/App.js:92-96 | an inserted item lands in front of the items it ties with, leaving their order alone |
| Sorting.SortPermutes | src/App.js:92-96 | the sorted copy is a permutation of the list |
| Sorting.SortSorted | src/App.js:92-96 | the sorted copy is ordered by the comparator: every earlier item may go before every later one |
| Sorting.SortStable | src/App.js:92-96 | among items the comparator ties, the sorted copy keeps their input order |
| Sorting.SortCorrect | src/App.js:92-96 | the sorted copy is a permutation of the list, ordered by the comparator, and keeps input order among ties (stability) |
| Sorting.InsertPackedAfterUnpacked | src/App.js:96 | a packed item inserted into "unpacked, then packed" lands at the head of the packed items |
| Sorting.InsertUnpacked | src/App.js:96 | an unpacked item is inserted at the front |
| Sorting.InsertIntoSplit | src/App.js:96 | inserting the head into the unpacked/packed split of the tail gives the split of the whole list |
| Sorting.SortByPackedPartitions | src/App.js:96 | the packing-status sort is the unpacked items in input order followed by the packed items in input order |
| Sorting.SortedView | src/App.js:88-96 | every view is a permutation of the list; "input" is the list itself; "description" is sorted by description and stable; any other value is sorted by packed flag, stable, unpacked before packed |
| Sorting.DescriptionTiesKeepInputOrder | src/App.js:91-94 | "b", "a", "a" sorted by description gives the first "a", the second "a", then "b" |
| PackingStats.PercentBounds | src/App.js:148 | the quotient q of 100·p by n satisfies q·n ≤ 100·p < q·n + n, lies within 0..100, is 100 exactly when p = n, and is 0 when p = 0 |
| PackingStats.Percent | src/App.js:148 | the percentage is the largest whole percentage not above the ratio; it is at most 100, equals 100 exactly when everything is packed, and is 0 when nothing is |
| PackingStats.NumPacked | src/App.js:147 | the packed count is the number of positions holding a packed item; it is at most the item count, and equals it exactly when every item is packed |
| PackingStats.Stats | src/App.js:138-148 | the empty list takes the separate branch (no division); otherwise numItems is the length, numPacked the number of packed positions, percent within 0..100, percent = 100 exactly when all are packed, and percent the truncated ratio |
| PackingStats.FooterOf | src/App.js:138-156 | the footer shows the invitation exactly for the empty list, and "good to go" exactly when the list is non-empty and all packed; otherwise it shows the length, the number of packed positions (fewer than the length), and a percentage below 100 that equals the statistics' percentage, which is what `numPacked && percent` prints |
| PackingStats.TwoOfThreePacked | src/App.js:146-148 | two packed out of three gives counts 3 and 2 and percentage 66 (truncated, not rounded) |
| PackingApp.App.constructor | src/App.js:4 | the list starts empty |
| PackingApp.App.HandleItems | src/App.js:6-8 | the new list is the old one plus the item at the end: one longer, every earlier item unchanged in place, the last element the new item |
| PackingApp.App.HandleSubmit | src/App.js:50-55 | an item is added exactly when the description is non-empty; then the list gains an unpacked item with the given description, quantity and clock reading at its end; otherwise the list is unchanged |
| PackingApp.App.HandleDelete | src/App.js:10-12 | the new list is the delete-by-id of the old one: exactly the old items whose id differs |
| PackingApp.App.HandleClear | src/App.js:14-17 | with confirmation the list becomes empty; without it the list is unchanged |
| PackingApp.App.HandlePack | src/App.js:19-25 | the new list is the toggle-by-id of the old one: same length, items with other ids identical |
| PackingApp.App.View | src/App.js:88-96 | the displayed list holds the same items as the state; "input" shows it as is; "description" shows it sorted and stable; any other value shows unpacked then packed items, each group in input order |
| PackingApp.App.Footer | src/App.js:37 | the footer for the current state is the footer of its list: the invitation exactly when the list is empty, "good to go" exactly when it is non-empty and all packed, otherwise the number of packed positions |

## Left out

- Rendering, markup and styling (`Logo`, `Item`, the JSX of `Form`, `PackingList` and `Stats`, the message texts) are presentation only.
- `window.confirm` is a browser dialog. Its answer is the `confirmed` parameter of `HandleClear`.
- `Date.now()` reads the clock. Its reading is the `now` parameter, and nothing assumes it is fresh.
- Strings.Compare: `localeCompare` is locale-dependent collation and is not visible here. It is modelled as lexicographic order on characters, a total order whose ties are exactly equal strings. JavaScript strings are UTF-16 code units, while Dafny `char` values are Unicode scalar values.
- PackingStats.Percent: models the intended integer truncation `(numPacked * 100) / numItems`, not the double-precision `parseInt((numPacked / numItems) * 100)`. The two can differ: 57 packed out of 100 gives 0.57 * 100 = 56.99…, which truncates to 56 rather than 57.
- `Number(e.target.value)` parsing and the 1–20 quantity options are a UI input constraint. Quantity is an unconstrained `int` here.
- The form's field resets after a submit, the `sortBy` UI state, and React's scheduling of state updates and re-renders are view-layer state. Each handler is modelled as one atomic replacement of `items`.
- `Array.prototype.sort`'s own algorithm is not visible here. The model uses a stable insertion sort, proved to give a sorted, stable permutation, which is what ECMA-262 requires of `sort`. It works on values, not an in-place array copy; the copy is never observable.
