# Travel packing list — a Dafny model

This project models the state logic of a single-page packing-list manager:
- the list of items (description, quantity, packed flag, id);
- the entry form that validates a description and builds a new item;
- the three handlers that rebuild the list: add, toggle packed, delete;
- the statistics footer: total, packed count, packed percentage.

All of this logic lives in `src/components/App.js`.

Layout:
- `seqs.dfy` (module `Seqs`): `Map`, `Filter` and `Count`, the sequence
  operations the handlers rely on (`Array.prototype.map`, `Array.prototype.filter`
  and `filter(...).length`). It also holds their lemmas: filter distributes over
  concatenation, and the filtered length equals the count.
- `text.dfy` (module `Text`): `String.prototype.trim` over ECMAScript's
  white-space and line-terminator characters, and the form's blank test.
- `items.dfy` (module `Items`): the `Item` record, the seed list, and
  `Add`, `Toggle` and `Delete` as functions on `seq<Item>`, with their lemmas.
- `stats.dfy` (module `Stats`): the footer figures, with the rounding done
  in integers, and how each list update moves them.
- `components.dfy` (module `Components`): the classes `App` and `Form`.
  - `App.items` is the `items` state cell. Each handler reassigns it to `Add`,
    `Toggle` or `Delete` of its old value.
  - `Form.itemDescription` and `Form.quantity` are the form's state cells.
    `HandleSubmit` either does nothing or hands a new item to the App and
    resets both fields.
  - `Session` is a client that chains the handlers. It shows what a caller
    can conclude from their contracts alone.

The list is only ever replaced by a new sequence, never changed in place.
So the list updates are pure functions, and only the two classes hold state.

Modelling decisions:
- `Date.now()`, which supplies a new item's id, becomes the parameter `now` of
  `Form.HandleSubmit`. Nothing in the code makes ids distinct. The model
  therefore never assumes `UniqueIds`, except in lemmas that name it as a
  hypothesis.
- `Math.round(packed / total * 100)` is computed in integers as
  `(200 * packed + total) / (2 * total)`. That is the nearest integer, with ties
  going up, which is what `Math.round` does for non-negative values.
- Strings are sequences of Unicode scalar values, not UTF-16 code units.
  `trim` only strips characters from the Basic Multilingual Plane, so the blank
  test comes out the same either way.
- `App.js` has no "clear all" operation and does not sort the list, so the
  model has neither. Its delete removes every item that carries the id, not
  just one. The lemma `DeleteUniqueLength` shows that exactly one item goes
  when ids are distinct.

## Model

| member | source | states |
|---|---|---|
| Items.InitialItems | src/components/App.js:4-7 | The seed list has two items with distinct ids, none packed, neither description blank |
| Items.Add | src/components/App.js:159-161 | Appending makes the list one longer: the old items keep their positions and values, and the new item is last |
| Items.AddUniqueIds | src/components/App.js:160 | Given distinct ids, they stay distinct after an append exactly when the new id is not already in the list |
| Items.Toggle | src/components/App.js:164-170 | Toggle keeps the length and order. Each item keeps its id, description and quantity. `packed` flips exactly on the items whose id matches. The per-item callback of line 167 is the helper `Flip` |
| Items.ToggleAbsent | src/components/App.js:166-168 | Toggling an id that no item carries leaves the list unchanged |
| Items.ToggleInvolution | src/components/App.js:166-168 | Toggling the same id twice gives back the original list |
| Items.ToggleCommute | src/components/App.js:166-168 | Toggles of two ids give the same list in either order |
| Items.ToggleAppend | src/components/App.js:166-168 | Toggle works item by item: toggling a concatenation toggles each part |
| Items.ToggleUniqueIds | src/components/App.js:166-168 | Toggle never changes ids: ids are distinct after it exactly when they were before, and the id is present after exactly when it was before |
| Items.Delete | src/components/App.js:173-175 | After delete no item has the id. An item stays exactly when it was there and its id differs. The length drops by the number of items with that id. The filter callback of line 174 is the helper `NotId` |
| Items.DeleteAbsent | src/components/App.js:174 | Deleting an id that no item carries leaves the list unchanged |
| Items.DeleteKeepsOrder | src/components/App.js:174 | Delete works item by item: deleting from a concatenation deletes from each part, and a single item survives exactly when its id differs. So the survivors keep their relative order |
| Items.DeleteUniqueLength | src/components/App.js:174 | Given distinct ids, delete removes exactly one item when the id is present and none when it is absent |
| Items.UniqueIdsCons | src/components/App.js:174 | Ids in a list with a head are distinct exactly when the tail's ids are distinct and none of them equals the head's id |
| Items.DeleteUniqueIds | src/components/App.js:174 | Delete keeps distinct ids distinct |
| Items.DeleteAfterToggle | src/components/App.js:164-175 | Deleting an id after toggling it gives the same list as deleting it directly |
| Seqs.Map | src/components/App.js:166-168 | The result of `map` has the input's length, and element i is f applied to input element i |
| Seqs.Filter | src/components/App.js:174 | Every element `filter` keeps satisfies the predicate. Every input element that satisfies it is kept. Nothing else appears |
| Seqs.Count | src/components/App.js:136 | The count is at most the length. It is 0 exactly when no element satisfies the predicate, and equals the length exactly when all do |
| Seqs.FilterLength | src/components/App.js:136 | `filter(...).length` equals the number of elements that satisfy the predicate |
| Seqs.FilterAppend | src/components/App.js:174 | Filter distributes over concatenation, so it keeps relative order |
| Seqs.FilterKeepsAll | src/components/App.js:174 | When every element satisfies the predicate, filter returns the sequence unchanged |
| Seqs.CountAppend | src/components/App.js:136 | Count distributes over concatenation |
| Seqs.CountComplement | src/components/App.js:174 | The counts for a predicate and for its negation add up to the length |
| Text.TrimStart | src/components/App.js:26 | The result is a suffix that does not start with white space, and everything removed is white space |
| Text.TrimEnd | src/components/App.js:26 | The result is a prefix that does not end with white space, and everything removed is white space |
| Text.Trim | src/components/App.js:26 | The result is a slice of the input. Only white space lies outside it, and it neither starts nor ends with white space |
| Text.IsBlank | src/components/App.js:26 | The guard `!s.trim()` holds exactly when every character of the description is white space |
| Stats.Percentage | src/components/App.js:138-140 | The percentage is 0 for an empty list. Otherwise it is the integer nearest to 100·packed/total, with ties going up. It is at most 100 when packed ≤ total |
| Stats.RoundHalfUp | src/components/App.js:139 | The integer quotient brackets the exact percentage within one half, and stays at most 100 when the share is at most one |
| Stats.PercentageNonePacked | src/components/App.js:138-140 | With nothing packed the percentage is 0 |
| Stats.PercentageAllPacked | src/components/App.js:138-140 | With everything packed in a non-empty list the percentage is 100 |
| Stats.ComputeStats | src/components/App.js:132-140 | total is the list length. The packed count is the number of packed items, between 0 and total. For a non-empty list the percentage is the integer nearest to 100·packed/total, with ties going up. It lies between 0 and 100: it is 0 for an empty list or when nothing is packed, and 100 when every item is packed |
| Stats.PackedItems | src/components/App.js:136 | `filter(item => item.packed).length` is the number of packed items, and at most the list length. The filter callback is the helper `IsPacked` |
| Stats.AddPackedItems | src/components/App.js:159-161 | An append raises the packed count by one exactly when the new item is packed, and leaves it unchanged otherwise |
| Stats.ToggleMatchingPacked | src/components/App.js:164-170 | For any list, distinct ids or not: after a toggle, the packed items that carry the id have left the packed count and the unpacked ones have joined it |
| Stats.TogglePackedItems | src/components/App.js:164-170 | Given distinct ids, toggling one item's id lowers the packed count by one if that item was packed, and raises it by one if it was not |
| Stats.DeletePackedItems | src/components/App.js:173-175 | Delete lowers the packed count by the number of packed items carrying the id |
| Stats.InitialStats | src/components/App.js:4-7 | The seed list shows 2 items, 0 packed, 0% |
| Stats.HalfPacked | src/components/App.js:132-140 | A list of two items with one packed shows 2 items, 1 packed, 50% |
| Stats.RoundsUpToFull | src/components/App.js:139 | 199 packed items out of 200 already show 100%, so 100% does not mean everything is packed |
| Components.App.constructor | src/components/App.js:156 | The `items` state starts as the seed list |
| Components.App.HandleAddItem | src/components/App.js:159-161 | The new list is the old list with the item appended |
| Components.App.HandleTogglePacked | src/components/App.js:164-170 | The new list is the old list toggled at the id |
| Components.App.HandleDeleteItem | src/components/App.js:173-175 | The new list is the old list with the id deleted |
| Components.Form.constructor | src/components/App.js:17-19 | The form starts with an empty description and quantity 1 |
| Components.Form.SetItemDescription | src/components/App.js:68 | Typing stores the text exactly as entered, untrimmed, and leaves the quantity alone |
| Components.Form.SetQuantity | src/components/App.js:53-60 | Choosing from the drop-down stores one of the offered quantities, 1, 2 or 3 (the predicate `IsOffered`, the options of line 56), and leaves the description alone |
| Components.Form.HandleSubmit | src/components/App.js:22-42 | A blank description changes nothing: no fields, no list. Otherwise the App's list gains, at its end, an unpacked item with the clock reading as id, the description as typed and the selected quantity. The form then resets to description "" and quantity 1 |

## Left out

- JSX rendering, inline styles and the markup-only components (`Logo`,
  `PackingList`, `Item`, the markup of `Stats` and `Form`): they only display
  state.
- React's `useState` machinery: a state cell is a field and its setter is an
  assignment. Re-rendering is not modelled.
- Event objects: `e.preventDefault()` only stops the browser's page reload,
  and `e.target.value` becomes the handler's parameter.
- `Date.now()`: the clock reading is the parameter `now`. The model assumes
  nothing about it, so two submissions in the same millisecond can produce
  equal ids. Toggle and delete then act on both items, as the code does.
- Stats.Percentage: computed in exact integer arithmetic. It does not claim
  agreement with JavaScript's double-precision `(packed / total) * 100` at
  exact .5 boundaries, where a rounding error in the double could flip the
  result. For 23 of 40 packed, JavaScript computes `(23 / 40) * 100` as
  57.49999999999999 and shows 57, while the model gives 58. The same happens
  for 29 of 200 (14 against 15) and 57 of 200 (28 against 29).
- Components.Form.SetQuantity: the `Number(e.target.value)` conversion is not
  modelled. The method requires one of the drop-down's own option values, the
  only values the control can produce.
