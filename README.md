# Shopping-list lifecycle

A model of the state logic of the shopping-list page (`app/page.tsx`). The page keeps four
state cells: the current list of items, the history of completed lists (newest first), the text
of the "add item" input and the optional list name. Five handlers replace their contents:
adding an item, removing items by id, toggling items by id, completing (archiving) the current
list, and deleting a history entry by id. Two counters for the badge are derived from the
current list.

Layout:

- `text.dfy` (module `Text`): JavaScript's `String.prototype.trim`, over the exact set of
  characters ECMAScript counts as WhiteSpace or LineTerminator.
- `seqs.dfy` (module `Seqs`): `Array.prototype.filter` on immutable sequences and its laws.
- `shopping_list.dfy` (module `ShoppingList`): the `Item` and `CompletedList` records and the pure
  computations of the handlers (filter, map with a conditional copy, the archived snapshot, the
  counts), with lemmas about them.
- `app.dfy` (module `App`): class `ShoppingListApp`, whose four fields are the state cells and
  whose methods are the handlers; each method's postcondition gives the whole new state in terms
  of the functions above, and that the page invariant `Valid()` is kept. `Valid()` says that
  every current item has non-empty, already trimmed text, and that every history entry has
  counters that agree with its items, a non-empty name and valid items.

Values the page takes from the clock and the locale are parameters: `freshId` stands for
`Date.now().toString()`, `nowIso` for `new Date().toISOString()` and `localeDate` for
`new Date().toLocaleDateString()`. Ids are not assumed unique: removal and toggling act on every
item carrying the id, and lemmas with an explicit uniqueness hypothesis state what happens when
exactly one item carries it.

Behaviour worth noting:

- Toggling or removing an unknown id is a silent no-op that reports nothing; this is proved in
  `ToggledUnknown` and `WithoutUnknownItem`.
- Removal drops every item with the id, so the length decreases by exactly one only when
  the id is unique (`WithoutUniqueItem`); in general it decreases by the number of occurrences.
- There is no automatic archiving when every item is completed: the list is archived only by
  `completeList`, whatever the completion state, so the archived `completedItems` may be below
  `totalItems`.
- The history is newest first: a new entry is prepended.

## Model

| member | source | states |
|---|---|---|
| Text.IsWhitespace | app/page.tsx:58 | the characters trimming strips are exactly ECMAScript's WhiteSpace and LineTerminator characters; each lies in the Basic Multilingual Plane, so is one UTF-16 code unit |
| Text.LeadingWhitespace | app/page.tsx:58 | the count covers a whitespace-only prefix, and the next character (if any) is not whitespace |
| Text.TrailingWhitespace | app/page.tsx:58 | the count covers a whitespace-only suffix, and the character before it (if any) is not whitespace |
| Text.Trim | app/page.tsx:58 | the trimmed text is empty exactly when the input is all whitespace; otherwise it neither starts nor ends with whitespace; it is the contiguous slice of the input after the leading whitespace, with only whitespace after it |
| Text.TrimOfTrimmed | app/page.tsx:61 | a string without whitespace at its ends is its own trim |
| Text.TrimIdempotent | app/page.tsx:61 | trimming twice equals trimming once |
| Seqs.Filter | app/page.tsx:70 | every element filter returns passes the predicate, and the result is never longer than the input |
| Seqs.FilterMembers | app/page.tsx:70 | every returned element comes from the input, and every input element that passes is returned |
| Seqs.FilterConcat | app/page.tsx:70 | filter distributes over concatenation, so the kept elements stay in their original order |
| Seqs.FilterKeepsAll | app/page.tsx:70 | when every element passes, filter returns its input |
| Seqs.FilterDropsAll | app/page.tsx:70 | when no element passes, filter returns the empty sequence |
| Seqs.FilterIdempotent | app/page.tsx:70 | filtering twice by one predicate equals filtering once |
| Seqs.FilterComplement | app/page.tsx:86 | the parts kept by a predicate and by its negation add up to the whole length |
| ShoppingList.CompletedCount | app/page.tsx:86 | the number of completed items is at most the number of items |
| ShoppingList.Occurrences | app/page.tsx:70 | the number of items with an id is zero exactly when no item carries it |
| ShoppingList.CompletedCountExtremes | app/page.tsx:98-99 | the completed count equals the total exactly when all items are completed, and is zero exactly when none is |
| ShoppingList.AppendPendingItemCounts | app/page.tsx:59-64 | appending a new (not completed) item raises the total by one and leaves the completed count unchanged |
| ShoppingList.WithoutItem | app/page.tsx:69-71 | no remaining item carries the id, and the length drops by the number of items that carried it |
| ShoppingList.WithoutItemMembers | app/page.tsx:70 | removal keeps exactly the items whose id differs: nothing new appears and no other item is lost |
| ShoppingList.WithoutItemConcat | app/page.tsx:70 | removal works part by part, so survivors keep their relative order |
| ShoppingList.WithoutUnknownItem | app/page.tsx:69-71 | removing an id no item carries leaves the list unchanged |
| ShoppingList.WithoutUniqueItem | app/page.tsx:69-71 | with a unique id, removal cuts out exactly that item and the length drops by one |
| ShoppingList.WithoutSingle | app/page.tsx:70 | on a one-item list, removal keeps the item exactly when its id differs |
| ShoppingList.WithoutItemIdempotent | app/page.tsx:70 | removing an id twice equals removing it once |
| ShoppingList.Toggled | app/page.tsx:73-75 | toggling keeps length, order, ids and texts, and flips `completed` exactly on the items with the id |
| ShoppingList.ToggledUnknown | app/page.tsx:73-75 | toggling an id no item carries leaves the list unchanged |
| ShoppingList.ToggledTwice | app/page.tsx:74 | toggling twice restores the original list |
| ShoppingList.ToggledCommute | app/page.tsx:74 | toggles of two ids commute |
| ShoppingList.ToggledThenWithout | app/page.tsx:74 | a toggle changes only the items with that id: removing them afterwards gives the same list as removing them before |
| ShoppingList.ToggledUniqueCount | app/page.tsx:74 | with a unique id, a toggle moves the completed count by one in the direction of the flip |
| ShoppingList.DefaultListName | app/page.tsx:82 | the fallback name is never empty |
| ShoppingList.ArchiveName | app/page.tsx:82 | the archived name is the trimmed list name unless that is blank, in which case it is the fallback; a typed name comes out non-empty and trimmed |
| ShoppingList.Snapshot | app/page.tsx:80-87 | the entry holds the given items, id, name and timestamp, `totalItems` is their number, `completedItems` their completed count, so `0 <= completedItems <= totalItems` |
| ShoppingList.ListOccurrences | app/page.tsx:95 | the number of entries with an id is zero exactly when no entry carries it |
| ShoppingList.WithoutList | app/page.tsx:94-96 | no remaining entry carries the id, and the history shrinks by exactly the number of entries that carried it |
| ShoppingList.WithoutListIdempotent | app/page.tsx:95 | deleting an id twice equals deleting it once |
| ShoppingList.WithoutListMembers | app/page.tsx:95 | deletion keeps exactly the entries whose id differs |
| ShoppingList.WithoutListConcat | app/page.tsx:95 | deletion works part by part, so remaining entries keep their order |
| ShoppingList.WithoutUnknownList | app/page.tsx:94-96 | deleting an id no entry carries leaves the history unchanged |
| ShoppingList.WithoutUniqueList | app/page.tsx:94-96 | with a unique id, deletion cuts out exactly that entry |
| ShoppingList.NewItemValid | app/page.tsx:58-63 | an item built from non-blank input has non-empty, already trimmed text |
| ShoppingList.SnapshotValid | app/page.tsx:80-87 | an entry archived from valid items has consistent counters and a non-empty name |
| ShoppingList.AppendValid | app/page.tsx:64 | appending a valid item to valid items keeps them valid |
| ShoppingList.WithoutItemValid | app/page.tsx:70 | removal keeps the items valid |
| ShoppingList.ToggledValid | app/page.tsx:74 | toggling keeps the items valid |
| ShoppingList.PrependValid | app/page.tsx:89 | prepending a valid entry to a valid history keeps it valid |
| ShoppingList.WithoutListValid | app/page.tsx:95 | deletion keeps the history valid |
| App.ShoppingListApp.constructor | app/page.tsx:28-31 | the page starts with both lists empty and both inputs empty, which satisfies the invariant |
| App.ShoppingListApp.SetListName | app/page.tsx:144 | typing in the name field replaces the list name and nothing else |
| App.ShoppingListApp.SetNewItem | app/page.tsx:153 | typing in the item field replaces the item input and nothing else |
| App.ShoppingListApp.AddItem | app/page.tsx:57-67 | blank input changes nothing; otherwise exactly one pending item with the trimmed text and the fresh id is appended, earlier items are unchanged and the input is cleared; the invariant is kept |
| App.ShoppingListApp.RemoveItem | app/page.tsx:69-71 | the current list becomes `WithoutItem` of the old one; nothing else changes; the invariant is kept |
| App.ShoppingListApp.ToggleItemCompletion | app/page.tsx:73-75 | the current list becomes `Toggled` of the old one; nothing else changes; the invariant is kept |
| App.ShoppingListApp.CompleteList | app/page.tsx:77-92 | an empty list changes nothing; otherwise the snapshot is prepended to the unchanged history, the list and its name are cleared; the invariant is kept |
| App.ShoppingListApp.DeleteCompletedList | app/page.tsx:94-96 | the history becomes `WithoutList` of the old one; nothing else changes; the invariant is kept |
| App.ShoppingListApp.TotalItemsCount | app/page.tsx:99 | the badge's total is the length of the current list |
| App.ShoppingListApp.CompletedItemsCount | app/page.tsx:98-99 | `0 <= completedItemsCount <= totalItemsCount == |currentList|`, with equality exactly when every item is completed |

## Left out

- Rendering (tabs, badges, checkboxes, buttons) and the Enter-key wiring of the item input: user interface only.
- Loading from and saving to `localStorage`, and `JSON.parse`/`JSON.stringify`: browser storage and serialisation. Because a loaded state is not checked by the page, the handlers do not require `Valid()`; they only preserve it.
- `Date.now()`, `new Date().toISOString()` and `toLocaleDateString()`: clock and locale; their results are the parameters `freshId`, `nowIso` and `localeDate`.
- Strings are sequences of Unicode scalar values, while JavaScript strings are UTF-16 code units: lone surrogates cannot be represented, and the whitespace set is the current Unicode one (U+180E, a space separator before Unicode 6.3, is not included). Trimming well-formed text is unaffected, since every character it strips is in the Basic Multilingual Plane (`IsWhitespace`).
- `totalItems` and `completedItems` are JavaScript numbers; they are modelled as unbounded integers, since list lengths stay far below the range where floating-point counts lose precision.
- `app/layout.tsx` and `next.config.mjs`: page metadata and build configuration, no logic.
- An automatic archive when every item is completed and a hosted-database backend are not present in this page and are not modelled.
