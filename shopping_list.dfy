/** The records of the shopping-list page and the pure list computations its handlers perform. */
module ShoppingList {
  import opened Text
  import opened Seqs

  /** One entry of the current list. Ids are timestamps and need not be unique. */
  datatype Item = Item(id: string, text: string, completed: bool)

  /** An archived list: a snapshot of the items with its counters, newest first in the history. */
  datatype CompletedList = CompletedList(
    id: string,
    name: string,
    items: seq<Item>,
    completedAt: string,
    totalItems: int,
    completedItems: int)

  predicate IsCompleted(item: Item) { item.completed }

  function IdMatches(id: string): Item -> bool { (item: Item) => item.id == id }

  function IdDiffers(id: string): Item -> bool { (item: Item) => item.id != id }

  function ListIdMatches(id: string): CompletedList -> bool { (list: CompletedList) => list.id == id }

  function ListIdDiffers(id: string): CompletedList -> bool { (list: CompletedList) => list.id != id }

  // ---------------------------------------------------------------- counting

  /** The number of completed items. */
  function CompletedCount(items: seq<Item>): (n: nat)
    ensures n <= |items|
  {
    |Filter(items, IsCompleted)|
  }

  /** Number of items that carry the given id. */
  function Occurrences(items: seq<Item>, id: string): (n: nat)
    ensures n <= |items|
    ensures n == 0 <==> forall i :: 0 <= i < |items| ==> items[i].id != id
  {
    var r := Filter(items, IdMatches(id));
    assert (forall i :: 0 <= i < |items| ==> items[i].id != id) ==> r == [] by {
      if forall i :: 0 <= i < |items| ==> items[i].id != id {
        FilterDropsAll(items, IdMatches(id));
      }
    }
    FilterMembers(items, IdMatches(id));
    |r|
  }

  /** The completed counter reaches the total exactly when every item is completed,
      and is zero exactly when none is. */
  lemma {:induction false} CompletedCountExtremes(items: seq<Item>)
    ensures CompletedCount(items) == |items| <==> forall i :: 0 <= i < |items| ==> items[i].completed
    ensures CompletedCount(items) == 0 <==> forall i :: 0 <= i < |items| ==> !items[i].completed
  {
    var open := (item: Item) => !item.completed;
    FilterComplement(items, IsCompleted, open);
    if forall i :: 0 <= i < |items| ==> items[i].completed {
      FilterKeepsAll(items, IsCompleted);
    }
    if forall i :: 0 <= i < |items| ==> !items[i].completed {
      FilterDropsAll(items, IsCompleted);
    }
    FilterMembers(items, open);
    FilterMembers(items, IsCompleted);
  }

  /** Appending an item that is not completed leaves the completed counter alone and
      raises the total by one. */
  lemma {:induction false} AppendPendingItemCounts(items: seq<Item>, item: Item)
    requires !item.completed
    ensures CompletedCount(items + [item]) == CompletedCount(items)
    ensures |items + [item]| == |items| + 1
  {
    FilterConcat(items, [item], IsCompleted);
    assert Filter([item], IsCompleted) == [] by {
      FilterDropsAll([item], IsCompleted);
    }
  }

  // ---------------------------------------------------------------- removeItem

  /** The items whose id differs, in order: every item with that id is dropped. */
  function WithoutItem(items: seq<Item>, id: string): (r: seq<Item>)
    ensures forall i :: 0 <= i < |r| ==> r[i].id != id
    ensures |r| == |items| - Occurrences(items, id)
  {
    FilterComplement(items, IdDiffers(id), IdMatches(id));
    Filter(items, IdDiffers(id))
  }

  /** Removal keeps exactly the items whose id differs: nothing new appears and no other item is lost. */
  lemma {:induction false} WithoutItemMembers(items: seq<Item>, id: string)
    ensures forall i :: 0 <= i < |WithoutItem(items, id)| ==> WithoutItem(items, id)[i] in items
    ensures forall i :: 0 <= i < |items| && items[i].id != id ==> items[i] in WithoutItem(items, id)
  {
    FilterMembers(items, IdDiffers(id));
  }

  /** Removal keeps the relative order of the survivors: it works part by part. */
  lemma {:induction false} WithoutItemConcat(a: seq<Item>, b: seq<Item>, id: string)
    ensures WithoutItem(a + b, id) == WithoutItem(a, id) + WithoutItem(b, id)
  {
    FilterConcat(a, b, IdDiffers(id));
  }

  /** Removing an id that no item carries leaves the list unchanged. */
  lemma {:induction false} WithoutUnknownItem(items: seq<Item>, id: string)
    requires forall i :: 0 <= i < |items| ==> items[i].id != id
    ensures WithoutItem(items, id) == items
  {
    FilterKeepsAll(items, IdDiffers(id));
  }

  /** When exactly one item carries the id, removal cuts out exactly that item. */
  lemma {:induction false} WithoutUniqueItem(items: seq<Item>, id: string, k: int)
    requires 0 <= k < |items| && items[k].id == id
    requires forall i :: 0 <= i < |items| && i != k ==> items[i].id != id
    ensures WithoutItem(items, id) == items[..k] + items[k + 1..]
    ensures |WithoutItem(items, id)| == |items| - 1
  {
    var a, b := items[..k], items[k + 1..];
    assert items == a + [items[k]] + b;
    WithoutItemConcat(a + [items[k]], b, id);
    WithoutItemConcat(a, [items[k]], id);
    WithoutUnknownItem(a, id);
    WithoutUnknownItem(b, id);
    assert WithoutItem([items[k]], id) == [] by {
      FilterDropsAll([items[k]], IdDiffers(id));
    }
  }

  /** Removal on a one-item list keeps the item exactly when its id differs. */
  lemma {:induction false} WithoutSingle(x: Item, id: string)
    ensures WithoutItem([x], id) == if x.id != id then [x] else []
  {
    if x.id != id {
      FilterKeepsAll([x], IdDiffers(id));
    } else {
      FilterDropsAll([x], IdDiffers(id));
    }
  }

  /** Removing the same id twice is the same as removing it once. */
  lemma {:induction false} WithoutItemIdempotent(items: seq<Item>, id: string)
    ensures WithoutItem(WithoutItem(items, id), id) == WithoutItem(items, id)
  {
    FilterIdempotent(items, IdDiffers(id));
  }

  // ---------------------------------------------------------------- toggleItemCompletion

  /** Every item carrying the id has its completed flag flipped; the others are kept. */
  function Toggled(items: seq<Item>, id: string): (r: seq<Item>)
    ensures |r| == |items|
    ensures forall i :: 0 <= i < |r| ==>
      r[i].id == items[i].id && r[i].text == items[i].text &&
      (r[i].completed != items[i].completed <==> items[i].id == id)
  {
    if items == [] then []
    else
      var head := if items[0].id == id then items[0].(completed := !items[0].completed) else items[0];
      [head] + Toggled(items[1..], id)
  }

  /** Toggling an id that no item carries leaves the list unchanged. */
  lemma {:induction false} ToggledUnknown(items: seq<Item>, id: string)
    requires forall i :: 0 <= i < |items| ==> items[i].id != id
    ensures Toggled(items, id) == items
  {
    var r := Toggled(items, id);
    forall i | 0 <= i < |items| ensures r[i] == items[i] {
      assert r[i].completed == items[i].completed;
    }
  }

  /** Toggling is its own inverse. */
  lemma {:induction false} ToggledTwice(items: seq<Item>, id: string)
    ensures Toggled(Toggled(items, id), id) == items
  {
    var once := Toggled(items, id);
    var twice := Toggled(once, id);
    forall i | 0 <= i < |items| ensures twice[i] == items[i] {
      assert once[i].id == items[i].id;
    }
  }

  /** Toggles of two ids commute. */
  lemma {:induction false} ToggledCommute(items: seq<Item>, a: string, b: string)
    ensures Toggled(Toggled(items, a), b) == Toggled(Toggled(items, b), a)
  {
    var ab, ba := Toggled(Toggled(items, a), b), Toggled(Toggled(items, b), a);
    forall i | 0 <= i < |items| ensures ab[i] == ba[i] {
      assert Toggled(items, a)[i].id == items[i].id;
      assert Toggled(items, b)[i].id == items[i].id;
    }
  }

  /** Toggling touches only the items with that id: once they are removed, no trace of the toggle remains. */
  lemma {:induction false} ToggledThenWithout(items: seq<Item>, id: string)
    ensures WithoutItem(Toggled(items, id), id) == WithoutItem(items, id)
  {
    if items != [] {
      var x, rest := items[0], items[1..];
      var y := if x.id == id then x.(completed := !x.completed) else x;
      assert items == [x] + rest;
      assert Toggled(items, id) == [y] + Toggled(rest, id);
      WithoutItemConcat([x], rest, id);
      WithoutItemConcat([y], Toggled(rest, id), id);
      WithoutSingle(x, id);
      WithoutSingle(y, id);
      ToggledThenWithout(rest, id);
    }
  }

  /** With a unique id, a toggle moves the completed counter by exactly one, in the direction of the flip. */
  lemma {:induction false} ToggledUniqueCount(items: seq<Item>, id: string, k: int)
    requires 0 <= k < |items| && items[k].id == id
    requires forall i :: 0 <= i < |items| && i != k ==> items[i].id != id
    ensures CompletedCount(Toggled(items, id)) ==
      if items[k].completed then CompletedCount(items) - 1 else CompletedCount(items) + 1
  {
    var t := Toggled(items, id);
    var a, b := items[..k], items[k + 1..];
    assert items == a + [items[k]] + b;
    assert t == a + [t[k]] + b by {
      forall i | 0 <= i < |t| && i != k ensures t[i] == items[i] {
        assert t[i].completed == items[i].completed;
      }
    }
    FilterConcat(a + [items[k]], b, IsCompleted);
    FilterConcat(a, [items[k]], IsCompleted);
    FilterConcat(a + [t[k]], b, IsCompleted);
    FilterConcat(a, [t[k]], IsCompleted);
  }

  // ---------------------------------------------------------------- completeList

  /** The fallback name: the words "Shopping List " followed by the locale date. */
  function DefaultListName(localeDate: string): (r: string)
    ensures r != []
  {
    "Shopping List " + localeDate
  }

  /** The name an archived list gets: the trimmed list name, or the fallback when that is blank. */
  function ArchiveName(listName: string, defaultName: string): (r: string)
    ensures AllWhitespace(listName) ==> r == defaultName
    ensures !AllWhitespace(listName) ==> r == Trim(listName) && r != [] && Trim(r) == r
  {
    var trimmed := Trim(listName);
    TrimIdempotent(listName);
    if trimmed != "" then trimmed else defaultName
  }

  /** Counters of an archived list agree with its items. */
  predicate WellFormed(list: CompletedList) {
    list.totalItems == |list.items| && list.completedItems == CompletedCount(list.items)
  }

  /** The history entry completeList builds from the current items. */
  function Snapshot(items: seq<Item>, freshId: string, name: string, nowIso: string): (r: CompletedList)
    ensures WellFormed(r)
    ensures r.items == items && r.id == freshId && r.name == name && r.completedAt == nowIso
    ensures 0 <= r.completedItems <= r.totalItems
  {
    CompletedList(freshId, name, items, nowIso, |items|, CompletedCount(items))
  }

  // ---------------------------------------------------------------- deleteCompletedList

  /** Number of history entries that carry the given id. */
  function ListOccurrences(lists: seq<CompletedList>, id: string): (n: nat)
    ensures n <= |lists|
    ensures n == 0 <==> forall i :: 0 <= i < |lists| ==> lists[i].id != id
  {
    var r := Filter(lists, ListIdMatches(id));
    assert (forall i :: 0 <= i < |lists| ==> lists[i].id != id) ==> r == [] by {
      if forall i :: 0 <= i < |lists| ==> lists[i].id != id {
        FilterDropsAll(lists, ListIdMatches(id));
      }
    }
    FilterMembers(lists, ListIdMatches(id));
    |r|
  }

  /** The entries whose id differs, in order: every entry with that id is dropped. */
  function WithoutList(lists: seq<CompletedList>, id: string): (r: seq<CompletedList>)
    ensures forall i :: 0 <= i < |r| ==> r[i].id != id
    ensures |r| == |lists| - ListOccurrences(lists, id)
  {
    FilterComplement(lists, ListIdDiffers(id), ListIdMatches(id));
    Filter(lists, ListIdDiffers(id))
  }

  /** Deleting the same id twice is the same as deleting it once. */
  lemma {:induction false} WithoutListIdempotent(lists: seq<CompletedList>, id: string)
    ensures WithoutList(WithoutList(lists, id), id) == WithoutList(lists, id)
  {
    FilterIdempotent(lists, ListIdDiffers(id));
  }

  /** Deletion keeps exactly the entries whose id differs. */
  lemma {:induction false} WithoutListMembers(lists: seq<CompletedList>, id: string)
    ensures forall i :: 0 <= i < |WithoutList(lists, id)| ==> WithoutList(lists, id)[i] in lists
    ensures forall i :: 0 <= i < |lists| && lists[i].id != id ==> lists[i] in WithoutList(lists, id)
  {
    FilterMembers(lists, ListIdDiffers(id));
  }

  /** Deletion keeps the remaining entries in their order: it works part by part. */
  lemma {:induction false} WithoutListConcat(a: seq<CompletedList>, b: seq<CompletedList>, id: string)
    ensures WithoutList(a + b, id) == WithoutList(a, id) + WithoutList(b, id)
  {
    FilterConcat(a, b, ListIdDiffers(id));
  }

  /** Deleting an id that no entry carries leaves the history unchanged. */
  lemma {:induction false} WithoutUnknownList(lists: seq<CompletedList>, id: string)
    requires forall i :: 0 <= i < |lists| ==> lists[i].id != id
    ensures WithoutList(lists, id) == lists
  {
    FilterKeepsAll(lists, ListIdDiffers(id));
  }

  /** When exactly one entry carries the id, deletion cuts out exactly that entry. */
  lemma {:induction false} WithoutUniqueList(lists: seq<CompletedList>, id: string, k: int)
    requires 0 <= k < |lists| && lists[k].id == id
    requires forall i :: 0 <= i < |lists| && i != k ==> lists[i].id != id
    ensures WithoutList(lists, id) == lists[..k] + lists[k + 1..]
  {
    var a, b := lists[..k], lists[k + 1..];
    assert lists == a + [lists[k]] + b;
    WithoutListConcat(a + [lists[k]], b, id);
    WithoutListConcat(a, [lists[k]], id);
    WithoutUnknownList(a, id);
    WithoutUnknownList(b, id);
    assert WithoutList([lists[k]], id) == [] by {
      FilterDropsAll([lists[k]], ListIdDiffers(id));
    }
  }

  // ---------------------------------------------------------------- invariants of the page state

  /** Items only enter the list through addItem, which stores trimmed, non-blank text. */
  predicate ValidItem(item: Item) {
    item.text != [] && Trim(item.text) == item.text
  }

  /** Archived lists only come from completeList: consistent counters, a non-empty name, valid items. */
  predicate ValidEntry(list: CompletedList) {
    WellFormed(list) && list.name != [] &&
    forall i :: 0 <= i < |list.items| ==> ValidItem(list.items[i])
  }

  predicate ValidItems(items: seq<Item>) {
    forall i :: 0 <= i < |items| ==> ValidItem(items[i])
  }

  predicate ValidHistory(lists: seq<CompletedList>) {
    forall j :: 0 <= j < |lists| ==> ValidEntry(lists[j])
  }

  /** Appending a valid item keeps the items valid. */
  lemma {:induction false} AppendValid(items: seq<Item>, item: Item)
    requires ValidItems(items) && ValidItem(item)
    ensures ValidItems(items + [item])
  {
    var r := items + [item];
    forall i | 0 <= i < |r| ensures ValidItem(r[i]) {
      if i < |items| {
        assert r[i] == items[i];
      }
    }
  }

  /** Removal keeps the items valid. */
  lemma {:induction false} WithoutItemValid(items: seq<Item>, id: string)
    requires ValidItems(items)
    ensures ValidItems(WithoutItem(items, id))
  {
    var r := WithoutItem(items, id);
    WithoutItemMembers(items, id);
    forall i | 0 <= i < |r| ensures ValidItem(r[i]) {
      var j :| 0 <= j < |items| && items[j] == r[i];
    }
  }

  /** Toggling keeps the items valid. */
  lemma {:induction false} ToggledValid(items: seq<Item>, id: string)
    requires ValidItems(items)
    ensures ValidItems(Toggled(items, id))
  {
    var r := Toggled(items, id);
    forall i | 0 <= i < |r| ensures ValidItem(r[i]) {
      assert r[i].text == items[i].text;
    }
  }

  /** Prepending a valid entry to a valid history gives a valid history. */
  lemma {:induction false} PrependValid(entry: CompletedList, lists: seq<CompletedList>)
    requires ValidEntry(entry) && ValidHistory(lists)
    ensures ValidHistory([entry] + lists)
  {
    var r := [entry] + lists;
    forall j | 0 <= j < |r| ensures ValidEntry(r[j]) {
      if j > 0 {
        assert r[j] == lists[j - 1];
      }
    }
  }

  /** Deletion keeps the history valid. */
  lemma {:induction false} WithoutListValid(lists: seq<CompletedList>, id: string)
    requires ValidHistory(lists)
    ensures ValidHistory(WithoutList(lists, id))
  {
    var r := WithoutList(lists, id);
    WithoutListMembers(lists, id);
    forall j | 0 <= j < |r| ensures ValidEntry(r[j]) {
      var k :| 0 <= k < |lists| && lists[k] == r[j];
    }
  }

  /** The item addItem creates from non-blank input is valid. */
  lemma {:induction false} NewItemValid(raw: string, freshId: string)
    requires !AllWhitespace(raw)
    ensures ValidItem(Item(freshId, Trim(raw), false))
  {
    TrimIdempotent(raw);
  }

  /** The entry completeList archives from valid items is valid, whatever name was typed. */
  lemma {:induction false} SnapshotValid(items: seq<Item>, freshId: string, listName: string, localeDate: string, nowIso: string)
    requires ValidItems(items)
    ensures ValidEntry(Snapshot(items, freshId, ArchiveName(listName, DefaultListName(localeDate)), nowIso))
  {
  }
}
