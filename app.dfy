/** The page component's state cells and the handlers that replace their contents. */
module App {
  import opened Text
  import opened ShoppingList

  class ShoppingListApp {
    var currentList: seq<Item>
    var completedLists: seq<CompletedList>
    var newItem: string
    var listName: string

    /** What the handlers keep true once the page starts from an empty state. */
    ghost predicate Valid()
      reads this
    {
      ValidItems(currentList) && ValidHistory(completedLists)
    }

    /** The initial state of the four cells: two empty lists and two empty inputs. */
    constructor ()
      ensures currentList == [] && completedLists == [] && newItem == "" && listName == ""
      ensures Valid()
    {
      currentList, completedLists, newItem, listName := [], [], "", "";
    }

    /** The item input's change handler. */
    method SetNewItem(value: string)
      modifies this
      ensures newItem == value
      ensures currentList == old(currentList) && completedLists == old(completedLists) && listName == old(listName)
    {
      newItem := value;
    }

    /** The list-name input's change handler. */
    method SetListName(value: string)
      modifies this
      ensures listName == value
      ensures currentList == old(currentList) && completedLists == old(completedLists) && newItem == old(newItem)
    {
      listName := value;
    }

    /** addItem: appends the trimmed input as a pending item and clears the input, unless it is blank. */
    method AddItem(freshId: string)
      modifies this
      ensures AllWhitespace(old(newItem)) ==> currentList == old(currentList) && newItem == old(newItem)
      ensures !AllWhitespace(old(newItem)) ==>
        currentList == old(currentList) + [Item(freshId, Trim(old(newItem)), false)] && newItem == ""
      ensures completedLists == old(completedLists) && listName == old(listName)
      ensures old(Valid()) ==> Valid()
    {
      if Trim(newItem) != "" {
        var item := Item(freshId, Trim(newItem), false);
        if Valid() {
          NewItemValid(newItem, freshId);
          AppendValid(currentList, item);
        }
        currentList := currentList + [item];
        newItem := "";
      }
    }

    /** removeItem: drops every item with the given id. */
    method RemoveItem(id: string)
      modifies this
      ensures currentList == WithoutItem(old(currentList), id)
      ensures completedLists == old(completedLists) && newItem == old(newItem) && listName == old(listName)
      ensures old(Valid()) ==> Valid()
    {
      if Valid() {
        WithoutItemValid(currentList, id);
      }
      currentList := WithoutItem(currentList, id);
    }

    /** toggleItemCompletion: flips the completed flag of every item with the given id. */
    method ToggleItemCompletion(id: string)
      modifies this
      ensures currentList == Toggled(old(currentList), id)
      ensures completedLists == old(completedLists) && newItem == old(newItem) && listName == old(listName)
      ensures old(Valid()) ==> Valid()
    {
      if Valid() {
        ToggledValid(currentList, id);
      }
      currentList := Toggled(currentList, id);
    }

    /** completeList: archives a non-empty current list at the front of the history and
        clears the list and its name; an empty list changes nothing. */
    method CompleteList(freshId: string, nowIso: string, localeDate: string)
      modifies this
      ensures old(currentList) == [] ==>
        currentList == [] && completedLists == old(completedLists) && listName == old(listName)
      ensures old(currentList) != [] ==>
        completedLists ==
          [Snapshot(old(currentList), freshId, ArchiveName(old(listName), DefaultListName(localeDate)), nowIso)]
          + old(completedLists) &&
        currentList == [] && listName == ""
      ensures newItem == old(newItem)
      ensures old(Valid()) ==> Valid()
    {
      if |currentList| == 0 {
        return;
      }
      var name := ArchiveName(listName, DefaultListName(localeDate));
      var entry := Snapshot(currentList, freshId, name, nowIso);
      if Valid() {
        SnapshotValid(currentList, freshId, listName, localeDate, nowIso);
        PrependValid(entry, completedLists);
      }
      completedLists := [entry] + completedLists;
      currentList := [];
      listName := "";
    }

    /** deleteCompletedList: drops every history entry with the given id. */
    method DeleteCompletedList(id: string)
      modifies this
      ensures completedLists == WithoutList(old(completedLists), id)
      ensures currentList == old(currentList) && newItem == old(newItem) && listName == old(listName)
      ensures old(Valid()) ==> Valid()
    {
      if Valid() {
        WithoutListValid(completedLists, id);
      }
      completedLists := WithoutList(completedLists, id);
    }

    /** The badge's total: the length of the current list. */
    function TotalItemsCount(): (n: nat)
      reads this
      ensures n == |currentList|
    {
      |currentList|
    }

    /** The badge's completed counter, never more than the total. */
    function CompletedItemsCount(): (n: nat)
      reads this
      ensures n <= TotalItemsCount()
      ensures n == TotalItemsCount() <==> forall i :: 0 <= i < |currentList| ==> currentList[i].completed
    {
      CompletedCountExtremes(currentList);
      CompletedCount(currentList)
    }
  }
}
