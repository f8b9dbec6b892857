/**
 The three record kinds of the todo tracker and the predicate that decides
 whether a list may be deleted.

 Ids are the integer primary keys the database assigns; the creation
 timestamps are left out. A status is kept as a string, as the database
 column holds it, so that values outside the three known statuses can be
 talked about.
 */
module Models {

  datatype Option<+T> = None | Some(value: T)

  const Todo: string := "TODO"
  const InProgress: string := "IN_PROGRESS"
  const Done: string := "DONE"

  /** One of the three statuses of the item lifecycle. */
  predicate IsStatus(s: string)
  {
    s == Todo || s == InProgress || s == Done
  }

  const MaxNameLength: nat := 100
  const MaxTitleLength: nat := 200

  /** A list name is required and at most 100 characters long. */
  predicate ValidName(name: string)
  {
    1 <= |name| <= MaxNameLength
  }

  /** An item title is required and at most 200 characters long. */
  predicate ValidTitle(title: string)
  {
    1 <= |title| <= MaxTitleLength
  }

  datatype TodoList = TodoList(id: nat, name: string)

  /** An item belongs to exactly one list, through `listId`. */
  datatype TodoItem = TodoItem(id: nat, title: string, status: string, listId: nat)

  /**
   One row of an item's audit log. Only `oldStatus` may be absent, which
   marks the row written when the item was created.
   */
  datatype StatusChange = StatusChange(itemId: nat, oldStatus: Option<string>, newStatus: string)

  /** `TodoList.can_be_deleted`: every item of the list is DONE. */
  function CanBeDeleted(items: seq<TodoItem>): bool
  {
    if items == [] then true
    else items[0].status == Done && CanBeDeleted(items[1..])
  }

  /** `can_be_deleted` holds exactly when every item's status is DONE; so it holds for a list without items. */
  lemma {:induction false} CanBeDeletedIffAllDone(items: seq<TodoItem>)
    ensures CanBeDeleted(items) <==> forall k :: 0 <= k < |items| ==> items[k].status == Done
  {
    if items != [] {
      CanBeDeletedIffAllDone(items[1..]);
      assert forall k :: 1 <= k < |items| ==> items[k] == items[1..][k - 1];
    }
  }

  /** One TODO or IN_PROGRESS item forbids deleting the list. */
  lemma OpenItemForbidsDeletion(items: seq<TodoItem>, k: nat)
    requires k < |items| && (items[k].status == Todo || items[k].status == InProgress)
    ensures !CanBeDeleted(items)
  {
    CanBeDeletedIffAllDone(items);
  }
}
