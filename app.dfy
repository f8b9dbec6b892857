/**
 The command handlers of the todo tracker, as methods of a `Store` that
 holds the lists, the items and the status-change log.

 Each handler looks its target up first and answers NotFound without
 touching anything when the id is unknown; it then validates the submitted
 form (Invalid, nothing changed); only then does it write, all in one
 commit. Page rendering, redirects and flash messages are reduced to the
 `Outcome` tag.
 */
module App {
  import opened Models
  import opened StatusLog

  datatype Outcome =
    | Ok        // the change was committed
    | NotFound  // unknown list or item id
    | Invalid   // the submitted form failed validation
    | Conflict  // the list still has TODO or IN_PROGRESS items
    | Ignored   // change_status with a value that is not a status

  predicate IsOpen(status: string)
  {
    status == Todo || status == InProgress
  }

  /** `any(item.status in ['TODO', 'IN_PROGRESS'] for item in items)`. */
  function HasOpenItem(items: seq<TodoItem>): bool
  {
    if items == [] then false
    else IsOpen(items[0].status) || HasOpenItem(items[1..])
  }

  /** The `any(...)` of the guard holds exactly when some item is TODO or IN_PROGRESS. */
  lemma {:induction false} HasOpenItemIffSomeOpen(items: seq<TodoItem>)
    ensures HasOpenItem(items) <==> exists k :: 0 <= k < |items| && IsOpen(items[k].status)
  {
    if items != [] {
      HasOpenItemIffSomeOpen(items[1..]);
      if !IsOpen(items[0].status) && HasOpenItem(items[1..]) {
        var k :| 0 <= k < |items[1..]| && IsOpen(items[1..][k].status);
        assert items[k + 1] == items[1..][k];
      }
      if !IsOpen(items[0].status) && !HasOpenItem(items) {
        forall k | 1 <= k < |items|
          ensures !IsOpen(items[k].status)
        {
          assert items[k] == items[1..][k - 1];
        }
      }
    }
  }

  /** The guard of delete_list: the list has items and one of them is open. */
  predicate DeletionBlocked(items: seq<TodoItem>)
  {
    |items| > 0 && HasOpenItem(items)
  }

  /**
   The guard and `can_be_deleted` test different things (not open vs. DONE),
   but they agree on every collection whose statuses are all valid.
   */
  lemma GuardMatchesCanBeDeleted(items: seq<TodoItem>)
    requires forall k :: 0 <= k < |items| ==> IsStatus(items[k].status)
    ensures DeletionBlocked(items) <==> !CanBeDeleted(items)
  {
    HasOpenItemIffSomeOpen(items);
    CanBeDeletedIffAllDone(items);
    if !CanBeDeleted(items) {
      var k :| 0 <= k < |items| && items[k].status != Done;
      assert IsOpen(items[k].status);
    }
  }

  /**
   With any status outside the three, the guard lets a list through that
   `can_be_deleted` refuses.
   */
  lemma GuardDivergesOnUnknownStatus(id: nat, title: string, status: string, listId: nat)
    requires !IsStatus(status)
    ensures var items := [TodoItem(id, title, status, listId)];
            !DeletionBlocked(items) && !CanBeDeleted(items)
  {
    var items := [TodoItem(id, title, status, listId)];
    assert !IsOpen(status) && status != Done;
    assert items[0].status == status;
    assert items[1..] == [];
    assert !HasOpenItem(items[1..]);
  }

  /** Every key of `items` is the id of the item stored under it. */
  predicate KeyedById(items: map<nat, TodoItem>)
  {
    forall id :: id in items ==> items[id].id == id
  }

  /**
   The `items` relationship of list `listId`: the items below id `bound`
   that belong to it, in increasing id order (the order they were added).
   */
  function ItemsOf(items: map<nat, TodoItem>, listId: nat, bound: nat): seq<TodoItem>
  {
    if bound == 0 then []
    else
      var id := bound - 1;
      ItemsOf(items, listId, id) + (if id in items && items[id].id == id && items[id].listId == listId then [items[id]] else [])
  }

  /**
   `ItemsOf` holds exactly the stored items of the list below the bound,
   each once, in increasing id order.
   */
  lemma {:induction false} ItemsOfExactly(items: map<nat, TodoItem>, listId: nat, bound: nat)
    requires KeyedById(items)
    ensures forall k :: 0 <= k < |ItemsOf(items, listId, bound)| ==>
              ItemsOf(items, listId, bound)[k].listId == listId && ItemsOf(items, listId, bound)[k].id < bound
    ensures forall k :: 0 <= k < |ItemsOf(items, listId, bound)| ==>
              ItemsOf(items, listId, bound)[k].id in items && items[ItemsOf(items, listId, bound)[k].id] == ItemsOf(items, listId, bound)[k]
    ensures forall id :: id in items && id < bound && items[id].listId == listId ==> items[id] in ItemsOf(items, listId, bound)
    ensures forall j, k :: 0 <= j < k < |ItemsOf(items, listId, bound)| ==>
              ItemsOf(items, listId, bound)[j].id < ItemsOf(items, listId, bound)[k].id
  {
    if bound > 0 {
      var id := bound - 1;
      ItemsOfExactly(items, listId, id);
      var p := ItemsOf(items, listId, id);
      var r := ItemsOf(items, listId, bound);
      if id in items && items[id].listId == listId {
        assert r == p + [items[id]];
        assert forall k :: 0 <= k < |p| ==> r[k] == p[k];
        assert r[|p|] == items[id];
      } else {
        assert r == p;
      }
    }
  }

  /** `can_be_deleted` on the `items` relationship means every stored item of the list is DONE. */
  lemma CanBeDeletedOfList(items: map<nat, TodoItem>, listId: nat, bound: nat)
    requires KeyedById(items)
    requires forall id :: id in items ==> id < bound
    ensures CanBeDeleted(ItemsOf(items, listId, bound)) <==>
            forall id :: id in items && items[id].listId == listId ==> items[id].status == Done
  {
    ItemsOfExactly(items, listId, bound);
    var r := ItemsOf(items, listId, bound);
    CanBeDeletedIffAllDone(r);
    if CanBeDeleted(r) {
      forall id | id in items && items[id].listId == listId
        ensures items[id].status == Done
      {
        var k :| 0 <= k < |r| && r[k] == items[id];
      }
    }
  }

  /** The ids of the items of list `listId`. */
  function ItemIdsOf(items: map<nat, TodoItem>, listId: nat): set<nat>
  {
    set id | id in items && items[id].listId == listId
  }

  /** `items` without the items of list `listId`. */
  function OtherListsItems(items: map<nat, TodoItem>, listId: nat): (r: map<nat, TodoItem>)
    ensures forall id :: id in r <==> id in items && items[id].listId != listId
    ensures forall id :: id in r ==> r[id] == items[id]
  {
    map id | id in items && items[id].listId != listId :: items[id]
  }

  /** The ids of the items in `s`. */
  function IdsOf(s: seq<TodoItem>): (r: set<nat>)
    ensures forall k :: 0 <= k < |s| ==> s[k].id in r
  {
    if s == [] then {} else IdsOf(s[..|s| - 1]) + {s[|s| - 1].id}
  }

  lemma IdsOfSnoc(s: seq<TodoItem>, i: nat)
    requires i < |s|
    ensures IdsOf(s[..i + 1]) == IdsOf(s[..i]) + {s[i].id}
  {
    assert s[..i + 1][..i] == s[..i];
  }

  /** The ids the delete_list loop visits are exactly the ids of the list's items. */
  lemma OwnedIds(items: map<nat, TodoItem>, listId: nat, bound: nat)
    requires KeyedById(items)
    requires forall id :: id in items ==> id < bound
    ensures IdsOf(ItemsOf(items, listId, bound)) == ItemIdsOf(items, listId)
  {
    ItemsOfExactly(items, listId, bound);
    var r := ItemsOf(items, listId, bound);
    IdsOfMembers(r);
    forall id | id in ItemIdsOf(items, listId)
      ensures id in IdsOf(r)
    {
      var k :| 0 <= k < |r| && r[k] == items[id];
    }
  }

  lemma {:induction false} IdsOfMembers(s: seq<TodoItem>)
    ensures forall id :: id in IdsOf(s) ==> exists k :: 0 <= k < |s| && s[k].id == id
  {
    if s != [] {
      var init := s[..|s| - 1];
      IdsOfMembers(init);
      forall id | id in IdsOf(s)
        ensures exists k :: 0 <= k < |s| && s[k].id == id
      {
        if id != s[|s| - 1].id {
          assert id in IdsOf(init);
          var k :| 0 <= k < |init| && init[k].id == id;
          assert s[k] == init[k];
        }
      }
    }
  }

  /** The log rows a status assignment writes: one row when the status really changes, none otherwise. */
  function Transition(id: nat, current: string, next: string): (r: seq<StatusChange>)
    ensures |r| <= 1
    ensures r == [] <==> current == next
    ensures r != [] ==> r[0].itemId == id && r[0].oldStatus == Some(current) && r[0].newStatus == next
  {
    if current != next then [StatusChange(id, Some(current), next)] else []
  }

  predicate ListsWellFormed(lists: map<nat, TodoList>, nextListId: nat)
  {
    forall id :: id in lists ==> lists[id].id == id && id < nextListId && ValidName(lists[id].name)
  }

  predicate ItemsWellFormed(items: map<nat, TodoItem>, lists: map<nat, TodoList>, nextItemId: nat)
  {
    forall id :: id in items ==>
      && items[id].id == id && id < nextItemId
      && ValidTitle(items[id].title) && IsStatus(items[id].status)
      && items[id].listId in lists
  }

  /** Every log row belongs to an item that exists. */
  predicate NoOrphanRows(log: seq<StatusChange>, items: map<nat, TodoItem>)
  {
    forall e :: e in log ==> e.itemId in items
  }

  /** Every item's history is an audit trail that ends in the item's status. */
  predicate TrailsHold(log: seq<StatusChange>, items: map<nat, TodoItem>)
  {
    forall id {:trigger History(log, id)} :: id in items ==> IsAuditTrail(History(log, id), items[id].status)
  }

  /**
   add_item keeps the log invariants: a new item (fresh id, status TODO)
   with its creation row appended has a one-row trail, and no other history
   changes.
   */
  lemma AddItemKeepsLog(log: seq<StatusChange>, items: map<nat, TodoItem>, item: TodoItem)
    requires NoOrphanRows(log, items) && TrailsHold(log, items)
    requires item.id !in items && item.status == Todo
    ensures var log' := log + [StatusChange(item.id, None, Todo)];
            var items' := items[item.id := item];
            && NoOrphanRows(log', items') && TrailsHold(log', items')
            && History(log', item.id) == [StatusChange(item.id, None, Todo)]
  {
    var row := StatusChange(item.id, None, Todo);
    var log', items' := log + [row], items[item.id := item];
    HistoryAbsent(log, item.id);
    HistoryAppend(log, row, item.id);
    CreationStartsTrail(item.id);
    forall id | id in items'
      ensures IsAuditTrail(History(log', id), items'[id].status)
    {
      HistoryAppend(log, row, id);
      if id == item.id {
        assert History(log', id) == [row];
      } else {
        assert History(log', id) == History(log, id);
        assert IsAuditTrail(History(log, id), items[id].status);
      }
    }
  }

  /**
   A status assignment on an existing item keeps the log invariants: the
   item's history grows by the rows of `Transition` and no other history
   changes. `item` is the item's new value (edit_item also replaces the
   title).
   */
  lemma SetStatusKeepsLog(log: seq<StatusChange>, items: map<nat, TodoItem>, item: TodoItem)
    requires NoOrphanRows(log, items) && TrailsHold(log, items)
    requires item.id in items && IsStatus(item.status)
    ensures var rows := Transition(item.id, items[item.id].status, item.status);
            var log', items' := log + rows, items[item.id := item];
            && NoOrphanRows(log', items') && TrailsHold(log', items')
            && History(log', item.id) == History(log, item.id) + rows
            && forall id :: id != item.id ==> History(log', id) == History(log, id)
  {
    var id, current := item.id, items[item.id].status;
    var rows := Transition(id, current, item.status);
    var log', items' := log + rows, items[id := item];
    if current == item.status {
      assert log' == log;
    } else {
      var row := StatusChange(id, Some(current), item.status);
      assert IsAuditTrail(History(log, id), current);
      TrailExtend(History(log, id), current, id, item.status);
      forall other
        ensures History(log', other) == History(log, other) + (if other == id then [row] else [])
      {
        HistoryAppend(log, row, other);
      }
      forall other | other in items'
        ensures IsAuditTrail(History(log', other), items'[other].status)
      {
        if other == id {
          assert History(log', id) == History(log, id) + [row];
        } else {
          assert History(log', other) == History(log, other);
          assert IsAuditTrail(History(log, other), items[other].status);
        }
      }
    }
  }

  /**
   Deleting the rows of the items `ids` together with those items keeps the
   log invariants, whatever else `items'` keeps of `items`.
   */
  lemma PurgeKeepsLog(log: seq<StatusChange>, items: map<nat, TodoItem>, ids: set<nat>, items': map<nat, TodoItem>)
    requires NoOrphanRows(log, items) && TrailsHold(log, items)
    requires forall id :: id in items' <==> id in items && id !in ids
    requires forall id :: id in items' ==> items'[id] == items[id]
    ensures NoOrphanRows(Purge(log, ids), items') && TrailsHold(Purge(log, ids), items')
    ensures forall id :: History(Purge(log, ids), id) == if id in ids then [] else History(log, id)
  {
    PurgeMembers(log, ids);
    forall id
      ensures History(Purge(log, ids), id) == if id in ids then [] else History(log, id)
    {
      HistoryOfPurge(log, ids, id);
    }
    forall id | id in items'
      ensures IsAuditTrail(History(Purge(log, ids), id), items'[id].status)
    {
      assert IsAuditTrail(History(log, id), items[id].status);
    }
  }

  predicate StoreInvariant(lists: map<nat, TodoList>, items: map<nat, TodoItem>, log: seq<StatusChange>,
                           nextListId: nat, nextItemId: nat)
  {
    && ListsWellFormed(lists, nextListId)
    && ItemsWellFormed(items, lists, nextItemId)
    && NoOrphanRows(log, items)
    && TrailsHold(log, items)
  }

  /** Inserting a new, valid TODO item of an existing list with its creation row keeps the store invariant. */
  lemma AddItemKeepsInvariant(lists: map<nat, TodoList>, items: map<nat, TodoItem>, log: seq<StatusChange>,
                              nextListId: nat, nextItemId: nat, item: TodoItem)
    requires StoreInvariant(lists, items, log, nextListId, nextItemId)
    requires item.id == nextItemId && item.status == Todo && ValidTitle(item.title) && item.listId in lists
    ensures StoreInvariant(lists, items[item.id := item], log + [StatusChange(item.id, None, Todo)], nextListId, nextItemId + 1)
    ensures History(log + [StatusChange(item.id, None, Todo)], item.id) == [StatusChange(item.id, None, Todo)]
  {
    AddItemKeepsLog(log, items, item);
  }

  /**
   Replacing an item by a valid edit of it (same id and list, valid title
   and status) and logging its `Transition` keeps the store invariant.
   */
  lemma UpdateItemKeepsInvariant(lists: map<nat, TodoList>, items: map<nat, TodoItem>, log: seq<StatusChange>,
                                 nextListId: nat, nextItemId: nat, item: TodoItem)
    requires StoreInvariant(lists, items, log, nextListId, nextItemId)
    requires item.id in items && item.listId == items[item.id].listId
    requires ValidTitle(item.title) && IsStatus(item.status)
    ensures var rows := Transition(item.id, items[item.id].status, item.status);
            && StoreInvariant(lists, items[item.id := item], log + rows, nextListId, nextItemId)
            && History(log + rows, item.id) == History(log, item.id) + rows
            && forall id :: id != item.id ==> History(log + rows, id) == History(log, id)
  {
    SetStatusKeepsLog(log, items, item);
  }

  /**
   Deleting a list together with its items and their log rows keeps the
   store invariant, and leaves the history of every remaining item as it
   was.
   */
  lemma DeleteListKeepsInvariant(lists: map<nat, TodoList>, items: map<nat, TodoItem>, log: seq<StatusChange>,
                                 nextListId: nat, nextItemId: nat, listId: nat)
    requires StoreInvariant(lists, items, log, nextListId, nextItemId)
    ensures var items', log' := OtherListsItems(items, listId), Purge(log, ItemIdsOf(items, listId));
            && StoreInvariant(lists - {listId}, items', log', nextListId, nextItemId)
            && forall id :: id in items' ==> History(log', id) == History(log, id)
  {
    PurgeKeepsLog(log, items, ItemIdsOf(items, listId), OtherListsItems(items, listId));
  }

  /**
   On a well-formed store, the delete_list guard refuses a list exactly when
   `can_be_deleted` is false for it.
   */
  lemma GuardOnStoredList(items: map<nat, TodoItem>, lists: map<nat, TodoList>, bound: nat, listId: nat)
    requires ItemsWellFormed(items, lists, bound)
    ensures DeletionBlocked(ItemsOf(items, listId, bound)) <==> !CanBeDeleted(ItemsOf(items, listId, bound))
  {
    var owned := ItemsOf(items, listId, bound);
    ItemsOfExactly(items, listId, bound);
    forall k | 0 <= k < |owned|
      ensures IsStatus(owned[k].status)
    {
      assert items[owned[k].id] == owned[k];
    }
    GuardMatchesCanBeDeleted(owned);
  }

  class Store {
    var lists: map<nat, TodoList>
    var items: map<nat, TodoItem>
    var log: seq<StatusChange>
    var nextListId: nat
    var nextItemId: nat

    /**
     Lists and items are stored under their own ids, which are below the
     next id to hand out; names and titles have valid lengths; every item
     has a valid status and belongs to an existing list; every log row
     belongs to an existing item; and every item's history is an audit
     trail ending in its current status.
     */
    ghost predicate Valid()
      reads this
    {
      StoreInvariant(lists, items, log, nextListId, nextItemId)
    }

    constructor ()
      ensures Valid()
      ensures lists == map[] && items == map[] && log == []
    {
      lists, items, log := map[], map[], [];
      nextListId, nextItemId := 1, 1;
    }

    /** `TodoList.can_be_deleted` for a stored list. */
    function ListCanBeDeleted(listId: nat): (r: bool)
      reads this
      requires Valid() && listId in lists
      ensures r <==> forall id :: id in items && items[id].listId == listId ==> items[id].status == Done
    {
      CanBeDeletedOfList(items, listId, nextItemId);
      CanBeDeleted(ItemsOf(items, listId, nextItemId))
    }

    /** create_list: a valid name becomes a new, empty list. */
    method CreateList(name: string) returns (outcome: Outcome, id: nat)
      requires Valid()
      modifies this
      ensures Valid()
      ensures outcome == if ValidName(name) then Ok else Invalid
      ensures outcome == Invalid ==> unchanged(this)
      ensures outcome == Ok ==>
                && id !in old(lists)
                && lists == old(lists)[id := TodoList(id, name)]
                && items == old(items) && log == old(log)
    {
      if !ValidName(name) {
        return Invalid, 0;
      }
      id := nextListId;
      lists := lists[id := TodoList(id, name)];
      nextListId := nextListId + 1;
      outcome := Ok;
    }

    /**
     add_item: a valid title on an existing list becomes a new TODO item of
     that list, logged by one creation row None -> TODO.
     */
    method AddItem(listId: nat, title: string) returns (outcome: Outcome, id: nat)
      requires Valid()
      modifies this
      ensures Valid()
      ensures outcome == if listId !in old(lists) then NotFound else if !ValidTitle(title) then Invalid else Ok
      ensures outcome != Ok ==> unchanged(this)
      ensures outcome == Ok ==>
                && id !in old(items)
                && items == old(items)[id := TodoItem(id, title, Todo, listId)]
                && lists == old(lists)
                && log == old(log) + [StatusChange(id, None, Todo)]
                && History(log, id) == [StatusChange(id, None, Todo)]
    {
      if listId !in lists {
        return NotFound, 0;
      }
      if !ValidTitle(title) {
        return Invalid, 0;
      }
      id := nextItemId;
      var item := TodoItem(id, title, Todo, listId);
      AddItemKeepsInvariant(lists, items, log, nextListId, nextItemId, item);
      items := items[id := item];
      nextItemId := nextItemId + 1;
      log := log + [StatusChange(id, None, Todo)];
      assert StoreInvariant(lists, items, log, nextListId, nextItemId);
      outcome := Ok;
    }

    /**
     edit_item: on an existing item with a valid form, the title is always
     replaced and the status assigned; a row old -> new is logged only when
     the status differs.
     */
    method EditItem(itemId: nat, title: string, status: string) returns (outcome: Outcome)
      requires Valid()
      modifies this
      ensures Valid()
      ensures outcome == if itemId !in old(items) then NotFound
                         else if !ValidTitle(title) || !IsStatus(status) then Invalid
                         else Ok
      ensures outcome != Ok ==> unchanged(this)
      ensures outcome == Ok ==>
                && items == old(items)[itemId := old(items[itemId]).(title := title, status := status)]
                && lists == old(lists)
                && log == old(log) + Transition(itemId, old(items[itemId].status), status)
                && History(log, itemId) == old(History(log, itemId)) + Transition(itemId, old(items[itemId].status), status)
                && forall id :: id != itemId ==> History(log, id) == old(History(log, id))
    {
      if itemId !in items {
        return NotFound;
      }
      if !ValidTitle(title) || !IsStatus(status) {
        return Invalid;
      }
      var item := items[itemId];
      var oldStatus := item.status;
      item := item.(title := title, status := status);
      UpdateItemKeepsInvariant(lists, items, log, nextListId, nextItemId, item);
      items := items[itemId := item];
      log := log + Transition(itemId, oldStatus, status);
      outcome := Ok;
    }

    /**
     change_status: an existing item takes a submitted value that is one of
     the three statuses, logging a row only when it differs; any other value
     (or none) is ignored without an error.
     */
    method ChangeStatus(itemId: nat, status: Option<string>) returns (outcome: Outcome)
      requires Valid()
      modifies this
      ensures Valid()
      ensures outcome == if itemId !in old(items) then NotFound
                         else if !(status.Some? && IsStatus(status.value)) then Ignored
                         else Ok
      ensures outcome != Ok ==> unchanged(this)
      ensures outcome == Ok ==>
                && items == old(items)[itemId := old(items[itemId]).(status := status.value)]
                && lists == old(lists)
                && log == old(log) + Transition(itemId, old(items[itemId].status), status.value)
                && History(log, itemId) == old(History(log, itemId)) + Transition(itemId, old(items[itemId].status), status.value)
                && forall id :: id != itemId ==> History(log, id) == old(History(log, id))
      ensures outcome == Ok && status.value == old(items[itemId].status) ==> unchanged(this)
    {
      if itemId !in items {
        return NotFound;
      }
      if !(status.Some? && IsStatus(status.value)) {
        return Ignored;
      }
      var newStatus := status.value;
      var oldStatus := items[itemId].status;
      outcome := Ok;
      // assigning the status the item already has leaves the row as it is
      if oldStatus != newStatus {
        var item := items[itemId].(status := newStatus);
        UpdateItemKeepsInvariant(lists, items, log, nextListId, nextItemId, item);
        items := items[itemId := item];
        log := log + [StatusChange(itemId, Some(oldStatus), newStatus)];
      }
    }

    /** delete_item: the item's log rows are deleted, then the item; nothing else changes. */
    method DeleteItem(itemId: nat) returns (outcome: Outcome)
      requires Valid()
      modifies this
      ensures Valid()
      ensures outcome == if itemId in old(items) then Ok else NotFound
      ensures outcome == NotFound ==> unchanged(this)
      ensures outcome == Ok ==>
                && items == old(items) - {itemId}
                && lists == old(lists)
                && log == Purge(old(log), {itemId})
                && History(log, itemId) == []
                && forall id :: id != itemId ==> History(log, id) == old(History(log, id))
    {
      if itemId !in items {
        return NotFound;
      }
      PurgeKeepsLog(log, items, {itemId}, items - {itemId});
      log := Purge(log, {itemId});
      items := items - {itemId};
      outcome := Ok;
    }

    /** The loop of delete_list: for each item, in order, delete that item's log rows. */
    method DeleteRowsOf(owned: seq<TodoItem>)
      modifies this
      ensures log == Purge(old(log), IdsOf(owned))
      ensures lists == old(lists) && items == old(items)
      ensures nextListId == old(nextListId) && nextItemId == old(nextItemId)
    {
      ghost var before := log;
      PurgeNothing(log);
      for i := 0 to |owned|
        invariant log == Purge(before, IdsOf(owned[..i]))
        invariant lists == old(lists) && items == old(items)
        invariant nextListId == old(nextListId) && nextItemId == old(nextItemId)
      {
        PurgeTwice(before, IdsOf(owned[..i]), {owned[i].id});
        IdsOfSnoc(owned, i);
        log := Purge(log, {owned[i].id});
      }
      assert owned[..|owned|] == owned;
    }

    /**
     delete_list: refused with Conflict, changing nothing, when the list has
     a TODO or IN_PROGRESS item. Otherwise the log rows of each of its items
     are deleted, then its items, then the list; other lists, their items
     and their rows are untouched.
     */
    method DeleteList(listId: nat) returns (outcome: Outcome)
      requires Valid()
      modifies this
      ensures Valid()
      ensures outcome == if listId !in old(lists) then NotFound
                         else if old(ListCanBeDeleted(listId)) then Ok
                         else Conflict
      ensures outcome != Ok ==> unchanged(this)
      ensures outcome == Ok ==>
                && lists == old(lists) - {listId}
                && items == OtherListsItems(old(items), listId)
                && log == Purge(old(log), ItemIdsOf(old(items), listId))
                && forall id :: id in items ==> History(log, id) == old(History(log, id))
    {
      if listId !in lists {
        return NotFound;
      }
      var owned := ItemsOf(items, listId, nextItemId);
      GuardOnStoredList(items, lists, nextItemId, listId);
      if DeletionBlocked(owned) {
        return Conflict;
      }
      ghost var before := log;
      DeleteRowsOf(owned);
      OwnedIds(items, listId, nextItemId);
      DeleteListKeepsInvariant(lists, items, before, nextListId, nextItemId, listId);
      items := OtherListsItems(items, listId);
      lists := lists - {listId};
      outcome := Ok;
    }
  }

  /** `id` is the one item of list `listId`. */
  predicate OnlyItemOf(items: map<nat, TodoItem>, listId: nat, id: nat)
  {
    && id in items && items[id].listId == listId
    && forall other :: other in items && items[other].listId == listId ==> other == id
  }

  /**
   A session on one new list of any valid store: a new list with one new
   item, whose history grows by one row per real change only; a value that
   is not a status is ignored; the open item blocks deletion of its list,
   and once it is DONE the list goes away with the item and its history.
   */
  method GroceriesSession(store: Store)
    requires store.Valid()
    modifies store
  {
    var groceries, milk := StartList(store);
    StartWork(store, groceries, milk);
    var outcome := store.DeleteList(groceries);
    assert outcome == Conflict;
    FinishList(store, groceries, milk);
  }

  /** Creating a list and adding an item to it: the item is TODO with its creation row only. */
  method StartList(store: Store) returns (listId: nat, id: nat)
    requires store.Valid()
    modifies store
    ensures store.Valid() && listId in store.lists && OnlyItemOf(store.items, listId, id)
    ensures store.items[id].status == Todo
    ensures History(store.log, id) == [StatusChange(id, None, Todo)]
  {
    var outcome;
    outcome, listId := store.CreateList("Groceries");
    assert outcome == Ok;
    outcome, id := store.AddItem(listId, "Milk");
    assert outcome == Ok;
  }

  /**
   Starting work on the item twice logs one row; a value that is not a
   status is ignored.
   */
  method StartWork(store: Store, listId: nat, id: nat)
    requires store.Valid() && listId in store.lists && OnlyItemOf(store.items, listId, id)
    requires store.items[id].status == Todo
    requires History(store.log, id) == [StatusChange(id, None, Todo)]
    modifies store
    ensures store.Valid() && listId in store.lists && OnlyItemOf(store.items, listId, id)
    ensures store.items[id].status == InProgress
    ensures History(store.log, id) == [StatusChange(id, None, Todo), StatusChange(id, Some(Todo), InProgress)]
  {
    var outcome := store.ChangeStatus(id, Some(InProgress));
    assert outcome == Ok;
    outcome := store.ChangeStatus(id, Some(InProgress));
    assert outcome == Ok;
    outcome := store.ChangeStatus(id, Some("WAITING"));
    assert outcome == Ignored;
  }

  /** Once its one item is DONE, the list is deleted together with the item and the item's whole history. */
  method FinishList(store: Store, listId: nat, id: nat)
    requires store.Valid() && listId in store.lists && OnlyItemOf(store.items, listId, id)
    modifies store
    ensures store.Valid() && listId !in store.lists && id !in store.items
    ensures History(store.log, id) == []
  {
    var outcome := store.ChangeStatus(id, Some(Done));
    assert OnlyItemOf(store.items, listId, id) && store.items[id].status == Done;
    ghost var items, log := store.items, store.log;
    outcome := store.DeleteList(listId);
    assert outcome == Ok;
    HistoryOfPurge(log, ItemIdsOf(items, listId), id);
  }
}
