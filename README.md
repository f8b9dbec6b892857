# Todo tracker: store and audit-trail model

A model of the state and audit logic of a small multi-list todo tracker.
Users create named lists and add items to them. Each item moves through
the statuses TODO, IN_PROGRESS and DONE, and every real status change is
logged as a `StatusChange` row. A list may only be deleted when none of
its items is still open.

The project has three modules:

- `Models` (`models.dfy`) holds the three records `TodoList`, `TodoItem`
  and `StatusChange`, the status and length rules, and the predicate
  `CanBeDeleted` (the `can_be_deleted` property of a list).
- `StatusLog` (`status_log.dfy`) defines the log queries. `History` gives
  the rows of one item in log order. `Purge` is the bulk delete of the rows
  of a set of items. `IsAuditTrail` is the shape every item's history keeps:
  a creation row None -> TODO, then one row per real change, each row's old
  status chained to the previous row's new status, the last one equal to
  the item's status.
- `App` (`app.dfy`) holds the `Store` class with fields `lists`, `items`,
  `log` and the two id counters. It has one method per command handler:
  `CreateList`, `AddItem`, `EditItem`, `ChangeStatus`, `DeleteItem` and
  `DeleteList`. The delete_list loop over the list's items is the method
  `DeleteRowsOf`.

The store invariant `Store.Valid()` is kept by every handler. It says:

- lists and items are stored under their own ids;
- names and titles have valid lengths;
- every status is one of the three;
- every item belongs to an existing list;
- every log row belongs to an existing item;
- every item's history is an audit trail ending in its status.

Each handler looks its target up first. An unknown id gives `NotFound`
and changes nothing. A failed form gives `Invalid` (or `Ignored` for a
status value that is not a status) and also changes nothing. Only then
does the handler write.

The guard of delete_list refuses a list when it has an item in TODO or
IN_PROGRESS. That is a different test from `can_be_deleted`, which
requires every item to be DONE. The model follows the code's guard, which
is also what `DeleteList` does. `GuardMatchesCanBeDeleted` proves the two
agree whenever every status is one of the three, so they agree on every
valid store. `GuardDivergesOnUnknownStatus` shows they differ on an item
with any other status. The comment at app.py:138 and the docstring at
models.py:18 both describe the guard as "only DONE items or no items";
the code at app.py:140 tests for open items, and this model follows the
code.

## Model

| member | source | states |
|---|---|---|
| Models.CanBeDeletedIffAllDone | models.py:16-19 | a list can be deleted exactly when every one of its items is DONE, so a list without items can be deleted |
| Models.OpenItemForbidsDeletion | models.py:19 | one TODO or IN_PROGRESS item makes `can_be_deleted` false |
| StatusLog.HistoryMembers | models.py:28 | an item's status changes are exactly the log rows whose item id is that item |
| StatusLog.PurgeMembers | app.py:127 | the bulk delete keeps exactly the rows of the other items |
| StatusLog.HistoryAppend | app.py:64 | adding a row extends the history of its own item by that row and leaves every other history as it was |
| StatusLog.HistoryAbsent | app.py:54-55 | an item with no rows in the log has an empty history, as a freshly inserted item does |
| StatusLog.HistoryOfPurge | app.py:127 | deleting the rows of a set of items empties their histories and leaves every other history as it was |
| StatusLog.PurgeNothing | app.py:145-146 | the delete loop over a list without items deletes no rows |
| StatusLog.PurgeTwice | app.py:145-146 | deleting the rows of one item set and then of another is deleting the rows of their union, so the per-item deletes add up |
| StatusLog.CreationStartsTrail | app.py:58-64 | the creation row None -> TODO is by itself an audit trail ending in TODO |
| StatusLog.TrailExtend | app.py:82-89 | a logged change from the current status to a different valid status extends the audit trail, which then ends in the new status |
| StatusLog.AuditTrailRows | app.py:107-114 | an audit trail has one creation row None -> TODO first; it is the only row without an old status; each later row's old status is the previous row's new status and differs from it; every new status is valid; the last one is the item's status |
| App.HasOpenItemIffSomeOpen | app.py:140 | the `any(...)` of the guard holds exactly when some item is TODO or IN_PROGRESS |
| App.GuardMatchesCanBeDeleted | app.py:140 | when every status is one of the three, the guard refuses exactly when `can_be_deleted` is false |
| App.GuardDivergesOnUnknownStatus | app.py:140 | for any status outside the three, a list whose one item has that status passes the guard although `can_be_deleted` is false |
| App.GuardOnStoredList | app.py:139-140 | on a well-formed store the guard on a list's items refuses exactly when `can_be_deleted` is false for them |
| App.ItemsOfExactly | models.py:11 | the `items` of a list are exactly the stored items of that list, each once, in increasing id order |
| App.CanBeDeletedOfList | models.py:16-19 | `can_be_deleted` on a list's `items` holds exactly when every stored item of that list is DONE |
| App.OwnedIds | app.py:145-146 | the loop visits exactly the ids of the list's items |
| App.AddItemKeepsLog | app.py:49-64 | inserting a new TODO item with its creation row leaves no orphan row, gives the item a one-row audit trail and keeps every other trail |
| App.SetStatusKeepsLog | app.py:77-89 | assigning a valid status to an existing item and logging its transition keeps every trail, grows only that item's history and leaves no orphan row |
| App.PurgeKeepsLog | app.py:127-128 | deleting items together with all their rows leaves no orphan row and keeps every remaining item's trail and history |
| App.AddItemKeepsInvariant | app.py:49-65 | adding a valid TODO item with a fresh id to an existing list, with its creation row, keeps the store invariant |
| App.UpdateItemKeepsInvariant | app.py:76-91 | replacing an item by a valid edit of it in the same list, with its transition logged, keeps the store invariant; only that item's history grows |
| App.DeleteListKeepsInvariant | app.py:144-153 | deleting a list, its items and all their rows keeps the store invariant and the history of every remaining item |
| App.Store.constructor | app.py:160 | a fresh database holds no list, item or row, and that empty store is valid |
| App.Store.ListCanBeDeleted | models.py:16-19 | `can_be_deleted` of a stored list holds exactly when every stored item of that list is DONE |
| App.Store.CreateList | app.py:28-37 | a valid name adds a new list under a fresh id and nothing else; an invalid name changes nothing |
| App.Store.AddItem | app.py:44-69 | unknown list: NotFound and nothing changes; invalid title: Invalid and nothing changes; otherwise one new TODO item of that list under a fresh id and exactly one new row None -> TODO, which is its whole history |
| App.Store.EditItem | app.py:71-95 | unknown item: NotFound; invalid form: Invalid; in both cases nothing changes; otherwise the title is always replaced, the status assigned, one row old -> new logged exactly when the status differs, and no other history changes |
| App.Store.ChangeStatus | app.py:97-119 | unknown item: NotFound and nothing changes; a missing value or one outside the three statuses: Ignored and nothing changes; otherwise the status is assigned and one row logged exactly when it differs; assigning the current status changes nothing, so repeating a change is idempotent |
| App.Store.DeleteItem | app.py:121-132 | unknown item: NotFound and nothing changes; otherwise the item and exactly its rows are deleted, its history becomes empty, and lists and other histories are unchanged |
| App.Store.DeleteRowsOf | app.py:145-146 | the loop deletes exactly the rows of the visited items and changes nothing else |
| App.Store.DeleteList | app.py:134-156 | unknown list: NotFound; a list with an open item: Conflict; in both cases nothing changes; otherwise the list, exactly its items and exactly their rows are deleted, and the items and histories of other lists are unchanged |
| App.StartList | app.py:28-69 | creating a list and adding an item to it yields one TODO item whose history is its creation row |
| App.StartWork | app.py:97-119 | moving the item to IN_PROGRESS twice logs one row only, and a value that is not a status is ignored |
| App.FinishList | app.py:134-156 | once its one item is DONE, the list is deleted with that item and the item's whole history |

## Left out

- Flask routing, templates, redirects, flash messages and the read-only views `index` and `list_detail` are not modelled. Each handler's response is reduced to an `Outcome` tag.
- A GET request, which renders a form without submitting it, is not modelled. Only submitted commands are.
- CSRF protection, database migrations and the `__main__` block are framework setup and are not modelled.
- Session mechanics (add, flush, commit, lazy loading) are not modelled. Each handler commits once at the end, after every check, so a method that checks before it writes captures the all-or-nothing behaviour.
- The ORM's declarative cascades (models.py:11, models.py:28) are not modelled. The explicit, ordered deletes in the handlers are, and `NoOrphanRows` in the store invariant states their effect.
- Creation timestamps and log timestamps come from the wall clock and are left out.
- Log order stands for the order of the `StatusChange` ids. The row id itself is not kept.
- Database ids are modelled as counters that start at 1 and are never reused.
- The `items` relationship is taken in increasing id order. The source does not fix an order.
- The `__repr__` methods are display only and are left out.
- Form validation is reduced to its bounds: a name of 1 to 100 characters, a title of 1 to 200, and a status that is one of the three. The form library's own behaviour is not modelled: whitespace-only input counting as missing, and a field absent from the submission keeping the item's value.
- The database column widths (20 characters for a status) are not modelled. The statuses the handlers write fit them.
- config.py reads environment variables and show_model_class_names.py is developer tooling over a foreign parser. Neither is part of this model.
