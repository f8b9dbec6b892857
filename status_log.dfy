/**
 The status-change log, as a sequence of rows in the order they were
 written (the order of their database ids). `History` is the query of one
 item's rows; `Purge` is the bulk delete of the rows of a set of items; and
 `IsAuditTrail` is the shape every item's history keeps: one creation row,
 then one row per real status change, chained old-to-new.
 */
module StatusLog {
  import opened Models

  /** The rows of `log` written for item `id`, in log order. */
  function History(log: seq<StatusChange>, id: nat): (r: seq<StatusChange>)
    ensures |r| <= |log|
  {
    if log == [] then []
    else History(log[..|log| - 1], id) + (if log[|log| - 1].itemId == id then [log[|log| - 1]] else [])
  }

  /** `log` without the rows of the items in `ids`, in log order. */
  function Purge(log: seq<StatusChange>, ids: set<nat>): (r: seq<StatusChange>)
    ensures |r| <= |log|
  {
    if log == [] then []
    else Purge(log[..|log| - 1], ids) + (if log[|log| - 1].itemId in ids then [] else [log[|log| - 1]])
  }

  /** `History` keeps exactly the rows of `log` that belong to `id`. */
  lemma {:induction false} HistoryMembers(log: seq<StatusChange>, id: nat)
    ensures forall e :: e in History(log, id) <==> e in log && e.itemId == id
  {
    if log != [] {
      var init, last := log[..|log| - 1], log[|log| - 1];
      assert log == init + [last];
      HistoryMembers(init, id);
    }
  }

  /** `Purge` keeps exactly the rows of `log` that belong to no item of `ids`. */
  lemma {:induction false} PurgeMembers(log: seq<StatusChange>, ids: set<nat>)
    ensures forall e :: e in Purge(log, ids) <==> e in log && e.itemId !in ids
  {
    if log != [] {
      var init, last := log[..|log| - 1], log[|log| - 1];
      assert log == init + [last];
      PurgeMembers(init, ids);
    }
  }

  /** Appending a row extends its own item's history and no other. */
  lemma HistoryAppend(log: seq<StatusChange>, e: StatusChange, id: nat)
    ensures History(log + [e], id) == History(log, id) + (if e.itemId == id then [e] else [])
  {
    assert (log + [e])[..|log|] == log;
  }

  /** An item none of whose rows are in the log has an empty history. */
  lemma HistoryAbsent(log: seq<StatusChange>, id: nat)
    requires forall e :: e in log ==> e.itemId != id
    ensures History(log, id) == []
  {
    HistoryMembers(log, id);
  }

  /** Purging a set of items empties their histories and leaves every other history as it was. */
  lemma {:induction false} HistoryOfPurge(log: seq<StatusChange>, ids: set<nat>, id: nat)
    ensures History(Purge(log, ids), id) == if id in ids then [] else History(log, id)
  {
    if log != [] {
      var init, last := log[..|log| - 1], log[|log| - 1];
      assert log == init + [last];
      HistoryOfPurge(init, ids, id);
      var p := Purge(init, ids);
      if last.itemId in ids {
        assert Purge(log, ids) == p;
      } else {
        assert Purge(log, ids) == p + [last];
        HistoryAppend(p, last, id);
      }
    }
  }

  /** Purging no item removes nothing. */
  lemma {:induction false} PurgeNothing(log: seq<StatusChange>)
    ensures Purge(log, {}) == log
  {
    if log != [] {
      var init, last := log[..|log| - 1], log[|log| - 1];
      assert log == init + [last];
      PurgeNothing(init);
    }
  }

  /** Purging `a` and then `b` is purging their union, so per-item deletes add up. */
  lemma {:induction false} PurgeTwice(log: seq<StatusChange>, a: set<nat>, b: set<nat>)
    ensures Purge(Purge(log, a), b) == Purge(log, a + b)
  {
    if log != [] {
      var init, last := log[..|log| - 1], log[|log| - 1];
      assert log == init + [last];
      PurgeTwice(init, a, b);
      var p := Purge(init, a);
      if last.itemId in a {
        assert Purge(log, a) == p;
      } else {
        assert Purge(log, a) == p + [last];
        assert (p + [last])[..|p|] == p;
      }
    }
  }

  /**
   The shape of one item's history while the item exists: a first row
   None -> TODO, every later row going from the previous row's new status to
   a different valid status, and the last row's new status equal to the
   item's current `status`. Stated row by row from the end, as the rows are
   appended.
   */
  predicate IsAuditTrail(h: seq<StatusChange>, status: string)
    decreases |h|
  {
    if |h| == 0 then false
    else if |h| == 1 then h[0].oldStatus == None && h[0].newStatus == Todo && status == Todo
    else
      var before := h[|h| - 2].newStatus;
      && h[|h| - 1].oldStatus == Some(before)
      && h[|h| - 1].newStatus == status
      && IsStatus(status) && status != before
      && IsAuditTrail(h[..|h| - 1], before)
  }

  /** The row written when an item is created starts its audit trail. */
  lemma CreationStartsTrail(id: nat)
    ensures IsAuditTrail([StatusChange(id, None, Todo)], Todo)
  {
  }

  /** A real change from `status` to another valid status, logged as one row, extends the trail. */
  lemma TrailExtend(h: seq<StatusChange>, status: string, id: nat, next: string)
    requires IsAuditTrail(h, status)
    requires IsStatus(next) && next != status
    ensures IsAuditTrail(h + [StatusChange(id, Some(status), next)], next)
  {
    var h' := h + [StatusChange(id, Some(status), next)];
    assert forall k :: 0 <= k < |h| ==> h'[k] == h[k];
  }

  /**
   An audit trail, read by index: it starts with the creation row None ->
   TODO, it is the only row without an old status, every later row goes from
   the previous row's new status to a different one, every new status is
   valid, and the last one is the item's status. So the history has one row
   more than the item had real status changes.
   */
  lemma {:induction false} AuditTrailRows(h: seq<StatusChange>, status: string)
    requires IsAuditTrail(h, status)
    ensures |h| >= 1 && h[0].oldStatus == None && h[0].newStatus == Todo
    ensures h[|h| - 1].newStatus == status && IsStatus(status)
    ensures forall k :: 0 <= k < |h| ==> IsStatus(h[k].newStatus)
    ensures forall k :: 1 <= k < |h| ==> h[k].oldStatus != None
    ensures forall j, k :: 0 <= j < |h| - 1 && k == j + 1 ==>
              h[k].oldStatus == Some(h[j].newStatus) && h[k].newStatus != h[j].newStatus
  {
    if |h| > 1 {
      var init := h[..|h| - 1];
      AuditTrailRows(init, h[|h| - 2].newStatus);
      assert forall k :: 0 <= k < |init| ==> h[k] == init[k];
    }
  }
}
