/**
  The observer table (db/events.php): which attempt lifecycle events the host
  delivers to which callback. Delivery applies, in table order, the callback of
  every entry whose event name matches.
 */
module EventMap {

  import opened Wrappers
  import opened Tables
  import opened Observers

  /** One entry of the `$observers` array. */
  datatype Observer = Observer(eventName: string, callback: string)

  const AttemptAbandoned := "\\mod_quiz\\event\\attempt_abandoned"
  const AttemptDeleted := "\\mod_quiz\\event\\attempt_deleted"
  const AttemptSubmitted := "\\mod_quiz\\event\\attempt_submitted"
  const AttemptBecameOverdue := "\\mod_quiz\\event\\attempt_becameoverdue"

  const UnlockAttemptCallback := "\\quizaccess_oneconnection\\observers::unlock_attempt"

  /** The table as registered: abandoned, deleted and submitted each release the lock. */
  const ObserverTable: seq<Observer> := [
    Observer(AttemptAbandoned, UnlockAttemptCallback),
    Observer(AttemptDeleted, UnlockAttemptCallback),
    Observer(AttemptSubmitted, UnlockAttemptCallback)
  ]

  /** Run one callback; the table names no callback other than `unlock_attempt`. */
  function RunCallback(callback: string, s: Db, objectId: Option<int>): Db
  {
    if callback == UnlockAttemptCallback then UnlockAttemptSpec(s, objectId) else s
  }

  /** Deliver an event to every matching entry of `table`, in order. */
  function Deliver(table: seq<Observer>, s: Db, eventName: string, objectId: Option<int>): Db
  {
    if table == [] then s
    else
      var next := if table[0].eventName == eventName then RunCallback(table[0].callback, s, objectId) else s;
      Deliver(table[1..], next, eventName, objectId)
  }

  /** An event no entry names is not delivered at all. */
  lemma {:induction false} UnmatchedIgnored(table: seq<Observer>, s: Db, eventName: string, objectId: Option<int>)
    requires forall o :: o in table ==> o.eventName != eventName
    ensures Deliver(table, s, eventName, objectId) == s
  {
    if table != [] {
      assert table[0] in table;
      UnmatchedIgnored(table[1..], s, eventName, objectId);
    }
  }

  /** The table maps exactly three event names, each to `unlock_attempt`, each once. */
  lemma TableShape()
    ensures forall o :: o in ObserverTable <==> o.callback == UnlockAttemptCallback
                                                && o.eventName in {AttemptAbandoned, AttemptDeleted, AttemptSubmitted}
    ensures |ObserverTable| == 3
  {
  }

  /** Abandoning an attempt releases its lock. */
  lemma AbandonedUnlocks(s: Db, objectId: Option<int>)
    ensures Deliver(ObserverTable, s, AttemptAbandoned, objectId) == UnlockAttemptSpec(s, objectId)
  {
    var rest := ObserverTable[1..];
    assert rest == [Observer(AttemptDeleted, UnlockAttemptCallback), Observer(AttemptSubmitted, UnlockAttemptCallback)];
    UnmatchedIgnored(rest, UnlockAttemptSpec(s, objectId), AttemptAbandoned, objectId);
  }

  /** Deleting an attempt releases its lock. */
  lemma DeletedUnlocks(s: Db, objectId: Option<int>)
    ensures Deliver(ObserverTable, s, AttemptDeleted, objectId) == UnlockAttemptSpec(s, objectId)
  {
    var rest := ObserverTable[2..];
    assert ObserverTable[1..][1..] == rest == [Observer(AttemptSubmitted, UnlockAttemptCallback)];
    UnmatchedIgnored(rest, UnlockAttemptSpec(s, objectId), AttemptDeleted, objectId);
  }

  /** Submitting an attempt releases its lock. */
  lemma SubmittedUnlocks(s: Db, objectId: Option<int>)
    ensures Deliver(ObserverTable, s, AttemptSubmitted, objectId) == UnlockAttemptSpec(s, objectId)
  {
    var last := [Observer(AttemptSubmitted, UnlockAttemptCallback)];
    assert ObserverTable[1..][1..] == last && last[1..] == [];
    assert Deliver(ObserverTable[1..], s, AttemptSubmitted, objectId) == Deliver(last, s, AttemptSubmitted, objectId);
  }

  /** An attempt that becomes overdue keeps its lock: that event is deliberately not mapped. */
  lemma OverdueKeepsLock(s: Db, objectId: Option<int>)
    ensures Deliver(ObserverTable, s, AttemptBecameOverdue, objectId) == s
  {
    UnmatchedIgnored(ObserverTable, s, AttemptBecameOverdue, objectId);
  }
}
