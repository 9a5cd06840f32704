/**
  The lifecycle observer (classes/observers.php): when an attempt is
  abandoned, deleted or submitted its lock is released; an attempt that
  becomes overdue keeps its lock. Only the event's `objectid` is read.
 */
module Observers {

  import opened Wrappers
  import opened Tables

  /** `observers::unlock_attempt` as a function of the store; a null or zero object id is ignored. */
  function UnlockAttemptSpec(s: Db, objectId: Option<int>): Db
  {
    if objectId.None? || objectId.value == 0 then s
    else s.(locks := LocksWithoutAttempt(s.locks, objectId.value))
  }

  /** `observers::unlock_attempt`: delete every lock row of the event's attempt. */
  method UnlockAttempt(db: Database, objectId: Option<int>)
    requires db.Valid()
    modifies db
    ensures db.Valid()
    ensures db.State() == UnlockAttemptSpec(old(db.State()), objectId)
  {
    if objectId.Some? && objectId.value != 0 {
      FilterUnique(db.locks, (r: LockRow) => r.attemptId != objectId.value, AttemptOf);
      db.locks := LocksWithoutAttempt(db.locks, objectId.value);
    }
  }

  /**
    For a real attempt id, exactly the attempt's locks go; the other locks, the
    settings, the unlock log and the events stay.
   */
  lemma UnlockAttemptReleases(s: Db, attemptId: int)
    requires attemptId != 0
    ensures var t := UnlockAttemptSpec(s, Some(attemptId));
            FindLock(t.locks, attemptId).None?
            && (forall r :: r in t.locks <==> r in s.locks && r.attemptId != attemptId)
            && t.settings == s.settings && t.log == s.log && t.events == s.events
  {
  }

  /** An empty object id (null or 0) leaves the store unchanged. */
  lemma EmptyObjectIdIgnored(s: Db, objectId: Option<int>)
    requires objectId.None? || objectId == Some(0)
    ensures UnlockAttemptSpec(s, objectId) == s
  {
  }

  /** Delivering the same event twice has the effect of delivering it once. */
  lemma UnlockAttemptIdempotent(s: Db, objectId: Option<int>)
    ensures UnlockAttemptSpec(UnlockAttemptSpec(s, objectId), objectId) == UnlockAttemptSpec(s, objectId)
  {
    if objectId.Some? && objectId.value != 0 {
      FilterIdempotent(s.locks, (r: LockRow) => r.attemptId != objectId.value);
    }
  }
}
