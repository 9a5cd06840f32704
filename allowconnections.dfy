/**
  The teacher's page for releasing locks (allowconnections.php): the unlock
  helper, which deletes an attempt's lock and appends one entry to the unlock
  log, the single-unlock and bulk-unlock action handlers, and the rule that
  decides which report rows offer an unlock at all. The acting user
  (`$USER->id`), the clock (`time()`) and `confirm_sesskey()` are inputs.
 */
module AllowConnections {

  import opened Wrappers
  import Php
  import opened Tables
  import opened SessionFingerprint
  import opened SessionHash
  import opened AccessRule

  /** The states of a quiz attempt. */
  datatype AttemptState = NotStarted | InProgress | Overdue | Finished | Abandoned | Submitted

  /** The unlock controls a report row shows: the bulk checkbox and the "allow change" link. */
  datatype RowControls = RowControls(checkbox: bool, allowChangeLink: bool)

  /** Which controls a row offers; a row without the link shows "not possible" instead. */
  function ControlsFor(state: AttemptState): (c: RowControls)
    ensures c.checkbox == c.allowChangeLink
    ensures c.checkbox <==> state == InProgress
  {
    RowControls(state == InProgress, state == InProgress)
  }

  /** `quizaccess_onesession_unlock_and_log` as a function of the store before the call. */
  function Unlocked(s: Db, attemptId: int, quizId: int, user: int, now: int): Db
  {
    s.(locks := LocksWithoutAttempt(s.locks, attemptId),
       log := s.log + [LogRow(quizId, attemptId, user, now)])
  }

  /** `quizaccess_onesession_unlock_and_log`: delete the attempt's lock, then log who released it and when. */
  method UnlockAndLog(db: Database, attemptId: int, quizId: int, user: int, now: int)
    requires db.Valid()
    modifies db
    ensures db.Valid()
    ensures db.State() == Unlocked(old(db.State()), attemptId, quizId, user, now)
  {
    FilterUnique(db.locks, (r: LockRow) => r.attemptId != attemptId, AttemptOf);
    db.locks := LocksWithoutAttempt(db.locks, attemptId);
    db.log := db.log + [LogRow(quizId, attemptId, user, now)];
  }

  /** The bulk handler's loop: one unlock per submitted id, in the order submitted. */
  function UnlockAll(s: Db, ids: seq<int>, quizId: int, user: int, now: int): Db
  {
    if ids == [] then s
    else Unlocked(UnlockAll(s, ids[..|ids| - 1], quizId, user, now), ids[|ids| - 1], quizId, user, now)
  }

  /** The request parameters the handlers read: `unlock`, the posted form with `unlockselected` and `attemptid[]`. */
  datatype ActionRequest = ActionRequest(unlock: int, sesskeyOk: bool, submitted: bool,
                                         unlockSelected: Option<string>, attemptIds: seq<int>)

  /** How the request ends: a redirect after a single unlock, or the page, with the success count if any. */
  datatype Outcome = Redirected | Rendered(unlockedCount: Option<int>)

  /** The action handlers as a function of the store before the request. */
  function HandleActionsSpec(s: Db, req: ActionRequest, quizId: int, user: int, now: int): (Db, Outcome)
  {
    if req.unlock != 0 && req.sesskeyOk then (Unlocked(s, req.unlock, quizId, user, now), Redirected)
    else if req.submitted && Php.Truthy(req.unlockSelected) && req.sesskeyOk && req.attemptIds != [] then
      (UnlockAll(s, req.attemptIds, quizId, user, now), Rendered(Some(|req.attemptIds|)))
    else (s, Rendered(None))
  }

  /**
    The single-unlock handler, which redirects and so ends the request, and
    then the bulk handler, which unlocks each submitted id and reports how
    many ids were submitted.
   */
  method HandleActions(db: Database, req: ActionRequest, quizId: int, user: int, now: int) returns (outcome: Outcome)
    requires db.Valid()
    modifies db
    ensures db.Valid()
    ensures (db.State(), outcome) == HandleActionsSpec(old(db.State()), req, quizId, user, now)
  {
    if req.unlock != 0 && req.sesskeyOk {
      UnlockAndLog(db, req.unlock, quizId, user, now);
      return Redirected;
    }
    if req.submitted && Php.Truthy(req.unlockSelected) && req.sesskeyOk {
      var ids := req.attemptIds;
      if ids != [] {
        var i := 0;
        while i < |ids|
          invariant 0 <= i <= |ids|
          invariant db.Valid()
          invariant db.State() == UnlockAll(old(db.State()), ids[..i], quizId, user, now)
        {
          UnlockAndLog(db, ids[i], quizId, user, now);
          assert ids[..i + 1][..i] == ids[..i];
          i := i + 1;
        }
        assert ids[..|ids|] == ids;
        return Rendered(Some(|ids|));
      }
    }
    return Rendered(None);
  }

  /**
    After an unlock no lock of the attempt remains, the other attempts' locks
    are kept, and the log has grown by exactly the one entry.
   */
  lemma UnlockReleases(s: Db, attemptId: int, quizId: int, user: int, now: int)
    ensures var t := Unlocked(s, attemptId, quizId, user, now);
            FindLock(t.locks, attemptId).None?
            && (forall r :: r in t.locks <==> r in s.locks && r.attemptId != attemptId)
            && t.log == s.log + [LogRow(quizId, attemptId, user, now)]
            && t.settings == s.settings && t.events == s.events
  {
  }

  /**
    Unlocking deletes the attempt's lock whatever quiz the lock row names: the
    helper matches on attemptid only.
   */
  lemma UnlockIgnoresLockQuiz(s: Db, lock: LockRow, quizId: int, user: int, now: int)
    requires lock in s.locks && lock.quizId != quizId
    ensures lock !in Unlocked(s, lock.attemptId, quizId, user, now).locks
  {
  }

  /** Two unlocks of the same attempt: the lock stays absent and the log gains two entries. */
  lemma UnlockTwice(s: Db, attemptId: int, quizId: int, user: int, now1: int, now2: int)
    ensures var t := Unlocked(Unlocked(s, attemptId, quizId, user, now1), attemptId, quizId, user, now2);
            t.locks == LocksWithoutAttempt(s.locks, attemptId)
            && t.log == s.log + [LogRow(quizId, attemptId, user, now1), LogRow(quizId, attemptId, user, now2)]
  {
    FilterIdempotent(s.locks, (r: LockRow) => r.attemptId != attemptId);
  }

  /** Bulk unlock appends one entry per submitted id, in order, and removes none. */
  lemma {:induction false} UnlockAllLog(s: Db, ids: seq<int>, quizId: int, user: int, now: int)
    ensures UnlockAll(s, ids, quizId, user, now).log
         == s.log + seq(|ids|, i requires 0 <= i < |ids| => LogRow(quizId, ids[i], user, now))
  {
    if ids != [] {
      var front := ids[..|ids| - 1];
      UnlockAllLog(s, front, quizId, user, now);
      var entries := seq(|ids|, i requires 0 <= i < |ids| => LogRow(quizId, ids[i], user, now));
      var frontEntries := seq(|front|, i requires 0 <= i < |front| => LogRow(quizId, front[i], user, now));
      assert entries == frontEntries + [LogRow(quizId, ids[|ids| - 1], user, now)];
    }
  }

  /** Bulk unlock leaves exactly the locks of the attempts that were not submitted. */
  lemma {:induction false} UnlockAllLocks(s: Db, ids: seq<int>, quizId: int, user: int, now: int)
    ensures forall r :: r in UnlockAll(s, ids, quizId, user, now).locks <==> r in s.locks && r.attemptId !in ids
  {
    if ids != [] {
      var front := ids[..|ids| - 1];
      UnlockAllLocks(s, front, quizId, user, now);
      assert ids == front + [ids[|ids| - 1]];
    }
  }

  /** Bulk unlock touches neither the settings nor the events. */
  lemma {:induction false} UnlockAllFrame(s: Db, ids: seq<int>, quizId: int, user: int, now: int)
    ensures UnlockAll(s, ids, quizId, user, now).settings == s.settings
    ensures UnlockAll(s, ids, quizId, user, now).events == s.events
  {
    if ids != [] {
      UnlockAllFrame(s, ids[..|ids| - 1], quizId, user, now);
    }
  }

  /**
    A non-zero `unlock` id with a confirmed session key releases that attempt,
    logs it once and redirects, whatever the posted form holds.
   */
  lemma SingleUnlock(s: Db, req: ActionRequest, quizId: int, user: int, now: int)
    requires req.unlock != 0 && req.sesskeyOk
    ensures var (t, outcome) := HandleActionsSpec(s, req, quizId, user, now);
            outcome == Redirected
            && FindLock(t.locks, req.unlock).None?
            && (forall r :: r in t.locks <==> r in s.locks && r.attemptId != req.unlock)
            && t.log == s.log + [LogRow(quizId, req.unlock, user, now)]
  {
    UnlockReleases(s, req.unlock, quizId, user, now);
  }

  /**
    Unless one of the two guards holds (an unlock id with a confirmed session
    key, or a submitted `unlockselected` form with a confirmed session key),
    the request changes nothing and reports nothing.
   */
  lemma NoActionWithoutGuard(s: Db, req: ActionRequest, quizId: int, user: int, now: int)
    requires !(req.unlock != 0 && req.sesskeyOk)
    requires !(req.submitted && Php.Truthy(req.unlockSelected) && req.sesskeyOk)
    ensures HandleActionsSpec(s, req, quizId, user, now) == (s, Rendered(None))
  {
  }

  /** Without a confirmed session key neither handler changes anything. */
  lemma ActionsNeedSesskey(s: Db, req: ActionRequest, quizId: int, user: int, now: int)
    requires !req.sesskeyOk
    ensures HandleActionsSpec(s, req, quizId, user, now) == (s, Rendered(None))
  {
  }

  /** A submitted bulk form with no ids changes nothing and reports nothing. */
  lemma EmptyBulkChangesNothing(s: Db, req: ActionRequest, quizId: int, user: int, now: int)
    requires req.unlock == 0 && req.attemptIds == []
    ensures HandleActionsSpec(s, req, quizId, user, now) == (s, Rendered(None))
  {
  }

  /**
    A bulk unlock grows the log by exactly the number of submitted ids, which
    is also the count it reports, and leaves no lock of a submitted attempt.
   */
  lemma BulkUnlockReport(s: Db, req: ActionRequest, quizId: int, user: int, now: int)
    requires req.unlock == 0 && req.submitted && Php.Truthy(req.unlockSelected) && req.sesskeyOk
    requires req.attemptIds != []
    ensures var (t, outcome) := HandleActionsSpec(s, req, quizId, user, now);
            outcome == Rendered(Some(|req.attemptIds|))
            && |t.log| == |s.log| + |req.attemptIds| && t.log[..|s.log|] == s.log
            && forall r :: r in t.locks ==> r.attemptId !in req.attemptIds
  {
    UnlockAllLog(s, req.attemptIds, quizId, user, now);
    UnlockAllLocks(s, req.attemptIds, quizId, user, now);
  }

  /**
    A teacher's unlock lets the student continue from a new device: the next
    access binds the attempt to the new fingerprint and passes.
   */
  lemma UnlockThenRebind(s: Db, rule: Rule, a: int, attempt: AttemptInfo, env: Env, secret: Secret,
                         h: Hmac, user: int, now: int)
    requires !attempt.isPreview
    ensures var freed := Unlocked(s, a, rule.quizId, user, now);
            var step := PreflightCheckRequired(freed, rule, Some(a), attempt, env, Some(secret), h);
            step.result == Success(false)
            && FindLock(step.db.locks, a) == Some(LockRow(rule.quizId, a, SessionHashOf(secret, Fingerprint(env), h)))
  {
    var freed := Unlocked(s, a, rule.quizId, user, now);
    UnlockReleases(s, a, rule.quizId, user, now);
    FirstAccessBinds(freed, rule, a, attempt, env, secret, h);
  }
}
