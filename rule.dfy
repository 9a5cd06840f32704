/**
  The access rule itself (rule.php): whether it applies to a quiz (`make`), the
  gate run before an attempt is opened (`is_preflight_check_required`), the
  re-check made when the preflight form is submitted (`is_attempt_blocked`,
  `validate_preflight_check`), and the per-quiz settings (`save_settings`,
  `delete_settings`).
 */
module AccessRule {

  import opened Wrappers
  import Php
  import opened Tables
  import opened SessionFingerprint
  import opened SessionHash

  /** A rule instance, made for one quiz. */
  datatype Rule = Rule(quizId: int)

  /** The quiz record as the host loads it: `enabled` is the joined settings column, null when there is no row. */
  datatype QuizRecord = QuizRecord(id: int, enabled: Option<int>)

  /** What `quiz_attempt::create($attemptid)` reports about the attempt. */
  datatype AttemptInfo = AttemptInfo(userId: int, courseId: int, quizId: int, isPreview: bool)

  /** The new state of the store and the call's outcome (a return value or a thrown exception). */
  datatype Step<T> = Step(db: Db, result: Result<T, Php.Exception>)

  /** The form field `validate_preflight_check` fills, and the language string it puts there. */
  const BlockedField := "oneconnectionblocked"
  const AnotherSession := "anothersession"

  /** `make`: a rule exactly when the quiz's `enabled` value is present and non-zero. */
  function Make(quiz: QuizRecord): (r: Option<Rule>)
    ensures r.Some? <==> quiz.enabled.Some? && quiz.enabled.value != 0
    ensures r.Some? ==> r.value == Rule(quiz.id)
  {
    if quiz.enabled.Some? && quiz.enabled.value != 0 then Some(Rule(quiz.id)) else None
  }

  /** The `enabled` column the host joins onto the quiz record (a LEFT JOIN on quizid). */
  function JoinedEnabled(settings: seq<SettingsRow>, quizId: int): Option<int>
  {
    match FindSettings(settings, quizId)
    case None => None
    case Some(row) => Some(row.enabled)
  }

  // ---------------------------------------------------------------------------
  // The attempt gate

  /** `is_preflight_check_required` as a function of the store before the call. */
  function PreflightCheckRequired(s: Db, rule: Rule, attemptId: Option<int>, attempt: AttemptInfo,
                                  env: Env, rng: Option<Secret>, h: Hmac): Step<bool>
  {
    if attemptId.None? || attempt.isPreview then Step(s, Success(false))
    else
      var a := attemptId.value;
      match FindLock(s.locks, a)
      case None =>
        (match GetSessionHash(Fingerprint(env), rng, h)
         case Failure(e) => Step(s, Failure(e))
         case Success(hash) => Step(s.(locks := s.locks + [LockRow(rule.quizId, a, hash)]), Success(false)))
      case Some(session) =>
        if ValidateSessionHash(session.sessionHash, Fingerprint(env), h) then Step(s, Success(false))
        else Step(s.(events := s.events + [AttemptBlocked(a, attempt.userId, attempt.courseId, attempt.quizId)]),
                  Success(true))
  }

  /**
    `is_preflight_check_required`: binds an unlocked attempt to the current
    fingerprint, passes a matching access, and reports a mismatching one after
    triggering `attempt_blocked`. A null attempt id and a preview pass untouched.
   */
  method IsPreflightCheckRequired(db: Database, rule: Rule, attemptId: Option<int>, attempt: AttemptInfo,
                                  env: Env, rng: Option<Secret>, h: Hmac)
    returns (r: Result<bool, Php.Exception>)
    requires db.Valid()
    modifies db
    ensures db.Valid()
    ensures Step(db.State(), r) == PreflightCheckRequired(old(db.State()), rule, attemptId, attempt, env, rng, h)
  {
    if attemptId.None? {
      return Success(false);
    }
    if attempt.isPreview {
      return Success(false);
    }
    var a := attemptId.value;
    var session := FindLock(db.locks, a);
    var sessionString := GetSessionString(env);
    if session.None? {
      var hash := GetSessionHash(sessionString, rng, h);
      if hash.Failure? {
        return Failure(hash.error);
      }
      GatePreservesValid(db.State(), rule, attemptId, attempt, env, rng, h);
      db.locks := db.locks + [LockRow(rule.quizId, a, hash.value)];
      return Success(false);
    }
    if ValidateSessionHash(session.value.sessionHash, sessionString, h) {
      return Success(false);
    }
    db.events := db.events + [AttemptBlocked(a, attempt.userId, attempt.courseId, attempt.quizId)];
    return Success(true);
  }

  /** `is_attempt_blocked`: never returns true; a mismatch is thrown as `anothersession`. */
  function IsAttemptBlocked(s: Db, attemptId: int, env: Env, h: Hmac): (r: Result<bool, Php.Exception>)
    ensures r != Success(true)
    ensures r.Failure? <==> attemptId != 0 && FindLock(s.locks, attemptId).Some?
                            && !ValidateSessionHash(FindLock(s.locks, attemptId).value.sessionHash, Fingerprint(env), h)
    ensures r.Failure? ==> r.error == Php.MoodleException(AnotherSession)
  {
    if attemptId == 0 then Success(false)
    else
      match FindLock(s.locks, attemptId)
      case None => Success(false)
      case Some(session) =>
        if ValidateSessionHash(session.sessionHash, Fingerprint(env), h) then Success(false)
        else Failure(Php.MoodleException(AnotherSession))
  }

  /**
    `validate_preflight_check`, the decision only: the errors come back
    unchanged, or the `anothersession` exception propagates.
   */
  function ValidatePreflightCheck(s: Db, errors: map<string, string>, attemptId: Option<int>, env: Env, h: Hmac)
    : (r: Result<map<string, string>, Php.Exception>)
    ensures r.Success? ==> r.value == errors
    ensures r.Failure? <==> attemptId.Some? && IsAttemptBlocked(s, attemptId.value, env, h).Failure?
    ensures r.Failure? ==> r.error == Php.MoodleException(AnotherSession)
  {
    if attemptId.None? || attemptId.value == 0 then Success(errors)
    else
      match IsAttemptBlocked(s, attemptId.value, env, h)
      case Failure(e) => Failure(e)
      case Success(blocked) => Success(if blocked then errors[BlockedField := AnotherSession] else errors)
  }

  /** A null attempt id or a preview returns false and leaves the store as it was. */
  lemma NullOrPreviewIsInert(s: Db, rule: Rule, attemptId: Option<int>, attempt: AttemptInfo,
                             env: Env, rng: Option<Secret>, h: Hmac)
    requires attemptId.None? || attempt.isPreview
    ensures PreflightCheckRequired(s, rule, attemptId, attempt, env, rng, h) == Step(s, Success(false))
  {
  }

  /** The gate keeps the lock table's unique key on attemptid: at most one lock per attempt. */
  lemma GatePreservesValid(s: Db, rule: Rule, attemptId: Option<int>, attempt: AttemptInfo,
                           env: Env, rng: Option<Secret>, h: Hmac)
    requires s.Valid()
    ensures PreflightCheckRequired(s, rule, attemptId, attempt, env, rng, h).db.Valid()
  {
    if attemptId.Some? && !attempt.isPreview && FindLock(s.locks, attemptId.value).None? {
      var hash := GetSessionHash(Fingerprint(env), rng, h);
      if hash.Success? {
        UniqueSnoc(s.locks, LockRow(rule.quizId, attemptId.value, hash.value), AttemptOf);
      }
    }
  }

  /**
    First access: exactly one lock row `{quizid, attemptid, sessionhash}` is
    inserted, it is the lock the attempt now has, and the result is false.
   */
  lemma FirstAccessBinds(s: Db, rule: Rule, a: int, attempt: AttemptInfo, env: Env, secret: Secret, h: Hmac)
    requires !attempt.isPreview
    requires FindLock(s.locks, a).None?
    ensures var row := LockRow(rule.quizId, a, SessionHashOf(secret, Fingerprint(env), h));
            var step := PreflightCheckRequired(s, rule, Some(a), attempt, env, Some(secret), h);
            step == Step(s.(locks := s.locks + [row]), Success(false))
            && FindLock(step.db.locks, a) == Some(row)
  {
    var row := LockRow(rule.quizId, a, SessionHashOf(secret, Fingerprint(env), h));
    FirstAppend(s.locks, row, (r: LockRow) => r.attemptId == a);
  }

  /** When the random source fails on first access, the exception propagates and nothing is inserted. */
  lemma FirstAccessRngFailure(s: Db, rule: Rule, a: int, attempt: AttemptInfo, env: Env, h: Hmac)
    requires !attempt.isPreview
    requires FindLock(s.locks, a).None?
    ensures var step := PreflightCheckRequired(s, rule, Some(a), attempt, env, None, h);
            step.db == s && step.result.Failure? && step.result.error.CodingException?
  {
  }

  /** A repeat access with the same fingerprint returns false and changes nothing. */
  lemma RepeatAccessPasses(s: Db, rule: Rule, a: int, attempt: AttemptInfo, env: Env, secret: Secret,
                           rng: Option<Secret>, h: Hmac)
    requires !attempt.isPreview
    requires FindLock(s.locks, a).None?
    ensures var first := PreflightCheckRequired(s, rule, Some(a), attempt, env, Some(secret), h);
            PreflightCheckRequired(first.db, rule, Some(a), attempt, env, rng, h) == Step(first.db, Success(false))
  {
    FirstAccessBinds(s, rule, a, attempt, env, secret, h);
    ValidateRoundTrip(secret, Fingerprint(env), h);
  }

  /** A lock that validates lets the access through and changes nothing. */
  lemma MatchPasses(s: Db, rule: Rule, a: int, attempt: AttemptInfo, env: Env, rng: Option<Secret>, h: Hmac)
    requires !attempt.isPreview
    requires FindLock(s.locks, a).Some?
    requires ValidateSessionHash(FindLock(s.locks, a).value.sessionHash, Fingerprint(env), h)
    ensures PreflightCheckRequired(s, rule, Some(a), attempt, env, rng, h) == Step(s, Success(false))
  {
  }

  /**
    Mismatch: exactly one `attempt_blocked` event is triggered, the result is
    true, and the lock table is unchanged.
   */
  lemma MismatchBlocks(s: Db, rule: Rule, a: int, attempt: AttemptInfo, env: Env, rng: Option<Secret>, h: Hmac)
    requires !attempt.isPreview
    requires FindLock(s.locks, a).Some?
    requires !ValidateSessionHash(FindLock(s.locks, a).value.sessionHash, Fingerprint(env), h)
    ensures var step := PreflightCheckRequired(s, rule, Some(a), attempt, env, rng, h);
            step.result == Success(true) && step.db.locks == s.locks && step.db.settings == s.settings
            && step.db.log == s.log
            && step.db.events == s.events + [AttemptBlocked(a, attempt.userId, attempt.courseId, attempt.quizId)]
  {
  }

  /**
    First access wins: once one fingerprint has bound the attempt, a request
    whose fingerprint has a different digest under the stored secret is
    blocked, with one event, and the binding stays.
   */
  lemma SecondDeviceBlocked(s: Db, rule: Rule, a: int, attempt: AttemptInfo, first: Env, second: Env,
                            secret: Secret, rng: Option<Secret>, h: Hmac)
    requires !attempt.isPreview
    requires FindLock(s.locks, a).None?
    requires h(secret, Fingerprint(second)) != h(secret, Fingerprint(first))
    ensures var bound := PreflightCheckRequired(s, rule, Some(a), attempt, first, Some(secret), h).db;
            var step := PreflightCheckRequired(bound, rule, Some(a), attempt, second, rng, h);
            step.result == Success(true) && step.db.locks == bound.locks
            && step.db.events == bound.events + [AttemptBlocked(a, attempt.userId, attempt.courseId, attempt.quizId)]
  {
    FirstAccessBinds(s, rule, a, attempt, first, secret, h);
    ValidateOtherFingerprint(secret, Fingerprint(first), Fingerprint(second), h);
  }

  /**
    The re-check on the preflight form agrees with the gate: on a locked,
    non-preview attempt `is_attempt_blocked` throws exactly when the gate
    returned true.
   */
  lemma BlockedAgreesWithGate(s: Db, rule: Rule, a: int, attempt: AttemptInfo, env: Env, rng: Option<Secret>, h: Hmac)
    requires !attempt.isPreview && a != 0
    requires FindLock(s.locks, a).Some?
    ensures IsAttemptBlocked(s, a, env, h).Failure?
        <==> PreflightCheckRequired(s, rule, Some(a), attempt, env, rng, h).result == Success(true)
  {
  }

  // ---------------------------------------------------------------------------
  // Settings

  /** The submitted quiz form: its id and the raw `oneconnectionenabled` field (null when unchecked). */
  datatype QuizForm = QuizForm(id: int, enabledField: Option<string>)

  /**
    What the host reports: whether the course module exists, whether its
    context exists, and whether the user may edit the setting there.
   */
  datatype EditPermission = EditPermission(cmFound: bool, contextFound: bool, canEdit: bool)

  /** The capability check applies only when both the course module and its context exist. */
  predicate EditDenied(p: EditPermission)
  {
    p.cmFound && p.contextFound && !p.canEdit
  }

  /** `!empty($quiz->oneconnectionenabled) ? 1 : 0`. */
  function EnabledValue(quiz: QuizForm): (e: int)
    ensures e == 0 || e == 1
    ensures e == 1 <==> Php.Truthy(quiz.enabledField)
  {
    if Php.Truthy(quiz.enabledField) then 1 else 0
  }

  /** `save_settings` as a function of the store before the call. */
  function SaveSettingsSpec(s: Db, quiz: QuizForm, p: EditPermission): Db
  {
    if EditDenied(p) then s
    else
      var enabled := EnabledValue(quiz);
      var settings :=
        match FindSettings(s.settings, quiz.id)
        case Some(existing) =>
          if existing.enabled != enabled then SetEnabled(s.settings, quiz.id, enabled) else s.settings
        case None => s.settings + [SettingsRow(quiz.id, enabled)];
      var locks := if enabled == 0 then LocksWithoutQuiz(s.locks, quiz.id) else s.locks;
      s.(settings := settings, locks := locks)
  }

  /** `save_settings`: upsert the quiz's flag, and purge the quiz's locks when the rule is off. */
  method SaveSettings(db: Database, quiz: QuizForm, p: EditPermission)
    requires db.Valid()
    modifies db
    ensures db.Valid()
    ensures db.State() == SaveSettingsSpec(old(db.State()), quiz, p)
  {
    SaveSettingsPreservesValid(db.State(), quiz, p);
    if EditDenied(p) {
      return;
    }
    var enabled := EnabledValue(quiz);
    var existing := FindSettings(db.settings, quiz.id);
    if existing.Some? {
      if existing.value.enabled != enabled {
        db.settings := SetEnabled(db.settings, quiz.id, enabled);
      }
    } else {
      db.settings := db.settings + [SettingsRow(quiz.id, enabled)];
    }
    if enabled == 0 {
      db.locks := LocksWithoutQuiz(db.locks, quiz.id);
    }
  }

  /** `delete_settings` as a function of the store before the call. */
  function DeleteSettingsSpec(s: Db, quizId: int): Db
  {
    s.(settings := Filter(s.settings, (r: SettingsRow) => r.quizId != quizId),
       locks := LocksWithoutQuiz(s.locks, quizId),
       log := Filter(s.log, (r: LogRow) => r.quizId != quizId))
  }

  /** `delete_settings`: remove the quiz's settings, lock and log rows. */
  method DeleteSettings(db: Database, quizId: int)
    requires db.Valid()
    modifies db
    ensures db.Valid()
    ensures db.State() == DeleteSettingsSpec(old(db.State()), quizId)
  {
    DeleteSettingsPreservesValid(db.State(), quizId);
    db.settings := Filter(db.settings, (r: SettingsRow) => r.quizId != quizId);
    db.locks := LocksWithoutQuiz(db.locks, quizId);
    db.log := Filter(db.log, (r: LogRow) => r.quizId != quizId);
  }

  lemma SetEnabledFacts(settings: seq<SettingsRow>, quizId: int, enabled: int, existing: SettingsRow)
    requires UniqueBy(settings, QuizOf)
    requires existing in settings && existing.quizId == quizId
    ensures UniqueBy(SetEnabled(settings, quizId, enabled), QuizOf)
    ensures SettingsRow(quizId, enabled) in SetEnabled(settings, quizId, enabled)
    ensures forall r: SettingsRow :: r.quizId != quizId ==> (r in SetEnabled(settings, quizId, enabled) <==> r in settings)
  {
    var t := SetEnabled(settings, quizId, enabled);
    assert forall i :: 0 <= i < |t| ==> QuizOf(t[i]) == QuizOf(settings[i]);
    var k :| 0 <= k < |settings| && settings[k] == existing;
    assert t[k] == SettingsRow(quizId, enabled);
    forall r: SettingsRow | r.quizId != quizId ensures r in t <==> r in settings {
      if r in t {
        var i :| 0 <= i < |t| && t[i] == r;
        assert settings[i] == r;
      }
      if r in settings {
        var i :| 0 <= i < |settings| && settings[i] == r;
        assert t[i] == r;
      }
    }
  }

  /** `save_settings` keeps both unique keys. */
  lemma SaveSettingsPreservesValid(s: Db, quiz: QuizForm, p: EditPermission)
    requires s.Valid()
    ensures SaveSettingsSpec(s, quiz, p).Valid()
  {
    if !EditDenied(p) {
      var e := EnabledValue(quiz);
      var found := FindSettings(s.settings, quiz.id);
      if found.Some? {
        SetEnabledFacts(s.settings, quiz.id, e, found.value);
      } else {
        UniqueSnoc(s.settings, SettingsRow(quiz.id, e), QuizOf);
      }
      FilterUnique(s.locks, (r: LockRow) => r.quizId != quiz.id, AttemptOf);
    }
  }

  /**
    After `save_settings` (when the user may edit) the quiz has exactly the
    row `{quizid, enabled}` with `enabled` in {0, 1}, and the rows of other
    quizzes are as they were.
   */
  lemma SaveSettingsStores(s: Db, quiz: QuizForm, p: EditPermission)
    requires s.Valid() && !EditDenied(p)
    ensures var t := SaveSettingsSpec(s, quiz, p);
            FindSettings(t.settings, quiz.id) == Some(SettingsRow(quiz.id, EnabledValue(quiz)))
            && (forall r: SettingsRow :: r.quizId != quiz.id ==> (r in t.settings <==> r in s.settings))
  {
    var e := EnabledValue(quiz);
    var t := SaveSettingsSpec(s, quiz, p);
    SaveSettingsPreservesValid(s, quiz, p);
    match FindSettings(s.settings, quiz.id)
    case Some(existing) =>
      if existing.enabled != e {
        SetEnabledFacts(s.settings, quiz.id, e, existing);
      } else {
        assert existing == SettingsRow(quiz.id, e);
      }
      FindSettingsUnique(t.settings, SettingsRow(quiz.id, e));
    case None =>
      FirstAppend(s.settings, SettingsRow(quiz.id, e), (r: SettingsRow) => r.quizId == quiz.id);
  }

  /** An unchanged flag leaves the settings table as it was. */
  lemma SaveSettingsSameFlag(s: Db, quiz: QuizForm, p: EditPermission)
    requires FindSettings(s.settings, quiz.id) == Some(SettingsRow(quiz.id, EnabledValue(quiz)))
    ensures SaveSettingsSpec(s, quiz, p).settings == s.settings
  {
  }

  /**
    Disabling the rule deletes every lock of that quiz and keeps every lock of
    the other quizzes; enabling it, or a refused edit, deletes none.
   */
  lemma SaveSettingsLocks(s: Db, quiz: QuizForm, p: EditPermission)
    ensures var t := SaveSettingsSpec(s, quiz, p);
            if !EditDenied(p) && EnabledValue(quiz) == 0
            then forall r :: r in t.locks <==> r in s.locks && r.quizId != quiz.id
            else t.locks == s.locks
  {
  }

  /**
    A refused edit does nothing at all, and no save touches the unlock log or
    the triggered events.
   */
  lemma SaveSettingsFrame(s: Db, quiz: QuizForm, p: EditPermission)
    ensures EditDenied(p) ==> SaveSettingsSpec(s, quiz, p) == s
    ensures SaveSettingsSpec(s, quiz, p).log == s.log && SaveSettingsSpec(s, quiz, p).events == s.events
  {
  }

  /** After `save_settings`, `make` builds a rule for the quiz exactly when the form's field was set. */
  lemma SaveThenMake(s: Db, quiz: QuizForm, p: EditPermission)
    requires s.Valid() && !EditDenied(p)
    ensures var t := SaveSettingsSpec(s, quiz, p);
            Make(QuizRecord(quiz.id, JoinedEnabled(t.settings, quiz.id)))
              == if Php.Truthy(quiz.enabledField) then Some(Rule(quiz.id)) else None
  {
    SaveSettingsStores(s, quiz, p);
  }

  /** `delete_settings` keeps both unique keys. */
  lemma DeleteSettingsPreservesValid(s: Db, quizId: int)
    requires s.Valid()
    ensures DeleteSettingsSpec(s, quizId).Valid()
  {
    FilterUnique(s.settings, (r: SettingsRow) => r.quizId != quizId, QuizOf);
    FilterUnique(s.locks, (r: LockRow) => r.quizId != quizId, AttemptOf);
  }

  /** `delete_settings` removes exactly the quiz's rows from all three tables. */
  lemma DeleteSettingsPurgesQuiz(s: Db, quizId: int)
    ensures var t := DeleteSettingsSpec(s, quizId);
            (forall r :: r in t.settings <==> r in s.settings && r.quizId != quizId)
            && (forall r :: r in t.locks <==> r in s.locks && r.quizId != quizId)
            && (forall r :: multiset(t.log)[r] == if r.quizId == quizId then 0 else multiset(s.log)[r])
            && t.events == s.events
  {
    forall x: LogRow {
      FilterCount(s.log, (r: LogRow) => r.quizId != quizId, x);
    }
  }
}
