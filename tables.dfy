/**
  The rule's persistent state: the per-quiz settings table, the lock table
  (one row per attempt holding the signed session fingerprint), the append-only
  unlock log, and the stream of `attempt_blocked` events the rule triggers.
  Each table is a sequence of rows in insertion order; `delete_records` keeps
  the rows that do not match, in order.
 */
module Tables {

  import opened Wrappers

  /** A row of the settings table: whether the rule is on for one quiz. */
  datatype SettingsRow = SettingsRow(quizId: int, enabled: int)

  /** A row of the lock table: the signed fingerprint an attempt is bound to. */
  datatype LockRow = LockRow(quizId: int, attemptId: int, sessionHash: string)

  /** A row of the unlock log: who released which attempt's lock, and when. */
  datatype LogRow = LogRow(quizId: int, attemptId: int, unlockedBy: int, timeUnlocked: int)

  /** The data an `attempt_blocked` event carries. */
  datatype BlockedEvent = AttemptBlocked(attemptId: int, relatedUserId: int, courseId: int, quizId: int)

  function AttemptOf(r: LockRow): int { r.attemptId }

  function QuizOf(r: SettingsRow): int { r.quizId }

  /** No two rows of `s` share a key: the unique keys of the schema. */
  ghost predicate UniqueBy<T(!new), K>(s: seq<T>, key: T -> K)
  {
    forall i, j :: 0 <= i < j < |s| ==> key(s[i]) != key(s[j])
  }

  /** The whole store. The lock table is keyed on attemptid, the settings table on quizid. */
  datatype Db = Db(settings: seq<SettingsRow>, locks: seq<LockRow>, log: seq<LogRow>, events: seq<BlockedEvent>)
  {
    ghost predicate Valid()
    {
      UniqueBy(locks, AttemptOf) && UniqueBy(settings, QuizOf)
    }
  }

  /** `delete_records`: the rows that `keep` accepts, in their original order. */
  function Filter<T(!new)>(s: seq<T>, keep: T -> bool): (r: seq<T>)
    ensures |r| <= |s|
    ensures forall x :: x in r <==> x in s && keep(x)
  {
    if s == [] then []
    else if keep(s[0]) then [s[0]] + Filter(s[1..], keep)
    else Filter(s[1..], keep)
  }

  /**
    Filtering counts copies: a row `keep` accepts keeps every copy it had,
    any other row loses all of them. Rows carry no key of their own, so equal
    rows are told apart only by this count.
   */
  lemma {:induction false} FilterCount<T(!new)>(s: seq<T>, keep: T -> bool, x: T)
    ensures multiset(Filter(s, keep))[x] == if keep(x) then multiset(s)[x] else 0
  {
    if s != [] {
      FilterCount(s[1..], keep, x);
      assert s == [s[0]] + s[1..];
    }
  }

  /** `get_record`: the first row that matches, if any. */
  function First<T(!new)>(s: seq<T>, matches: T -> bool): (r: Option<T>)
    ensures r.None? <==> forall x :: x in s ==> !matches(x)
    ensures r.Some? ==> r.value in s && matches(r.value)
  {
    if s == [] then None
    else if matches(s[0]) then Some(s[0])
    else First(s[1..], matches)
  }

  function FindLock(locks: seq<LockRow>, attemptId: int): Option<LockRow>
  {
    First(locks, (r: LockRow) => r.attemptId == attemptId)
  }

  function FindSettings(settings: seq<SettingsRow>, quizId: int): Option<SettingsRow>
  {
    First(settings, (r: SettingsRow) => r.quizId == quizId)
  }

  /** `delete_records(sess, ['attemptid' => a])`. */
  function LocksWithoutAttempt(locks: seq<LockRow>, attemptId: int): seq<LockRow>
  {
    Filter(locks, (r: LockRow) => r.attemptId != attemptId)
  }

  /** `delete_records(sess, ['quizid' => q])`. */
  function LocksWithoutQuiz(locks: seq<LockRow>, quizId: int): seq<LockRow>
  {
    Filter(locks, (r: LockRow) => r.quizId != quizId)
  }

  /** `set_field(settings, 'enabled', e, ...)` on the row of quiz `quizId`. */
  function SetEnabled(settings: seq<SettingsRow>, quizId: int, enabled: int): (r: seq<SettingsRow>)
    ensures |r| == |settings|
    ensures forall i :: 0 <= i < |r| ==> r[i].quizId == settings[i].quizId
    ensures forall i :: 0 <= i < |r| && settings[i].quizId == quizId ==> r[i].enabled == enabled
    ensures forall i :: 0 <= i < |r| && settings[i].quizId != quizId ==> r[i] == settings[i]
  {
    seq(|settings|, i requires 0 <= i < |settings| =>
      if settings[i].quizId == quizId then settings[i].(enabled := enabled) else settings[i])
  }

  lemma {:induction false} FilterKeepsAll<T(!new)>(s: seq<T>, keep: T -> bool)
    requires forall x :: x in s ==> keep(x)
    ensures Filter(s, keep) == s
  {
    if s != [] {
      FilterKeepsAll(s[1..], keep);
    }
  }

  /** Deleting twice by the same condition is deleting once. */
  lemma FilterIdempotent<T(!new)>(s: seq<T>, keep: T -> bool)
    ensures Filter(Filter(s, keep), keep) == Filter(s, keep)
  {
    FilterKeepsAll(Filter(s, keep), keep);
  }

  /** Two deletions in a row are one deletion by the conjunction of what each keeps. */
  lemma {:induction false} FilterFilter<T(!new)>(s: seq<T>, f: T -> bool, g: T -> bool, both: T -> bool)
    requires forall x :: both(x) == (f(x) && g(x))
    ensures Filter(Filter(s, f), g) == Filter(s, both)
  {
    if s != [] {
      FilterFilter(s[1..], f, g, both);
      if f(s[0]) {
        assert Filter(s, f) == [s[0]] + Filter(s[1..], f);
        assert Filter(s, f)[1..] == Filter(s[1..], f);
      }
    }
  }

  /** A deletion never breaks a unique key. */
  lemma {:induction false} FilterUnique<T(!new), K>(s: seq<T>, keep: T -> bool, key: T -> K)
    requires UniqueBy(s, key)
    ensures UniqueBy(Filter(s, keep), key)
  {
    if s != [] {
      var rest := Filter(s[1..], keep);
      assert UniqueBy(s[1..], key) by {
        forall i, j | 0 <= i < j < |s[1..]| ensures key(s[1..][i]) != key(s[1..][j]) {
          assert s[1..][i] == s[i + 1] && s[1..][j] == s[j + 1];
        }
      }
      FilterUnique(s[1..], keep, key);
      if keep(s[0]) {
        forall x | x in rest ensures key(x) != key(s[0]) {
          var j :| 0 <= j < |s[1..]| && s[1..][j] == x;
          assert s[j + 1] == x;
        }
        UniqueCons(s[0], rest, key);
      }
    }
  }

  lemma UniqueCons<T(!new), K>(x: T, s: seq<T>, key: T -> K)
    requires UniqueBy(s, key)
    requires forall y :: y in s ==> key(y) != key(x)
    ensures UniqueBy([x] + s, key)
  {
    var t := [x] + s;
    forall i, j | 0 <= i < j < |t| ensures key(t[i]) != key(t[j]) {
      assert t[j] == s[j - 1];
      if i > 0 {
        assert t[i] == s[i - 1];
      }
    }
  }

  /** An insertion keeps a unique key when no row has the new row's key yet. */
  lemma UniqueSnoc<T(!new), K>(s: seq<T>, x: T, key: T -> K)
    requires UniqueBy(s, key)
    requires forall y :: y in s ==> key(y) != key(x)
    ensures UniqueBy(s + [x], key)
  {
    var t := s + [x];
    forall i, j | 0 <= i < j < |t| ensures key(t[i]) != key(t[j]) {
      assert t[i] == s[i];
      if j < |s| {
        assert t[j] == s[j];
      } else {
        assert s[i] in s;
      }
    }
  }

  /** Under a unique key, `get_record` by that key finds the one row that has it. */
  lemma FindSettingsUnique(settings: seq<SettingsRow>, row: SettingsRow)
    requires UniqueBy(settings, QuizOf)
    requires row in settings
    ensures FindSettings(settings, row.quizId) == Some(row)
  {
    var r := FindSettings(settings, row.quizId);
    assert r.Some?;
    var i :| 0 <= i < |settings| && settings[i] == r.value;
    var j :| 0 <= j < |settings| && settings[j] == row;
    assert QuizOf(settings[i]) == QuizOf(settings[j]);
  }

  /** `get_record` after an insertion: an earlier match wins, otherwise the new row. */
  lemma {:induction false} FirstAppend<T(!new)>(s: seq<T>, x: T, matches: T -> bool)
    ensures First(s + [x], matches) == if First(s, matches).Some? then First(s, matches)
                                      else if matches(x) then Some(x) else None
  {
    if s != [] {
      assert (s + [x])[1..] == s[1..] + [x];
      FirstAppend(s[1..], x, matches);
    } else {
      assert s + [x] == [x];
    }
  }

  /** The database object whose tables the rule's code reads and writes in place. */
  class Database {
    var settings: seq<SettingsRow>
    var locks: seq<LockRow>
    var log: seq<LogRow>
    var events: seq<BlockedEvent>

    function State(): Db
      reads this
    {
      Db(settings, locks, log, events)
    }

    ghost predicate Valid()
      reads this
    {
      State().Valid()
    }

    constructor ()
      ensures State() == Db([], [], [], []) && Valid()
    {
      settings, locks, log, events := [], [], [], [];
    }
  }
}
