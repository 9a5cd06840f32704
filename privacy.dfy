/**
  Privacy erasure over the unlock log (classes/privacy/provider.php). The log
  records which teacher released which attempt; erasure deletes log rows by
  quiz (for a module context) or by the teacher's user id. The host's course
  module lookup is a map from course module id to the module's record.
 */
module Privacy {

  import opened Wrappers
  import opened Tables

  /** Moodle's `CONTEXT_MODULE` level. */
  const ContextModule := 70

  datatype Context = Context(contextLevel: int, instanceId: int)

  /** What `get_coursemodule_from_id(null, id)` returns: the module's type name and its instance id. */
  datatype CourseModule = CourseModule(modName: string, instance: int)

  /** `delete_data_for_all_users_in_context` as a function of the store before the call. */
  function DeleteForContextSpec(s: Db, context: Context, modules: map<int, CourseModule>): Db
  {
    if context.contextLevel != ContextModule then s
    else if context.instanceId !in modules || modules[context.instanceId].modName != "quiz" then s
    else s.(log := Filter(s.log, (r: LogRow) => r.quizId != modules[context.instanceId].instance))
  }

  /** `delete_data_for_all_users_in_context`: delete the quiz's log rows, after two guards. */
  method DeleteDataForAllUsersInContext(db: Database, context: Context, modules: map<int, CourseModule>)
    requires db.Valid()
    modifies db
    ensures db.Valid()
    ensures db.State() == DeleteForContextSpec(old(db.State()), context, modules)
  {
    if context.contextLevel != ContextModule {
      return;
    }
    if context.instanceId !in modules || modules[context.instanceId].modName != "quiz" {
      return;
    }
    var quizId := modules[context.instanceId].instance;
    db.log := Filter(db.log, (r: LogRow) => r.quizId != quizId);
  }

  /** `delete_data_for_user` as a function of the store: the log without the listed users' rows. */
  function DeleteForUsersSpec(s: Db, userIds: seq<int>): Db
  {
    s.(log := Filter(s.log, (r: LogRow) => r.unlockedBy !in userIds))
  }

  /** `delete_data_for_user`: one deletion per listed user id, in order. */
  method DeleteDataForUser(db: Database, userIds: seq<int>)
    requires db.Valid()
    modifies db
    ensures db.Valid()
    ensures db.State() == DeleteForUsersSpec(old(db.State()), userIds)
  {
    ghost var log0 := db.log;
    FilterKeepsAll(log0, (r: LogRow) => r.unlockedBy !in userIds[..0]);
    var i := 0;
    while i < |userIds|
      invariant 0 <= i <= |userIds|
      invariant db.Valid()
      invariant db.State() == old(db.State()).(log := Filter(log0, (r: LogRow) => r.unlockedBy !in userIds[..i]))
    {
      var userId := userIds[i];
      assert userIds[..i + 1] == userIds[..i] + [userId];
      FilterFilter(log0, (r: LogRow) => r.unlockedBy !in userIds[..i], (r: LogRow) => r.unlockedBy != userId,
                   (r: LogRow) => r.unlockedBy !in userIds[..i + 1]);
      db.log := Filter(db.log, (r: LogRow) => r.unlockedBy != userId);
      i := i + 1;
    }
    assert userIds[..|userIds|] == userIds;
  }

  /** `export_user_data`: the log is not exported, and nothing changes. */
  method ExportUserData(db: Database, contextIds: seq<int>)
    ensures db.State() == old(db.State())
  {
  }

  /** Outside a module context, or for a missing or non-quiz module, nothing is deleted. */
  lemma ContextGuards(s: Db, context: Context, modules: map<int, CourseModule>)
    requires context.contextLevel != ContextModule || context.instanceId !in modules
             || modules[context.instanceId].modName != "quiz"
    ensures DeleteForContextSpec(s, context, modules) == s
  {
  }

  /** For a quiz's module context, every copy of that quiz's log rows goes, every other row keeps its count, and nothing else changes. */
  lemma DeleteForContextExact(s: Db, context: Context, modules: map<int, CourseModule>)
    requires context.contextLevel == ContextModule && context.instanceId in modules
    requires modules[context.instanceId].modName == "quiz"
    ensures var t := DeleteForContextSpec(s, context, modules);
            var quizId := modules[context.instanceId].instance;
            (forall r :: multiset(t.log)[r] == if r.quizId == quizId then 0 else multiset(s.log)[r])
            && t.settings == s.settings && t.locks == s.locks && t.events == s.events
  {
    var quizId := modules[context.instanceId].instance;
    forall x: LogRow {
      FilterCount(s.log, (r: LogRow) => r.quizId != quizId, x);
    }
  }

  /** Erasure by user removes every copy of the listed users' log rows, keeps every other row with its count, and touches no other table. */
  lemma DeleteForUsersExact(s: Db, userIds: seq<int>)
    ensures var t := DeleteForUsersSpec(s, userIds);
            (forall r :: multiset(t.log)[r] == if r.unlockedBy in userIds then 0 else multiset(s.log)[r])
            && t.settings == s.settings && t.locks == s.locks && t.events == s.events
  {
    forall x: LogRow {
      FilterCount(s.log, (r: LogRow) => r.unlockedBy !in userIds, x);
    }
  }

  /** An empty user list changes nothing. */
  lemma DeleteForNoUsers(s: Db)
    ensures DeleteForUsersSpec(s, []) == s
  {
    FilterKeepsAll(s.log, (r: LogRow) => r.unlockedBy !in []);
  }

  /** Erasure keeps the order of the rows that remain: deleting user by user equals deleting all at once. */
  lemma {:induction false} DeleteForUsersStepwise(s: Db, userIds: seq<int>, userId: int)
    ensures DeleteForUsersSpec(DeleteForUsersSpec(s, userIds), [userId]) == DeleteForUsersSpec(s, userIds + [userId])
  {
    FilterFilter(s.log, (r: LogRow) => r.unlockedBy !in userIds, (r: LogRow) => r.unlockedBy !in [userId],
                 (r: LogRow) => r.unlockedBy !in userIds + [userId]);
  }
}
