// The task catalog and its validation, with the depth-first search for dependency cycles.
module Catalog {
  import opened Sequences
  import opened Digraph
  import C = Checklist

  type Option<T> = C.Option<T>

  datatype TaskDef = TaskDef(
    taskRef: string,
    aliases: seq<string>,
    makeTarget: string,
    dependsOn: seq<string>,
    conflictsWith: seq<string>,
    supportedProfiles: seq<string>,
    destructivePosture: string,
    typedConfirmation: Option<string>,
    preconditions: seq<string>,
    requiredParams: seq<string>,
    defaultParams: set<string>,
    commands: seq<string>)

  datatype Profile = Profile(
    profileRef: string,
    environmentRef: string,
    runtimeProfileRef: Option<string>,
    scopeClassRef: Option<string>,
    destructiveAllowed: bool)

  datatype CardBinding = CardBinding(cardId: string, executionRefs: seq<string>, verificationRefs: seq<string>)

  datatype TaskCatalog = TaskCatalog(tasks: seq<TaskDef>, profiles: seq<Profile>, bindings: seq<CardBinding>)

  datatype CatalogError =
    | TaskRefCollision
    | ProfileRefCollision
    | AliasCollision(alias: string, first: string, second: string)
    | DependencyUnknown(taskRef: string, dependency: string)
    | ConflictUnknown(taskRef: string, conflict: string)
    | TaskProfileUnknown(taskRef: string, profile: string)
    | DependencyCycle(path: seq<string>)
    | CardTaskUnknown(cardId: string, taskRef: string)
    | TaskRefRequired
    | TaskRefUnknown(requested: string)
    | CombinationConflict(taskRef: string, conflict: string)

  datatype Result<+T, +E> = Ok(value: T) | Err(error: E)

  datatype Summary = Summary(taskCount: nat, profileCount: nat, aliasCount: nat, cardBindingCount: nat)

  function Refs(tasks: seq<TaskDef>): seq<string> {
    seq(|tasks|, i requires 0 <= i < |tasks| => tasks[i].taskRef)
  }

  function ProfileRefs(profiles: seq<Profile>): seq<string> {
    seq(|profiles|, i requires 0 <= i < |profiles| => profiles[i].profileRef)
  }

  // `{task["taskRef"]: task for task in tasks}`: the last task with a ref wins.
  function TasksByRef(tasks: seq<TaskDef>): (m: map<string, TaskDef>)
    ensures m.Keys == Elements(Refs(tasks))
    ensures forall r :: r in m ==> m[r] in tasks && m[r].taskRef == r
  {
    if tasks == [] then map[]
    else
      var n := |tasks| - 1;
      assert Refs(tasks) == Refs(tasks[..n]) + [tasks[n].taskRef];
      assert Elements(Refs(tasks)) == Elements(Refs(tasks[..n])) + {tasks[n].taskRef};
      TasksByRef(tasks[..n])[tasks[n].taskRef := tasks[n]]
  }

  // With unique refs every task is found under its own ref.
  lemma {:induction false} TasksByRefExact(tasks: seq<TaskDef>, i: nat)
    requires NoDup(Refs(tasks)) && i < |tasks|
    ensures tasks[i].taskRef in TasksByRef(tasks) && TasksByRef(tasks)[tasks[i].taskRef] == tasks[i]
  {
    var n := |tasks| - 1;
    if i < n {
      assert Refs(tasks[..n]) == Refs(tasks)[..n];
      TasksByRefExact(tasks[..n], i);
      assert Refs(tasks)[i] != Refs(tasks)[n];
    }
  }

  // ---- Aliases ----

  function Names(task: TaskDef): seq<string> {
    [task.taskRef] + task.aliases + [task.makeTarget]
  }

  // What a task goes by.
  ghost predicate GoesBy(task: TaskDef, name: string) {
    name == task.taskRef || name in task.aliases || name == task.makeTarget
  }

  lemma NamesAreExact(task: TaskDef, name: string)
    ensures name in Names(task) <==> GoesBy(task, name)
    ensures Names(task)[0] == task.taskRef && Names(task)[|Names(task)| - 1] == task.makeTarget
    ensures Names(task)[1..|Names(task)| - 1] == task.aliases
  {
  }

  ghost predicate AliasesConsistent(tasks: seq<TaskDef>) {
    forall s, t, a :: s in tasks && t in tasks && a in Names(s) && a in Names(t) ==> s.taskRef == t.taskRef
  }

  // The map holds exactly the names of these tasks, each under its task's ref.
  ghost predicate AliasMapOf(tasks: seq<TaskDef>, aliases: map<string, string>) {
    NamesMapped(tasks, aliases) && NothingElseMapped(tasks, aliases)
  }

  ghost predicate NamesMapped(tasks: seq<TaskDef>, aliases: map<string, string>) {
    forall t, a :: t in tasks && a in Names(t) ==> a in aliases && aliases[a] == t.taskRef
  }

  ghost predicate NothingElseMapped(tasks: seq<TaskDef>, aliases: map<string, string>) {
    forall a :: a in aliases ==> exists t :: t in tasks && a in Names(t)
  }

  // Some task already goes by this name, under the ref first.
  ghost predicate NameTaken(tasks: seq<TaskDef>, name: string, first: string) {
    exists t :: t in tasks && name in Names(t) && t.taskRef == first
  }

  // names[k] is the first of the names that the map gives to another task.
  ghost predicate FirstTaken(names: seq<string>, k: nat, aliases: map<string, string>, ref: string) {
    && k < |names| && names[k] in aliases && aliases[names[k]] != ref
    && forall m :: 0 <= m < k && names[m] in aliases ==> aliases[names[m]] == ref
  }

  ghost predicate ReportsTaken(names: seq<string>, aliases: map<string, string>, ref: string, error: CatalogError) {
    exists k: nat :: FirstTaken(names, k, aliases, ref) && error == AliasCollision(names[k], aliases[names[k]], ref)
  }

  // The tasks before i agree on their names, and the k-th name of task i is the first that one of
  // them has taken.
  ghost predicate CollisionAt(tasks: seq<TaskDef>, i: nat, k: nat, error: CatalogError) {
    && error.AliasCollision? && i < |tasks| && k < |Names(tasks[i])|
    && error.alias == Names(tasks[i])[k] && error.second == tasks[i].taskRef && error.first != error.second
    && AliasesConsistent(tasks[..i]) && NameTaken(tasks[..i], error.alias, error.first)
    && forall m, ref :: 0 <= m < k && NameTaken(tasks[..i], Names(tasks[i])[m], ref) ==> ref == tasks[i].taskRef
  }

  ghost predicate FirstCollision(tasks: seq<TaskDef>, error: CatalogError) {
    exists i: nat, k: nat :: CollisionAt(tasks, i, k, error)
  }

  lemma TakenIsMapped(tasks: seq<TaskDef>, aliases: map<string, string>, name: string, ref: string)
    requires AliasMapOf(tasks, aliases)
    ensures NameTaken(tasks, name, ref) <==> name in aliases && aliases[name] == ref
  {
  }

  ghost predicate NamesFree(aliases: map<string, string>, task: TaskDef) {
    forall a :: a in Names(task) && a in aliases ==> aliases[a] == task.taskRef
  }

  ghost predicate NamesAdded(aliases: map<string, string>, task: TaskDef, more: map<string, string>) {
    && (forall a :: a in more <==> a in aliases || a in Names(task))
    && (forall a :: a in aliases ==> more[a] == aliases[a])
    && (forall a :: a in Names(task) ==> more[a] == task.taskRef)
  }

  method AddNames(aliases: map<string, string>, task: TaskDef) returns (result: Result<map<string, string>, CatalogError>)
    ensures result.Ok? <==> NamesFree(aliases, task)
    ensures result.Ok? ==> NamesAdded(aliases, task, result.value)
    ensures result.Err? ==> ReportsTaken(Names(task), aliases, task.taskRef, result.error)
  {
    var names, m := Names(task), aliases;
    for i := 0 to |names|
      invariant forall a :: a in m <==> a in aliases || a in names[..i]
      invariant forall a :: a in aliases ==> m[a] == aliases[a]
      invariant forall a :: a in names[..i] ==> m[a] == task.taskRef
    {
      var alias := names[i];
      assert alias in names;
      if alias in m && m[alias] != task.taskRef {
        assert forall k :: 0 <= k < i ==> names[k] in names[..i];
        assert FirstTaken(names, i, aliases, task.taskRef);
        return Err(AliasCollision(alias, m[alias], task.taskRef));
      }
      assert names[..i + 1] == names[..i] + [alias];
      m := m[alias := task.taskRef];
    }
    assert names[..|names|] == names;
    result := Ok(m);
  }

  method BuildAliasMap(tasks: seq<TaskDef>) returns (result: Result<map<string, string>, CatalogError>)
    ensures result.Ok? <==> AliasesConsistent(tasks)
    ensures result.Ok? ==> AliasMapOf(tasks, result.value)
    ensures result.Err? ==> FirstCollision(tasks, result.error)
  {
    var aliases: map<string, string> := map[];
    for i := 0 to |tasks|
      invariant AliasesConsistent(tasks[..i]) && AliasMapOf(tasks[..i], aliases)
    {
      var added := AddNames(aliases, tasks[i]);
      AliasStep(tasks, i, aliases);
      if added.Err? {
        CollisionFound(tasks, i, aliases, added.error);
        return Err(added.error);
      }
      AliasMapStep(tasks, i, aliases, added.value);
      aliases := added.value;
    }
    assert tasks[..|tasks|] == tasks;
    result := Ok(aliases);
  }

  lemma TakenAt(tasks: seq<TaskDef>, i: nat, aliases: map<string, string>, error: CatalogError)
    requires i < |tasks| && AliasesConsistent(tasks[..i]) && AliasMapOf(tasks[..i], aliases)
    requires ReportsTaken(Names(tasks[i]), aliases, tasks[i].taskRef, error)
    ensures FirstCollision(tasks, error)
  {
    var names := Names(tasks[i]);
    var k: nat :| FirstTaken(names, k, aliases, tasks[i].taskRef)
                  && error == AliasCollision(names[k], aliases[names[k]], tasks[i].taskRef);
    TakenIsMapped(tasks[..i], aliases, names[k], aliases[names[k]]);
    forall m, ref | 0 <= m < k && NameTaken(tasks[..i], names[m], ref) ensures ref == tasks[i].taskRef {
      TakenIsMapped(tasks[..i], aliases, names[m], ref);
    }
    assert CollisionAt(tasks, i, k, error);
  }

  lemma CollisionFound(tasks: seq<TaskDef>, i: nat, aliases: map<string, string>, error: CatalogError)
    requires i < |tasks| && AliasesConsistent(tasks[..i]) && AliasMapOf(tasks[..i], aliases) && !NamesFree(aliases, tasks[i])
    requires ReportsTaken(Names(tasks[i]), aliases, tasks[i].taskRef, error)
    ensures !AliasesConsistent(tasks) && FirstCollision(tasks, error)
  {
    AliasStep(tasks, i, aliases);
    AliasConsistentPrefix(tasks, i + 1);
    TakenAt(tasks, i, aliases, error);
  }

  lemma AliasConsistentPrefix(tasks: seq<TaskDef>, n: nat)
    requires n <= |tasks|
    ensures AliasesConsistent(tasks) ==> AliasesConsistent(tasks[..n])
  {
    assert forall t :: t in tasks[..n] ==> t in tasks;
  }

  lemma AliasStep(tasks: seq<TaskDef>, i: nat, aliases: map<string, string>)
    requires i < |tasks| && AliasesConsistent(tasks[..i]) && AliasMapOf(tasks[..i], aliases)
    ensures AliasesConsistent(tasks[..i + 1]) <==> NamesFree(aliases, tasks[i])
  {
    var task := tasks[i];
    assert tasks[..i + 1] == tasks[..i] + [task];
    if AliasesConsistent(tasks[..i + 1]) {
      forall a | a in Names(task) && a in aliases ensures aliases[a] == task.taskRef {
        var t :| t in tasks[..i] && a in Names(t);
        assert t in tasks[..i + 1] && task in tasks[..i + 1];
      }
    }
  }

  lemma NamesMappedStep(tasks: seq<TaskDef>, i: nat, aliases: map<string, string>, more: map<string, string>)
    requires i < |tasks| && NamesMapped(tasks[..i], aliases)
    requires forall a :: a in aliases ==> a in more && more[a] == aliases[a]
    requires forall a :: a in Names(tasks[i]) ==> a in more && more[a] == tasks[i].taskRef
    ensures NamesMapped(tasks[..i + 1], more)
  {
    assert tasks[..i + 1] == tasks[..i] + [tasks[i]];
  }

  lemma NothingElseMappedStep(tasks: seq<TaskDef>, i: nat, aliases: map<string, string>, more: map<string, string>)
    requires i < |tasks| && NothingElseMapped(tasks[..i], aliases)
    requires forall a :: a in more ==> a in aliases || a in Names(tasks[i])
    ensures NothingElseMapped(tasks[..i + 1], more)
  {
    var longer := tasks[..i + 1];
    assert longer == tasks[..i] + [tasks[i]];
    forall a | a in more ensures exists t :: t in longer && a in Names(t) {
      if a in aliases {
        var t :| t in tasks[..i] && a in Names(t);
        assert t in longer;
      } else {
        assert tasks[i] in longer;
      }
    }
  }

  lemma AliasMapStep(tasks: seq<TaskDef>, i: nat, aliases: map<string, string>, more: map<string, string>)
    requires i < |tasks| && AliasMapOf(tasks[..i], aliases) && NamesAdded(aliases, tasks[i], more)
    ensures AliasMapOf(tasks[..i + 1], more)
  {
    NamesMappedStep(tasks, i, aliases, more);
    NothingElseMappedStep(tasks, i, aliases, more);
  }

  // ---- References ----

  ghost predicate TaskReferencesKnown(task: TaskDef, refs: set<string>, profiles: set<string>) {
    && (forall d :: d in task.dependsOn ==> d in refs)
    && (forall c :: c in task.conflictsWith ==> c in refs)
    && (forall p :: p in task.supportedProfiles ==> p in profiles)
  }

  // The first name of list that is missing from known.
  method FirstMissing(list: seq<string>, known: set<string>) returns (missing: Option<string>)
    ensures missing.None? <==> forall x :: x in list ==> x in known
    ensures missing.Some? ==> IsFirstMissing(list, known, missing.value)
  {
    for i := 0 to |list|
      invariant forall m :: 0 <= m < i ==> list[m] in known
    {
      if list[i] !in known {
        return C.Some(list[i]);
      }
    }
    missing := C.None;
  }

  // The error of a task with an unknown reference: its first unknown dependency, else its first
  // unknown conflict, else its first unknown profile.
  ghost predicate ReferenceError(task: TaskDef, refs: set<string>, profiles: set<string>, error: CatalogError) {
    match error
    case DependencyUnknown(t, d) => t == task.taskRef && IsFirstMissing(task.dependsOn, refs, d)
    case ConflictUnknown(t, c) =>
      t == task.taskRef && Elements(task.dependsOn) <= refs && IsFirstMissing(task.conflictsWith, refs, c)
    case TaskProfileUnknown(t, p) =>
      && t == task.taskRef && Elements(task.dependsOn) <= refs && Elements(task.conflictsWith) <= refs
      && IsFirstMissing(task.supportedProfiles, profiles, p)
    case _ => false
  }

  // The error of the first task that has one.
  ghost predicate FirstReferenceError(tasks: seq<TaskDef>, refs: set<string>, profiles: set<string>, error: CatalogError) {
    exists i :: 0 <= i < |tasks| && ReferenceError(tasks[i], refs, profiles, error)
      && forall m :: 0 <= m < i ==> TaskReferencesKnown(tasks[m], refs, profiles)
  }

  lemma MissingIsOutside(list: seq<string>, known: set<string>, x: string)
    requires IsFirstMissing(list, known, x)
    ensures !(Elements(list) <= known)
  {
    assert x in Elements(list);
  }

  lemma ReferenceErrorKind(task: TaskDef, refs: set<string>, profiles: set<string>, error: CatalogError)
    requires ReferenceError(task, refs, profiles, error)
    ensures !TaskReferencesKnown(task, refs, profiles)
    ensures error.DependencyUnknown? <==> !(Elements(task.dependsOn) <= refs)
    ensures error.ConflictUnknown? <==> Elements(task.dependsOn) <= refs && !(Elements(task.conflictsWith) <= refs)
    ensures error.TaskProfileUnknown? <==> Elements(task.dependsOn) <= refs && Elements(task.conflictsWith) <= refs
  {
    match error
    case DependencyUnknown(_, d) => MissingIsOutside(task.dependsOn, refs, d);
    case ConflictUnknown(_, c) => MissingIsOutside(task.conflictsWith, refs, c);
    case TaskProfileUnknown(_, p) => MissingIsOutside(task.supportedProfiles, profiles, p);
  }

  lemma ReferenceErrorUnique(task: TaskDef, refs: set<string>, profiles: set<string>, a: CatalogError, b: CatalogError)
    requires ReferenceError(task, refs, profiles, a) && ReferenceError(task, refs, profiles, b)
    ensures a == b
  {
    ReferenceErrorKind(task, refs, profiles, a);
    ReferenceErrorKind(task, refs, profiles, b);
    match a
    case DependencyUnknown(_, d) => FirstMissingUnique(task.dependsOn, refs, d, b.dependency);
    case ConflictUnknown(_, c) => FirstMissingUnique(task.conflictsWith, refs, c, b.conflict);
    case TaskProfileUnknown(_, p) => FirstMissingUnique(task.supportedProfiles, profiles, p, b.profile);
  }

  // So the kind of error and the names in it are decided by the catalog.
  lemma FirstReferenceErrorUnique(tasks: seq<TaskDef>, refs: set<string>, profiles: set<string>, a: CatalogError, b: CatalogError)
    requires FirstReferenceError(tasks, refs, profiles, a) && FirstReferenceError(tasks, refs, profiles, b)
    ensures a == b
  {
    var i :| 0 <= i < |tasks| && ReferenceError(tasks[i], refs, profiles, a)
             && forall m :: 0 <= m < i ==> TaskReferencesKnown(tasks[m], refs, profiles);
    var j :| 0 <= j < |tasks| && ReferenceError(tasks[j], refs, profiles, b)
             && forall m :: 0 <= m < j ==> TaskReferencesKnown(tasks[m], refs, profiles);
    ReferenceErrorKind(tasks[i], refs, profiles, a);
    ReferenceErrorKind(tasks[j], refs, profiles, b);
    assert i == j;
    ReferenceErrorUnique(tasks[i], refs, profiles, a, b);
  }

  method CheckReferences(task: TaskDef, refs: set<string>, profiles: set<string>) returns (error: Option<CatalogError>)
    ensures error.None? <==> TaskReferencesKnown(task, refs, profiles)
    ensures error.Some? ==> ReferenceError(task, refs, profiles, error.value)
  {
    var missing := FirstMissing(task.dependsOn, refs);
    if missing.Some? {
      return C.Some(DependencyUnknown(task.taskRef, missing.value));
    }
    missing := FirstMissing(task.conflictsWith, refs);
    if missing.Some? {
      return C.Some(ConflictUnknown(task.taskRef, missing.value));
    }
    missing := FirstMissing(task.supportedProfiles, profiles);
    if missing.Some? {
      return C.Some(TaskProfileUnknown(task.taskRef, missing.value));
    }
    error := C.None;
  }
}
