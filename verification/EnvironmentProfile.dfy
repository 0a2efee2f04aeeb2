// Resolving a task's environment profile: the gate every task passes before it runs.
module EnvironmentProfile {
  import opened Sequences
  import C = Checklist
  import opened Catalog

  // The runtime contracts the resolver consults.
  datatype Tables = Tables(
    runtimeProfiles: map<string, string>,       // runtime profile -> environment
    bootstrapAllowed: set<string>,
    scopeRows: map<string, string>,             // scope class -> environment
    providerRows: seq<(string, string)>)        // (environment, provider environment)

  datatype ProfileError =
    | UnknownTaskRef
    | UnknownProfileRef
    | TaskProfileNotSupported
    | RuntimeProfileUnknown
    | RuntimeProfileNotBootstrappable
    | RuntimeProfileEnvironmentMismatch
    | ScopeClassUnknown
    | ScopeClassEnvironmentMismatch
    | UnsupportedProfileForDestructiveCommand
    | MissingTypedConfirmation
    | AckRequired
    | ProviderEnvironmentNotFound

  datatype Resolved = Resolved(taskRef: string, profileRef: string, environmentRef: string, providerEnvironmentRef: string)

  function ProfilesByRef(profiles: seq<Profile>): (m: map<string, Profile>)
    ensures forall r :: r in m ==> m[r] in profiles && m[r].profileRef == r
  {
    if profiles == [] then map[]
    else
      var n := |profiles| - 1;
      ProfilesByRef(profiles[..n])[profiles[n].profileRef := profiles[n]]
  }

  // With unique refs every profile is found under its own ref.
  lemma {:induction false} ProfilesByRefExact(profiles: seq<Profile>, i: nat)
    requires NoDup(ProfileRefs(profiles)) && i < |profiles|
    ensures profiles[i].profileRef in ProfilesByRef(profiles) && ProfilesByRef(profiles)[profiles[i].profileRef] == profiles[i]
  {
    var n := |profiles| - 1;
    if i < n {
      assert ProfileRefs(profiles[..n]) == ProfileRefs(profiles)[..n];
      ProfilesByRefExact(profiles[..n], i);
      assert ProfileRefs(profiles)[i] != ProfileRefs(profiles)[n];
    }
  }

  function CheckRuntimeProfile(profile: Profile, tables: Tables): (error: Option<ProfileError>) {
    if profile.runtimeProfileRef.None? then C.None
    else
      var ref := profile.runtimeProfileRef.value;
      if ref !in tables.runtimeProfiles then C.Some(RuntimeProfileUnknown)
      else if ref !in tables.bootstrapAllowed then C.Some(RuntimeProfileNotBootstrappable)
      else if profile.scopeClassRef.Some? then C.None
      else if tables.runtimeProfiles[ref] != profile.environmentRef then C.Some(RuntimeProfileEnvironmentMismatch)
      else C.None
  }

  function CheckScopeClass(profile: Profile, tables: Tables): (error: Option<ProfileError>) {
    if profile.scopeClassRef.None? then C.None
    else if profile.scopeClassRef.value !in tables.scopeRows then C.Some(ScopeClassUnknown)
    else if tables.scopeRows[profile.scopeClassRef.value] != profile.environmentRef then C.Some(ScopeClassEnvironmentMismatch)
    else C.None
  }

  predicate Destructive(task: TaskDef) {
    task.destructivePosture != "NON_DESTRUCTIVE"
  }

  // A missing and an empty confirmation ref are both falsy.
  predicate DefinesConfirmation(task: TaskDef) {
    task.typedConfirmation.Some? && task.typedConfirmation.value != ""
  }

  function CheckDestructive(task: TaskDef, profile: Profile, enforce: bool, ack: Option<string>): (error: Option<ProfileError>) {
    if Destructive(task) && !profile.destructiveAllowed then C.Some(UnsupportedProfileForDestructiveCommand)
    else if enforce && Destructive(task) then
      if !DefinesConfirmation(task) then C.Some(MissingTypedConfirmation)
      else if ack != task.typedConfirmation then C.Some(AckRequired)
      else C.None
    else C.None
  }

  // The first row of the environment names this provider environment.
  ghost predicate FirstProvider(environmentRef: string, rows: seq<(string, string)>, provider: string) {
    exists k :: 0 <= k < |rows| && rows[k] == (environmentRef, provider) && forall m :: 0 <= m < k ==> rows[m].0 != environmentRef
  }

  // The first provider row of the environment.
  function FindProvider(environmentRef: string, rows: seq<(string, string)>): (found: Option<string>)
    ensures found.Some? <==> exists row :: row in rows && row.0 == environmentRef
    ensures found.Some? ==> FirstProvider(environmentRef, rows, found.value)
  {
    if rows == [] then C.None
    else if rows[0].0 == environmentRef then C.Some(rows[0].1)
    else
      assert rows == [rows[0]] + rows[1..];
      var found := FindProvider(environmentRef, rows[1..]);
      assert found.Some? ==> FirstProvider(environmentRef, rows, found.value) by {
        if found.Some? {
          var k :| 0 <= k < |rows| - 1 && rows[1..][k] == (environmentRef, found.value)
                   && forall m :: 0 <= m < k ==> rows[1..][m].0 != environmentRef;
          assert rows[k + 1] == (environmentRef, found.value);
          assert forall m :: 0 < m < k + 1 ==> rows[m] == rows[1..][m - 1];
        }
      }
      found
  }

  // The checks of one task against one profile.
  function CheckProfile(task: TaskDef, profile: Profile, tables: Tables, enforce: bool, ack: Option<string>): Result<Resolved, ProfileError> {
    if profile.profileRef !in task.supportedProfiles then Err(TaskProfileNotSupported)
    else if CheckRuntimeProfile(profile, tables).Some? then Err(CheckRuntimeProfile(profile, tables).value)
    else if CheckScopeClass(profile, tables).Some? then Err(CheckScopeClass(profile, tables).value)
    else if CheckDestructive(task, profile, enforce, ack).Some? then Err(CheckDestructive(task, profile, enforce, ack).value)
    else
      match FindProvider(profile.environmentRef, tables.providerRows)
      case None => Err(ProviderEnvironmentNotFound)
      case Some(provider) => Ok(Resolved(task.taskRef, profile.profileRef, profile.environmentRef, provider))
  }

  function ResolveEnvironmentProfile(catalog: TaskCatalog, tables: Tables, taskRef: string, profileRef: string,
                                     enforce: bool, ack: Option<string>): Result<Resolved, ProfileError> {
    var tasks, profiles := TasksByRef(catalog.tasks), ProfilesByRef(catalog.profiles);
    if taskRef !in tasks then Err(UnknownTaskRef)
    else if profileRef !in profiles then Err(UnknownProfileRef)
    else CheckProfile(tasks[taskRef], profiles[profileRef], tables, enforce, ack)
  }

  // Whether this profile suits this environment at all, destructive or not.
  ghost predicate ProfileConsistent(profile: Profile, tables: Tables) {
    && (profile.runtimeProfileRef.Some? ==>
          && profile.runtimeProfileRef.value in tables.runtimeProfiles
          && profile.runtimeProfileRef.value in tables.bootstrapAllowed
          && (profile.scopeClassRef.None? ==> tables.runtimeProfiles[profile.runtimeProfileRef.value] == profile.environmentRef))
    && (profile.scopeClassRef.Some? ==>
          profile.scopeClassRef.value in tables.scopeRows && tables.scopeRows[profile.scopeClassRef.value] == profile.environmentRef)
    && exists row :: row in tables.providerRows && row.0 == profile.environmentRef
  }

  // Admission of one task under one profile, in full.
  lemma CheckExact(task: TaskDef, profile: Profile, tables: Tables, enforce: bool, ack: Option<string>)
    ensures CheckProfile(task, profile, tables, enforce, ack).Ok? <==>
            && profile.profileRef in task.supportedProfiles && ProfileConsistent(profile, tables)
            && (task.destructivePosture != "NON_DESTRUCTIVE" ==>
                  profile.destructiveAllowed && (enforce ==> ack.Some? && ack.value != "" && ack == task.typedConfirmation))
  {
  }

  // The gate, in full: a task is admitted exactly when it is known, supports a known and
  // consistent profile, and, if destructive, the profile permits that and (when enforced) the
  // acknowledgement equals the task's own non-empty confirmation.
  lemma GateExact(catalog: TaskCatalog, tables: Tables, taskRef: string, profileRef: string, enforce: bool, ack: Option<string>)
    ensures ResolveEnvironmentProfile(catalog, tables, taskRef, profileRef, enforce, ack).Ok? <==>
            var tasks, profiles := TasksByRef(catalog.tasks), ProfilesByRef(catalog.profiles);
            && taskRef in tasks && profileRef in profiles
            && profileRef in tasks[taskRef].supportedProfiles
            && ProfileConsistent(profiles[profileRef], tables)
            && (tasks[taskRef].destructivePosture != "NON_DESTRUCTIVE" ==>
                  && profiles[profileRef].destructiveAllowed
                  && (enforce ==> ack.Some? && ack.value != "" && ack == tasks[taskRef].typedConfirmation))
  {
    var tasks, profiles := TasksByRef(catalog.tasks), ProfilesByRef(catalog.profiles);
    if taskRef in tasks && profileRef in profiles {
      CheckExact(tasks[taskRef], profiles[profileRef], tables, enforce, ack);
    }
  }

  // ---- Which error, and which answer ----

  // What each error says of this task and this profile, whatever else is wrong.
  ghost predicate Applies(error: ProfileError, task: TaskDef, profile: Profile, tables: Tables, enforce: bool, ack: Option<string>) {
    match error
    case UnknownTaskRef => false
    case UnknownProfileRef => false
    case TaskProfileNotSupported => profile.profileRef !in task.supportedProfiles
    case RuntimeProfileUnknown => profile.runtimeProfileRef.Some? && profile.runtimeProfileRef.value !in tables.runtimeProfiles
    case RuntimeProfileNotBootstrappable =>
      profile.runtimeProfileRef.Some? && profile.runtimeProfileRef.value !in tables.bootstrapAllowed
    case RuntimeProfileEnvironmentMismatch =>
      && profile.runtimeProfileRef.Some? && profile.scopeClassRef.None?
      && profile.runtimeProfileRef.value in tables.runtimeProfiles
      && tables.runtimeProfiles[profile.runtimeProfileRef.value] != profile.environmentRef
    case ScopeClassUnknown => profile.scopeClassRef.Some? && profile.scopeClassRef.value !in tables.scopeRows
    case ScopeClassEnvironmentMismatch =>
      && profile.scopeClassRef.Some? && profile.scopeClassRef.value in tables.scopeRows
      && tables.scopeRows[profile.scopeClassRef.value] != profile.environmentRef
    case UnsupportedProfileForDestructiveCommand => task.destructivePosture != "NON_DESTRUCTIVE" && !profile.destructiveAllowed
    case MissingTypedConfirmation =>
      enforce && task.destructivePosture != "NON_DESTRUCTIVE" && (task.typedConfirmation.None? || task.typedConfirmation.value == "")
    case AckRequired => enforce && task.destructivePosture != "NON_DESTRUCTIVE" && ack != task.typedConfirmation
    case ProviderEnvironmentNotFound => forall row :: row in tables.providerRows ==> row.0 != profile.environmentRef
  }

  // The order in which the checks are made.
  ghost function Precedence(error: ProfileError): nat {
    match error
    case UnknownTaskRef => 0
    case UnknownProfileRef => 1
    case TaskProfileNotSupported => 2
    case RuntimeProfileUnknown => 3
    case RuntimeProfileNotBootstrappable => 4
    case RuntimeProfileEnvironmentMismatch => 5
    case ScopeClassUnknown => 6
    case ScopeClassEnvironmentMismatch => 7
    case UnsupportedProfileForDestructiveCommand => 8
    case MissingTypedConfirmation => 9
    case AckRequired => 10
    case ProviderEnvironmentNotFound => 11
  }

  // The error that applies and is checked first.
  ghost predicate FirstToApply(error: ProfileError, task: TaskDef, profile: Profile, tables: Tables, enforce: bool, ack: Option<string>) {
    && Applies(error, task, profile, tables, enforce, ack)
    && forall other :: Precedence(other) < Precedence(error) ==> !Applies(other, task, profile, tables, enforce, ack)
  }

  lemma FirstToApplyUnique(a: ProfileError, b: ProfileError, task: TaskDef, profile: Profile, tables: Tables, enforce: bool, ack: Option<string>)
    requires FirstToApply(a, task, profile, tables, enforce, ack) && FirstToApply(b, task, profile, tables, enforce, ack)
    ensures a == b
  {
  }

  ghost predicate NoneApplies(lo: nat, hi: nat, task: TaskDef, profile: Profile, tables: Tables, enforce: bool, ack: Option<string>) {
    forall error :: lo <= Precedence(error) <= hi ==> !Applies(error, task, profile, tables, enforce, ack)
  }

  // A group of checks answers with the first of its errors that applies.
  ghost predicate StageAnswers(lo: nat, hi: nat, task: TaskDef, profile: Profile, tables: Tables, enforce: bool, ack: Option<string>,
                               answer: Option<ProfileError>) {
    match answer
    case None => NoneApplies(lo, hi, task, profile, tables, enforce, ack)
    case Some(error) =>
      && lo <= Precedence(error) <= hi && Applies(error, task, profile, tables, enforce, ack)
      && forall other :: lo <= Precedence(other) < Precedence(error) ==> !Applies(other, task, profile, tables, enforce, ack)
  }

  lemma RuntimeStage(task: TaskDef, profile: Profile, tables: Tables, enforce: bool, ack: Option<string>)
    ensures StageAnswers(3, 5, task, profile, tables, enforce, ack, CheckRuntimeProfile(profile, tables))
  {
  }

  lemma ScopeStage(task: TaskDef, profile: Profile, tables: Tables, enforce: bool, ack: Option<string>)
    ensures StageAnswers(6, 7, task, profile, tables, enforce, ack, CheckScopeClass(profile, tables))
  {
  }

  lemma DestructiveStage(task: TaskDef, profile: Profile, tables: Tables, enforce: bool, ack: Option<string>)
    ensures StageAnswers(8, 10, task, profile, tables, enforce, ack, CheckDestructive(task, profile, enforce, ack))
  {
  }

  lemma AfterStages(lo: nat, hi: nat, task: TaskDef, profile: Profile, tables: Tables, enforce: bool, ack: Option<string>, error: ProfileError)
    requires NoneApplies(0, lo, task, profile, tables, enforce, ack)
    requires StageAnswers(lo + 1, hi, task, profile, tables, enforce, ack, C.Some(error))
    ensures FirstToApply(error, task, profile, tables, enforce, ack)
  {
  }

  lemma JoinStages(lo: nat, hi: nat, task: TaskDef, profile: Profile, tables: Tables, enforce: bool, ack: Option<string>)
    requires NoneApplies(0, lo, task, profile, tables, enforce, ack) && NoneApplies(lo + 1, hi, task, profile, tables, enforce, ack)
    ensures NoneApplies(0, hi, task, profile, tables, enforce, ack)
  {
  }

  ghost predicate GateAnswers(task: TaskDef, profile: Profile, tables: Tables, enforce: bool, ack: Option<string>,
                              result: Result<Resolved, ProfileError>) {
    match result
    case Err(error) => FirstToApply(error, task, profile, tables, enforce, ack)
    case Ok(resolved) =>
      && (forall error :: !Applies(error, task, profile, tables, enforce, ack))
      && resolved.taskRef == task.taskRef && resolved.profileRef == profile.profileRef
      && resolved.environmentRef == profile.environmentRef
      && FirstProvider(profile.environmentRef, tables.providerRows, resolved.providerEnvironmentRef)
  }

  lemma ProviderStage(task: TaskDef, profile: Profile, tables: Tables, enforce: bool, ack: Option<string>)
    requires NoneApplies(0, 10, task, profile, tables, enforce, ack)
    ensures var found := FindProvider(profile.environmentRef, tables.providerRows);
            if found.None? then FirstToApply(ProviderEnvironmentNotFound, task, profile, tables, enforce, ack)
            else NoneApplies(0, 11, task, profile, tables, enforce, ack)
  {
    var found := FindProvider(profile.environmentRef, tables.providerRows);
    if found.Some? {
      var k :| 0 <= k < |tables.providerRows| && tables.providerRows[k] == (profile.environmentRef, found.value);
      assert tables.providerRows[k] in tables.providerRows;
    }
  }

  // The answer once the profile itself has been found consistent.
  lemma LateStages(task: TaskDef, profile: Profile, tables: Tables, enforce: bool, ack: Option<string>)
    requires profile.profileRef in task.supportedProfiles && CheckRuntimeProfile(profile, tables).None?
    requires CheckScopeClass(profile, tables).None? && NoneApplies(0, 7, task, profile, tables, enforce, ack)
    ensures GateAnswers(task, profile, tables, enforce, ack, CheckProfile(task, profile, tables, enforce, ack))
  {
    DestructiveStage(task, profile, tables, enforce, ack);
    var destructive := CheckDestructive(task, profile, enforce, ack);
    if destructive.Some? {
      AfterStages(7, 10, task, profile, tables, enforce, ack, destructive.value);
    } else {
      JoinStages(7, 10, task, profile, tables, enforce, ack);
      ProviderStage(task, profile, tables, enforce, ack);
    }
  }

  lemma CheckDecides(task: TaskDef, profile: Profile, tables: Tables, enforce: bool, ack: Option<string>)
    ensures GateAnswers(task, profile, tables, enforce, ack, CheckProfile(task, profile, tables, enforce, ack))
  {
    if profile.profileRef in task.supportedProfiles {
      RuntimeStage(task, profile, tables, enforce, ack);
      var runtime := CheckRuntimeProfile(profile, tables);
      if runtime.Some? {
        AfterStages(2, 5, task, profile, tables, enforce, ack, runtime.value);
      } else {
        JoinStages(2, 5, task, profile, tables, enforce, ack);
        ScopeStage(task, profile, tables, enforce, ack);
        var scope := CheckScopeClass(profile, tables);
        if scope.Some? {
          AfterStages(5, 7, task, profile, tables, enforce, ack, scope.value);
        } else {
          JoinStages(5, 7, task, profile, tables, enforce, ack);
          LateStages(task, profile, tables, enforce, ack);
        }
      }
    }
  }

  // For a task and a profile of the catalog the gate answers with the first error that applies, or,
  // when none does, with the profile's environment and its first provider environment.
  lemma GateDecides(catalog: TaskCatalog, tables: Tables, a: nat, b: nat, enforce: bool, ack: Option<string>)
    requires NoDup(Refs(catalog.tasks)) && NoDup(ProfileRefs(catalog.profiles))
    requires a < |catalog.tasks| && b < |catalog.profiles|
    ensures GateAnswers(catalog.tasks[a], catalog.profiles[b], tables, enforce, ack,
                        ResolveEnvironmentProfile(catalog, tables, catalog.tasks[a].taskRef, catalog.profiles[b].profileRef, enforce, ack))
  {
    TasksByRefExact(catalog.tasks, a);
    ProfilesByRefExact(catalog.profiles, b);
    CheckDecides(catalog.tasks[a], catalog.profiles[b], tables, enforce, ack);
  }

  lemma TaskRefListed(catalog: TaskCatalog, taskRef: string)
    ensures taskRef in TasksByRef(catalog.tasks) <==> exists i :: 0 <= i < |catalog.tasks| && catalog.tasks[i].taskRef == taskRef
  {
    if i :| 0 <= i < |catalog.tasks| && catalog.tasks[i].taskRef == taskRef {
      assert Refs(catalog.tasks)[i] == taskRef;
      assert taskRef in Elements(Refs(catalog.tasks));
    }
  }

  lemma ProfileRefListed(catalog: TaskCatalog, profileRef: string)
    requires NoDup(ProfileRefs(catalog.profiles))
    ensures profileRef in ProfilesByRef(catalog.profiles) <==>
            exists i :: 0 <= i < |catalog.profiles| && catalog.profiles[i].profileRef == profileRef
  {
    if i :| 0 <= i < |catalog.profiles| && catalog.profiles[i].profileRef == profileRef {
      ProfilesByRefExact(catalog.profiles, i);
    }
  }

  lemma CheckKnowsRefs(task: TaskDef, profile: Profile, tables: Tables, enforce: bool, ack: Option<string>)
    ensures CheckProfile(task, profile, tables, enforce, ack) != Err(UnknownTaskRef)
    ensures CheckProfile(task, profile, tables, enforce, ack) != Err(UnknownProfileRef)
  {
    CheckDecides(task, profile, tables, enforce, ack);
  }

  // Refs that the catalog does not hold are rejected first, the task's before the profile's.
  lemma UnknownRefs(catalog: TaskCatalog, tables: Tables, taskRef: string, profileRef: string, enforce: bool, ack: Option<string>)
    requires NoDup(ProfileRefs(catalog.profiles))
    ensures var known := exists i :: 0 <= i < |catalog.tasks| && catalog.tasks[i].taskRef == taskRef;
            var listed := exists i :: 0 <= i < |catalog.profiles| && catalog.profiles[i].profileRef == profileRef;
            var answer := ResolveEnvironmentProfile(catalog, tables, taskRef, profileRef, enforce, ack);
            && (answer == Err(UnknownTaskRef) <==> !known)
            && (answer == Err(UnknownProfileRef) <==> known && !listed)
  {
    TaskRefListed(catalog, taskRef);
    ProfileRefListed(catalog, profileRef);
    var tasks, profiles := TasksByRef(catalog.tasks), ProfilesByRef(catalog.profiles);
    if taskRef in tasks && profileRef in profiles {
      CheckKnowsRefs(tasks[taskRef], profiles[profileRef], tables, enforce, ack);
    }
  }

  // Enforcement only ever refuses more.
  lemma EnforcementOnlyRestricts(catalog: TaskCatalog, tables: Tables, taskRef: string, profileRef: string, ack: Option<string>)
    ensures ResolveEnvironmentProfile(catalog, tables, taskRef, profileRef, true, ack).Ok? ==>
            ResolveEnvironmentProfile(catalog, tables, taskRef, profileRef, false, C.None) ==
            ResolveEnvironmentProfile(catalog, tables, taskRef, profileRef, true, ack)
  {
  }
}
