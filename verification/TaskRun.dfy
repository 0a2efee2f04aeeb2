// Running a resolved plan: what is executed, what is recorded, and what a run guarantees.
module TaskRun {
  import opened Sequences
  import opened Digraph
  import C = Checklist
  import opened Catalog
  import opened DependencySearch
  import opened PlanResolution
  import opened EnvironmentProfile

  datatype RunOptions = RunOptions(
    profileRef: string,
    cliParams: set<string>,
    dryRun: bool,
    failFast: bool,
    ack: Option<string>)

  // What the run meets outside itself: exit codes by task and command position, whether the local
  // stack is ready when a task asks, and whether a task's templates render.
  datatype World = World(exitCode: (string, nat) -> int, stackReady: string -> bool, renders: string -> bool)

  datatype TaskResult = TaskResult(taskRef: string, ok: bool, exitCodes: seq<int>)

  datatype RunError =
    | PlanRejected(plan: CatalogError)
    | ProfileRejected(profile: ProfileError)
    | ParamRequired(taskRef: string)
    | TemplateTokenUnknown(taskRef: string)
    | PreconditionUnknown(taskRef: string)
    | LocalStackUnhealthy(taskRef: string)

  // What an observer of the run sees, in order.
  datatype Event = CommandRun(taskRef: string, index: nat, exitCode: int) | ResultRecorded(taskRef: string, ok: bool)

  datatype RunReport = RunReport(ok: bool, profile: Resolved, resolved: seq<string>, results: seq<TaskResult>)

  const KNOWN_PRECONDITION := "LOCAL_STACK_SEMANTIC_READY"

  // ---- One task ----

  // Why a task may not start, checked in this order before any of its commands.
  function Refusal(catalog: TaskCatalog, tables: Tables, options: RunOptions, world: World, task: TaskDef): Option<RunError> {
    var profile := ResolveEnvironmentProfile(catalog, tables, task.taskRef, options.profileRef, !options.dryRun, options.ack);
    if profile.Err? then C.Some(ProfileRejected(profile.error))
    else if exists p :: p in task.requiredParams && p !in task.defaultParams && p !in options.cliParams then
      C.Some(ParamRequired(task.taskRef))
    else if !world.renders(task.taskRef) then C.Some(TemplateTokenUnknown(task.taskRef))
    else if options.dryRun then C.None
    else PreconditionRefusal(task, world.stackReady(task.taskRef), 0)
  }

  function PreconditionRefusal(task: TaskDef, ready: bool, i: nat): Option<RunError>
    requires i <= |task.preconditions|
    decreases |task.preconditions| - i
  {
    if i == |task.preconditions| then C.None
    else if task.preconditions[i] != KNOWN_PRECONDITION then C.Some(PreconditionUnknown(task.taskRef))
    else if !ready then C.Some(LocalStackUnhealthy(task.taskRef))
    else PreconditionRefusal(task, ready, i + 1)
  }

  // ---- What a task must have before it starts, check by check ----

  ghost predicate KnownPrecondition(precondition: string) {
    precondition == "LOCAL_STACK_SEMANTIC_READY"
  }

  ghost predicate ParamsGiven(task: TaskDef, options: RunOptions) {
    forall p :: p in task.requiredParams ==> p in task.defaultParams || p in options.cliParams
  }

  // All preconditions are known, and the local stack is ready if there is any.
  ghost predicate PreconditionsHold(task: TaskDef, world: World) {
    && (forall i :: 0 <= i < |task.preconditions| ==> KnownPrecondition(task.preconditions[i]))
    && (task.preconditions != [] ==> world.stackReady(task.taskRef))
  }

  // The first precondition that fails is an unknown one: those before it passed.
  ghost predicate UnknownFirst(task: TaskDef, ready: bool) {
    exists i :: 0 <= i < |task.preconditions| && !KnownPrecondition(task.preconditions[i])
      && (i > 0 ==> ready) && forall m :: 0 <= m < i ==> KnownPrecondition(task.preconditions[m])
  }

  // The first precondition that fails is a known one: it is the first of all, and the stack is not ready.
  ghost predicate UnhealthyFirst(task: TaskDef, ready: bool) {
    task.preconditions != [] && KnownPrecondition(task.preconditions[0]) && !ready
  }

  lemma {:induction false} PreconditionsFrom(task: TaskDef, ready: bool, i: nat)
    requires i <= |task.preconditions| && (i > 0 ==> ready) && forall m :: 0 <= m < i ==> KnownPrecondition(task.preconditions[m])
    ensures var refusal := PreconditionRefusal(task, ready, i);
            && (refusal.None? <==> (i < |task.preconditions| ==> ready)
                                   && forall m :: 0 <= m < |task.preconditions| ==> KnownPrecondition(task.preconditions[m]))
            && (refusal == C.Some(PreconditionUnknown(task.taskRef)) <==> UnknownFirst(task, ready))
            && (refusal == C.Some(LocalStackUnhealthy(task.taskRef)) <==> UnhealthyFirst(task, ready))
            && (refusal.Some? ==> UnknownFirst(task, ready) || UnhealthyFirst(task, ready))
    decreases |task.preconditions| - i
  {
    if i < |task.preconditions| && KnownPrecondition(task.preconditions[i]) && ready {
      PreconditionsFrom(task, ready, i + 1);
    }
  }

  ghost predicate MayStart(catalog: TaskCatalog, tables: Tables, options: RunOptions, world: World, task: TaskDef) {
    && ResolveEnvironmentProfile(catalog, tables, task.taskRef, options.profileRef, !options.dryRun, options.ack).Ok?
    && ParamsGiven(task, options) && world.renders(task.taskRef)
    && (!options.dryRun ==> PreconditionsHold(task, world))
  }

  // The error of the first check that fails.
  ghost predicate RefusedFor(catalog: TaskCatalog, tables: Tables, options: RunOptions, world: World, task: TaskDef, error: RunError) {
    var gate := ResolveEnvironmentProfile(catalog, tables, task.taskRef, options.profileRef, !options.dryRun, options.ack);
    if gate.Err? then error == ProfileRejected(gate.error)
    else if !ParamsGiven(task, options) then error == ParamRequired(task.taskRef)
    else if !world.renders(task.taskRef) then error == TemplateTokenUnknown(task.taskRef)
    else
      !options.dryRun && match error
      case PreconditionUnknown(ref) => ref == task.taskRef && UnknownFirst(task, world.stackReady(task.taskRef))
      case LocalStackUnhealthy(ref) => ref == task.taskRef && UnhealthyFirst(task, world.stackReady(task.taskRef))
      case _ => false
  }

  // A task is refused exactly when a check fails, and then for the first one that does.
  lemma RefusalDecides(catalog: TaskCatalog, tables: Tables, options: RunOptions, world: World, task: TaskDef)
    ensures Refusal(catalog, tables, options, world, task).None? <==> MayStart(catalog, tables, options, world, task)
    ensures Refusal(catalog, tables, options, world, task).Some? ==>
              RefusedFor(catalog, tables, options, world, task, Refusal(catalog, tables, options, world, task).value)
  {
    PreconditionsFrom(task, world.stackReady(task.taskRef), 0);
  }

  // Exit codes of the commands from position i on, stopping after a failure in a fail-fast run.
  function ExitCodes(world: World, task: TaskDef, failFast: bool, i: nat): (codes: seq<int>)
    requires i <= |task.commands|
    decreases |task.commands| - i
  {
    if i == |task.commands| then []
    else
      var code := world.exitCode(task.taskRef, i);
      if code != 0 && failFast then [code] else [code] + ExitCodes(world, task, failFast, i + 1)
  }

  predicate AllZero(codes: seq<int>) {
    forall i :: 0 <= i < |codes| ==> codes[i] == 0
  }

  ghost predicate CommandsSucceed(world: World, task: TaskDef, from: nat) {
    forall i :: from <= i < |task.commands| ==> world.exitCode(task.taskRef, i) == 0
  }

  // What is recorded for a task that was allowed to start.
  function RunOne(world: World, options: RunOptions, task: TaskDef): TaskResult {
    if options.dryRun then TaskResult(task.taskRef, true, [])
    else
      var codes := ExitCodes(world, task, options.failFast, 0);
      TaskResult(task.taskRef, AllZero(codes), codes)
  }

  lemma AllZeroCons(code: int, rest: seq<int>)
    ensures AllZero([code] + rest) <==> code == 0 && AllZero(rest)
  {
    var codes := [code] + rest;
    assert codes[0] == code;
    assert forall k :: 0 <= k < |rest| ==> rest[k] == codes[k + 1];
  }

  lemma ShiftedByOne(code: int, rest: seq<int>)
    ensures var codes := [code] + rest;
            && (forall k :: 0 < k < |codes| ==> codes[k] == rest[k - 1])
            && (rest != [] ==> (AllZero(codes[..|codes| - 1]) <==> code == 0 && AllZero(rest[..|rest| - 1])))
  {
    if rest != [] {
      assert ([code] + rest)[..|rest|] == [code] + rest[..|rest| - 1];
      AllZeroCons(code, rest[..|rest| - 1]);
    }
  }

  lemma {:induction false} ExitCodesMeaning(world: World, task: TaskDef, failFast: bool, i: nat)
    requires i <= |task.commands|
    ensures var codes := ExitCodes(world, task, failFast, i);
            && |codes| <= |task.commands| - i
            && (forall k :: 0 <= k < |codes| ==> codes[k] == world.exitCode(task.taskRef, i + k))
            && (AllZero(codes) <==> CommandsSucceed(world, task, i))
            && (AllZero(codes) || !failFast ==> |codes| == |task.commands| - i)
            && (failFast ==> AllZero(codes[..if |codes| == 0 then 0 else |codes| - 1]))
            && (i < |task.commands| ==> codes != [])
    decreases |task.commands| - i
  {
    if i < |task.commands| {
      ExitCodesMeaning(world, task, failFast, i + 1);
      var code, rest := world.exitCode(task.taskRef, i), ExitCodes(world, task, failFast, i + 1);
      if !(code != 0 && failFast) {
        AllZeroCons(code, rest);
        ShiftedByOne(code, rest);
      } else {
        assert [code][0] != 0;
      }
    }
  }

  method EnforcePreconditions(task: TaskDef, ready: bool) returns (refusal: Option<RunError>)
    ensures refusal == PreconditionRefusal(task, ready, 0)
  {
    for i := 0 to |task.preconditions|
      invariant PreconditionRefusal(task, ready, 0) == PreconditionRefusal(task, ready, i)
    {
      if task.preconditions[i] != KNOWN_PRECONDITION {
        return C.Some(PreconditionUnknown(task.taskRef));
      }
      if !ready {
        return C.Some(LocalStackUnhealthy(task.taskRef));
      }
    }
    refusal := C.None;
  }

  function CommandEvents(taskRef: string, codes: seq<int>): (events: seq<Event>)
    ensures |events| == |codes|
  {
    seq(|codes|, i requires 0 <= i < |codes| => CommandRun(taskRef, i, codes[i]))
  }

  // The events one recorded task leaves behind: its commands, then its result.
  function EventsOf(result: TaskResult): seq<Event> {
    CommandEvents(result.taskRef, result.exitCodes) + [ResultRecorded(result.taskRef, result.ok)]
  }

  function Trace(results: seq<TaskResult>): seq<Event> {
    if results == [] then [] else Trace(results[..|results| - 1]) + EventsOf(results[|results| - 1])
  }

  lemma EventsAppend(taskRef: string, codes: seq<int>, code: int)
    ensures CommandEvents(taskRef, codes + [code]) == CommandEvents(taskRef, codes) + [CommandRun(taskRef, |codes|, code)]
  {
  }

  lemma AllZeroAppend(codes: seq<int>, code: int)
    ensures AllZero(codes + [code]) <==> AllZero(codes) && code == 0
  {
    var longer := codes + [code];
    assert longer[|codes|] == code;
    assert forall k :: 0 <= k < |codes| ==> codes[k] == longer[k];
  }

  // The command at i is the first of those still to run.
  lemma NextCommand(world: World, task: TaskDef, failFast: bool, i: nat)
    requires i < |task.commands|
    ensures var code := world.exitCode(task.taskRef, i);
            ExitCodes(world, task, failFast, i) ==
            [code] + if code != 0 && failFast then [] else ExitCodes(world, task, failFast, i + 1)
  {
  }

  lemma TakeFirst(codes: seq<int>, code: int, rest: seq<int>, whole: seq<int>)
    requires codes + ([code] + rest) == whole
    ensures (codes + [code]) + rest == whole
  {
    assert (codes + [code]) + rest == codes + ([code] + rest);
  }

  method RunCommands(world: World, task: TaskDef, failFast: bool) returns (codes: seq<int>, ok: bool, events: seq<Event>)
    ensures codes == ExitCodes(world, task, failFast, 0)
    ensures ok == AllZero(codes)
    ensures events == CommandEvents(task.taskRef, codes)
  {
    codes, ok, events := [], true, [];
    for i := 0 to |task.commands|
      invariant |codes| == i && events == CommandEvents(task.taskRef, codes)
      invariant codes + ExitCodes(world, task, failFast, i) == ExitCodes(world, task, failFast, 0)
      invariant ok == AllZero(codes)
    {
      var code := world.exitCode(task.taskRef, i);
      NextCommand(world, task, failFast, i);
      EventsAppend(task.taskRef, codes, code);
      AllZeroAppend(codes, code);
      TakeFirst(codes, code, if code != 0 && failFast then [] else ExitCodes(world, task, failFast, i + 1),
                ExitCodes(world, task, failFast, 0));
      codes := codes + [code];
      events := events + [CommandRun(task.taskRef, i, code)];
      if code != 0 {
        ok := false;
        if failFast {
          return;
        }
      }
    }
    assert codes + [] == codes;
  }

  // ---- The run ----

  // The results recorded for a plan: one per task in plan order, each task admitted, and in a
  // fail-fast run nothing after a failure.
  ghost predicate IsRecord(catalog: TaskCatalog, tables: Tables, options: RunOptions, world: World,
                           plan: seq<string>, results: seq<TaskResult>) {
    && |results| <= |plan|
    && (forall k :: 0 <= k < |results| ==> RecordedAt(catalog, tables, options, world, plan, results, k))
    && (options.failFast ==> forall k :: 0 <= k < |results| - 1 ==> results[k].ok)
  }

  ghost predicate RecordedAt(catalog: TaskCatalog, tables: Tables, options: RunOptions, world: World,
                             plan: seq<string>, results: seq<TaskResult>, k: nat)
    requires k < |results| <= |plan|
  {
    var tasks := TasksByRef(catalog.tasks);
    && plan[k] in tasks && results[k] == RunOne(world, options, tasks[plan[k]])
    && Refusal(catalog, tables, options, world, tasks[plan[k]]).None?
  }

  // The check of the last planned task's profile that comes before any task, without enforcement.
  function OverallProfile(catalog: TaskCatalog, tables: Tables, options: RunOptions, plan: seq<string>): Result<Resolved, ProfileError>
    requires plan != []
  {
    ResolveEnvironmentProfile(catalog, tables, plan[|plan| - 1], options.profileRef, false, options.ack)
  }

  ghost predicate AllOk(results: seq<TaskResult>) {
    forall k :: 0 <= k < |results| ==> results[k].ok
  }

  // How a run ended, given its plan and its record.
  ghost predicate Ended(catalog: TaskCatalog, tables: Tables, options: RunOptions, world: World,
                        plan: seq<string>, results: seq<TaskResult>, outcome: Result<RunReport, RunError>)
    requires plan != []
  {
    var overall := OverallProfile(catalog, tables, options, plan);
    if overall.Err? then
      results == [] && outcome == Err(ProfileRejected(overall.error))
    else match outcome
    case Ok(report) =>
      && report.profile == overall.value && report.resolved == plan && report.results == results
      && (report.ok <==> AllOk(results))
      && (|results| == |plan| || (options.failFast && results != [] && !results[|results| - 1].ok))
    case Err(error) =>
      && |results| < |plan| && plan[|results|] in TasksByRef(catalog.tasks)
      && (results == [] || !options.failFast || results[|results| - 1].ok)
      && C.Some(error) == Refusal(catalog, tables, options, world, TasksByRef(catalog.tasks)[plan[|results|]])
  }

  lemma AllOkAppend(results: seq<TaskResult>, result: TaskResult)
    ensures AllOk(results + [result]) <==> AllOk(results) && result.ok
  {
    var longer := results + [result];
    assert longer[|results|] == result;
    assert forall k :: 0 <= k < |results| ==> results[k] == longer[k];
  }

  // The loop over the planned tasks.
  method RunPlanned(catalog: TaskCatalog, tables: Tables, options: RunOptions, world: World, plan: seq<string>)
    returns (outcome: Result<RunReport, RunError>, results: seq<TaskResult>, trace: seq<Event>)
    requires plan != [] && forall t :: t in plan ==> t in TasksByRef(catalog.tasks)
    ensures IsRecord(catalog, tables, options, world, plan, results)
    ensures Ended(catalog, tables, options, world, plan, results, outcome)
    ensures trace == Trace(results)
  {
    var tasks := TasksByRef(catalog.tasks);
    results, trace := [], [];
    var overall := OverallProfile(catalog, tables, options, plan);
    if overall.Err? {
      return Err(ProfileRejected(overall.error)), results, trace;
    }
    var allOk := true;
    for i := 0 to |plan|
      invariant trace == Trace(results)
      invariant |results| == i && IsRecord(catalog, tables, options, world, plan, results)
      invariant allOk <==> AllOk(results)
      invariant options.failFast ==> allOk
    {
      assert plan[i] in plan;
      var task := tasks[plan[i]];
      var refusal := Admit(catalog, tables, options, world, task);
      if refusal.Some? {
        return Err(refusal.value), results, trace;
      }
      var result := TaskResult(task.taskRef, true, []);
      if !options.dryRun {
        var codes, ok, events := RunCommands(world, task, options.failFast);
        trace := trace + events;
        result := TaskResult(task.taskRef, ok, codes);
      }
      trace := trace + [ResultRecorded(result.taskRef, result.ok)];
      TraceStep(results, result);
      RecordStep(catalog, tables, options, world, plan, results, result);
      AllOkAppend(results, result);
      results := results + [result];
      allOk := allOk && result.ok;
      if options.failFast && !result.ok {
        return Ok(RunReport(false, overall.value, plan, results)), results, trace;
      }
    }
    outcome := Ok(RunReport(allOk, overall.value, plan, results));
  }

  lemma TraceStep(results: seq<TaskResult>, result: TaskResult)
    ensures Trace(results + [result]) ==
            Trace(results) + CommandEvents(result.taskRef, result.exitCodes) + [ResultRecorded(result.taskRef, result.ok)]
  {
    assert (results + [result])[..|results|] == results;
  }

  lemma RecordStep(catalog: TaskCatalog, tables: Tables, options: RunOptions, world: World,
                   plan: seq<string>, results: seq<TaskResult>, result: TaskResult)
    requires IsRecord(catalog, tables, options, world, plan, results) && |results| < |plan|
    requires options.failFast ==> AllOk(results)
    requires plan[|results|] in TasksByRef(catalog.tasks)
    requires var task := TasksByRef(catalog.tasks)[plan[|results|]];
             result == RunOne(world, options, task) && Refusal(catalog, tables, options, world, task).None?
    ensures IsRecord(catalog, tables, options, world, plan, results + [result])
  {
    var more := results + [result];
    forall k | 0 <= k < |more| ensures RecordedAt(catalog, tables, options, world, plan, more, k) {
      if k < |results| {
        assert RecordedAt(catalog, tables, options, world, plan, results, k);
      }
    }
  }

  // Profile, plan and preconditions, in the order in which a failure would be raised.
  method Admit(catalog: TaskCatalog, tables: Tables, options: RunOptions, world: World, task: TaskDef)
    returns (refusal: Option<RunError>)
    ensures refusal == Refusal(catalog, tables, options, world, task)
  {
    var profile := ResolveEnvironmentProfile(catalog, tables, task.taskRef, options.profileRef, !options.dryRun, options.ack);
    if profile.Err? {
      return C.Some(ProfileRejected(profile.error));
    }
    var known := task.defaultParams + options.cliParams;
    var missing := FirstMissing(task.requiredParams, known);
    if missing.Some? {
      assert missing.value in task.requiredParams && missing.value !in task.defaultParams && missing.value !in options.cliParams;
      return C.Some(ParamRequired(task.taskRef));
    }
    if !world.renders(task.taskRef) {
      return C.Some(TemplateTokenUnknown(task.taskRef));
    }
    if options.dryRun {
      return C.None;
    }
    refusal := EnforcePreconditions(task, world.stackReady(task.taskRef));
  }

  method RunPlan(catalog: TaskCatalog, tables: Tables, options: RunOptions, world: World, plan: seq<string>)
    returns (outcome: Result<RunReport, RunError>, results: seq<TaskResult>, trace: seq<Event>)
    requires plan != [] && forall t :: t in plan ==> t in TasksByRef(catalog.tasks)
    ensures IsRecord(catalog, tables, options, world, plan, results)
    ensures Ended(catalog, tables, options, world, plan, results, outcome)
    ensures RunExplained(catalog, tables, options, world, plan, results, outcome)
    ensures trace == Trace(results)
  {
    outcome, results, trace := RunPlanned(catalog, tables, options, world, plan);
    RunMeans(catalog, tables, options, world, plan, results, outcome);
  }

  method RunTasks(catalog: TaskCatalog, tables: Tables, options: RunOptions, world: World, requested: seq<string>)
    returns (outcome: Result<RunReport, RunError>, ghost plan: seq<string>, results: seq<TaskResult>, trace: seq<Event>)
    requires ValidCatalog(catalog)
    ensures outcome.Err? && outcome.error.PlanRejected? ==>
              results == [] && plan == [] && AnswersRequest(catalog.tasks, requested, Err(outcome.error.plan))
    ensures trace == Trace(results)
    ensures !(outcome.Err? && outcome.error.PlanRejected?) ==>
              && Resolves(catalog, requested, Ok(plan)) && AnswersRequest(catalog.tasks, requested, Ok(plan))
              && IsRecord(catalog, tables, options, world, plan, results)
              && Ended(catalog, tables, options, world, plan, results, outcome)
              && RunExplained(catalog, tables, options, world, plan, results, outcome)
  {
    var resolved := ResolveRequestedTaskRefs(catalog, requested);
    if resolved.Err? {
      return Err(PlanRejected(resolved.error)), [], [], [];
    }
    plan := resolved.value;
    outcome, results, trace := RunPlan(catalog, tables, options, world, resolved.value);
    if outcome.Err? && outcome.error.PlanRejected? {
      NeverPlanRejected(catalog, tables, options, world, plan, results, outcome);
      assert false;
    }
  }

  // ---- The run, read off the catalog's task list ----

  // What is recorded for a task that started: in a real run the exit codes of its first commands,
  // all of them unless a fail-fast run stopped at a failure.
  ghost predicate Records(options: RunOptions, world: World, task: TaskDef, result: TaskResult) {
    && result.taskRef == task.taskRef
    && if options.dryRun then result.ok && result.exitCodes == []
       else
         var codes := result.exitCodes;
         && |codes| <= |task.commands|
         && (forall i :: 0 <= i < |codes| ==> codes[i] == world.exitCode(task.taskRef, i))
         && (result.ok <==> |codes| == |task.commands| && forall i :: 0 <= i < |codes| ==> codes[i] == 0)
         && (|codes| < |task.commands| ==> options.failFast && codes != [] && codes[|codes| - 1] != 0)
         && (options.failFast ==> forall i :: 0 <= i < |codes| - 1 ==> codes[i] == 0)
  }

  ghost predicate StartedTask(catalog: TaskCatalog, tables: Tables, options: RunOptions, world: World, ref: string, result: TaskResult) {
    exists a :: 0 <= a < |catalog.tasks| && catalog.tasks[a].taskRef == ref
      && MayStart(catalog, tables, options, world, catalog.tasks[a]) && Records(options, world, catalog.tasks[a], result)
  }

  ghost predicate RefusedTask(catalog: TaskCatalog, tables: Tables, options: RunOptions, world: World, ref: string, error: RunError) {
    exists a :: 0 <= a < |catalog.tasks| && catalog.tasks[a].taskRef == ref
      && !MayStart(catalog, tables, options, world, catalog.tasks[a]) && RefusedFor(catalog, tables, options, world, catalog.tasks[a], error)
  }

  // Nothing starts unless the last planned task's profile suits it, acknowledgement aside. Then the
  // planned tasks are taken in order; each that is recorded passed every check, and a run that ends
  // with an error met a task that did not.
  ghost predicate RunExplained(catalog: TaskCatalog, tables: Tables, options: RunOptions, world: World,
                               plan: seq<string>, results: seq<TaskResult>, outcome: Result<RunReport, RunError>)
    requires plan != []
  {
    var overall := ResolveEnvironmentProfile(catalog, tables, plan[|plan| - 1], options.profileRef, false, options.ack);
    if overall.Err? then results == [] && outcome == Err(ProfileRejected(overall.error))
    else
      && |results| <= |plan|
      && (forall k :: 0 <= k < |results| ==> StartedTask(catalog, tables, options, world, plan[k], results[k]))
      && (options.failFast ==> forall k :: 0 <= k < |results| - 1 ==> results[k].ok)
      && match outcome
         case Ok(report) =>
           && report.profile == overall.value && report.resolved == plan && report.results == results
           && (report.ok <==> forall k :: 0 <= k < |results| ==> results[k].ok)
           && (|results| == |plan| || (options.failFast && results != [] && !results[|results| - 1].ok))
         case Err(error) =>
           && |results| < |plan| && (options.failFast && results != [] ==> results[|results| - 1].ok)
           && RefusedTask(catalog, tables, options, world, plan[|results|], error)
  }

  lemma OnlyLastFails(codes: seq<int>)
    requires codes != [] && AllZero(codes[..|codes| - 1])
    ensures forall i :: 0 <= i < |codes| - 1 ==> codes[i] == 0
    ensures !AllZero(codes) ==> codes[|codes| - 1] != 0
  {
    forall i | 0 <= i < |codes| - 1 ensures codes[i] == 0 {
      assert codes[..|codes| - 1][i] == codes[i];
    }
  }

  lemma CodesAreRecords(options: RunOptions, world: World, task: TaskDef, codes: seq<int>)
    requires !options.dryRun && |codes| <= |task.commands|
    requires forall i :: 0 <= i < |codes| ==> codes[i] == world.exitCode(task.taskRef, i)
    requires AllZero(codes) || !options.failFast ==> |codes| == |task.commands|
    requires options.failFast && codes != [] ==> AllZero(codes[..|codes| - 1])
    ensures Records(options, world, task, TaskResult(task.taskRef, AllZero(codes), codes))
  {
    if options.failFast && codes != [] {
      OnlyLastFails(codes);
    }
  }

  lemma RecordsWhatRan(options: RunOptions, world: World, task: TaskDef)
    ensures Records(options, world, task, RunOne(world, options, task))
  {
    if !options.dryRun {
      var codes := ExitCodes(world, task, options.failFast, 0);
      ExitCodesMeaning(world, task, options.failFast, 0);
      forall i | 0 <= i < |codes| ensures codes[i] == world.exitCode(task.taskRef, i) {
        assert codes[i] == world.exitCode(task.taskRef, 0 + i);
      }
      CodesAreRecords(options, world, task, codes);
    }
  }

  lemma TaskIsListed(catalog: TaskCatalog, ref: string) returns (a: nat)
    requires ref in TasksByRef(catalog.tasks)
    ensures a < |catalog.tasks| && catalog.tasks[a] == TasksByRef(catalog.tasks)[ref] && catalog.tasks[a].taskRef == ref
  {
    a :| 0 <= a < |catalog.tasks| && catalog.tasks[a] == TasksByRef(catalog.tasks)[ref];
  }

  lemma RecordedStarted(catalog: TaskCatalog, tables: Tables, options: RunOptions, world: World,
                        plan: seq<string>, results: seq<TaskResult>, k: nat)
    requires IsRecord(catalog, tables, options, world, plan, results) && k < |results|
    ensures StartedTask(catalog, tables, options, world, plan[k], results[k])
  {
    assert RecordedAt(catalog, tables, options, world, plan, results, k);
    var a := TaskIsListed(catalog, plan[k]);
    RefusalDecides(catalog, tables, options, world, catalog.tasks[a]);
    RecordsWhatRan(options, world, catalog.tasks[a]);
  }

  lemma RefusedMeans(catalog: TaskCatalog, tables: Tables, options: RunOptions, world: World, ref: string, error: RunError)
    requires ref in TasksByRef(catalog.tasks)
    requires C.Some(error) == Refusal(catalog, tables, options, world, TasksByRef(catalog.tasks)[ref])
    ensures RefusedTask(catalog, tables, options, world, ref, error)
  {
    var a := TaskIsListed(catalog, ref);
    RefusalDecides(catalog, tables, options, world, catalog.tasks[a]);
  }

  lemma RunMeans(catalog: TaskCatalog, tables: Tables, options: RunOptions, world: World,
                 plan: seq<string>, results: seq<TaskResult>, outcome: Result<RunReport, RunError>)
    requires plan != [] && IsRecord(catalog, tables, options, world, plan, results)
    requires Ended(catalog, tables, options, world, plan, results, outcome)
    ensures RunExplained(catalog, tables, options, world, plan, results, outcome)
  {
    forall k | 0 <= k < |results| ensures StartedTask(catalog, tables, options, world, plan[k], results[k]) {
      RecordedStarted(catalog, tables, options, world, plan, results, k);
    }
    if OverallProfile(catalog, tables, options, plan).Ok? && outcome.Err? {
      RefusedMeans(catalog, tables, options, world, plan[|results|], outcome.error);
    }
  }

  lemma NeverPlanRejected(catalog: TaskCatalog, tables: Tables, options: RunOptions, world: World,
                          plan: seq<string>, results: seq<TaskResult>, outcome: Result<RunReport, RunError>)
    requires plan != [] && Ended(catalog, tables, options, world, plan, results, outcome)
    ensures !(outcome.Err? && outcome.error.PlanRejected?)
  {
    if outcome.Err? && OverallProfile(catalog, tables, options, plan).Ok? {
      PreconditionErrors(TasksByRef(catalog.tasks)[plan[|results|]], world.stackReady(TasksByRef(catalog.tasks)[plan[|results|]].taskRef), 0);
    }
  }

  lemma {:induction false} PreconditionErrors(task: TaskDef, ready: bool, i: nat)
    requires i <= |task.preconditions|
    ensures var r := PreconditionRefusal(task, ready, i);
            r.Some? ==> r.value.PreconditionUnknown? || r.value.LocalStackUnhealthy?
    decreases |task.preconditions| - i
  {
    if i < |task.preconditions| {
      PreconditionErrors(task, ready, i + 1);
    }
  }
}
