// Runs with --keep-going: when dependents of failed tasks are executed.
module KeepGoing {
  import opened Sequences
  import opened Digraph
  import C = Checklist
  import opened Catalog
  import opened DependencySearch
  import opened PlanResolution
  import opened EnvironmentProfile
  import opened TaskRun
  import opened RunSafety

  // ---- One run ----

  // Among the tasks of a run that were started, a dependent with something to run, and a planned
  // dependency of it that fails.
  ghost predicate FailedDependency(catalog: TaskCatalog, world: World, plan: seq<string>, started: nat, k: nat, m: nat) {
    var tasks := TasksByRef(catalog.tasks);
    && k < started <= |plan| && m < |plan| && plan[k] in tasks && plan[m] in tasks
    && StrictlyReaches(CatalogEdges(catalog), plan[k], plan[m])
    && tasks[plan[k]].commands != [] && !CommandsSucceed(world, tasks[plan[m]], 0)
  }

  // A keep-going run, however it ends, loses dependency safety exactly when a started task with
  // commands depends on one that fails.
  lemma KeepGoingSafeIff(catalog: TaskCatalog, tables: Tables, options: RunOptions, world: World,
                         plan: seq<string>, results: seq<TaskResult>)
    requires DependenciesFirst(CatalogEdges(catalog), plan)
    requires IsRecord(catalog, tables, options, world, plan, results)
    requires !options.failFast && !options.dryRun
    ensures DependencySafe(CatalogEdges(catalog), Trace(results)) <==>
            !exists k, m :: FailedDependency(catalog, world, plan, |results|, k, m)
  {
    var edges, trace := CatalogEdges(catalog), Trace(results);
    if k, m :| FailedDependency(catalog, world, plan, |results|, k, m) {
      UnsafeCommand(catalog, tables, options, world, plan, results, k, m);
    } else {
      forall p, d | 0 <= p < |trace| && trace[p].CommandRun? && StrictlyReaches(edges, trace[p].taskRef, d)
        ensures SucceededBefore(trace, d, p)
      {
        SafeCommand(catalog, tables, options, world, plan, results, p, d);
      }
    }
  }

  // Without such a pair, each dependency of a running task was recorded as successful before it.
  lemma SafeCommand(catalog: TaskCatalog, tables: Tables, options: RunOptions, world: World,
                    plan: seq<string>, results: seq<TaskResult>, p: nat, d: string)
    requires DependenciesFirst(CatalogEdges(catalog), plan) && !options.dryRun
    requires IsRecord(catalog, tables, options, world, plan, results)
    requires forall k, m :: !FailedDependency(catalog, world, plan, |results|, k, m)
    requires p < |Trace(results)| && Trace(results)[p].CommandRun?
    requires StrictlyReaches(CatalogEdges(catalog), Trace(results)[p].taskRef, d)
    ensures SucceededBefore(Trace(results), d, p)
  {
    var k, i := EventOrigin(results, p);
    RecordMeaning(catalog, tables, options, world, plan, results, k);
    var m := DependencyEarlierInPlan(catalog, plan, k, d);
    RecordMeaning(catalog, tables, options, world, plan, results, m);
    CommandsPresent(catalog, tables, options, world, plan, results, k);
    assert !FailedDependency(catalog, world, plan, |results|, k, m);
    TraceGrows(results, m, k);
    RecordedSuccess(results, m, p);
  }

  lemma CommandsPresent(catalog: TaskCatalog, tables: Tables, options: RunOptions, world: World,
                        plan: seq<string>, results: seq<TaskResult>, k: nat)
    requires IsRecord(catalog, tables, options, world, plan, results) && k < |results|
    requires results[k].exitCodes != []
    ensures plan[k] in TasksByRef(catalog.tasks) && TasksByRef(catalog.tasks)[plan[k]].commands != []
  {
    assert RecordedAt(catalog, tables, options, world, plan, results, k);
  }

  lemma UnsafeCommand(catalog: TaskCatalog, tables: Tables, options: RunOptions, world: World,
                      plan: seq<string>, results: seq<TaskResult>, k: nat, m: nat)
    requires IsRecord(catalog, tables, options, world, plan, results) && !options.dryRun
    requires FailedDependency(catalog, world, plan, |results|, k, m)
    ensures !DependencySafe(CatalogEdges(catalog), Trace(results))
  {
    var p := CommandPosition(catalog, tables, options, world, plan, results, k);
    if SucceededBefore(Trace(results), plan[m], p) {
      SuccessIsReal(catalog, tables, options, world, plan, results, plan[m], p);
    }
  }

  // A started task with commands has run one.
  lemma CommandPosition(catalog: TaskCatalog, tables: Tables, options: RunOptions, world: World,
                        plan: seq<string>, results: seq<TaskResult>, k: nat) returns (p: nat)
    requires IsRecord(catalog, tables, options, world, plan, results) && !options.dryRun
    requires k < |results| && plan[k] in TasksByRef(catalog.tasks) && TasksByRef(catalog.tasks)[plan[k]].commands != []
    ensures p < |Trace(results)| && Trace(results)[p].CommandRun? && Trace(results)[p].taskRef == plan[k]
  {
    RecordMeaning(catalog, tables, options, world, plan, results, k);
    EventPosition(results, k, 0);
    p := |Trace(results[..k])|;
  }

  // ---- Every run of a plan, whatever its commands return ----

  predicate Admitted(catalog: TaskCatalog, tables: Tables, options: RunOptions, world: World, plan: seq<string>, k: nat)
    requires k < |plan| && forall t :: t in plan ==> t in TasksByRef(catalog.tasks)
  {
    assert plan[k] in plan;
    Refusal(catalog, tables, options, world, TasksByRef(catalog.tasks)[plan[k]]).None?
  }

  // Which planned tasks are admitted.
  function Admissions(catalog: TaskCatalog, tables: Tables, options: RunOptions, world: World, plan: seq<string>): (admitted: seq<bool>)
    requires forall t :: t in plan ==> t in TasksByRef(catalog.tasks)
    ensures |admitted| == |plan|
    ensures forall k :: 0 <= k < |plan| ==> admitted[k] == Admitted(catalog, tables, options, world, plan, k)
  {
    seq(|plan|, k requires 0 <= k < |plan| => Admitted(catalog, tables, options, world, plan, k))
  }

  // The first position from i on that does not hold, or the length.
  function FirstFalse(flags: seq<bool>, i: nat): (n: nat)
    requires i <= |flags|
    ensures i <= n <= |flags|
    ensures forall k :: i <= k < n ==> flags[k]
    ensures n < |flags| ==> !flags[n]
    decreases |flags| - i
  {
    if i == |flags| || !flags[i] then i else FirstFalse(flags, i + 1)
  }

  // How many planned tasks a keep-going run starts. It does not depend on any exit code.
  function StartedCount(catalog: TaskCatalog, tables: Tables, options: RunOptions, world: World, plan: seq<string>): (n: nat)
    requires plan != [] && forall t :: t in plan ==> t in TasksByRef(catalog.tasks)
    ensures n <= |plan|
  {
    if OverallProfile(catalog, tables, options, plan).Err? then 0
    else FirstFalse(Admissions(catalog, tables, options, world, plan), 0)
  }

  // The same surroundings with other exit codes.
  function WithExitCodes(world: World, exitCode: (string, nat) -> int): World {
    World(exitCode, world.stackReady, world.renders)
  }

  // One complete run of the plan.
  ghost predicate IsRunOf(catalog: TaskCatalog, tables: Tables, options: RunOptions, world: World,
                          plan: seq<string>, results: seq<TaskResult>, outcome: Result<RunReport, RunError>)
    requires plan != []
  {
    IsRecord(catalog, tables, options, world, plan, results) && Ended(catalog, tables, options, world, plan, results, outcome)
  }

  ghost predicate SafeWhateverCommandsReturn(catalog: TaskCatalog, tables: Tables, options: RunOptions, world: World, plan: seq<string>)
    requires plan != []
  {
    forall exitCode, results, outcome ::
      IsRunOf(catalog, tables, options, WithExitCodes(world, exitCode), plan, results, outcome) ==>
        DependencySafe(CatalogEdges(catalog), Trace(results))
  }

  // Two planned tasks with commands, one of which is started and depends on the other.
  ghost predicate DependentCommands(catalog: TaskCatalog, plan: seq<string>, started: nat, k: nat, m: nat) {
    var tasks := TasksByRef(catalog.tasks);
    && k < started <= |plan| && m < |plan| && plan[k] in tasks && plan[m] in tasks
    && StrictlyReaches(CatalogEdges(catalog), plan[k], plan[m])
    && tasks[plan[k]].commands != [] && tasks[plan[m]].commands != []
  }

  // A keep-going run stops only where a task is refused.
  lemma StartedExactly(catalog: TaskCatalog, tables: Tables, options: RunOptions, world: World,
                       plan: seq<string>, results: seq<TaskResult>, outcome: Result<RunReport, RunError>)
    requires plan != [] && forall t :: t in plan ==> t in TasksByRef(catalog.tasks)
    requires IsRunOf(catalog, tables, options, world, plan, results, outcome) && !options.failFast
    ensures |results| == StartedCount(catalog, tables, options, world, plan)
  {
    var n := FirstFalse(Admissions(catalog, tables, options, world, plan), 0);
    assert n < |results| ==> RecordedAt(catalog, tables, options, world, plan, results, n);
    assert |results| < n ==> Admitted(catalog, tables, options, world, plan, |results|);
  }

  lemma AdmissionIgnoresExitCodes(catalog: TaskCatalog, tables: Tables, options: RunOptions, world: World,
                                  exitCode: (string, nat) -> int, task: TaskDef)
    ensures Refusal(catalog, tables, options, WithExitCodes(world, exitCode), task) == Refusal(catalog, tables, options, world, task)
  {
  }

  lemma SameAdmissions(catalog: TaskCatalog, tables: Tables, options: RunOptions, world: World,
                       exitCode: (string, nat) -> int, plan: seq<string>)
    requires forall t :: t in plan ==> t in TasksByRef(catalog.tasks)
    ensures Admissions(catalog, tables, options, WithExitCodes(world, exitCode), plan) ==
            Admissions(catalog, tables, options, world, plan)
  {
    forall k | 0 <= k < |plan|
      ensures Admitted(catalog, tables, options, WithExitCodes(world, exitCode), plan, k) ==
              Admitted(catalog, tables, options, world, plan, k)
    {
      assert plan[k] in plan;
      AdmissionIgnoresExitCodes(catalog, tables, options, world, exitCode, TasksByRef(catalog.tasks)[plan[k]]);
    }
  }

  lemma SameStart(catalog: TaskCatalog, tables: Tables, options: RunOptions, world: World, exitCode: (string, nat) -> int, plan: seq<string>)
    requires plan != [] && forall t :: t in plan ==> t in TasksByRef(catalog.tasks)
    ensures StartedCount(catalog, tables, options, WithExitCodes(world, exitCode), plan) ==
            StartedCount(catalog, tables, options, world, plan)
  {
    SameAdmissions(catalog, tables, options, world, exitCode, plan);
  }

  // The run of a keep-going plan exists in any world.
  lemma SomeRun(catalog: TaskCatalog, tables: Tables, options: RunOptions, world: World, plan: seq<string>)
    returns (results: seq<TaskResult>, outcome: Result<RunReport, RunError>)
    requires plan != [] && forall t :: t in plan ==> t in TasksByRef(catalog.tasks)
    requires !options.failFast
    ensures IsRunOf(catalog, tables, options, world, plan, results, outcome)
  {
    var tasks, overall := TasksByRef(catalog.tasks), OverallProfile(catalog, tables, options, plan);
    if overall.Err? {
      results, outcome := [], Err(ProfileRejected(overall.error));
    } else {
      var n := FirstFalse(Admissions(catalog, tables, options, world, plan), 0);
      assert forall k :: 0 <= k < n ==> plan[k] in plan;
      results := seq(n, k requires 0 <= k < n => RunOne(world, options, tasks[plan[k]]));
      forall k | 0 <= k < n ensures RecordedAt(catalog, tables, options, world, plan, results, k) {
        assert Admitted(catalog, tables, options, world, plan, k);
      }
      if n == |plan| {
        var ok := forall k :: 0 <= k < |results| ==> results[k].ok;
        outcome := Ok(RunReport(ok, overall.value, plan, results));
      } else {
        assert plan[n] in plan;
        outcome := Err(Refusal(catalog, tables, options, world, tasks[plan[n]]).value);
      }
    }
  }

  // Before the run: a plan is safe with --keep-going whatever its commands return if and only if
  // no task that will be started and has commands depends on a planned task with commands.
  lemma KeepGoingAlwaysSafeIff(catalog: TaskCatalog, tables: Tables, options: RunOptions, world: World, plan: seq<string>)
    requires plan != [] && DependenciesFirst(CatalogEdges(catalog), plan) && forall t :: t in plan ==> t in TasksByRef(catalog.tasks)
    requires !options.failFast && !options.dryRun
    ensures SafeWhateverCommandsReturn(catalog, tables, options, world, plan) <==>
            !exists k, m :: DependentCommands(catalog, plan, StartedCount(catalog, tables, options, world, plan), k, m)
  {
    var started := StartedCount(catalog, tables, options, world, plan);
    if k, m :| DependentCommands(catalog, plan, started, k, m) {
      EverythingFails(catalog, tables, options, world, plan, k, m);
    } else {
      forall exitCode, results, outcome | IsRunOf(catalog, tables, options, WithExitCodes(world, exitCode), plan, results, outcome)
        ensures DependencySafe(CatalogEdges(catalog), Trace(results))
      {
        var other := WithExitCodes(world, exitCode);
        StartedExactly(catalog, tables, options, other, plan, results, outcome);
        SameStart(catalog, tables, options, world, exitCode, plan);
        KeepGoingSafeIff(catalog, tables, options, other, plan, results);
        if k, m :| FailedDependency(catalog, other, plan, |results|, k, m) {
          assert DependentCommands(catalog, plan, started, k, m);
        }
      }
    }
  }

  // If every command fails, such a pair is executed unsafely.
  lemma EverythingFails(catalog: TaskCatalog, tables: Tables, options: RunOptions, world: World, plan: seq<string>, k: nat, m: nat)
    requires plan != [] && forall t :: t in plan ==> t in TasksByRef(catalog.tasks)
    requires !options.failFast && !options.dryRun
    requires DependentCommands(catalog, plan, StartedCount(catalog, tables, options, world, plan), k, m)
    ensures !SafeWhateverCommandsReturn(catalog, tables, options, world, plan)
  {
    var exitCode := (t: string, i: nat) => 1;
    var failing := WithExitCodes(world, exitCode);
    var results, outcome := SomeRun(catalog, tables, options, failing, plan);
    StartedExactly(catalog, tables, options, failing, plan, results, outcome);
    SameStart(catalog, tables, options, world, exitCode, plan);
    assert failing.exitCode(TasksByRef(catalog.tasks)[plan[m]].taskRef, 0) == 1;
    assert FailedDependency(catalog, failing, plan, |results|, k, m);
    UnsafeCommand(catalog, tables, options, failing, plan, results, k, m);
  }

  // When every planned task is admitted the condition is one on the catalog and the plan alone.
  lemma AdmittedPlanStartsWhole(catalog: TaskCatalog, tables: Tables, options: RunOptions, world: World, plan: seq<string>)
    requires plan != [] && forall t :: t in plan ==> t in TasksByRef(catalog.tasks)
    ensures StartedCount(catalog, tables, options, world, plan) == |plan| <==>
            && OverallProfile(catalog, tables, options, plan).Ok?
            && forall k :: 0 <= k < |plan| ==> Admitted(catalog, tables, options, world, plan, k)
  {
  }

  // ---- A concrete case ----

  // "test" depends on "build", "build" fails, and a keep-going run of "test" executes it anyway.
  function ExampleTask(ref: string, dependsOn: seq<string>): TaskDef {
    TaskDef(ref, [], ref, dependsOn, [], ["ci"], "NON_DESTRUCTIVE", C.None, [], [], {}, ["run"])
  }

  function ExampleCatalog(): TaskCatalog {
    TaskCatalog([ExampleTask("build", []), ExampleTask("test", ["build"])],
                [Profile("ci", "env", C.None, C.None, false)], [])
  }

  lemma ExampleLookup()
    ensures TasksByRef(ExampleCatalog().tasks) ==
            map["build" := ExampleTask("build", []), "test" := ExampleTask("test", ["build"])]
    ensures ProfilesByRef(ExampleCatalog().profiles) == map["ci" := Profile("ci", "env", C.None, C.None, false)]
  {
    var tasks, profiles := ExampleCatalog().tasks, ExampleCatalog().profiles;
    assert tasks[..1] == [tasks[0]];
    assert tasks[..1][..0] == [];
    assert profiles[..0] == [];
  }

  lemma ExampleEdges()
    ensures forall e :: e in CatalogEdges(ExampleCatalog()) <==> e == ("test", "build")
  {
    ExampleLookup();
    forall e ensures e in CatalogEdges(ExampleCatalog()) <==> e == ("test", "build") {
      EdgeMember(DependsOn(TasksByRef(ExampleCatalog().tasks)), e.0, e.1);
    }
  }

  lemma ExampleOrder(plan: seq<string>)
    requires plan == ["build", "test"]
    ensures DependenciesFirst(CatalogEdges(ExampleCatalog()), plan)
  {
    ExampleEdges();
    var edges := CatalogEdges(ExampleCatalog());
    forall e | e in Flip(edges) ensures ListedBefore(plan, e.0, e.1) {
      FlipMember(edges, e.0, e.1);
      assert plan[..1] == ["build"];
    }
  }

  lemma ExampleNames(t: TaskDef, a: string)
    requires t in ExampleCatalog().tasks && a in Names(t)
    ensures a == t.taskRef
  {
    assert Names(t) == [t.taskRef, t.taskRef];
  }

  lemma ExampleIsReferenced()
    ensures WellReferenced(ExampleCatalog())
  {
    var catalog := ExampleCatalog();
    assert Refs(catalog.tasks) == ["build", "test"];
    assert ProfileRefs(catalog.profiles) == ["ci"];
    forall s, t, a | s in catalog.tasks && t in catalog.tasks && a in Names(s) && a in Names(t) ensures s.taskRef == t.taskRef {
      ExampleNames(s, a);
      ExampleNames(t, a);
    }
    assert "build" in Refs(catalog.tasks) && "ci" in ProfileRefs(catalog.profiles);
  }

  lemma ExampleIsValid()
    ensures ValidCatalog(ExampleCatalog())
  {
    var catalog, plan := ExampleCatalog(), ["build", "test"];
    ExampleIsReferenced();
    assert Refs(catalog.tasks) == plan;
    ExampleLookup();
    ExampleOrder(plan);
    OrderIsAcyclic(DependsOn(TasksByRef(catalog.tasks)), plan);
  }

  lemma ExampleClosure(x: string)
    ensures InClosure(CatalogEdges(ExampleCatalog()), {"test"}, x) <==> x == "build" || x == "test"
  {
    var edges := CatalogEdges(ExampleCatalog());
    ExampleEdges();
    ReachesSelf(edges, "test");
    ReachesEdge(edges, "test", "build");
    assert "test" in {"test"};
    if Reaches(edges, "test", x) {
      var p :| IsPath(edges, p) && p[0] == "test" && Last(p) == x;
      ClosedUnderPath(edges, {"build", "test"}, p);
    }
  }

  lemma ExampleResolves(plan: seq<string>)
    requires plan == ["build", "test"]
    ensures Resolves(ExampleCatalog(), ["test"], Ok(plan))
  {
    var catalog := ExampleCatalog();
    assert catalog.tasks[1] in catalog.tasks && "test" in Names(catalog.tasks[1]);
    assert RequestedTasks(catalog, ["test"]) == {"test"};
    ExampleLookup();
    ExampleOrder(plan);
    forall x ensures x in plan <==> InClosure(CatalogEdges(catalog), {"test"}, x) {
      ExampleClosure(x);
    }
  }

  lemma ExampleAdmitted(tables: Tables, options: RunOptions, world: World, task: TaskDef)
    requires tables == Tables(map[], {}, map[], [("env", "provider")])
    requires options == RunOptions("ci", {}, false, false, C.None) && world.renders(task.taskRef)
    requires task == ExampleTask("build", []) || task == ExampleTask("test", ["build"])
    ensures Refusal(ExampleCatalog(), tables, options, world, task).None?
    ensures OverallProfile(ExampleCatalog(), tables, options, ["build", "test"]).Ok?
  {
    ExampleLookup();
    assert ("env", "provider") in tables.providerRows;
    GateExact(ExampleCatalog(), tables, task.taskRef, "ci", true, C.None);
    GateExact(ExampleCatalog(), tables, "test", "ci", false, C.None);
  }

  lemma ExampleRun(tables: Tables, options: RunOptions, world: World, plan: seq<string>)
    returns (results: seq<TaskResult>, outcome: Result<RunReport, RunError>)
    requires tables == Tables(map[], {}, map[], [("env", "provider")])
    requires options == RunOptions("ci", {}, false, false, C.None) && world.renders("build") && world.renders("test")
    requires plan == ["build", "test"]
    ensures |results| == 2 && IsRunOf(ExampleCatalog(), tables, options, world, plan, results, outcome) && outcome.Ok?
  {
    var catalog := ExampleCatalog();
    ExampleLookup();
    ExampleAdmitted(tables, options, world, ExampleTask("build", []));
    ExampleAdmitted(tables, options, world, ExampleTask("test", ["build"]));
    results, outcome := SomeRun(catalog, tables, options, world, plan);
    StartedExactly(catalog, tables, options, world, plan, results, outcome);
    AdmittedPlanStartsWhole(catalog, tables, options, world, plan);
  }

  // The runner accepts this catalog and this request, and a run of it that ends normally executes
  // "test" although "build" failed.
  lemma KeepGoingCounterexample()
    returns (tables: Tables, options: RunOptions, world: World, plan: seq<string>, results: seq<TaskResult>,
             outcome: Result<RunReport, RunError>)
    ensures !options.failFast && !options.dryRun && plan != []
    ensures ValidCatalog(ExampleCatalog()) && Resolves(ExampleCatalog(), ["test"], Ok(plan))
    ensures IsRecord(ExampleCatalog(), tables, options, world, plan, results)
    ensures Ended(ExampleCatalog(), tables, options, world, plan, results, outcome) && outcome.Ok?
    ensures !DependencySafe(CatalogEdges(ExampleCatalog()), Trace(results))
  {
    var catalog := ExampleCatalog();
    tables := Tables(map[], {}, map[], [("env", "provider")]);
    options := RunOptions("ci", {}, false, false, C.None);
    world := World((t, i) => if t == "build" then 1 else 0, t => true, t => true);
    plan := ["build", "test"];
    results, outcome := ExampleRun(tables, options, world, plan);
    ExampleIsValid();
    ExampleResolves(plan);
    ExampleLookup();
    ExampleEdges();
    assert world.exitCode("build", 0) == 1;
    ReachesEdge(CatalogEdges(catalog), "test", "build");
    assert FailedDependency(catalog, world, plan, |results|, 1, 0);
    UnsafeCommand(catalog, tables, options, world, plan, results, 1, 0);
  }
}
