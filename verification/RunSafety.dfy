// What a run guarantees, over every catalog, plan and outside world.
module RunSafety {
  import opened Sequences
  import opened Digraph
  import C = Checklist
  import opened Catalog
  import opened DependencySearch
  import opened PlanResolution
  import opened EnvironmentProfile
  import opened TaskRun

  // ---- Where an event comes from ----

  lemma {:induction false} EventOrigin(results: seq<TaskResult>, p: nat) returns (k: nat, i: nat)
    requires p < |Trace(results)|
    ensures k < |results| && i < |EventsOf(results[k])|
    ensures p == |Trace(results[..k])| + i && Trace(results)[p] == EventsOf(results[k])[i]
  {
    var n := |results| - 1;
    var before := Trace(results[..n]);
    if p < |before| {
      k, i := EventOrigin(results[..n], p);
      assert results[..n][..k] == results[..k];
    } else {
      k, i := n, p - |before|;
    }
  }

  lemma {:induction false} EventPosition(results: seq<TaskResult>, k: nat, i: nat)
    requires k < |results| && i < |EventsOf(results[k])|
    ensures var p := |Trace(results[..k])| + i; p < |Trace(results)| && Trace(results)[p] == EventsOf(results[k])[i]
    decreases |results|
  {
    var n := |results| - 1;
    if k < n {
      EventPosition(results[..n], k, i);
      assert results[..n][..k] == results[..k];
    }
  }

  lemma {:induction false} TraceGrows(results: seq<TaskResult>, k: nat, m: nat)
    requires k <= m <= |results|
    ensures |Trace(results[..k])| <= |Trace(results[..m])|
    ensures k < m ==> |Trace(results[..k])| + |EventsOf(results[k])| <= |Trace(results[..m])|
    decreases m
  {
    if k < m {
      TraceGrows(results, k, m - 1);
      assert results[..m][..m - 1] == results[..m - 1];
    }
  }

  // Task after task in record order, the trace holds its commands, in order and with their exit
  // codes, and then its result.
  lemma TraceInOrder(results: seq<TaskResult>, k: nat)
    requires k < |results|
    ensures var trace, base, r := Trace(results), |Trace(results[..k])|, results[k];
            && |Trace(results[..k + 1])| == base + |r.exitCodes| + 1 <= |trace|
            && (forall i :: 0 <= i < |r.exitCodes| ==> trace[base + i] == CommandRun(r.taskRef, i, r.exitCodes[i]))
            && trace[base + |r.exitCodes|] == ResultRecorded(r.taskRef, r.ok)
    ensures Trace(results[..0]) == []
  {
    var r := results[k];
    NextTrace(results, k);
    TraceGrows(results, k + 1, |results|);
    assert results[..|results|] == results;
    forall i | 0 <= i < |r.exitCodes|
      ensures Trace(results)[|Trace(results[..k])| + i] == CommandRun(r.taskRef, i, r.exitCodes[i])
    {
      EventPosition(results, k, i);
      assert EventsOf(r)[i] == CommandEvents(r.taskRef, r.exitCodes)[i];
    }
    EventPosition(results, k, |r.exitCodes|);
  }

  lemma NextTrace(results: seq<TaskResult>, k: nat)
    requires k < |results|
    ensures |Trace(results[..k + 1])| == |Trace(results[..k])| + |results[k].exitCodes| + 1
  {
    assert results[..k + 1][..k] == results[..k];
  }

  // ---- Dependency safety ----

  // Before any command of a task runs, every task it depends on, directly or not, has been
  // recorded as successful.
  ghost predicate DependencySafe(edges: Edges, trace: seq<Event>) {
    forall p, d :: 0 <= p < |trace| && trace[p].CommandRun? && StrictlyReaches(edges, trace[p].taskRef, d) ==>
      SucceededBefore(trace, d, p)
  }

  ghost predicate SucceededBefore(trace: seq<Event>, d: string, p: nat)
    requires p <= |trace|
  {
    exists m :: 0 <= m < p && trace[m] == ResultRecorded(d, true)
  }

  // A strict dependency of task k of the plan stands earlier in the plan.
  lemma DependencyEarlierInPlan(catalog: TaskCatalog, plan: seq<string>, k: nat, d: string) returns (m: nat)
    requires DependenciesFirst(CatalogEdges(catalog), plan) && k < |plan|
    requires StrictlyReaches(CatalogEdges(catalog), plan[k], d)
    ensures m < k && plan[m] == d
  {
    var edges, deps := CatalogEdges(catalog), DependsOn(TasksByRef(catalog.tasks));
    var p :| IsPath(edges, p) && |p| >= 2 && p[0] == plan[k] && Last(p) == d;
    assert (p[0], p[1]) in edges;
    EdgeMember(deps, p[0], p[1]);
    DependencyIsEarlier(deps, plan, p[0], p[1]);
    PathSlice(edges, p, 1, |p|);
    PathFalls(deps, plan, p[1..]);
    m := IndexOf(plan, d);
    assert IndexOf(plan, plan[k]) <= k;
  }

  lemma RecordedSuccess(results: seq<TaskResult>, m: nat, p: nat)
    requires m < |results| && results[m].ok && |Trace(results[..m])| + |EventsOf(results[m])| <= p <= |Trace(results)|
    ensures SucceededBefore(Trace(results), results[m].taskRef, p)
  {
    EventPosition(results, m, |EventsOf(results[m])| - 1);
  }

  // Fail-fast runs are dependency safe, whatever the commands return.
  lemma FailFastIsSafe(catalog: TaskCatalog, tables: Tables, options: RunOptions, world: World,
                       plan: seq<string>, results: seq<TaskResult>)
    requires DependenciesFirst(CatalogEdges(catalog), plan)
    requires IsRecord(catalog, tables, options, world, plan, results) && options.failFast
    ensures DependencySafe(CatalogEdges(catalog), Trace(results))
  {
    var edges, trace := CatalogEdges(catalog), Trace(results);
    forall p, d | 0 <= p < |trace| && trace[p].CommandRun? && StrictlyReaches(edges, trace[p].taskRef, d)
      ensures SucceededBefore(trace, d, p)
    {
      var k, i := EventOrigin(results, p);
      assert RecordedAt(catalog, tables, options, world, plan, results, k);
      var m := DependencyEarlierInPlan(catalog, plan, k, d);
      assert RecordedAt(catalog, tables, options, world, plan, results, m);
      TraceGrows(results, m, k);
      RecordedSuccess(results, m, p);
    }
  }

  // ---- What a record says ----

  lemma RecordMeaning(catalog: TaskCatalog, tables: Tables, options: RunOptions, world: World,
                      plan: seq<string>, results: seq<TaskResult>, k: nat)
    requires IsRecord(catalog, tables, options, world, plan, results) && k < |results| && !options.dryRun
    ensures plan[k] in TasksByRef(catalog.tasks) && results[k].taskRef == plan[k]
    ensures var task := TasksByRef(catalog.tasks)[plan[k]];
            && (results[k].ok <==> CommandsSucceed(world, task, 0))
            && (results[k].ok ==> |results[k].exitCodes| == |task.commands|)
            && (task.commands != [] ==> results[k].exitCodes != [])
  {
    assert RecordedAt(catalog, tables, options, world, plan, results, k);
    ExitCodesMeaning(world, TasksByRef(catalog.tasks)[plan[k]], options.failFast, 0);
  }

  // A recorded success names a task whose commands all succeeded.
  lemma SuccessIsReal(catalog: TaskCatalog, tables: Tables, options: RunOptions, world: World,
                      plan: seq<string>, results: seq<TaskResult>, d: string, p: nat)
    requires IsRecord(catalog, tables, options, world, plan, results) && !options.dryRun
    requires p <= |Trace(results)| && SucceededBefore(Trace(results), d, p)
    ensures d in TasksByRef(catalog.tasks) && CommandsSucceed(world, TasksByRef(catalog.tasks)[d], 0)
  {
    var q :| 0 <= q < p && Trace(results)[q] == ResultRecorded(d, true);
    var m, i := EventOrigin(results, q);
    RecordMeaning(catalog, tables, options, world, plan, results, m);
  }

  // ---- Overall result ----

  // A real run that ends normally is ok exactly when every command of every planned task returns
  // zero, in either mode; and then every planned task ran all its commands.
  lemma OkMeansEverythingSucceeded(catalog: TaskCatalog, tables: Tables, options: RunOptions, world: World,
                                   plan: seq<string>, results: seq<TaskResult>, report: RunReport)
    requires IsRecord(catalog, tables, options, world, plan, results) && !options.dryRun
    requires plan != [] && Ended(catalog, tables, options, world, plan, results, Ok(report))
    requires forall t :: t in plan ==> t in TasksByRef(catalog.tasks)
    ensures report.ok <==> forall t :: t in plan ==> CommandsSucceed(world, TasksByRef(catalog.tasks)[t], 0)
    ensures report.ok ==> |results| == |plan|
    ensures report.ok ==> forall k :: 0 <= k < |plan| ==>
              k < |results| && results[k].taskRef == plan[k] && |results[k].exitCodes| == |TasksByRef(catalog.tasks)[plan[k]].commands|
  {
    var tasks := TasksByRef(catalog.tasks);
    forall k | 0 <= k < |results|
      ensures plan[k] in tasks && results[k].taskRef == plan[k]
      ensures results[k].ok <==> CommandsSucceed(world, tasks[plan[k]], 0)
      ensures results[k].ok ==> |results[k].exitCodes| == |tasks[plan[k]].commands|
    {
      RecordMeaning(catalog, tables, options, world, plan, results, k);
    }
    if report.ok {
      forall t | t in plan ensures CommandsSucceed(world, tasks[t], 0) {
        var k :| 0 <= k < |plan| && plan[k] == t;
        assert results[k].ok;
      }
    } else {
      var k :| 0 <= k < |results| && !results[k].ok;
      assert plan[k] in plan;
    }
  }

  // A dry run executes nothing and, when it ends normally, is ok.
  lemma DryRunExecutesNothing(catalog: TaskCatalog, tables: Tables, options: RunOptions, world: World,
                              plan: seq<string>, results: seq<TaskResult>, p: nat)
    requires IsRecord(catalog, tables, options, world, plan, results) && options.dryRun
    requires p < |Trace(results)|
    ensures Trace(results)[p].ResultRecorded? && Trace(results)[p].ok
  {
    var k, i := EventOrigin(results, p);
    assert RecordedAt(catalog, tables, options, world, plan, results, k);
  }

  // Every command that ran is the next one of a catalog task that passed every check: its
  // parameters were given, its templates rendered, its preconditions held, and the gate admitted it.
  lemma CommandsRunChecked(catalog: TaskCatalog, tables: Tables, options: RunOptions, world: World,
                           plan: seq<string>, results: seq<TaskResult>, p: nat)
    requires IsRecord(catalog, tables, options, world, plan, results)
    requires p < |Trace(results)| && Trace(results)[p].CommandRun?
    ensures !options.dryRun
    ensures var e := Trace(results)[p];
            exists a :: 0 <= a < |catalog.tasks| &&
              var task := catalog.tasks[a];
              && task.taskRef == e.taskRef && e.index < |task.commands| && e.exitCode == world.exitCode(e.taskRef, e.index)
              && (forall i :: 0 <= i < |task.preconditions| ==> task.preconditions[i] == "LOCAL_STACK_SEMANTIC_READY")
              && (task.preconditions != [] ==> world.stackReady(e.taskRef))
              && (forall q :: q in task.requiredParams ==> q in task.defaultParams || q in options.cliParams)
              && world.renders(e.taskRef)
              && ResolveEnvironmentProfile(catalog, tables, e.taskRef, options.profileRef, true, options.ack).Ok?
  {
    var k, i := EventOrigin(results, p);
    RecordedStarted(catalog, tables, options, world, plan, results, k);
    var a :| 0 <= a < |catalog.tasks| && catalog.tasks[a].taskRef == plan[k]
             && MayStart(catalog, tables, options, world, catalog.tasks[a]) && Records(options, world, catalog.tasks[a], results[k]);
    var task := catalog.tasks[a];
    assert forall m :: 0 <= m < |task.preconditions| ==> KnownPrecondition(task.preconditions[m]);
  }

  // ---- Destructive tasks ----

  // Every destructive task of which a command ran had a profile that permits destruction, and the
  // run's acknowledgement was that task's own non-empty confirmation.
  lemma DestructiveCommandsAuthorised(catalog: TaskCatalog, tables: Tables, options: RunOptions, world: World,
                                      plan: seq<string>, results: seq<TaskResult>, p: nat)
    requires IsRecord(catalog, tables, options, world, plan, results)
    requires p < |Trace(results)| && Trace(results)[p].CommandRun?
    ensures var t, tasks, profiles := Trace(results)[p].taskRef, TasksByRef(catalog.tasks), ProfilesByRef(catalog.profiles);
            && t in tasks && options.profileRef in profiles
            && (tasks[t].destructivePosture != "NON_DESTRUCTIVE" ==>
                  && profiles[options.profileRef].destructiveAllowed
                  && options.ack.Some? && options.ack.value != "" && tasks[t].typedConfirmation == options.ack)
  {
    var k, i := EventOrigin(results, p);
    assert RecordedAt(catalog, tables, options, world, plan, results, k);
    var task := TasksByRef(catalog.tasks)[plan[k]];
    GateExact(catalog, tables, task.taskRef, options.profileRef, !options.dryRun, options.ack);
  }

  // So one run never executes two destructive tasks that ask for different confirmations.
  lemma OneConfirmationPerRun(catalog: TaskCatalog, tables: Tables, options: RunOptions, world: World,
                              plan: seq<string>, results: seq<TaskResult>, p: nat, q: nat)
    requires IsRecord(catalog, tables, options, world, plan, results)
    requires p < |Trace(results)| && Trace(results)[p].CommandRun? && q < |Trace(results)| && Trace(results)[q].CommandRun?
    ensures var s, t, tasks := Trace(results)[p].taskRef, Trace(results)[q].taskRef, TasksByRef(catalog.tasks);
            && s in tasks && t in tasks
            && (tasks[s].destructivePosture != "NON_DESTRUCTIVE" && tasks[t].destructivePosture != "NON_DESTRUCTIVE" ==>
                  tasks[s].typedConfirmation == tasks[t].typedConfirmation)
  {
    DestructiveCommandsAuthorised(catalog, tables, options, world, plan, results, p);
    DestructiveCommandsAuthorised(catalog, tables, options, world, plan, results, q);
  }
}
