// From requested names to an ordered task plan: the second depth-first search, which relies on
// validation having excluded cycles, and the conflict scan.
module PlanResolution {
  import opened Sequences
  import opened Digraph
  import C = Checklist
  import opened Catalog
  import opened DependencySearch

  // x is one of the roots or something a root depends on, directly or not.
  ghost predicate InClosure(edges: Edges, roots: set<string>, x: string) {
    exists r :: r in roots && Reaches(edges, r, x)
  }

  class PlanBuilder {
    const deps: Deps
    var seen: set<string>
    var resolved: seq<string>

    constructor (deps: Deps)
      ensures this.deps == deps && seen == {} && resolved == []
    {
      this.deps := deps;
      seen, resolved := {}, [];
    }

    ghost predicate Valid()
      reads this
    {
      && Closed(deps) && seen == Elements(resolved) && seen <= deps.Keys
      && DependenciesFirst(DependencyEdges(deps), resolved)
    }

    // Unlike the cycle search this one marks a task only after its dependencies, so it ends only
    // because there is no cycle: each nested call moves strictly down some dependency order.
    method AddTask(taskRef: string, ghost order: seq<string>)
      requires Valid() && taskRef in deps
      requires DependenciesFirst(DependencyEdges(deps), order) && taskRef in order
      modifies this
      decreases IndexOf(order, taskRef)
      ensures Valid() && taskRef in resolved && old(resolved) <= resolved
      ensures forall x :: x in resolved ==> x in old(resolved) || Reaches(DependencyEdges(deps), taskRef, x)
    {
      if taskRef in seen {
        return;
      }
      var dependencies := deps[taskRef];
      for i := 0 to |dependencies|
        invariant Valid() && old(resolved) <= resolved
        invariant forall d :: d in dependencies[..i] ==> d in resolved
        invariant forall x :: x in resolved ==> x in old(resolved) || (x != taskRef && Reaches(DependencyEdges(deps), taskRef, x))
      {
        var d := dependencies[i];
        assert d in dependencies;
        DependencyIsEarlier(deps, order, taskRef, d);
        ghost var before := resolved;
        AddTask(d, order);
        forall x | x in resolved && x !in before ensures x != taskRef && Reaches(DependencyEdges(deps), taskRef, x) {
          ReachesEdge(DependencyEdges(deps), taskRef, d);
          ReachesTransitive(DependencyEdges(deps), taskRef, d, x);
          NotReachedBack(deps, order, taskRef, d, x);
        }
        assert dependencies[..i + 1] == dependencies[..i] + [d];
      }
      assert dependencies[..|dependencies|] == dependencies;
      assert taskRef !in resolved;
      AppendAfterDependencies(deps, resolved, taskRef);
      ReachesSelf(DependencyEdges(deps), taskRef);
      assert Elements(resolved + [taskRef]) == Elements(resolved) + {taskRef};
      seen := seen + {taskRef};
      resolved := resolved + [taskRef];
    }
  }

  lemma DependencyIsEarlier(deps: Deps, order: seq<string>, t: string, d: string)
    requires DependenciesFirst(DependencyEdges(deps), order) && t in order && t in deps && d in deps[t]
    ensures d in order && IndexOf(order, d) < IndexOf(order, t)
    ensures (t, d) in DependencyEdges(deps)
  {
    var edges := DependencyEdges(deps);
    var e, j := (d, t), IndexOf(order, t);
    FlipMember(edges, d, t);
    EdgeMember(deps, t, d);
    assert e in Flip(edges);
    assert ListedBefore(order, e.0, e.1);
    assert d in order[..j];
    var k :| 0 <= k < j && order[k] == d;
  }

  // A task never depends on itself through one of its dependencies.
  lemma NotReachedBack(deps: Deps, order: seq<string>, t: string, d: string, x: string)
    requires DependenciesFirst(DependencyEdges(deps), order) && t in order && t in deps && d in deps[t]
    requires Reaches(DependencyEdges(deps), d, x)
    ensures x != t
  {
    var edges := DependencyEdges(deps);
    var p :| IsPath(edges, p) && p[0] == d && Last(p) == x;
    DependencyIsEarlier(deps, order, t, d);
    PathFalls(deps, order, p);
  }

  lemma {:induction false} PathFalls(deps: Deps, order: seq<string>, p: seq<string>)
    requires DependenciesFirst(DependencyEdges(deps), order) && IsPath(DependencyEdges(deps), p) && p[0] in order
    ensures Last(p) in order && IndexOf(order, Last(p)) <= IndexOf(order, p[0])
  {
    if |p| > 1 {
      EdgeMember(deps, p[0], p[1]);
      assert (p[0], p[1]) in DependencyEdges(deps);
      DependencyIsEarlier(deps, order, p[0], p[1]);
      PathSlice(DependencyEdges(deps), p, 1, |p|);
      PathFalls(deps, order, p[1..]);
    }
  }

  // A dependencies-first list contains everything its members reach.
  lemma OrderedListIsClosed(deps: Deps, resolved: seq<string>, p: seq<string>)
    requires DependenciesFirst(DependencyEdges(deps), resolved) && IsPath(DependencyEdges(deps), p) && p[0] in resolved
    ensures Last(p) in resolved
  {
    PathFalls(deps, resolved, p);
  }

  // ---- Requests ----

  // The refs of the tasks some requested name belongs to.
  ghost function RequestedTasks(catalog: TaskCatalog, requested: seq<string>): set<string> {
    set t | t in catalog.tasks && (exists name :: name in requested && name in Names(t)) :: t.taskRef
  }

  ghost predicate NamesKnown(catalog: TaskCatalog, requested: seq<string>) {
    forall name :: name in requested ==> exists t :: t in catalog.tasks && name in Names(t)
  }

  // The result lists exactly the dependency closure of the requested tasks, once each, every
  // dependency before its dependents.
  ghost predicate IsPlanFor(edges: Edges, roots: set<string>, plan: seq<string>) {
    && DependenciesFirst(edges, plan)
    && forall x :: x in plan <==> InClosure(edges, roots, x)
  }

  ghost predicate ConflictIn(catalog: TaskCatalog, t: string, c: string) {
    t in TasksByRef(catalog.tasks) && c in TasksByRef(catalog.tasks)[t].conflictsWith
  }

  // Two tasks of the closure exclude each other.
  ghost predicate ClosureHasConflict(catalog: TaskCatalog, roots: set<string>) {
    exists t, c :: InClosure(CatalogEdges(catalog), roots, t) && InClosure(CatalogEdges(catalog), roots, c) && ConflictIn(catalog, t, c)
  }

  // t is the first task of the plan that excludes another one of the plan, c the first it lists.
  ghost predicate FirstConflictAt(tasks: map<string, TaskDef>, plan: seq<string>, i: nat, k: nat, t: string, c: string) {
    && i < |plan| && plan[i] == t && t in tasks && k < |tasks[t].conflictsWith| && tasks[t].conflictsWith[k] == c && c in plan
    && (forall m, x :: 0 <= m < i && plan[m] in tasks && x in tasks[plan[m]].conflictsWith ==> x !in plan)
    && (forall m :: 0 <= m < k ==> tasks[t].conflictsWith[m] !in plan)
  }

  // Some plan for the request, in dependency order, has this pair as its first conflict.
  ghost predicate ConflictOfPlan(catalog: TaskCatalog, roots: set<string>, t: string, c: string) {
    exists plan, i: nat, k: nat :: IsPlanFor(CatalogEdges(catalog), roots, plan) && FirstConflictAt(TasksByRef(catalog.tasks), plan, i, k, t, c)
  }

  // What resolution answers, stated through the requested set alone.
  ghost predicate Resolves(catalog: TaskCatalog, requested: seq<string>, result: Result<seq<string>, CatalogError>) {
    var roots := RequestedTasks(catalog, requested);
    if requested == [] then
      result == Err(TaskRefRequired)
    else if !NamesKnown(catalog, requested) then
      result.Err? && result.error.TaskRefUnknown? && IsFirstMissing(requested, AllNames(catalog.tasks), result.error.requested)
    else if ClosureHasConflict(catalog, roots) then
      result.Err? && result.error.CombinationConflict? && ConflictOfPlan(catalog, roots, result.error.taskRef, result.error.conflict)
    else
      result.Ok? && IsPlanFor(CatalogEdges(catalog), roots, result.value) && result.value != []
  }

  // ---- The same answer, read off the catalog's task list ----

  // refs holds every task that goes by a requested name.
  ghost predicate HoldsRequest(tasks: seq<TaskDef>, requested: seq<string>, refs: set<string>) {
    forall i, name :: 0 <= i < |tasks| && name in requested && GoesBy(tasks[i], name) ==> tasks[i].taskRef in refs
  }

  // With each of its tasks, refs holds everything that task depends on.
  ghost predicate HoldsDependencies(tasks: seq<TaskDef>, refs: set<string>) {
    forall i, d :: 0 <= i < |tasks| && tasks[i].taskRef in refs && d in tasks[i].dependsOn ==> d in refs
  }

  ghost predicate DependenciesListed(tasks: seq<TaskDef>, plan: seq<string>) {
    forall i, k, d :: 0 <= i < |tasks| && 0 <= k < |plan| && plan[k] == tasks[i].taskRef && d in tasks[i].dependsOn ==> d in plan[..k]
  }

  // The plan lists the least set that holds the request and its members' dependencies, each ref
  // once and after what it depends on.
  ghost predicate LeastPlan(tasks: seq<TaskDef>, requested: seq<string>, plan: seq<string>) {
    && NoDup(plan) && HoldsRequest(tasks, requested, Elements(plan)) && DependenciesListed(tasks, plan)
    && forall refs :: HoldsRequest(tasks, requested, refs) && HoldsDependencies(tasks, refs) ==> Elements(plan) <= refs
  }

  lemma PlanListsFirst(catalog: TaskCatalog, plan: seq<string>)
    requires NoDup(Refs(catalog.tasks)) && DependenciesFirst(CatalogEdges(catalog), plan)
    ensures DependenciesListed(catalog.tasks, plan)
  {
    var tasks, edges := catalog.tasks, CatalogEdges(catalog);
    forall i, k, d | 0 <= i < |tasks| && 0 <= k < |plan| && plan[k] == tasks[i].taskRef && d in tasks[i].dependsOn
      ensures d in plan[..k]
    {
      var e := (d, plan[k]);
      assert ListsDependency(tasks, plan[k], d);
      CatalogEdgeMeans(catalog, plan[k], d);
      FlipMember(edges, d, plan[k]);
      assert e in Flip(edges) && ListedBefore(plan, e.0, e.1);
    }
  }

  lemma ClosureInside(catalog: TaskCatalog, roots: set<string>, refs: set<string>, x: string)
    requires NoDup(Refs(catalog.tasks)) && roots <= refs && HoldsDependencies(catalog.tasks, refs)
    requires InClosure(CatalogEdges(catalog), roots, x)
    ensures x in refs
  {
    var edges := CatalogEdges(catalog);
    var r :| r in roots && Reaches(edges, r, x);
    var p :| IsPath(edges, p) && p[0] == r && Last(p) == x;
    forall e | e in edges && e.0 in refs ensures e.1 in refs {
      CatalogEdgeMeans(catalog, e.0, e.1);
    }
    ClosedUnderPath(edges, refs, p);
  }

  lemma RequestHeld(catalog: TaskCatalog, requested: seq<string>, refs: set<string>)
    ensures HoldsRequest(catalog.tasks, requested, refs) <==> RequestedTasks(catalog, requested) <= refs
  {
    var tasks := catalog.tasks;
    forall t, name | t in tasks ensures name in Names(t) <==> GoesBy(t, name) {
      NamesAreExact(t, name);
    }
    if HoldsRequest(tasks, requested, refs) {
      forall r | r in RequestedTasks(catalog, requested) ensures r in refs {
        var t :| t in tasks && t.taskRef == r && exists name :: name in requested && name in Names(t);
        var name :| name in requested && name in Names(t);
        var i :| 0 <= i < |tasks| && tasks[i] == t;
        assert GoesBy(tasks[i], name);
      }
    }
    if RequestedTasks(catalog, requested) <= refs {
      forall i, name | 0 <= i < |tasks| && name in requested && GoesBy(tasks[i], name) ensures tasks[i].taskRef in refs {
        assert tasks[i] in tasks && name in Names(tasks[i]);
        assert tasks[i].taskRef in RequestedTasks(catalog, requested);
      }
    }
  }

  lemma PlanIsLeast(catalog: TaskCatalog, requested: seq<string>, plan: seq<string>)
    requires NoDup(Refs(catalog.tasks)) && IsPlanFor(CatalogEdges(catalog), RequestedTasks(catalog, requested), plan)
    ensures LeastPlan(catalog.tasks, requested, plan)
  {
    var edges, roots := CatalogEdges(catalog), RequestedTasks(catalog, requested);
    PlanListsFirst(catalog, plan);
    forall r | r in roots ensures r in Elements(plan) {
      ReachesSelf(edges, r);
      assert InClosure(edges, roots, r);
      assert r in plan;
    }
    RequestHeld(catalog, requested, Elements(plan));
    forall refs | HoldsRequest(catalog.tasks, requested, refs) && HoldsDependencies(catalog.tasks, refs) ensures Elements(plan) <= refs {
      RequestHeld(catalog, requested, refs);
      forall x | x in Elements(plan) ensures x in refs {
        assert x in plan;
        ClosureInside(catalog, roots, refs, x);
      }
    }
  }

  // There is one such set.
  lemma LeastPlanUnique(tasks: seq<TaskDef>, requested: seq<string>, a: seq<string>, b: seq<string>)
    requires LeastPlan(tasks, requested, a) && LeastPlan(tasks, requested, b)
    ensures Elements(a) == Elements(b) && |a| == |b|
  {
    LeastPlanCloses(tasks, requested, a);
    LeastPlanCloses(tasks, requested, b);
    NoDupSize(a);
    NoDupSize(b);
  }

  lemma LeastPlanCloses(tasks: seq<TaskDef>, requested: seq<string>, plan: seq<string>)
    requires LeastPlan(tasks, requested, plan)
    ensures HoldsDependencies(tasks, Elements(plan))
  {
    forall i, d | 0 <= i < |tasks| && tasks[i].taskRef in Elements(plan) && d in tasks[i].dependsOn ensures d in Elements(plan) {
      var k :| 0 <= k < |plan| && plan[k] == tasks[i].taskRef;
      assert d in plan[..k];
    }
  }

  // The k-th conflict of task a, which stands at plan position i, is in the plan, and it is the
  // first such conflict that the plan meets.
  ghost predicate FirstClash(tasks: seq<TaskDef>, plan: seq<string>, i: nat, a: nat, k: nat) {
    && i < |plan| && a < |tasks| && plan[i] == tasks[a].taskRef && k < |tasks[a].conflictsWith| && tasks[a].conflictsWith[k] in plan
    && (forall m :: 0 <= m < k ==> tasks[a].conflictsWith[m] !in plan)
    && (forall m, b, c :: 0 <= m < i && 0 <= b < |tasks| && plan[m] == tasks[b].taskRef && c in tasks[b].conflictsWith ==> c !in plan)
  }

  ghost predicate NoClash(tasks: seq<TaskDef>, plan: seq<string>) {
    forall a, c :: 0 <= a < |tasks| && tasks[a].taskRef in plan && c in tasks[a].conflictsWith ==> c !in plan
  }

  ghost predicate KnownName(tasks: seq<TaskDef>, name: string) {
    exists i :: 0 <= i < |tasks| && GoesBy(tasks[i], name)
  }

  // What the request is answered, error by error.
  ghost predicate AnswersRequest(tasks: seq<TaskDef>, requested: seq<string>, result: Result<seq<string>, CatalogError>) {
    if requested == [] then
      result == Err(TaskRefRequired)
    else if exists name :: name in requested && !KnownName(tasks, name) then
      exists i :: 0 <= i < |requested| && !KnownName(tasks, requested[i])
        && (forall m :: 0 <= m < i ==> KnownName(tasks, requested[m])) && result == Err(TaskRefUnknown(requested[i]))
    else
      exists plan :: LeastPlan(tasks, requested, plan) && PlanAnswers(tasks, plan, result)
  }

  ghost predicate PlanAnswers(tasks: seq<TaskDef>, plan: seq<string>, result: Result<seq<string>, CatalogError>) {
    if NoClash(tasks, plan) then result == Ok(plan)
    else result.Err? && result.error.CombinationConflict? && ClashesFirst(tasks, plan, result.error.taskRef, result.error.conflict)
  }

  ghost predicate ClashesFirst(tasks: seq<TaskDef>, plan: seq<string>, t: string, c: string) {
    exists i: nat, a: nat, k: nat :: FirstClash(tasks, plan, i, a, k) && plan[i] == t && tasks[a].conflictsWith[k] == c
  }

  lemma NameKnownIff(catalog: TaskCatalog, name: string)
    ensures KnownName(catalog.tasks, name) <==> name in AllNames(catalog.tasks)
    ensures KnownName(catalog.tasks, name) <==> exists t :: t in catalog.tasks && name in Names(t)
  {
    var tasks := catalog.tasks;
    forall t ensures name in Names(t) <==> GoesBy(t, name) {
      NamesAreExact(t, name);
    }
    if i :| 0 <= i < |tasks| && GoesBy(tasks[i], name) {
      assert tasks[i] in tasks && name in Names(tasks[i]);
    }
    if t :| t in tasks && name in Names(t) {
      var i :| 0 <= i < |tasks| && tasks[i] == t;
      assert GoesBy(tasks[i], name);
    }
  }

  lemma ConflictAt(catalog: TaskCatalog, t: string) returns (a: nat)
    requires t in TasksByRef(catalog.tasks)
    ensures a < |catalog.tasks| && catalog.tasks[a] == TasksByRef(catalog.tasks)[t] && catalog.tasks[a].taskRef == t
  {
    a :| 0 <= a < |catalog.tasks| && catalog.tasks[a] == TasksByRef(catalog.tasks)[t];
  }

  lemma ClashOfConflict(catalog: TaskCatalog, plan: seq<string>, i: nat, k: nat, t: string, c: string)
    requires NoDup(Refs(catalog.tasks)) && FirstConflictAt(TasksByRef(catalog.tasks), plan, i, k, t, c)
    ensures ClashesFirst(catalog.tasks, plan, t, c)
  {
    var tasks := catalog.tasks;
    var a := ConflictAt(catalog, t);
    forall m, b, x | 0 <= m < i && 0 <= b < |tasks| && plan[m] == tasks[b].taskRef && x in tasks[b].conflictsWith ensures x !in plan {
      RefAt(tasks, b);
    }
    assert FirstClash(tasks, plan, i, a, k);
  }

  lemma NoClashIff(catalog: TaskCatalog, requested: seq<string>, plan: seq<string>)
    requires NoDup(Refs(catalog.tasks)) && IsPlanFor(CatalogEdges(catalog), RequestedTasks(catalog, requested), plan)
    ensures NoClash(catalog.tasks, plan) <==> !ClosureHasConflict(catalog, RequestedTasks(catalog, requested))
  {
    var tasks, edges, roots := catalog.tasks, CatalogEdges(catalog), RequestedTasks(catalog, requested);
    if t, c :| InClosure(edges, roots, t) && InClosure(edges, roots, c) && ConflictIn(catalog, t, c) {
      var a := ConflictAt(catalog, t);
      assert tasks[a].taskRef in plan && c in tasks[a].conflictsWith && c in plan;
    }
    if a, c :| 0 <= a < |tasks| && tasks[a].taskRef in plan && c in tasks[a].conflictsWith && c in plan {
      RefAt(tasks, a);
      assert InClosure(edges, roots, tasks[a].taskRef) && InClosure(edges, roots, c) && ConflictIn(catalog, tasks[a].taskRef, c);
    }
  }

  lemma UnknownAnswer(catalog: TaskCatalog, requested: seq<string>, x: string)
    requires !NamesKnown(catalog, requested) && IsFirstMissing(requested, AllNames(catalog.tasks), x)
    ensures requested != [] && AnswersRequest(catalog.tasks, requested, Err(TaskRefUnknown(x)))
  {
    forall name ensures KnownName(catalog.tasks, name) <==> name in AllNames(catalog.tasks) {
      NameKnownIff(catalog, name);
    }
    var i :| 0 <= i < |requested| && requested[i] == x && forall m :: 0 <= m < i ==> requested[m] in AllNames(catalog.tasks);
    assert requested[i] in requested && !KnownName(catalog.tasks, requested[i]);
  }

  lemma PlanAnswer(catalog: TaskCatalog, requested: seq<string>, plan: seq<string>)
    requires NoDup(Refs(catalog.tasks)) && requested != [] && NamesKnown(catalog, requested)
    requires IsPlanFor(CatalogEdges(catalog), RequestedTasks(catalog, requested), plan)
    requires !ClosureHasConflict(catalog, RequestedTasks(catalog, requested))
    ensures AnswersRequest(catalog.tasks, requested, Ok(plan))
  {
    forall name | name in requested ensures KnownName(catalog.tasks, name) {
      NameKnownIff(catalog, name);
    }
    PlanIsLeast(catalog, requested, plan);
    NoClashIff(catalog, requested, plan);
  }

  lemma ClashingPlan(catalog: TaskCatalog, requested: seq<string>, t: string, c: string) returns (plan: seq<string>)
    requires NoDup(Refs(catalog.tasks)) && ConflictOfPlan(catalog, RequestedTasks(catalog, requested), t, c)
    requires ClosureHasConflict(catalog, RequestedTasks(catalog, requested))
    ensures LeastPlan(catalog.tasks, requested, plan) && !NoClash(catalog.tasks, plan) && ClashesFirst(catalog.tasks, plan, t, c)
  {
    var i: nat, k: nat;
    plan, i, k :| IsPlanFor(CatalogEdges(catalog), RequestedTasks(catalog, requested), plan)
                  && FirstConflictAt(TasksByRef(catalog.tasks), plan, i, k, t, c);
    PlanIsLeast(catalog, requested, plan);
    NoClashIff(catalog, requested, plan);
    ClashOfConflict(catalog, plan, i, k, t, c);
  }

  lemma ConflictAnswer(catalog: TaskCatalog, requested: seq<string>, t: string, c: string)
    requires NoDup(Refs(catalog.tasks)) && requested != [] && NamesKnown(catalog, requested)
    requires ConflictOfPlan(catalog, RequestedTasks(catalog, requested), t, c)
    requires ClosureHasConflict(catalog, RequestedTasks(catalog, requested))
    ensures AnswersRequest(catalog.tasks, requested, Err(CombinationConflict(t, c)))
  {
    forall name | name in requested ensures KnownName(catalog.tasks, name) {
      NameKnownIff(catalog, name);
    }
    var plan := ClashingPlan(catalog, requested, t, c);
    assert PlanAnswers(catalog.tasks, plan, Err(CombinationConflict(t, c)));
  }

  lemma ResolvesMeans(catalog: TaskCatalog, requested: seq<string>, result: Result<seq<string>, CatalogError>)
    requires NoDup(Refs(catalog.tasks)) && Resolves(catalog, requested, result)
    ensures AnswersRequest(catalog.tasks, requested, result)
  {
    if requested != [] {
      if !NamesKnown(catalog, requested) {
        UnknownAnswer(catalog, requested, result.error.requested);
      } else if ClosureHasConflict(catalog, RequestedTasks(catalog, requested)) {
        ConflictAnswer(catalog, requested, result.error.taskRef, result.error.conflict);
      } else {
        PlanAnswer(catalog, requested, result.value);
      }
    }
  }

  method Canonicalise(catalog: TaskCatalog, requested: seq<string>, aliases: map<string, string>)
    returns (result: Result<seq<string>, CatalogError>)
    requires AliasMapOf(catalog.tasks, aliases)
    ensures result.Ok? <==> NamesKnown(catalog, requested)
    ensures result.Ok? ==> Elements(result.value) == RequestedTasks(catalog, requested)
    ensures result.Err? ==> result.error.TaskRefUnknown? && IsFirstMissing(requested, AllNames(catalog.tasks), result.error.requested)
  {
    var canonical: seq<string> := [];
    for i := 0 to |requested|
      invariant forall m :: 0 <= m < i ==> requested[m] in aliases
      invariant Elements(canonical) == MappedTo(requested[..i], aliases)
    {
      var name := requested[i];
      if name !in aliases {
        FirstUnknownName(catalog, requested, aliases, i);
        return Err(TaskRefUnknown(name));
      }
      MappedStep(requested, i, aliases, canonical);
      if aliases[name] !in canonical {
        canonical := canonical + [aliases[name]];
      }
    }
    assert requested[..|requested|] == requested;
    assert forall name :: name in requested ==> name in aliases;
    CanonicalIsRequested(catalog, requested, aliases);
    result := Ok(canonical);
  }

  lemma FirstUnknownName(catalog: TaskCatalog, requested: seq<string>, aliases: map<string, string>, i: nat)
    requires AliasMapOf(catalog.tasks, aliases) && i < |requested| && requested[i] !in aliases
    requires forall m :: 0 <= m < i ==> requested[m] in aliases
    ensures !NamesKnown(catalog, requested) && IsFirstMissing(requested, AllNames(catalog.tasks), requested[i])
  {
    MappedNames(catalog.tasks, aliases);
    assert forall m :: 0 <= m < i ==> requested[m] in aliases.Keys;
    assert requested[i] in requested && !exists t :: t in catalog.tasks && requested[i] in Names(t);
  }

  // The refs the names are mapped to.
  function MappedTo(names: seq<string>, aliases: map<string, string>): set<string> {
    set name | name in names && name in aliases :: aliases[name]
  }

  lemma MappedStep(requested: seq<string>, i: nat, aliases: map<string, string>, canonical: seq<string>)
    requires i < |requested| && requested[i] in aliases && Elements(canonical) == MappedTo(requested[..i], aliases)
    ensures Elements(canonical + [aliases[requested[i]]]) == MappedTo(requested[..i + 1], aliases)
    ensures aliases[requested[i]] in canonical ==> Elements(canonical) == MappedTo(requested[..i + 1], aliases)
  {
    var ref := aliases[requested[i]];
    assert requested[..i + 1] == requested[..i] + [requested[i]];
    assert Elements(canonical + [ref]) == Elements(canonical) + {ref};
    assert MappedTo(requested[..i + 1], aliases) == MappedTo(requested[..i], aliases) + {ref};
  }

  lemma CanonicalIsRequested(catalog: TaskCatalog, requested: seq<string>, aliases: map<string, string>)
    requires AliasMapOf(catalog.tasks, aliases)
    requires forall name :: name in requested ==> name in aliases
    ensures MappedTo(requested, aliases) == RequestedTasks(catalog, requested)
    ensures NamesKnown(catalog, requested)
  {
    forall name | name in requested
      ensures aliases[name] in RequestedTasks(catalog, requested)
      ensures exists t :: t in catalog.tasks && name in Names(t)
    {
      var t :| t in catalog.tasks && name in Names(t);
      assert aliases[name] == t.taskRef;
    }
    forall t, name | t in catalog.tasks && name in requested && name in Names(t)
      ensures t.taskRef in MappedTo(requested, aliases)
    {
      assert aliases[name] == t.taskRef;
    }
  }

  method ExpandPlan(roots: seq<string>, deps: Deps) returns (plan: seq<string>)
    requires Closed(deps) && Acyclic(DependencyEdges(deps)) && forall r :: r in roots ==> r in deps
    ensures IsPlanFor(DependencyEdges(deps), Elements(roots), plan)
    ensures forall x :: x in plan ==> x in deps
  {
    ghost var edges := DependencyEdges(deps);
    ghost var order := SomeOrder(deps);
    var builder := new PlanBuilder(deps);
    for i := 0 to |roots|
      invariant builder.Valid() && builder.deps == deps && fresh(builder)
      invariant forall r :: r in roots[..i] ==> r in builder.resolved
      invariant forall x :: x in builder.resolved ==> InClosure(edges, Elements(roots[..i]), x)
    {
      assert roots[i] in deps && roots[i] in Elements(order);
      ghost var before := builder.resolved;
      builder.AddTask(roots[i], order);
      assert roots[..i + 1] == roots[..i] + [roots[i]];
      forall x | x in builder.resolved ensures InClosure(edges, Elements(roots[..i + 1]), x) {
        if x in before {
          var r :| r in Elements(roots[..i]) && Reaches(edges, r, x);
          assert r in Elements(roots[..i + 1]);
        } else {
          assert roots[i] in Elements(roots[..i + 1]);
        }
      }
    }
    assert roots[..|roots|] == roots;
    plan := builder.resolved;
    PlanIsComplete(deps, roots, plan);
    assert forall x :: x in plan ==> x in Elements(plan);
  }

  lemma SomeOrder(deps: Deps) returns (order: seq<string>)
    requires Closed(deps) && Acyclic(DependencyEdges(deps))
    ensures DependenciesFirst(DependencyEdges(deps), order) && Elements(order) == deps.Keys
  {
    var edges := DependencyEdges(deps);
    FlipAcyclic(edges);
    forall e | e in Flip(edges) ensures e.0 in deps.Keys && e.1 in deps.Keys {
      FlipMember(edges, e.0, e.1);
      EdgeMember(deps, e.1, e.0);
    }
    order := AcyclicHasOrder(Flip(edges), deps.Keys);
  }

  lemma PlanIsComplete(deps: Deps, roots: seq<string>, plan: seq<string>)
    requires DependenciesFirst(DependencyEdges(deps), plan) && forall r :: r in roots ==> r in plan
    requires forall x :: x in plan ==> InClosure(DependencyEdges(deps), Elements(roots), x)
    ensures IsPlanFor(DependencyEdges(deps), Elements(roots), plan)
  {
    var edges := DependencyEdges(deps);
    forall x | InClosure(edges, Elements(roots), x) ensures x in plan {
      var r :| r in Elements(roots) && Reaches(edges, r, x);
      var p :| IsPath(edges, p) && p[0] == r && Last(p) == x;
      OrderedListIsClosed(deps, plan, p);
    }
  }

  ghost predicate ConflictsOutside(conflicts: seq<string>, plan: seq<string>) {
    forall m :: 0 <= m < |conflicts| ==> conflicts[m] !in plan
  }

  method FirstConflict(tasks: map<string, TaskDef>, plan: seq<string>) returns (error: C.Option<CatalogError>)
    requires forall x :: x in plan ==> x in tasks
    ensures error.None? <==> forall t, c :: t in plan && c in tasks[t].conflictsWith ==> c !in plan
    ensures error.Some? ==> error.value.CombinationConflict?
    ensures error.Some? ==> exists i: nat, k: nat :: FirstConflictAt(tasks, plan, i, k, error.value.taskRef, error.value.conflict)
  {
    assert forall m :: 0 <= m < |plan| ==> plan[m] in plan;
    for i := 0 to |plan|
      invariant forall m :: 0 <= m < i ==> ConflictsOutside(tasks[plan[m]].conflictsWith, plan)
    {
      var t := plan[i];
      var k := FirstMember(tasks[t].conflictsWith, plan);
      if k < |tasks[t].conflictsWith| {
        assert FirstConflictAt(tasks, plan, i, k, t, tasks[t].conflictsWith[k]);
        return C.Some(CombinationConflict(t, tasks[t].conflictsWith[k]));
      }
    }
    error := C.None;
    forall t, c | t in plan && c in tasks[t].conflictsWith ensures c !in plan {
      var m :| 0 <= m < |plan| && plan[m] == t;
      assert ConflictsOutside(tasks[plan[m]].conflictsWith, plan);
    }
  }

  // The inner loop: the first of the conflicts that is in the plan.
  method FirstMember(conflicts: seq<string>, plan: seq<string>) returns (k: nat)
    ensures k <= |conflicts| && ConflictsOutside(conflicts[..k], plan)
    ensures k < |conflicts| ==> conflicts[k] in plan
  {
    var all := Elements(plan);
    k := 0;
    while k < |conflicts| && conflicts[k] !in all
      invariant k <= |conflicts| && ConflictsOutside(conflicts[..k], plan)
    {
      k := k + 1;
    }
  }

  method ResolveRequestedTaskRefs(catalog: TaskCatalog, requested: seq<string>)
    returns (result: Result<seq<string>, CatalogError>)
    requires ValidCatalog(catalog)
    ensures Resolves(catalog, requested, result) && AnswersRequest(catalog.tasks, requested, result)
    ensures result.Ok? ==> forall x :: x in result.value ==> x in TasksByRef(catalog.tasks)
  {
    if requested == [] {
      return Err(TaskRefRequired);
    }
    var aliases := BuildAliasMap(catalog.tasks);
    var canonical := Canonicalise(catalog, requested, aliases.value);
    if canonical.Err? {
      ResolvesMeans(catalog, requested, canonical);
      return canonical;
    }
    var tasks := TasksByRef(catalog.tasks);
    RequestedInCatalog(catalog, requested, canonical.value);
    DependenciesClosed(catalog);
    var plan := ExpandPlan(canonical.value, DependsOn(tasks));
    PlanHasConflict(catalog, requested, plan);
    var conflict := FirstConflict(tasks, plan);
    if conflict.Some? {
      assert ConflictOfPlan(catalog, RequestedTasks(catalog, requested), conflict.value.taskRef, conflict.value.conflict);
      ResolvesMeans(catalog, requested, Err(conflict.value));
      return Err(conflict.value);
    }
    ResolvesMeans(catalog, requested, Ok(plan));
    result := Ok(plan);
  }

  lemma RequestedInCatalog(catalog: TaskCatalog, requested: seq<string>, canonical: seq<string>)
    requires Elements(canonical) == RequestedTasks(catalog, requested)
    ensures forall r :: r in canonical ==> r in TasksByRef(catalog.tasks)
    ensures requested != [] && NamesKnown(catalog, requested) ==> RequestedTasks(catalog, requested) != {}
  {
    forall r | r in canonical ensures r in TasksByRef(catalog.tasks) {
      assert r in Elements(canonical);
      var t :| t in catalog.tasks && t.taskRef == r;
      var i :| 0 <= i < |catalog.tasks| && catalog.tasks[i] == t;
      assert Refs(catalog.tasks)[i] == r;
    }
    if requested != [] && NamesKnown(catalog, requested) {
      assert requested[0] in requested;
      var t :| t in catalog.tasks && requested[0] in Names(t);
      assert t.taskRef in RequestedTasks(catalog, requested);
    }
  }

  lemma PlanHasConflict(catalog: TaskCatalog, requested: seq<string>, plan: seq<string>)
    requires IsPlanFor(CatalogEdges(catalog), RequestedTasks(catalog, requested), plan)
    requires forall x :: x in plan ==> x in TasksByRef(catalog.tasks)
    ensures ClosureHasConflict(catalog, RequestedTasks(catalog, requested)) <==>
            exists t, c :: t in plan && c in TasksByRef(catalog.tasks)[t].conflictsWith && c in plan
    ensures RequestedTasks(catalog, requested) != {} ==> plan != []
  {
    var edges, roots := CatalogEdges(catalog), RequestedTasks(catalog, requested);
    if t, c :| InClosure(edges, roots, t) && InClosure(edges, roots, c) && ConflictIn(catalog, t, c) {
      assert t in plan && c in plan;
    }
    if t, c :| t in plan && c in TasksByRef(catalog.tasks)[t].conflictsWith && c in plan {
      assert InClosure(edges, roots, t) && InClosure(edges, roots, c) && ConflictIn(catalog, t, c);
    }
    if r :| r in roots {
      ReachesSelf(edges, r);
      assert InClosure(edges, roots, r);
      assert r in plan;
    }
  }

  // ---- What the caller may rely on ----

  // The answer depends on the requested tasks only: not on their order, on repetitions, or on
  // which of a task's names was used.
  lemma ResolutionIgnoresSpelling(catalog: TaskCatalog, a: seq<string>, b: seq<string>,
                                  ra: Result<seq<string>, CatalogError>, rb: Result<seq<string>, CatalogError>)
    requires Resolves(catalog, a, ra) && Resolves(catalog, b, rb)
    requires a != [] && b != [] && NamesKnown(catalog, a) && NamesKnown(catalog, b)
    requires RequestedTasks(catalog, a) == RequestedTasks(catalog, b)
    ensures ra.Ok? <==> rb.Ok?
    ensures ra.Ok? ==> Elements(ra.value) == Elements(rb.value) && |ra.value| == |rb.value|
  {
    if ra.Ok? {
      var edges, roots := CatalogEdges(catalog), RequestedTasks(catalog, a);
      forall x ensures x in Elements(ra.value) <==> x in Elements(rb.value) {
        assert x in ra.value <==> InClosure(edges, roots, x);
        assert x in rb.value <==> InClosure(edges, roots, x);
      }
      NoDupSize(ra.value);
      NoDupSize(rb.value);
    }
  }

  // Asking for a task by another of its names requests the same tasks.
  lemma AliasesAreInterchangeable(catalog: TaskCatalog, requested: seq<string>, i: nat, task: TaskDef, name: string)
    requires AliasesConsistent(catalog.tasks) && task in catalog.tasks && i < |requested|
    requires requested[i] in Names(task) && name in Names(task)
    ensures RequestedTasks(catalog, requested[i := name]) == RequestedTasks(catalog, requested)
  {
    var other := requested[i := name];
    forall t, n | t in catalog.tasks && n in requested && n in Names(t) ensures t.taskRef in RequestedTasks(catalog, other) {
      var k :| 0 <= k < |requested| && requested[k] == n;
      if k == i {
        assert t.taskRef == task.taskRef;
        assert name == other[i] && name in other;
      } else {
        assert n == other[k] && n in other;
      }
    }
    forall t, n | t in catalog.tasks && n in other && n in Names(t) ensures t.taskRef in RequestedTasks(catalog, requested) {
      var k :| 0 <= k < |other| && other[k] == n;
      if k == i {
        assert t.taskRef == task.taskRef;
        assert requested[i] in requested;
      } else {
        assert n == requested[k] && n in requested;
      }
    }
  }
}
