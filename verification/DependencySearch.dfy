// The three-colour depth-first search that rejects cyclic catalogs, and catalog validation
// around it.
module DependencySearch {
  import opened Sequences
  import opened Digraph
  import C = Checklist
  import opened Catalog

  type Deps = map<string, seq<string>>
  type Edges = set<(string, string)>

  // t depends on d.
  ghost function DependencyEdges(deps: Deps): Edges {
    set t, d | t in deps && d in deps[t] :: (t, d)
  }

  ghost predicate Closed(deps: Deps) {
    forall t, d :: t in deps && d in deps[t] ==> d in deps
  }

  lemma EdgeMember(deps: Deps, t: string, d: string)
    ensures (t, d) in DependencyEdges(deps) <==> t in deps && d in deps[t]
  {
  }

  // order lists every task after all its dependencies.
  ghost predicate DependenciesFirst(edges: Edges, order: seq<string>) {
    Topological(Flip(edges), order)
  }

  lemma AppendAfterDependencies(deps: Deps, order: seq<string>, t: string)
    requires DependenciesFirst(DependencyEdges(deps), order) && t in deps && t !in order
    requires forall d :: d in deps[t] ==> d in order
    ensures DependenciesFirst(DependencyEdges(deps), order + [t])
  {
    var edges := DependencyEdges(deps);
    forall e | e in Flip(edges) && e.1 == t ensures e.0 in order {
      FlipMember(edges, e.0, e.1);
      EdgeMember(deps, t, e.0);
    }
    ExtendTopological(Flip(edges), order, t);
  }

  lemma OrderIsAcyclic(deps: Deps, order: seq<string>)
    requires DependenciesFirst(DependencyEdges(deps), order) && forall t :: t in deps ==> t in order
    ensures Acyclic(DependencyEdges(deps))
  {
    var edges := DependencyEdges(deps);
    forall e | e in Flip(edges) ensures e.1 in order {
      FlipMember(edges, e.0, e.1);
      EdgeMember(deps, e.1, e.0);
    }
    TopologicalIsAcyclic(Flip(edges), order);
    FlipAcyclic(edges);
  }

  datatype Mark = Visiting | Done

  // The names on the current stack are a dependency path that leads to the task being visited.
  ghost predicate StackLeadsTo(edges: Edges, stack: seq<string>, t: string) {
    NoDup(stack) && IsPath(edges, stack + [t])
  }

  // The reported path ends where it first touched a cycle: from the first occurrence of its last
  // task on, it is that cycle.
  ghost predicate ReportsCycle(edges: Edges, path: seq<string>) {
    && |path| >= 2 && IsPath(edges, path) && Last(path) in path[..|path| - 1]
    && IsCycle(edges, path[IndexOf(path, Last(path))..])
  }

  lemma StackRepeatIsCycle(edges: Edges, stack: seq<string>, t: string)
    requires StackLeadsTo(edges, stack, t) && t in stack
    ensures ReportsCycle(edges, stack + [t])
  {
    var path := stack + [t];
    var i := IndexOf(path, t);
    var k :| 0 <= k < |stack| && stack[k] == t;
    assert path[k] == t;
    assert i <= k;
    RepeatIsCycle(edges, path, i, |path| - 1);
    assert path[i..|path| - 1 + 1] == path[i..];
  }

  lemma ReportedCycleIsReal(edges: Edges, path: seq<string>)
    requires ReportsCycle(edges, path)
    ensures !Acyclic(edges)
  {
    var cycle := path[IndexOf(path, Last(path))..];
    assert IsCycle(edges, cycle);
  }

  class CycleFinder {
    const deps: Deps
    var visited: map<string, Mark>
    // The tasks marked done, in the order in which they were finished.
    ghost var finished: seq<string>

    constructor (deps: Deps)
      ensures this.deps == deps && visited == map[] && finished == []
    {
      this.deps := deps;
      visited := map[];
      finished := [];
    }

    // Marks and finishing order agree, and tasks were finished after their dependencies.
    ghost predicate Valid(stack: seq<string>)
      reads this
    {
      && Closed(deps) && visited.Keys <= deps.Keys
      && (forall t :: t in visited ==> (visited[t].Visiting? <==> t in stack))
      && Elements(stack) <= visited.Keys
      && (forall t :: t in finished <==> t in visited && visited[t].Done?)
      && DependenciesFirst(DependencyEdges(deps), finished)
    }

    // The recursive search. It stops at the first task met again while still on the stack.
    // Termination: each nested visit has one task fewer left unmarked.
    method Visit(taskRef: string, stack: seq<string>) returns (cycle: C.Option<seq<string>>)
      requires Valid(stack) && taskRef in deps && StackLeadsTo(DependencyEdges(deps), stack, taskRef)
      modifies this
      decreases deps.Keys - visited.Keys, 0
      ensures old(visited.Keys) <= visited.Keys
      ensures cycle.None? ==> Valid(stack) && taskRef in visited && visited[taskRef].Done?
      ensures cycle.None? ==> forall t :: t in old(visited) && old(visited[t]).Done? ==> visited[t].Done?
      ensures cycle.Some? ==> ReportsCycle(DependencyEdges(deps), cycle.value)
    {
      if taskRef in visited && visited[taskRef].Done? {
        return C.None;
      }
      if taskRef in visited && visited[taskRef].Visiting? {
        StackRepeatIsCycle(DependencyEdges(deps), stack, taskRef);
        return C.Some(stack + [taskRef]);
      }
      ghost var unvisited := deps.Keys - visited.Keys;
      assert taskRef in unvisited;
      visited := visited[taskRef := Visiting];
      assert deps.Keys - visited.Keys == unvisited - {taskRef};
      cycle := VisitAll(taskRef, stack + [taskRef]);
      if cycle.None? {
        assert taskRef !in finished;
        AppendAfterDependencies(deps, finished, taskRef);
        visited := visited[taskRef := Done];
        finished := finished + [taskRef];
        assert forall t :: t in stack ==> t != taskRef;
      }
    }

    // The loop over the dependencies of the task on top of the stack.
    method VisitAll(taskRef: string, stack: seq<string>) returns (cycle: C.Option<seq<string>>)
      requires Valid(stack) && taskRef in deps && stack != [] && Last(stack) == taskRef
      requires NoDup(stack) && IsPath(DependencyEdges(deps), stack)
      modifies this
      decreases deps.Keys - visited.Keys, 1
      ensures old(visited.Keys) <= visited.Keys
      ensures cycle.None? ==> Valid(stack) && forall d :: d in deps[taskRef] ==> d in finished
      ensures cycle.None? ==> forall t :: t in old(visited) && old(visited[t]).Done? ==> visited[t].Done?
      ensures cycle.Some? ==> ReportsCycle(DependencyEdges(deps), cycle.value)
    {
      var dependencies := deps[taskRef];
      for i := 0 to |dependencies|
        invariant Valid(stack) && old(visited.Keys) <= visited.Keys
        invariant forall d :: d in dependencies[..i] ==> d in finished
        invariant forall t :: t in old(visited) && old(visited[t]).Done? ==> visited[t].Done?
      {
        var d := dependencies[i];
        assert d in dependencies;
        EdgeMember(deps, taskRef, d);
        PathAppend(DependencyEdges(deps), stack, d);
        cycle := Visit(d, stack);
        if cycle.Some? {
          return;
        }
        assert dependencies[..i + 1] == dependencies[..i] + [d];
      }
      assert dependencies[..|dependencies|] == dependencies;
      cycle := C.None;
    }
  }

  // ---- Catalog validation ----

  function DependsOn(tasks: map<string, TaskDef>): Deps {
    map t | t in tasks :: tasks[t].dependsOn
  }

  ghost predicate AllReferencesKnown(catalog: TaskCatalog) {
    forall t :: t in catalog.tasks ==>
      TaskReferencesKnown(t, Elements(Refs(catalog.tasks)), Elements(ProfileRefs(catalog.profiles)))
  }

  ghost predicate BindingsKnown(catalog: TaskCatalog) {
    forall b, r :: b in catalog.bindings && r in b.executionRefs + b.verificationRefs ==> r in Elements(Refs(catalog.tasks))
  }

  // Everything checked before the cycle search.
  ghost predicate WellReferenced(catalog: TaskCatalog) {
    && NoDup(Refs(catalog.tasks)) && NoDup(ProfileRefs(catalog.profiles))
    && AliasesConsistent(catalog.tasks) && AllReferencesKnown(catalog)
  }

  ghost function CatalogEdges(catalog: TaskCatalog): Edges {
    DependencyEdges(DependsOn(TasksByRef(catalog.tasks)))
  }

  // ---- Dependencies, read off the catalog's task list ----

  // Some task with ref t lists d among its dependencies.
  ghost predicate ListsDependency(tasks: seq<TaskDef>, t: string, d: string) {
    exists i :: 0 <= i < |tasks| && tasks[i].taskRef == t && d in tasks[i].dependsOn
  }

  // Each ref is followed by a dependency of a task with that ref.
  ghost predicate DependencyChain(tasks: seq<TaskDef>, path: seq<string>) {
    |path| >= 2 && forall i, j :: 0 <= i && j == i + 1 && j < |path| ==> ListsDependency(tasks, path[i], path[j])
  }

  ghost predicate DependencyRing(tasks: seq<TaskDef>, path: seq<string>) {
    DependencyChain(tasks, path) && path[0] == path[|path| - 1]
  }

  ghost predicate HasRing(tasks: seq<TaskDef>) {
    exists path :: DependencyRing(tasks, path)
  }

  // A chain of distinct refs that runs back into itself: from position i on it is a ring.
  ghost predicate ReportsRing(tasks: seq<TaskDef>, path: seq<string>) {
    DependencyChain(tasks, path) && exists i :: 0 <= i < |path| - 1 && DependencyRing(tasks, path[i..])
  }

  lemma RefAt(tasks: seq<TaskDef>, i: nat)
    requires NoDup(Refs(tasks)) && i < |tasks|
    ensures tasks[i].taskRef in TasksByRef(tasks) && TasksByRef(tasks)[tasks[i].taskRef] == tasks[i]
  {
    TasksByRefExact(tasks, i);
  }

  lemma CatalogEdgeMeans(catalog: TaskCatalog, t: string, d: string)
    requires NoDup(Refs(catalog.tasks))
    ensures (t, d) in CatalogEdges(catalog) <==> ListsDependency(catalog.tasks, t, d)
  {
    var tasks := TasksByRef(catalog.tasks);
    EdgeMember(DependsOn(tasks), t, d);
    if t in tasks {
      var i :| 0 <= i < |catalog.tasks| && catalog.tasks[i] == tasks[t];
    }
    if i :| 0 <= i < |catalog.tasks| && catalog.tasks[i].taskRef == t && d in catalog.tasks[i].dependsOn {
      RefAt(catalog.tasks, i);
    }
  }

  lemma ChainIsPath(catalog: TaskCatalog, path: seq<string>)
    requires NoDup(Refs(catalog.tasks)) && |path| >= 2
    ensures DependencyChain(catalog.tasks, path) <==> IsPath(CatalogEdges(catalog), path)
  {
    forall i, j | 0 <= i && j == i + 1 && j < |path|
      ensures (path[i], path[j]) in CatalogEdges(catalog) <==> ListsDependency(catalog.tasks, path[i], path[j])
    {
      CatalogEdgeMeans(catalog, path[i], path[j]);
    }
  }

  lemma RingIsCycle(catalog: TaskCatalog, path: seq<string>)
    requires NoDup(Refs(catalog.tasks))
    ensures DependencyRing(catalog.tasks, path) <==> IsCycle(CatalogEdges(catalog), path)
  {
    if |path| >= 2 {
      ChainIsPath(catalog, path);
    }
  }

  lemma CyclicIffRing(catalog: TaskCatalog)
    requires NoDup(Refs(catalog.tasks))
    ensures Acyclic(CatalogEdges(catalog)) <==> !HasRing(catalog.tasks)
  {
    forall path ensures DependencyRing(catalog.tasks, path) <==> IsCycle(CatalogEdges(catalog), path) {
      RingIsCycle(catalog, path);
    }
  }

  lemma ReportedRing(catalog: TaskCatalog, path: seq<string>)
    requires NoDup(Refs(catalog.tasks)) && ReportsCycle(CatalogEdges(catalog), path)
    ensures ReportsRing(catalog.tasks, path)
  {
    var i := IndexOf(path, Last(path));
    ChainIsPath(catalog, path);
    RingIsCycle(catalog, path[i..]);
    assert |path[i..]| >= 2;
  }

  ghost predicate ValidCatalog(catalog: TaskCatalog) {
    WellReferenced(catalog) && Acyclic(CatalogEdges(catalog)) && BindingsKnown(catalog)
  }

  method FirstUnknownReference(tasks: seq<TaskDef>, refs: set<string>, profiles: set<string>) returns (error: C.Option<CatalogError>)
    ensures error.None? <==> forall t :: t in tasks ==> TaskReferencesKnown(t, refs, profiles)
    ensures error.Some? ==> FirstReferenceError(tasks, refs, profiles, error.value)
  {
    for i := 0 to |tasks|
      invariant forall m :: 0 <= m < i ==> TaskReferencesKnown(tasks[m], refs, profiles)
    {
      error := CheckReferences(tasks[i], refs, profiles);
      if error.Some? {
        assert tasks[i] in tasks;
        return;
      }
    }
    error := C.None;
  }

  // The search started from every task in turn: it reports a cycle exactly when there is one.
  method FindCycle(refs: seq<string>, deps: Deps) returns (cycle: C.Option<seq<string>>)
    requires Closed(deps) && deps.Keys == Elements(refs)
    ensures cycle.None? <==> Acyclic(DependencyEdges(deps))
    ensures cycle.Some? ==> ReportsCycle(DependencyEdges(deps), cycle.value)
  {
    var finder := new CycleFinder(deps);
    for i := 0 to |refs|
      invariant finder.deps == deps && fresh(finder) && finder.Valid([])
      invariant forall t :: t in refs[..i] ==> t in finder.finished
    {
      assert refs[i] in Elements(refs);
      assert [] + [refs[i]] == [refs[i]];
      cycle := finder.Visit(refs[i], []);
      if cycle.Some? {
        ReportedCycleIsReal(DependencyEdges(deps), cycle.value);
        return;
      }
      assert refs[..i + 1] == refs[..i] + [refs[i]];
    }
    assert refs[..|refs|] == refs;
    forall t | t in deps ensures t in finder.finished {
      assert t in Elements(refs);
    }
    OrderIsAcyclic(deps, finder.finished);
    cycle := C.None;
  }

  function BoundRefs(binding: CardBinding): seq<string> {
    binding.executionRefs + binding.verificationRefs
  }

  // The first unknown task of the first binding that names one.
  ghost predicate FirstBindingError(bindings: seq<CardBinding>, refs: set<string>, error: CatalogError) {
    error.CardTaskUnknown? &&
    exists i :: 0 <= i < |bindings| && bindings[i].cardId == error.cardId
      && IsFirstMissing(BoundRefs(bindings[i]), refs, error.taskRef)
      && forall m, r :: 0 <= m < i && r in BoundRefs(bindings[m]) ==> r in refs
  }

  method FirstUnknownBinding(bindings: seq<CardBinding>, refs: set<string>) returns (error: C.Option<CatalogError>)
    ensures error.None? <==> forall b, r :: b in bindings && r in b.executionRefs + b.verificationRefs ==> r in refs
    ensures error.Some? ==> FirstBindingError(bindings, refs, error.value)
  {
    for i := 0 to |bindings|
      invariant forall m, r :: 0 <= m < i && r in BoundRefs(bindings[m]) ==> r in refs
    {
      var binding := bindings[i];
      var missing := FirstMissing(binding.executionRefs + binding.verificationRefs, refs);
      if missing.Some? {
        assert binding in bindings && missing.value in BoundRefs(binding);
        return C.Some(CardTaskUnknown(binding.cardId, missing.value));
      }
    }
    error := C.None;
    forall b, r | b in bindings && r in b.executionRefs + b.verificationRefs ensures r in refs {
      var m :| 0 <= m < |bindings| && bindings[m] == b;
      assert r in BoundRefs(bindings[m]);
    }
  }

  lemma DependenciesClosed(catalog: TaskCatalog)
    requires AllReferencesKnown(catalog)
    ensures Closed(DependsOn(TasksByRef(catalog.tasks)))
  {
    var tasks := TasksByRef(catalog.tasks);
    var deps := DependsOn(tasks);
    forall t, d | t in deps && d in deps[t] ensures d in deps {
      assert tasks[t] in catalog.tasks;
    }
  }

  // Every name some task goes by.
  function AllNames(tasks: seq<TaskDef>): set<string> {
    set t, a | t in tasks && a in Names(t) :: a
  }

  lemma MappedNames(tasks: seq<TaskDef>, aliases: map<string, string>)
    requires AliasMapOf(tasks, aliases)
    ensures aliases.Keys == AllNames(tasks)
  {
    forall a ensures a in aliases.Keys <==> a in AllNames(tasks) { }
  }

  // What the error says is wrong is the first thing of its kind that is.
  ghost predicate NamesFirstOffender(catalog: TaskCatalog, error: CatalogError) {
    var refs, profiles := Elements(Refs(catalog.tasks)), Elements(ProfileRefs(catalog.profiles));
    && (error.AliasCollision? ==> FirstCollision(catalog.tasks, error))
    && (error.DependencyUnknown? || error.ConflictUnknown? || error.TaskProfileUnknown? ==>
          FirstReferenceError(catalog.tasks, refs, profiles, error))
    && (error.CardTaskUnknown? ==> FirstBindingError(catalog.bindings, refs, error))
  }

  // Accepted exactly when valid; rejected for a cycle exactly when the references are in order
  // but the dependency relation is cyclic, and then with a genuine cycle in the message.
  method ValidateCatalog(catalog: TaskCatalog) returns (result: Result<Summary, CatalogError>)
    ensures result.Ok? <==> ValidCatalog(catalog)
    ensures result.Ok? <==> WellReferenced(catalog) && !HasRing(catalog.tasks) && BindingsKnown(catalog)
    ensures result.Err? && result.error.DependencyCycle? <==> WellReferenced(catalog) && HasRing(catalog.tasks)
    ensures result.Err? && result.error.DependencyCycle? ==> ReportsRing(catalog.tasks, result.error.path)
    ensures result.Err? && result.error.TaskRefCollision? <==> !NoDup(Refs(catalog.tasks))
    ensures result.Err? && result.error.ProfileRefCollision? <==>
              NoDup(Refs(catalog.tasks)) && !NoDup(ProfileRefs(catalog.profiles))
    ensures result.Err? && result.error.AliasCollision? <==>
              NoDup(Refs(catalog.tasks)) && NoDup(ProfileRefs(catalog.profiles)) && !AliasesConsistent(catalog.tasks)
    ensures result.Err? && (result.error.DependencyUnknown? || result.error.ConflictUnknown? || result.error.TaskProfileUnknown?) <==>
              NoDup(Refs(catalog.tasks)) && NoDup(ProfileRefs(catalog.profiles))
              && AliasesConsistent(catalog.tasks) && !AllReferencesKnown(catalog)
    ensures result.Err? && result.error.CardTaskUnknown? <==>
              WellReferenced(catalog) && !HasRing(catalog.tasks) && !BindingsKnown(catalog)
    ensures result.Err? ==> NamesFirstOffender(catalog, result.error)
    ensures result.Ok? ==>
              && result.value.taskCount == |catalog.tasks| && result.value.profileCount == |catalog.profiles|
              && result.value.aliasCount == |AllNames(catalog.tasks)| && result.value.cardBindingCount == |catalog.bindings|
  {
    var refs := Elements(Refs(catalog.tasks));
    var profiles := Elements(ProfileRefs(catalog.profiles));
    SizeDetectsDuplicates(Refs(catalog.tasks));
    SizeDetectsDuplicates(ProfileRefs(catalog.profiles));
    if |refs| != |catalog.tasks| {
      return Err(TaskRefCollision);
    }
    if |profiles| != |catalog.profiles| {
      return Err(ProfileRefCollision);
    }
    var aliases := BuildAliasMap(catalog.tasks);
    if aliases.Err? {
      return Err(aliases.error);
    }
    var unknown := FirstUnknownReference(catalog.tasks, refs, profiles);
    if unknown.Some? {
      return Err(unknown.value);
    }
    DependenciesClosed(catalog);
    MappedNames(catalog.tasks, aliases.value);
    var cycle := FindCycle(Refs(catalog.tasks), DependsOn(TasksByRef(catalog.tasks)));
    CyclicIffRing(catalog);
    if cycle.Some? {
      ReportedRing(catalog, cycle.value);
      return Err(DependencyCycle(cycle.value));
    }
    var unbound := FirstUnknownBinding(catalog.bindings, refs);
    if unbound.Some? {
      return Err(unbound.value);
    }
    result := Ok(Summary(|refs|, |profiles|, |aliases.value.Keys|, |catalog.bindings|));
  }
}
