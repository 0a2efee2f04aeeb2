# Execution graph and claim protocol: a verified model

This project models, in Dafny, the planning and execution tools of the repository and proves what
they guarantee.

- **Execution graph.** `Checklist` and `Blocks` cut the ordered checklist into protocol blocks;
  `EdgeIds`, `HardEdges` and `SoftEdges` build and list the edges; `HardGraph` the deduplicated
  adjacency lists; `Kahn` the acyclicity check; `Leveling`, `Levels`, `CriticalPath` and `BlockLevels`
  the schedule; `DagBuilder` runs them together. The checklist has any length, not only the 428 tasks
  of the shipped one, and the rule table is an arbitrary list of rules: the build is proved to succeed
  exactly when all of its edges run forward.
- **Claim protocol.** `Snapshots` models the two independent tools that say which tasks agents may
  claim, and `SnapshotMeaning` says by position what each of them reports. `ClaimProtocol` is the
  multi-agent state machine that `PROMPT/AGENT.md` describes: an agent claims a listed task and
  completes or gives back the one it holds. `ClaimTheorems` and `NodeRows` say when the two tools
  agree, when runs respect the hard edges, and when the report's labels can be believed;
  `ExampleChecklists` holds two small checklists on which they cannot.
- **Task graph.** `Catalog` and `DependencySearch` model catalog validation with its depth-first cycle
  search, `PlanResolution` the second search that is safe only after the first, `EnvironmentProfile`
  the gate before each task, `TaskRun`, `RunSafety` and `KeepGoing` the run and its guarantees over
  every outside world (exit codes, stack readiness and template rendering are parameters).
- **Release and health tools.** `SmokeMatrix`, `ReleaseValidation`, `CandidateIdentity` and
  `Readiness`.

Methods follow the loops and mutable objects of the tools; each is proved against a specification
function or predicate, and the lemmas speak about those. `Sequences`, `TextOrder` and `Digraph` hold
the shared theory of lists, orders, paths and cycles.

## Where the tools fall short of what one might expect

Each of these is settled by lemmas that give the exact condition, for all inputs, and a concrete
input on which it fails.

- The DAG builder gathers the active wave by block id; `PROMPT/AGENT.md` (lines 38 and 46) and the
  definition-of-done planner take only the contiguous run. The tools agree on every reachable
  checklist, and the report's node states follow the active run, if and only if no block id recurs
  after a break (`SnapshotsAgreeOnEveryRunIff`, `NodeStatesExactIff`; `InterruptedWaveSplitsTools`).
  Its blocked boundary is the first task of a later block under the same condition
  (`BuilderBoundaryIff`). On a single marker vector, reachable or not, `SnapshotsAgreeIff` gives the
  condition.
- Neither snapshot looks at hard edges inside a wave. Runs respect all hard edges if and only if no
  rule joins two tasks of one block (`BuiltOrderRespectedIff`). The report's "blocked" label matches
  the unsatisfied predecessors listed beside it if and only if, in addition, no block id recurs after
  a break (`BuiltLabelsMatchIff`; `RuleInsideWaveIsIgnored`).
- With `--keep-going` the runner starts dependents of failed tasks. A run then stays dependency safe
  if and only if no started task with commands depends on one that fails (`KeepGoingSafeIff`). Before
  the run: it is safe whatever its commands return if and only if no task that will be started and has
  commands depends on a planned task with commands (`KeepGoingAlwaysSafeIff`;
  `KeepGoingCounterexample`). Fail-fast runs are always safe (`FailFastIsSafe`).
- The release validator never asks for absent artifacts. An accepted envelope is complete if and only
  if it has as many entries as the plan has keys (`AcceptedIsCompleteIff`; `EmptyEnvelopeAccepted`).

## Preconditions that come from the tools' inputs

- `Parsed` (claim protocol, build): what both parsers establish, plus unique task ids, which neither
  checks but both rely on (they index tasks by id).
- `ValidCatalog` (resolution and runs): the command line validates the catalog before it resolves or
  runs anything.
- `EnvironmentsDistinct` (smoke matrix): the fixed environment table.
- `tasks != []` (levels and critical path): on an empty checklist `max()` and `path[0]` raise; the
  parser rejects that checklist by its length.

## Model

| member | source | states |
|---|---|---|
| `Sequences.OrderedUnique` | tools/analysis/build_agent_execution_dag.py:104-112 | the loop keeps the first occurrence of every value, in order |
| `Sequences.FirstOccurrencesMembers` | tools/analysis/build_agent_execution_dag.py:104-112 | the result has the same elements and no duplicates |
| `Sequences.FirstOccurrencesOrder` | tools/analysis/build_agent_execution_dag.py:104-112 | kept values stand in the order in which they first appear |
| `Blocks.BuildBlocks` | tools/analysis/build_agent_execution_dag.py:210-250 | one block per maximal run of equal block ids, with its mode, phase, wave, members and end tasks, including the last, pending one |
| `Blocks.BlockFields` | tools/analysis/build_agent_execution_dag.py:210-250 | block k covers one maximal stretch of positions: its id, mode, phase and wave are those of the first of them, its task ids are theirs in order, its end tasks the first and the last |
| `Blocks.BlockGroupsPartition` | tools/analysis/build_agent_execution_dag.py:210-250 | those runs are a partition: non-empty, one block id each, neighbours differ, concatenation is the checklist |
| `Blocks.BlockPartitionUnique` | tools/analysis/build_agent_execution_dag.py:210-250 | there is only one such partition, so any tool that makes one makes this one |
| `Blocks.BuildExecutionPlan` | tools/analysis/build_definition_of_done_map.py:1271-1346 | one unit per maximal run of plan keys; state, claimable list, parallelism and blocked-until follow the snapshot |
| `Blocks.UnitFields` | tools/analysis/build_definition_of_done_map.py:1271-1346 | each unit covers one maximal stretch of plan keys, with the fields of its rows |
| `Blocks.PlanKeysAreBlockKeys` | tools/analysis/build_definition_of_done_map.py:1278-1290 | on a parsed checklist both tools cut the same blocks |
| `HardEdges.EdgeStore.AddEdge` | tools/analysis/build_agent_execution_dag.py:353-380 | self-edges are dropped, unknown tasks and non-forward edges rejected with the store unchanged, forward edges stored under their id |
| `HardEdges.BuildProtocolEdges` | tools/analysis/build_agent_execution_dag.py:383-428 | the stored edges are exactly those from each task of a block to each task of the next, labelled with the boundary they cross |
| `HardEdges.BuildHardEdges` | tools/analysis/build_agent_execution_dag.py:1085-1111 | succeeds exactly when every rule edge is forward; the edges, by endpoints, class and rule id, are then exactly the protocol edges and the rule edges, all forward, listed in the tool's order; otherwise the error is that of the first inadmissible target of the first rule that has one |
| `EdgeIds.IdTextInjective` | tools/analysis/build_agent_execution_dag.py:371-371 | ids that read the same have the same four parts, while every underscore of a task id is followed by another character, as in the ids the parser admits |
| `EdgeIds.ListEdges` | tools/analysis/build_agent_execution_dag.py:1101-1111 | every stored edge once, strictly rising by target position, source position, class name and rule id |
| `EdgeIds.ListedByPosition` | tools/analysis/build_agent_execution_dag.py:1101-1111 | of two listed edges the first has the earlier target, then the earlier source, then the class whose name is lower, then the lower rule id |
| `EdgeIds.PresentationUnique` | tools/analysis/build_agent_execution_dag.py:1101-1111 | there is one such list, whatever order the edges were stored in |
| `HardEdges.ForwardPairsAcyclic` | tools/analysis/build_agent_execution_dag.py:366-369 | because only forward edges enter, the checklist position witnesses acyclicity |
| `HardGraph.BuildUniqueHardGraph` | tools/analysis/build_agent_execution_dag.py:1154-1169 | predecessor and successor lists are duplicate-free, mutually inverse, hold exactly the edge pairs, and stand in checklist order |
| `HardGraph.SortedPairsIsSort` | tools/analysis/build_agent_execution_dag.py:1160-1163 | the pair list is the set of pairs, each once, strictly sorted by (target position, source position) |
| `Kahn.AssertAcyclic` | tools/analysis/build_agent_execution_dag.py:1172-1187 | returns normally if and only if the graph has no cycle; then the order is a topological permutation of all tasks, otherwise the named tasks are exactly those on or downstream of a cycle and contain one |
| `Kahn.Drain` | tools/analysis/build_agent_execution_dag.py:1175-1184 | the queue loop ends with exact pending counts and a topological order of exactly the tasks with nothing pending |
| `Levels.BuildLevels` | tools/analysis/build_agent_execution_dag.py:1190-1222 | levels rise along every edge with no slack; the rows are levels 0, 1, 2, ... without gaps, each listing its tasks in checklist order; the maximum parallelism is attained |
| `Levels.RowSays` | tools/analysis/build_agent_execution_dag.py:1197-1213 | row k lists exactly the positions whose task has level k, in order; count and parallelism are their number, its blocks are theirs, each once |
| `Leveling.LevelingUnique` | tools/analysis/build_agent_execution_dag.py:1190-1196 | numbers that rise along edges without slack are unique |
| `Leveling.LevelIsLongestChain` | tools/analysis/build_agent_execution_dag.py:1190-1196 | level + 1 is the number of tasks on a longest chain ending at the task |
| `Leveling.LevelsAreEarliest` | tools/analysis/build_agent_execution_dag.py:1190-1196 | any numbering that strictly increases along hard edges is pointwise at least the level |
| `Leveling.LevelIsAntichain` | tools/analysis/build_agent_execution_dag.py:1190-1196 | tasks of one level never reach each other |
| `Leveling.NoFewerRounds` | tools/analysis/build_agent_execution_dag.py:1190-1222 | every split into mutually unordered rounds has more rounds than the deepest level (Mirsky's lower bound) |
| `CriticalPath.BuildCriticalPath` | tools/analysis/build_agent_execution_dag.py:1244-1276 | the back-pointer walk ends; the path starts at a task without predecessors, follows hard edges, its levels are 0, 1, 2, ..., it ends at a deepest task, with the tool's tie-breaking |
| `CriticalPath.TiesByNumber` | tools/analysis/build_agent_execution_dag.py:1256-1269 | each task on the path follows the lowest numbered of its deepest predecessors, and the path ends at the highest numbered of the deepest tasks |
| `CriticalPath.CriticalPathIsLongest` | tools/analysis/build_agent_execution_dag.py:1249-1276 | no chain of the hard graph is longer than the path |
| `BlockLevels.BuildBlockLevels` | tools/analysis/build_agent_execution_dag.py:1225-1241 | each row holds the attained minimum and maximum level of its block |
| `BlockLevels.LaterBlockIsHigher` | tools/analysis/build_agent_execution_dag.py:1225-1241 | every task of an earlier block sits strictly below every task of a later one |
| `BlockLevels.BlocksTile` | tools/analysis/build_agent_execution_dag.py:1225-1241 | min level of block k + 1 is max level of block k plus one, whatever forward rule edges are added |
| `BlockLevels.FirstBlockAtLevelZero` | tools/analysis/build_agent_execution_dag.py:1225-1241 | the first block starts at level 0 |
| `BlockLevels.LevelDecidesBlock` | tools/analysis/build_agent_execution_dag.py:1225-1241 | a task is in block k if and only if its level lies between the block's extremes |
| `BlockLevels.CriticalPathCrossesBlock` | tools/analysis/build_agent_execution_dag.py:1244-1276 | the critical path meets each block in exactly the consecutive stretch from its min to its max level |
| `SoftEdges.BuildSoftContextEdges` | tools/analysis/build_agent_execution_dag.py:1114-1151 | the soft edges are exactly the same-track neighbour pairs that no hard edge joins, labelled with block and track and listed in the tool's order |
| `SoftEdges.SoftEdgesComplete` | tools/analysis/build_agent_execution_dag.py:1114-1151 | each neighbour pair is in exactly one of the two edge sets, soft edges hold nothing else, and hard and soft edges together are acyclic |
| `SoftEdges.TrackPairCount` | tools/analysis/build_agent_execution_dag.py:1122-1124 | a (block, track) group of k tasks has exactly k - 1 neighbour pairs |
| `SoftEdges.AdjacentAreNeighbours` | tools/analysis/build_agent_execution_dag.py:1118-1124 | consecutive members of a group are exactly the checklist positions with no such task between them |
| `DagBuilder.BuildExecutionDag` | tools/analysis/build_agent_execution_dag.py:1684-1700 | the whole build succeeds exactly when every target of every rule stands behind its source in the checklist and otherwise names the first that does not, the acyclicity check never fires, and every part of the output is faithful |
| `DagBuilder.LevelCountIsPathLength` | tools/analysis/build_agent_execution_dag.py:1214-1217 | level count equals critical-path task count |
| `DagBuilder.ReportedScheduleIsOptimal` | tools/analysis/build_agent_execution_dag.py:1190-1298 | the reported level count is attained by the levels and no split into unordered rounds does with fewer |
| `DagBuilder.LastBlockTopsPath` | tools/analysis/build_agent_execution_dag.py:1225-1241 | the last block's top level is the end of the critical path, so the block rows tile the path |
| `Snapshots.ComputeProtocolSnapshot` | tools/analysis/build_definition_of_done_map.py:333-372 | the loops compute the snapshot: first incomplete task, claimable run, boundary, all claimed tasks |
| `SnapshotMeaning.PlannerOnSequential` | tools/analysis/build_definition_of_done_map.py:344-358 | on any markers, at a sequential task: it alone is claimable, the boundary is the next position not complete, the claimed list holds exactly the claimed positions in order |
| `SnapshotMeaning.PlannerOnWave` | tools/analysis/build_definition_of_done_map.py:359-372 | on any markers, in a wave: the claimable tasks are exactly the open positions of the unbroken stretch, in order; the boundary is the position behind it, if there is one and it is open |
| `SnapshotMeaning.BuilderOnSequential` | tools/analysis/build_agent_execution_dag.py:1310-1321 | the builder at a sequential task: it is listed by its own marker, the boundary is the next position, the active block its own |
| `SnapshotMeaning.BuilderOnWave` | tools/analysis/build_agent_execution_dag.py:1322-1334 | the builder in a wave: the claimed and unclaimed lists are exactly those positions of the block id, in order; the boundary is the position behind its last task, and the id is reported as active |
| `SnapshotMeaning.PlannerBoundaryOnRuns` | tools/analysis/build_definition_of_done_map.py:344-372 | on every reachable board the planner's boundary is the task at the smallest position of a later block than the first incomplete task's, or none |
| `SnapshotMeaning.BuilderBoundaryIff` | tools/analysis/build_agent_execution_dag.py:1318-1334 | the builder's boundary is that task on every reachable board if and only if no block id recurs after a break |
| `Snapshots.SnapshotsAgreeIff` | tools/analysis/build_agent_execution_dag.py:1301-1334 | on any marker vector of any parsed checklist the two tools agree if and only if, beyond the active run no task of its block id is open, no task is claimed, and the task after the run is not complete (or, where the block id recurs, is complete while a task of that id ends the checklist) |
| `Snapshots.ContiguousCondition` | tools/analysis/build_agent_execution_dag.py:1322-1328 | while block ids do not recur that condition says: nothing beyond the active block is claimed and the next task is not complete |
| `ClaimProtocol.StepIsMove` | PROMPT/AGENT.md:50-74 | the steps are exactly the changes of one task and one hand: an empty hand takes up a listed unclaimed task, or lays down the task it holds as complete or as unclaimed again; every other marker and every other hand stays |
| `ClaimProtocol.ReleaseUndoesClaim` | PROMPT/AGENT.md:74-74 | giving a task back at once restores the state before the claim |
| `ClaimProtocol.RunKeepsInvariant` | PROMPT/AGENT.md:50-74 | every run of claims, completions and releases keeps: an unfinished block leaves all later blocks untouched; claimed tasks and holders correspond one to one |
| `ClaimProtocol.ReleaseKeepsInvariant` | PROMPT/AGENT.md:74-74 | giving a task back keeps the same invariant |
| `ClaimProtocol.ReachableShape` | PROMPT/AGENT.md:37-48 | in every reachable state blocks before the active one are complete and blocks after it unclaimed |
| `ClaimProtocol.ClaimableIsActive` | tools/analysis/build_definition_of_done_map.py:356-365 | a listed task is incomplete and stands in the block of the first incomplete task |
| `ClaimProtocol.ActiveIsClaimable` | tools/analysis/build_definition_of_done_map.py:356-365 | every incomplete task of that block is listed |
| `ClaimProtocol.CrossBlockPredecessorsDone` | tools/analysis/build_agent_execution_dag.py:404-427 | a claimed or completed task has every task of every earlier block complete |
| `ClaimProtocol.SequentialTaskIsExclusive` | PROMPT/AGENT.md:31-35 | while a sequential task is in progress nothing else is, and nobody can claim |
| `ClaimProtocol.NeverStuck` | PROMPT/AGENT.md:50-60 | with at least one agent a reachable state has no next step if and only if everything is complete |
| `ClaimProtocol.RunsEndComplete` | PROMPT/AGENT.md:50-74 | runs have at most two steps per task plus two per release; a run is stuck exactly when it has taken that many, with all tasks complete |
| `ClaimTheorems.SnapshotsAgreeOnEveryRunIff` | tools/analysis/build_agent_execution_dag.py:1301-1334 | the two tools agree on every reachable checklist if and only if each block id occupies one contiguous stretch |
| `ClaimTheorems.BrokenBlockDisagrees` | tools/analysis/build_agent_execution_dag.py:1322-1328 | a wave id that recurs after a break makes them disagree in a reachable state: only the DAG builder lists the later task |
| `ClaimTheorems.HardOrderRespectedIff` | tools/analysis/build_agent_execution_dag.py:1322-1324 | every run claims in the order of a forward hard graph if and only if the graph has no edge inside a block |
| `ClaimTheorems.StaleClaimStaysValid` | PROMPT/AGENT.md:73-73 | re-reading a changed checklist can only reveal that somebody took the task: one that an old snapshot lists stays claimable at every later point of the run until then |
| `ClaimTheorems.PlanStatesInOrder` | tools/analysis/build_definition_of_done_map.py:1292-1304 | on every reachable board the unit states read complete, at most one active, blocked |
| `ClaimTheorems.ClaimableInsideActiveUnit` | tools/analysis/build_definition_of_done_map.py:1318-1323 | the active unit lists all claimable tasks, every other unit none |
| `SnapshotMeaning.UnitSays` | tools/analysis/build_definition_of_done_map.py:1292-1327 | while something is open, exactly the unit of the first incomplete task is active; its parallelism is the number of its open tasks, every other unit's is 0; a blocked unit, and no other, waits for the first incomplete task |
| `SnapshotMeaning.UnitAtEnd` | tools/analysis/build_definition_of_done_map.py:1292-1327 | once everything is complete no unit is active, lists a task or waits |
| `NodeRows.BuildNodeRows` | tools/analysis/build_agent_execution_dag.py:1346-1391 | one row per task: state by the snapshot's lists, unsatisfied predecessors by marker |
| `NodeRows.NodeRowSays` | tools/analysis/build_agent_execution_dag.py:1353-1366 | a row's state follows the marker first and then the snapshot's lists; its unsatisfied predecessors are exactly the listed ones whose own marker is not complete, in order |
| `NodeRows.NodeStateExact` | tools/analysis/build_agent_execution_dag.py:1359-1366 | on every reachable board of any checklist the state shown is what the marker says and, for an unclaimed task, whether its block id is the active one |
| `NodeRows.NodeStatesExactIff` | tools/analysis/build_agent_execution_dag.py:1359-1366 | the states shown follow the active run, as the protocol does, on every reachable board if and only if no block id recurs after a break |
| `NodeRows.BlockedIffWaiting` | tools/analysis/build_agent_execution_dag.py:1354-1366 | on every reachable board a row says blocked if and only if it lists an unsatisfied predecessor of an earlier block and its block id is not the active one |
| `NodeRows.BuiltBlockedMeansWaitingIff` | tools/analysis/build_agent_execution_dag.py:1354-1366 | blocked means exactly waiting for a task of an earlier block on every run if and only if no block id recurs after a break |
| `NodeRows.BuiltLabelsMatchIff` | tools/analysis/build_agent_execution_dag.py:1354-1366 | blocked and having any unsatisfied hard predecessor coincide on every run if and only if no block id recurs after a break and no rule joins two tasks of one block |
| `NodeRows.BuiltOrderRespectedIff` | tools/analysis/build_agent_execution_dag.py:1085-1100 | for the built graph, runs respect all hard edges if and only if no rule joins two tasks of one block |
| `ExampleChecklists.InterruptedWaveSplitsTools` | tools/analysis/build_agent_execution_dag.py:1322-1328 | three tasks, a wave interrupted by a sequential task: a checklist the parsers accept on which, before any work, only the DAG builder offers the third |
| `ExampleChecklists.RuleInsideWaveIsIgnored` | tools/analysis/build_agent_execution_dag.py:1322-1324 | two tasks of one wave and an admissible rule between them: some run breaks the rule and the report calls the second claimable beside its unsatisfied predecessor |
| `Catalog.BuildAliasMap` | scripts/tasks/task_graph.py:66-76 | succeeds exactly when no name belongs to two tasks; then maps exactly the names of the tasks; otherwise names the first task with a taken name, the first such name and the task that has it |
| `Sequences.SizeDetectsDuplicates` | scripts/tasks/task_graph.py:82-85 | comparing the dictionary's size with the list's detects exactly the repeated refs |
| `Catalog.TasksByRefExact` | scripts/tasks/task_graph.py:58-59 | with unique refs every task is found under its own ref |
| `DependencySearch.CycleFinder.Visit` | scripts/tasks/task_graph.py:110-122 | terminates with the unvisited tasks as measure; either marks the task done after all it depends on, or reports a path that closes a cycle |
| `DependencySearch.FindCycle` | scripts/tasks/task_graph.py:108-125 | reports a cycle if and only if the dependency relation is cyclic, and the reported path is a genuine cycle from the first occurrence of its last task |
| `DependencySearch.ValidateCatalog` | scripts/tasks/task_graph.py:79-141 | accepts exactly the valid catalogs; while everything before the search is in order it reports a cycle if and only if some chain of refs, each a listed dependency of a task with the ref before it, ends where it starts, and the reported path is such a chain running back into itself; which error is raised is decided by the first failing check, and it names the first offender of that check; the counts are exact |
| `DependencySearch.CyclicIffRing` | scripts/tasks/task_graph.py:108-123 | with unique refs the searched relation has a cycle if and only if the task list has such a chain |
| `Catalog.FirstReferenceErrorUnique` | scripts/tasks/task_graph.py:88-105 | the kind of an unknown-reference error and the names in it are decided by the catalog: first offending task, dependencies before conflicts before profiles |
| `PlanResolution.PlanBuilder.AddTask` | scripts/tasks/task_graph.py:179-185 | terminates because the catalog is acyclic; appends the missing closure of the task, dependencies first |
| `PlanResolution.ResolveRequestedTaskRefs` | scripts/tasks/task_graph.py:159-199 | all outcomes: empty request, the first unknown name, the first conflict inside the plan, or the plan itself: each ref once, after all the dependencies its task lists, and the refs are the least set that holds the requested tasks and every listed dependency of its members |
| `PlanResolution.LeastPlanUnique` | scripts/tasks/task_graph.py:177-188 | two least plans of one request hold the same tasks |
| `PlanResolution.ResolutionIgnoresSpelling` | scripts/tasks/task_graph.py:168-199 | success and resolved set do not depend on request order, repetition or alias used |
| `PlanResolution.AliasesAreInterchangeable` | scripts/tasks/task_graph.py:168-175 | replacing a requested name by another name of the same task requests the same tasks |
| `EnvironmentProfile.GateExact` | scripts/agent/resolve_environment_profile.py:119-201 | admission if and only if task and profile are known, supported and consistent, and destructive tasks have permission and, when enforced, their own non-empty confirmation acknowledged |
| `EnvironmentProfile.GateDecides` | scripts/agent/resolve_environment_profile.py:141-201 | for known task and profile the answer is the error of the first failing one of ten conditions, in the tool's order, or the task, profile and environment with the provider of the first matrix row of that environment |
| `EnvironmentProfile.UnknownRefs` | scripts/agent/resolve_environment_profile.py:127-139 | an unknown task is reported before an unknown profile, each exactly when no entry has that ref |
| `EnvironmentProfile.EnforcementOnlyRestricts` | scripts/agent/resolve_environment_profile.py:158-180 | what enforcement admits is admitted, with the same result, without it |
| `TaskRun.ExitCodesMeaning` | scripts/tasks/task_graph.py:463-486 | recorded exit codes are those of a prefix of the commands, stopping after the first failure only when failing fast; all zero exactly when every command succeeds |
| `TaskRun.RefusalDecides` | scripts/tasks/task_graph.py:429-449 | a task is refused exactly when gate, parameters, templates or, in a real run, preconditions fail, and with the error of the first that does |
| `TaskRun.RunPlan` | scripts/tasks/task_graph.py:424-512 | results are one per admitted task in plan order, the event trace is exactly their commands and results; every task on record passed the gate, has its parameters, renders and has its preconditions, with the outcome of its own commands; a refused task is named with the error of its first failing check |
| `TaskRun.RunTasks` | scripts/tasks/task_graph.py:403-512 | resolution and run together, over any outside world: a plan error of the request, or the run of the least plan with the same explanation of every start, result and refusal |
| `RunSafety.FailFastIsSafe` | scripts/tasks/task_graph.py:483-501 | in a fail-fast run, whenever a command runs every transitive dependency of its task has already been recorded as successful |
| `RunSafety.CommandsRunChecked` | scripts/tasks/task_graph.py:427-480 | whenever a command runs, the run is no dry run and the command's task has only known preconditions, a ready stack if it has any, every required parameter, templates that render and the enforced gate passed |
| `RunSafety.TraceInOrder` | scripts/tasks/task_graph.py:463-501 | the trace of a run is, task by task, the commands in order with their exit codes and then the task's result |
| `KeepGoing.KeepGoingSafeIff` | scripts/tasks/task_graph.py:483-501 | with --keep-going a run, however it ends, loses that if and only if a started task with commands depends on one that fails |
| `KeepGoing.StartedExactly` | scripts/tasks/task_graph.py:424-501 | how many tasks a keep-going run starts is decided by the admissions alone, whatever its commands return |
| `KeepGoing.KeepGoingAlwaysSafeIff` | scripts/tasks/task_graph.py:483-501 | before the run: it is safe whatever the commands return if and only if no task that will be started and has commands depends on a planned task with commands |
| `KeepGoing.KeepGoingCounterexample` | scripts/tasks/task_graph.py:483-501 | a valid two-task catalog, a request that resolves, and a run that ends normally having executed the dependent of a failed task |
| `RunSafety.OkMeansEverythingSucceeded` | scripts/tasks/task_graph.py:503-512 | a real run is ok if and only if every command of every planned task exits zero, and then every planned task ran all its commands |
| `RunSafety.DryRunExecutesNothing` | scripts/tasks/task_graph.py:450-461 | a dry run leaves no command event and only successful results |
| `RunSafety.DestructiveCommandsAuthorised` | scripts/agent/resolve_environment_profile.py:155-180 | every destructive task of which a command ran had a permitting profile, and the run's acknowledgement was its own confirmation |
| `RunSafety.OneConfirmationPerRun` | scripts/agent/resolve_environment_profile.py:167-180 | one run never executes destructive tasks with different confirmations |
| `SmokeMatrix.RowRefInjective` | automation/smoke/execute_external_credential_smoke_matrix.ts:744-746 | row references identify credential and environment while environment references hold no dot |
| `SmokeMatrix.CreateSmokeRows` | automation/smoke/execute_external_credential_smoke_matrix.ts:1729-1799 | the nested loops expand every credential over every environment, in order |
| `SmokeMatrix.MatrixPosition` | automation/smoke/execute_external_credential_smoke_matrix.ts:1729-1799 | the row of credential r and environment e stands at r times the number of environments plus e, with that credential, environment, scope, posture and default code |
| `SmokeMatrix.ResultRowsState` | automation/smoke/execute_external_credential_smoke_matrix.ts:2449-2457 | each result row carries its override if it has one, else the row's default code, and the class of that code |
| `SmokeMatrix.CalculateOutcomeCounts` | automation/smoke/execute_external_credential_smoke_matrix.ts:2459-2490 | for rows classified as the builder does, each counter is the number of rows whose outcome code is in its list, and the total their number |
| `SmokeMatrix.ClassesSumToTotal` | automation/smoke/execute_external_credential_smoke_matrix.ts:2459-2490 | the five classes sum to the total |
| `SmokeMatrix.RowsOfRecord` | automation/smoke/execute_external_credential_smoke_matrix.ts:2672-2674 | with distinct keys a credential's rows are the ones its own expansion produced |
| `SmokeMatrix.FamilySlices` | automation/smoke/execute_external_credential_smoke_matrix.ts:2669-2680 | no slice is missing, and each family's slices are its own results |
| `SmokeMatrix.RollupsConserveOutcomes` | automation/smoke/execute_external_credential_smoke_matrix.ts:2633-2693 | whatever the definitions and overrides, the per-environment rollups add up field by field to the counts over all result rows |
| `SmokeMatrix.RollupCountsCodes` | automation/smoke/execute_external_credential_smoke_matrix.ts:2669-2693 | each environment's rollup counts, code by code, exactly the result rows of that environment |
| `SmokeMatrix.OverallStatusMeaning` | automation/smoke/execute_external_credential_smoke_matrix.ts:2972-2980 | PASSED iff every row succeeded; BLOCKED_ONLY iff there are rows and all are blocked or disabled |
| `SmokeMatrix.StatusByCode` | automation/smoke/execute_external_credential_smoke_matrix.ts:2972-2980 | the same by outcome code: PASSED iff every code is SUCCESS, BLOCKED_ONLY iff there are rows and every code is one of the two blocked ones or ENVIRONMENT_DISABLED |
| `ReleaseValidation.ValidateArtifacts` | scripts/release/validate_release_metadata.ts:188-250 | the error list holds exactly what some entry is reported for: an unexpected artifact, a registry ref an earlier known entry registered, or a field error; it is empty if and only if every entry matches and no registry ref repeats |
| `ReleaseValidation.MapHoldsLast` | scripts/release/validate_release_metadata.ts:94-96 | the plan holds the key of every artifact and under it the last artifact with that key |
| `ReleaseValidation.KeysDecide` | scripts/release/validate_release_metadata.ts:94-96 | while component refs hold no bar, keys are equal exactly when component and artifact class are |
| `ReleaseValidation.CompareFields` | scripts/release/validate_release_metadata.ts:201-249 | reports exactly the fields that differ from the expected artifact, and missing or misplaced desktop evidence |
| `ReleaseValidation.AcceptedEntriesAreDistinct` | scripts/release/validate_release_metadata.ts:188-250 | accepted entries map injectively to expected artifacts |
| `ReleaseValidation.AcceptedIsCompleteIff` | scripts/release/validate_release_metadata.ts:188-250 | an accepted envelope covers the plan if and only if it has as many entries as the plan has keys |
| `ReleaseValidation.EmptyEnvelopeAccepted` | scripts/release/validate_release_metadata.ts:188-250 | an envelope without artifacts is accepted against every non-empty plan, of which it leaves out something |
| `ReleaseValidation.FindCollisions` | scripts/release/render_artifact_names.ts:247-264 | the duplicates are exactly the values that two different places of the plan hold, of the six references of each artifact; there are none if and only if all references are pairwise distinct |
| `ReleaseValidation.FaithfulCopyAcceptedIff` | scripts/release/validate_release_metadata.ts:188-250 | an envelope copied from a collision-free plan is accepted if and only if plan keys are distinct and desktop companions sit exactly on desktop artifacts |
| `CandidateIdentity.CanonicalRefsExact` | scripts/release/derive_release_identity.ts:306-322 | succeeds exactly on pairwise distinct references that are non-empty without white space at either end, and returns the permutation in which each is below any later one at the first unit where they differ; an untrimmed reference is reported before a repeated one |
| `CandidateIdentity.CanonicalRefsIdempotent` | scripts/release/derive_release_identity.ts:306-322 | canonicalising again changes nothing |
| `CandidateIdentity.CanonicalRefsDecideSet` | scripts/release/derive_release_identity.ts:306-322 | equal canonical forms if and only if equal sets of references |
| `CandidateIdentity.PermutationInvariant` | scripts/release/derive_release_identity.ts:306-322 | reordering changes neither success nor result |
| `CandidateIdentity.IdentityDecidesCandidate` | scripts/release/derive_release_identity.ts:324-339 | the same candidate always gets the same hash; with a collision-free hash, equal hashes mean the same fields and the same provider set |
| `Readiness.Evaluate` | scripts/local/wait_for_local_stack_ready.py:38-80 | ok iff the observed facts meet every check of the class asked for iff every service status is ok; one status per service so checked; the code sets are exactly those of the met and unmet checks, per service and overall |
| `Readiness.EvaluationIsMet` | scripts/local/wait_for_local_stack_ready.py:13-35 | a check passes exactly when the observation holds the fact it asks for: running and healthy, exited with 0, the marker in the stated form; an unknown requirement never passes |
| `Readiness.CodesExact` | scripts/local/wait_for_local_stack_ready.py:47-56 | the codes a service collects are those of its own targeted checks |
| `Readiness.ReadyIff` | scripts/local/wait_for_local_stack_ready.py:58-80 | readiness of the report, of all checks and of all services coincide |
| `Readiness.SemanticImpliesBase` | scripts/local/wait_for_local_stack_ready.py:41-45 | on the same observation SEMANTIC ok implies BASE ok |

## Left out

- HardEdges.EdgeStore.AddEdge: the dictionary is keyed by the four parts of an edge id rather than by their concatenation, which determines them (`IdTextInjective`). Source citations are dropped and rationales are short texts.
- SmokeMatrix.CreateSmokeRows: the family table's hooks are arbitrary functions; a row keeps the fields that decide outcomes and counts, and drops descriptive text.
- SmokeMatrix.FamilySlices: covers result rows built from the matrix; caller-supplied result rows are not modelled. That an override's outcome is not checked against the row's allowed outcomes is kept as in the tool: conservation holds for every override.
- ReleaseValidation.ValidateArtifacts: errors are values rather than message texts, and their order is left open; the other envelope checks (compatibility, rollout, manifest and promotion fields) are independent field comparisons and are not modelled.
- CandidateIdentity.IdentityDecidesCandidate: the hash is any function of the canonical value; collision freedom is assumed only where stated.
- Readiness.Evaluate: markers are absent, text or lists; numbers and booleans as marker values are not modelled. Sorted presentation of codes and services is not modelled, codes are sets.
- ClaimProtocol.NeverStuck: an agent may give its task back at any time; the team policy that `PROMPT/AGENT.md` leaves open, and taking over another agent's task, are not modelled.
- TaskRun.RunTasks: exit codes, readiness of the local stack and success of template rendering are functions of task and command, fixed for one run; files, logs and rendered text are not modelled.
- Admissibility asserts, version strings, timestamps and slugs of `deriveReleaseIdentity`: table lookups and text.
- The literal rule, family, gate and policy tables, checklist parsing by regular expression, and `resolve_card_plan`, which only calls plan resolution.
- The planner's own `ordered_unique`, which also drops empty strings and only feeds descriptive fields.
- Emitters, renderers, file and process handling, and all remaining tools of the repository.
