// The node rows of the DAG builder's report: the state it shows for each task, and the hard
// predecessors it lists as unsatisfied. When the two tell the same story.
module NodeRows {
  import opened Sequences
  import opened Checklist
  import opened HardEdges
  import opened HardGraph
  import opened Snapshots
  import opened ClaimProtocol
  import opened ClaimTheorems
  import D = DagBuilder

  datatype NodeState = Completed | ActiveClaimed | ClaimableUnclaimed | BlockedByHardDependency

  datatype NodeRow = NodeRow(taskId: string, state: NodeState, unsatisfied: seq<string>)

  // The state is read off the eligibility snapshot's lists, in this order.
  function NodeStateOf(task: Task, eligibility: Eligibility): NodeState {
    if task.status.Complete? then Completed
    else if task.taskId in eligibility.activeClaimed then ActiveClaimed
    else if task.taskId in eligibility.claimableUnclaimed then ClaimableUnclaimed
    else BlockedByHardDependency
  }

  function IncompleteIds(board: seq<Task>): set<string> {
    set i | 0 <= i < |board| && !board[i].status.Complete? :: board[i].taskId
  }

  function NodeRowOf(board: seq<Task>, preds: Adjacency, i: nat): NodeRow
    requires i < |board| && board[i].taskId in preds
  {
    NodeRow(board[i].taskId, NodeStateOf(board[i], EligibilitySnapshot(board)),
            Filter(preds[board[i].taskId], IncompleteIds(board)))
  }

  ghost predicate PredecessorsKnown(board: seq<Task>, preds: Adjacency) {
    forall t, p :: t in preds && p in preds[t] ==> p in TaskIds(board)
  }

  // row is the row of position i.
  ghost predicate RowAt(board: seq<Task>, preds: Adjacency, i: nat, row: NodeRow) {
    i < |board| && board[i].taskId in preds && row == NodeRowOf(board, preds, i)
  }

  // rows are the rows of the first positions, in order.
  ghost predicate RowsOfPrefix(board: seq<Task>, preds: Adjacency, rows: seq<NodeRow>) {
    forall i :: 0 <= i < |rows| ==> RowAt(board, preds, i, rows[i])
  }

  lemma NextRow(board: seq<Task>, preds: Adjacency, rows: seq<NodeRow>, row: NodeRow)
    requires RowsOfPrefix(board, preds, rows) && RowAt(board, preds, |rows|, row)
    ensures RowsOfPrefix(board, preds, rows + [row])
  {
  }

  method BuildNodeRows(board: seq<Task>, preds: Adjacency) returns (rows: seq<NodeRow>)
    requires NoDup(TaskIds(board)) && preds.Keys == Elements(TaskIds(board))
    requires PredecessorsKnown(board, preds)
    ensures |rows| == |board| && RowsOfPrefix(board, preds, rows)
  {
    var eligibility, lookup := EligibilitySnapshot(board), Lookup(board);
    rows := [];
    for i := 0 to |board|
      invariant |rows| == i
      invariant RowsOfPrefix(board, preds, rows)
    {
      var row := BuildNodeRow(board, lookup, eligibility, preds, i);
      NextRow(board, preds, rows, row);
      rows := rows + [row];
    }
  }

  // The body of the loop: one task's row.
  method BuildNodeRow(board: seq<Task>, lookup: map<string, Task>, eligibility: Eligibility, preds: Adjacency, i: nat)
    returns (row: NodeRow)
    requires NoDup(TaskIds(board)) && lookup == Lookup(board) && eligibility == EligibilitySnapshot(board)
    requires preds.Keys == Elements(TaskIds(board)) && i < |board|
    requires PredecessorsKnown(board, preds)
    ensures RowAt(board, preds, i, row)
  {
    var task := board[i];
    assert TaskIds(board)[i] == task.taskId;
    assert task.taskId in Elements(TaskIds(board));
    var unsatisfied := SelectIncomplete(board, lookup, preds[task.taskId]);
    row := NodeRow(task.taskId, NodeStateOf(task, eligibility), unsatisfied);
  }

  method SelectIncomplete(board: seq<Task>, lookup: map<string, Task>, ps: seq<string>) returns (unsatisfied: seq<string>)
    requires NoDup(TaskIds(board)) && lookup == Lookup(board)
    requires forall p :: p in ps ==> p in lookup
    ensures unsatisfied == Filter(ps, IncompleteIds(board))
  {
    unsatisfied := [];
    for k := 0 to |ps|
      invariant unsatisfied == Filter(ps[..k], IncompleteIds(board))
    {
      assert ps[..k + 1][..k] == ps[..k];
      assert ps[k] in ps;
      IncompleteLookup(board, ps[k]);
      if !lookup[ps[k]].status.Complete? {
        unsatisfied := unsatisfied + [ps[k]];
      }
    }
    assert ps[..|ps|] == ps;
  }

  lemma IncompleteLookup(board: seq<Task>, id: string)
    requires NoDup(TaskIds(board)) && id in Lookup(board)
    ensures id in IncompleteIds(board) <==> !Lookup(board)[id].status.Complete?
  {
    var i :| 0 <= i < |board| && TaskIds(board)[i] == id;
    if m :| 0 <= m < |board| && !board[m].status.Complete? && board[m].taskId == id {
      assert TaskIds(board)[m] == id;
    }
  }

  // Some task with this id is not complete.
  ghost predicate OpenTask(board: seq<Task>, id: string) {
    exists j :: 0 <= j < |board| && board[j].taskId == id && !board[j].status.Complete?
  }

  // The values of part are taken from whole, in the order in which they stand there.
  ghost predicate TakenInOrder(part: seq<string>, whole: seq<string>) {
    forall a, b :: 0 <= a < b < |part| ==> StandInOrder(whole, part[a], part[b])
  }

  ghost predicate StandInOrder(s: seq<string>, x: string, y: string) {
    exists m, n :: 0 <= m < n < |s| && s[m] == x && s[n] == y
  }

  // What a row says: the task, its state by the marker and the snapshot's lists, and exactly those of
  // the task's predecessors whose own marker is not complete, in the order of the predecessor list.
  lemma NodeRowSays(board: seq<Task>, preds: Adjacency, i: nat, row: NodeRow)
    requires RowAt(board, preds, i, row)
    ensures row.taskId == board[i].taskId
    ensures var e := EligibilitySnapshot(board);
            && (row.state.Completed? <==> board[i].status.Complete?)
            && (row.state.ActiveClaimed? <==> !board[i].status.Complete? && board[i].taskId in e.activeClaimed)
            && (row.state.ClaimableUnclaimed? <==>
                  !board[i].status.Complete? && board[i].taskId !in e.activeClaimed && board[i].taskId in e.claimableUnclaimed)
    ensures forall p :: p in row.unsatisfied <==> p in preds[board[i].taskId] && OpenTask(board, p)
    ensures TakenInOrder(row.unsatisfied, preds[board[i].taskId])
  {
    forall p ensures p in row.unsatisfied <==> p in preds[board[i].taskId] && OpenTask(board, p) {
      InFilter(preds[board[i].taskId], IncompleteIds(board), p);
      OpenIsIncomplete(board, p);
    }
    FilterTakes(preds[board[i].taskId], IncompleteIds(board));
  }

  lemma OpenIsIncomplete(board: seq<Task>, id: string)
    ensures id in IncompleteIds(board) <==> OpenTask(board, id)
  {
  }

  lemma FilterTakes(s: seq<string>, keep: set<string>)
    ensures TakenInOrder(Filter(s, keep), s)
  {
    var part := Filter(s, keep);
    forall a, b | 0 <= a < b < |part| ensures StandInOrder(s, part[a], part[b]) {
      var m, n := FilterOrder(s, keep, a, b);
    }
  }

  // ---- On reachable boards ----

  // What the report says of task i, and what the protocol would: it takes block ids, the protocol
  // takes unbroken runs of them.
  function ShownState(tasks: seq<Task>, status: seq<Status>, i: nat): NodeState
    requires |status| == |tasks| && i < |tasks|
  {
    NodeStateOf(Board(tasks, status)[i], EligibilitySnapshot(Board(tasks, status)))
  }

  function StateByMarker(status: Status, active: bool): NodeState {
    match status
    case Complete => Completed
    case Claimed => ActiveClaimed
    case Unclaimed => if active then ClaimableUnclaimed else BlockedByHardDependency
  }

  ghost predicate InActiveRun(tasks: seq<Task>, status: seq<Status>, i: nat)
    requires |status| == |tasks| && i < |tasks|
  {
    var f := FirstIncomplete(Board(tasks, status));
    f < |tasks| && RunIndex(BlockKeys(tasks), i) == RunIndex(BlockKeys(tasks), f)
  }

  ghost predicate HasActiveId(tasks: seq<Task>, status: seq<Status>, i: nat)
    requires |status| == |tasks| && i < |tasks|
  {
    var f := FirstIncomplete(Board(tasks, status));
    f < |tasks| && tasks[i].blockId == tasks[f].blockId
  }

  lemma WaveState(board: seq<Task>, f: nat, i: nat)
    requires NoDup(TaskIds(board)) && f == FirstIncomplete(board) < |board| && i < |board|
    requires board[i].status.Claimed? ==> board[i].blockId == board[f].blockId
    ensures NodeStateOf(board[i], WaveEligibility(board, f)) == StateByMarker(board[i].status, board[i].blockId == board[f].blockId)
  {
    Picked(board, BlockPositions(board, board[f].blockId, Claimed), i);
    Picked(board, BlockPositions(board, board[f].blockId, Unclaimed), i);
  }

  lemma SequentialState(board: seq<Task>, f: nat, i: nat)
    requires NoDup(TaskIds(board)) && f == FirstIncomplete(board) < |board| && i < |board|
    requires board[i].status.Claimed? ==> i == f
    ensures NodeStateOf(board[i], SequentialEligibility(board, f)) == StateByMarker(board[i].status, i == f)
  {
    if i != f {
      DistinctIds(board, i, f);
    }
  }

  lemma ClaimedIsActive(board: seq<Task>, f: nat, i: nat)
    requires NothingAhead(board) && f == FirstIncomplete(board) < |board| && i < |board| && board[i].status.Claimed?
    ensures board[i].blockId == board[f].blockId && i < RunEnd(board, f, board[f].blockId)
  {
  }

  // The report's state is what marker and active block id say, on every run of every checklist.
  lemma NodeStateExact(tasks: seq<Task>, agents: set<string>, s: State, i: nat)
    requires Parsed(tasks) && Reachable(tasks, agents, s) && i < |tasks|
    ensures |s.status| == |tasks| && ShownState(tasks, s.status, i) == StateByMarker(s.status[i], HasActiveId(tasks, s.status, i))
    ensures ShownState(tasks, s.status, i).Completed? <==> s.status[i].Complete?
    ensures ShownState(tasks, s.status, i).ActiveClaimed? <==> s.status[i].Claimed?
    ensures ShownState(tasks, s.status, i).ClaimableUnclaimed? <==> s.status[i].Unclaimed? && HasActiveId(tasks, s.status, i)
  {
    ReachableNothingAhead(tasks, agents, s);
    var board := Board(tasks, s.status);
    BoardKeeps(tasks, s.status);
    var f := FirstIncomplete(board);
    if f == |tasks| {
      assert board[i].status.Complete?;
    } else {
      if board[i].status.Claimed? {
        ClaimedIsActive(board, f, i);
      }
      if board[f].mode.Sequential? {
        SequentialRunEnd(board, f);
        SequentialEligible(board, f);
        SequentialState(board, f, i);
      } else {
        WaveEligible(board, f);
        WaveState(board, f, i);
      }
    }
  }

  // Task j, of an earlier block than i, is a listed predecessor of i and not complete.
  ghost predicate WaitsFor(tasks: seq<Task>, preds: Adjacency, status: seq<Status>, i: nat, j: nat)
    requires |status| == |tasks|
  {
    && EarlierBlock(tasks, j, i) && tasks[i].taskId in preds
    && tasks[j].taskId in Filter(preds[tasks[i].taskId], IncompleteIds(Board(tasks, status)))
  }

  lemma UnsatisfiedPosition(tasks: seq<Task>, preds: Adjacency, status: seq<Status>, i: nat, j: nat)
    requires NoDup(TaskIds(tasks)) && |status| == |tasks| && i < |tasks| && j < |tasks| && tasks[i].taskId in preds
    ensures tasks[j].taskId in Filter(preds[tasks[i].taskId], IncompleteIds(Board(tasks, status))) <==>
            tasks[j].taskId in preds[tasks[i].taskId] && !status[j].Complete?
  {
    var board, id := Board(tasks, status), tasks[j].taskId;
    InFilter(preds[tasks[i].taskId], IncompleteIds(board), id);
    if !status[j].Complete? {
      assert board[j].taskId == id && !board[j].status.Complete?;
      assert id in IncompleteIds(board);
    }
    if m :| 0 <= m < |board| && !board[m].status.Complete? && board[m].taskId == id {
      assert TaskIds(tasks)[m] == TaskIds(tasks)[j];
    }
  }

  ghost predicate BuiltGraph(tasks: seq<Task>, pairs: Pairs, preds: Adjacency) {
    && Parsed(tasks) && ForwardPairs(tasks, pairs) && ProtocolPairs(tasks) <= pairs
    && preds.Keys == Elements(TaskIds(tasks)) && ListsSources(preds, pairs)
  }

  // A task of a later block than the active one has an incomplete predecessor in the block before it.
  lemma LaterTaskWaits(tasks: seq<Task>, agents: set<string>, s: State, pairs: Pairs, preds: Adjacency, i: nat) returns (j: nat)
    requires BuiltGraph(tasks, pairs, preds) && Reachable(tasks, agents, s) && i < |tasks| && |s.status| == |tasks|
    requires var f := FirstIncomplete(Board(tasks, s.status));
             f < |tasks| && RunIndex(BlockKeys(tasks), f) < RunIndex(BlockKeys(tasks), i)
    ensures j < |tasks| && WaitsFor(tasks, preds, s.status, i, j)
  {
    var board, keys := Board(tasks, s.status), BlockKeys(tasks);
    var f := FirstIncomplete(board);
    if RunIndex(keys, f) + 1 == RunIndex(keys, i) {
      j := f;
      assert !board[f].status.Complete?;
    } else {
      j := RunIndexOnto(keys, i, RunIndex(keys, i) - 1);
      ReachableShape(tasks, agents, s, j);
      assert EarlierBlock(tasks, f, j);
    }
    assert NextBlock(tasks, j, i);
    assert (tasks[j].taskId, tasks[i].taskId) in ProtocolPairs(tasks);
    assert TaskIds(tasks)[i] in Elements(TaskIds(tasks));
    UnsatisfiedPosition(tasks, preds, s.status, i, j);
  }

  ghost predicate Waiting(tasks: seq<Task>, preds: Adjacency, status: seq<Status>, i: nat)
    requires |status| == |tasks|
  {
    exists j :: 0 <= j < |tasks| && WaitsFor(tasks, preds, status, i, j)
  }

  lemma WaitingIffLater(tasks: seq<Task>, agents: set<string>, s: State, pairs: Pairs, preds: Adjacency, i: nat)
    requires BuiltGraph(tasks, pairs, preds) && Reachable(tasks, agents, s) && i < |tasks| && |s.status| == |tasks|
    ensures Waiting(tasks, preds, s.status, i) <==>
            var f := FirstIncomplete(Board(tasks, s.status));
            f < |tasks| && RunIndex(BlockKeys(tasks), f) < RunIndex(BlockKeys(tasks), i)
  {
    var board, keys := Board(tasks, s.status), BlockKeys(tasks);
    var f := FirstIncomplete(board);
    if f < |tasks| && RunIndex(keys, f) < RunIndex(keys, i) {
      var j := LaterTaskWaits(tasks, agents, s, pairs, preds, i);
    }
    if j :| 0 <= j < |tasks| && WaitsFor(tasks, preds, s.status, i, j) {
      UnsatisfiedPosition(tasks, preds, s.status, i, j);
      assert !board[j].status.Complete?;
      RunIndexMonotone(keys, f, j);
    }
  }

  // Where the block id of an incomplete task separates, so does its run.
  lemma OtherIdIsLater(tasks: seq<Task>, f: nat, i: nat)
    requires f <= i < |tasks| && tasks[i].blockId != tasks[f].blockId
    ensures RunIndex(BlockKeys(tasks), f) < RunIndex(BlockKeys(tasks), i)
  {
    var keys := BlockKeys(tasks);
    assert keys[f] == tasks[f].blockId && keys[i] == tasks[i].blockId;
    RunIndexMonotone(keys, f, i);
    if RunIndex(keys, f) == RunIndex(keys, i) {
      RunIsUniform(keys, f, i);
    }
  }

  // On every reachable checklist a row says "blocked" exactly when it lists an unsatisfied
  // predecessor of an earlier block and its block id is not the active one.
  lemma BlockedIffWaiting(tasks: seq<Task>, agents: set<string>, s: State, pairs: Pairs, preds: Adjacency, i: nat)
    requires BuiltGraph(tasks, pairs, preds) && Reachable(tasks, agents, s) && i < |tasks|
    ensures |s.status| == |tasks|
    ensures ShownState(tasks, s.status, i).BlockedByHardDependency? <==>
            Waiting(tasks, preds, s.status, i) && !HasActiveId(tasks, s.status, i)
  {
    NodeStateExact(tasks, agents, s, i);
    WaitingIffLater(tasks, agents, s, pairs, preds, i);
    ReachableShape(tasks, agents, s, i);
    var board := Board(tasks, s.status);
    var f := FirstIncomplete(board);
    if s.status[i].Unclaimed? && !HasActiveId(tasks, s.status, i) {
      assert !board[i].status.Complete?;
      OtherIdIsLater(tasks, f, i);
    }
  }

  // ---- When the report can be believed ----

  ghost predicate StatesFollowRuns(tasks: seq<Task>, status: seq<Status>)
    requires |status| == |tasks|
  {
    forall i :: 0 <= i < |tasks| ==> ShownState(tasks, status, i) == StateByMarker(status[i], InActiveRun(tasks, status, i))
  }

  ghost predicate StatesFollowRunsEverywhere(tasks: seq<Task>, agents: set<string>) {
    forall s :: Reachable(tasks, agents, s) && |s.status| == |tasks| ==> StatesFollowRuns(tasks, s.status)
  }

  ghost predicate BlockedMeansWaiting(tasks: seq<Task>, preds: Adjacency, status: seq<Status>)
    requires |status| == |tasks|
  {
    forall i :: 0 <= i < |tasks| ==> (ShownState(tasks, status, i).BlockedByHardDependency? <==> Waiting(tasks, preds, status, i))
  }

  ghost predicate BlockedMeansWaitingEverywhere(tasks: seq<Task>, preds: Adjacency, agents: set<string>) {
    forall s :: Reachable(tasks, agents, s) && |s.status| == |tasks| ==> BlockedMeansWaiting(tasks, preds, s.status)
  }

  // A block id that recurs after a break: with everything before its first stretch done, the later
  // task is shown as claimable although its run is not the active one.
  lemma RecurringShownClaimable(tasks: seq<Task>, agents: set<string>, i: nat, j: nat, k: nat)
    requires Parsed(tasks) && agents != {} && i < j < k < |tasks|
    requires tasks[i].blockId == tasks[k].blockId && tasks[j].blockId != tasks[i].blockId
    ensures var s := Worked(|tasks|, i);
            && Reachable(tasks, agents, s) && FirstIncomplete(Board(tasks, s.status)) == i
            && ShownState(tasks, s.status, k).ClaimableUnclaimed?
            && RunIndex(BlockKeys(tasks), i) < RunIndex(BlockKeys(tasks), k)
  {
    WorkedReachable(tasks, agents, i);
    WorkedClaimable(tasks, i, i);
    NodeStateExact(tasks, agents, Worked(|tasks|, i), k);
    OtherIdIsLater(tasks, i, j);
    RunIndexMonotone(BlockKeys(tasks), j, k);
  }

  lemma InRunHasId(tasks: seq<Task>, f: nat, i: nat)
    requires f <= i < |tasks| && RunIndex(BlockKeys(tasks), i) == RunIndex(BlockKeys(tasks), f)
    ensures tasks[i].blockId == tasks[f].blockId
  {
    if tasks[i].blockId != tasks[f].blockId {
      OtherIdIsLater(tasks, f, i);
    }
  }

  lemma HasIdInRun(tasks: seq<Task>, f: nat, i: nat)
    requires Contiguous(tasks) && f <= i < |tasks| && tasks[i].blockId == tasks[f].blockId
    ensures RunIndex(BlockKeys(tasks), i) == RunIndex(BlockKeys(tasks), f)
  {
    UniformStretch(tasks, f, i);
  }

  // For an incomplete task of a contiguous checklist the two readings of "active" coincide.
  lemma ActiveReadings(tasks: seq<Task>, status: seq<Status>, i: nat)
    requires Contiguous(tasks) && |status| == |tasks| && i < |tasks| && !status[i].Complete?
    ensures HasActiveId(tasks, status, i) <==> InActiveRun(tasks, status, i)
  {
    var board := Board(tasks, status);
    var f := FirstIncomplete(board);
    assert !board[i].status.Complete?;
    if tasks[i].blockId == tasks[f].blockId {
      HasIdInRun(tasks, f, i);
    } else {
      OtherIdIsLater(tasks, f, i);
    }
  }

  lemma StateFollowsRun(tasks: seq<Task>, agents: set<string>, s: State, i: nat)
    requires Parsed(tasks) && Contiguous(tasks) && Reachable(tasks, agents, s) && |s.status| == |tasks| && i < |tasks|
    ensures ShownState(tasks, s.status, i) == StateByMarker(s.status[i], InActiveRun(tasks, s.status, i))
  {
    NodeStateExact(tasks, agents, s, i);
    if !s.status[i].Complete? {
      ActiveReadings(tasks, s.status, i);
    }
  }

  lemma RecurringStateWrong(tasks: seq<Task>, agents: set<string>, i: nat, j: nat, k: nat)
    requires Parsed(tasks) && agents != {} && i < j < k < |tasks|
    requires tasks[i].blockId == tasks[k].blockId && tasks[j].blockId != tasks[i].blockId
    ensures !StatesFollowRunsEverywhere(tasks, agents)
  {
    RecurringShownClaimable(tasks, agents, i, j, k);
    assert !StatesFollowRuns(tasks, Worked(|tasks|, i).status);
  }

  // The states shown are the protocol's on every run exactly when no block id recurs, ...
  lemma NodeStatesExactIff(tasks: seq<Task>, agents: set<string>)
    requires Parsed(tasks) && agents != {}
    ensures StatesFollowRunsEverywhere(tasks, agents) <==> Contiguous(tasks)
  {
    if Contiguous(tasks) {
      forall s, i | Reachable(tasks, agents, s) && |s.status| == |tasks| && 0 <= i < |tasks|
        ensures ShownState(tasks, s.status, i) == StateByMarker(s.status[i], InActiveRun(tasks, s.status, i))
      {
        StateFollowsRun(tasks, agents, s, i);
      }
    } else {
      var i, j, k :| 0 <= i < j < k < |tasks| && tasks[i].blockId == tasks[k].blockId && tasks[j].blockId != tasks[i].blockId;
      RecurringStateWrong(tasks, agents, i, j, k);
    }
  }

  // ... and so does "blocked" mean waiting for a task of an earlier block.
  lemma BlockedMeansWaitingIff(tasks: seq<Task>, pairs: Pairs, preds: Adjacency, agents: set<string>)
    requires BuiltGraph(tasks, pairs, preds) && agents != {}
    ensures BlockedMeansWaitingEverywhere(tasks, preds, agents) <==> Contiguous(tasks)
  {
    if Contiguous(tasks) {
      forall s, i | Reachable(tasks, agents, s) && |s.status| == |tasks| && 0 <= i < |tasks|
        ensures ShownState(tasks, s.status, i).BlockedByHardDependency? <==> Waiting(tasks, preds, s.status, i)
      {
        BlockedIffWaiting(tasks, agents, s, pairs, preds, i);
        WaitingNotActive(tasks, agents, s, pairs, preds, i);
      }
    } else {
      var i, j, k :| 0 <= i < j < k < |tasks| && tasks[i].blockId == tasks[k].blockId && tasks[j].blockId != tasks[i].blockId;
      RecurringShownClaimable(tasks, agents, i, j, k);
      WaitingIffLater(tasks, agents, Worked(|tasks|, i), pairs, preds, k);
      assert !BlockedMeansWaiting(tasks, preds, Worked(|tasks|, i).status);
    }
  }

  lemma WaitingNotActive(tasks: seq<Task>, agents: set<string>, s: State, pairs: Pairs, preds: Adjacency, i: nat)
    requires BuiltGraph(tasks, pairs, preds) && Contiguous(tasks) && Reachable(tasks, agents, s)
    requires |s.status| == |tasks| && i < |tasks|
    ensures Waiting(tasks, preds, s.status, i) ==> !HasActiveId(tasks, s.status, i)
  {
    if Waiting(tasks, preds, s.status, i) {
      WaitingIffLater(tasks, agents, s, pairs, preds, i);
      ReachableShape(tasks, agents, s, i);
      ActiveReadings(tasks, s.status, i);
    }
  }

  // "Blocked" and "has an unsatisfied hard predecessor" coincide, on this checklist.
  ghost predicate LabelsMatchPredecessors(tasks: seq<Task>, preds: Adjacency, status: seq<Status>)
    requires |status| == |tasks|
  {
    forall i :: 0 <= i < |tasks| && tasks[i].taskId in preds ==>
      (ShownState(tasks, status, i).BlockedByHardDependency? <==> NodeRowOf(Board(tasks, status), preds, i).unsatisfied != [])
  }

  ghost predicate LabelsMatchEverywhere(tasks: seq<Task>, preds: Adjacency, agents: set<string>) {
    forall s :: Reachable(tasks, agents, s) && |s.status| == |tasks| ==> LabelsMatchPredecessors(tasks, preds, s.status)
  }

  lemma UnsatisfiedIsWaiting(tasks: seq<Task>, pairs: Pairs, preds: Adjacency, status: seq<Status>, i: nat)
    requires BuiltGraph(tasks, pairs, preds) && |status| == |tasks| && i < |tasks| && tasks[i].taskId in preds
    ensures Waiting(tasks, preds, status, i) ==> NodeRowOf(Board(tasks, status), preds, i).unsatisfied != []
    ensures !SomeInBlockEdge(tasks, pairs) ==>
              (NodeRowOf(Board(tasks, status), preds, i).unsatisfied != [] <==> Waiting(tasks, preds, status, i))
  {
    var board := Board(tasks, status);
    var unsatisfied := Filter(preds[tasks[i].taskId], IncompleteIds(board));
    if unsatisfied != [] && !SomeInBlockEdge(tasks, pairs) {
      var p := unsatisfied[0];
      assert p in unsatisfied;
      InFilter(preds[tasks[i].taskId], IncompleteIds(board), p);
      assert (p, tasks[i].taskId) in pairs;
      var j :| 0 <= j < |board| && !board[j].status.Complete? && board[j].taskId == p;
      ForwardInPosition(tasks, pairs, j, i);
      assert !InBlockEdge(tasks, pairs, j, i);
      assert WaitsFor(tasks, preds, status, i, j);
    }
  }

  ghost predicate SomeInBlockEdge(tasks: seq<Task>, pairs: Pairs) {
    exists i, j :: InBlockEdge(tasks, pairs, i, j)
  }

  // The labels match the listed predecessors on every run exactly when no block id recurs and no
  // hard edge stays inside a block; the snapshot the labels come from looks at neither.
  lemma LabelsMatchIff(tasks: seq<Task>, pairs: Pairs, preds: Adjacency, agents: set<string>)
    requires BuiltGraph(tasks, pairs, preds) && agents != {}
    ensures LabelsMatchEverywhere(tasks, preds, agents) <==> Contiguous(tasks) && !SomeInBlockEdge(tasks, pairs)
  {
    if i, j :| InBlockEdge(tasks, pairs, i, j) {
      ClaimableWithOpenPredecessor(tasks, pairs, preds, agents, i, j);
    } else if i, j, k :| 0 <= i < j < k < |tasks| && tasks[i].blockId == tasks[k].blockId && tasks[j].blockId != tasks[i].blockId {
      ClaimableBeyondBreak(tasks, pairs, preds, agents, i, j, k);
    } else {
      assert Contiguous(tasks);
      BlockedMeansWaitingIff(tasks, pairs, preds, agents);
      forall s, i | Reachable(tasks, agents, s) && |s.status| == |tasks| && 0 <= i < |tasks| && tasks[i].taskId in preds
        ensures ShownState(tasks, s.status, i).BlockedByHardDependency? <==> NodeRowOf(Board(tasks, s.status), preds, i).unsatisfied != []
      {
        assert BlockedMeansWaiting(tasks, preds, s.status);
        UnsatisfiedIsWaiting(tasks, pairs, preds, s.status, i);
      }
    }
  }

  // The later stretch of a recurring block id is offered while its predecessors are open.
  lemma ClaimableBeyondBreak(tasks: seq<Task>, pairs: Pairs, preds: Adjacency, agents: set<string>, i: nat, j: nat, k: nat)
    requires BuiltGraph(tasks, pairs, preds) && agents != {} && i < j < k < |tasks|
    requires tasks[i].blockId == tasks[k].blockId && tasks[j].blockId != tasks[i].blockId
    ensures !LabelsMatchEverywhere(tasks, preds, agents)
  {
    var s := Worked(|tasks|, i);
    RecurringShownClaimable(tasks, agents, i, j, k);
    WaitingIffLater(tasks, agents, s, pairs, preds, k);
    assert TaskIds(tasks)[k] in Elements(TaskIds(tasks));
    UnsatisfiedIsWaiting(tasks, pairs, preds, s.status, k);
    assert !LabelsMatchPredecessors(tasks, preds, s.status);
  }

  lemma ClaimableWithOpenPredecessor(tasks: seq<Task>, pairs: Pairs, preds: Adjacency, agents: set<string>, i: nat, j: nat)
    requires BuiltGraph(tasks, pairs, preds) && agents != {} && InBlockEdge(tasks, pairs, i, j)
    ensures !LabelsMatchEverywhere(tasks, preds, agents)
  {
    WorkedReachable(tasks, agents, i);
    OpenPredecessorLabel(tasks, pairs, preds, agents, i, j);
    assert !LabelsMatchPredecessors(tasks, preds, Worked(|tasks|, i).status);
  }

  // With everything before i done, j is shown as claimable while it lists i.
  lemma OpenPredecessorLabel(tasks: seq<Task>, pairs: Pairs, preds: Adjacency, agents: set<string>, i: nat, j: nat)
    requires BuiltGraph(tasks, pairs, preds) && agents != {} && InBlockEdge(tasks, pairs, i, j)
    ensures j < |tasks| && tasks[j].taskId in preds
    ensures var status := Worked(|tasks|, i).status;
            && ShownState(tasks, status, j).ClaimableUnclaimed?
            && NodeRowOf(Board(tasks, status), preds, j).unsatisfied != []
  {
    var s := Worked(|tasks|, i);
    ForwardInPosition(tasks, pairs, i, j);
    WorkedReachable(tasks, agents, i);
    WorkedClaimable(tasks, i, i);
    InRunHasId(tasks, i, j);
    NodeStateExact(tasks, agents, s, j);
    assert TaskIds(tasks)[j] in Elements(TaskIds(tasks));
    UnsatisfiedPosition(tasks, preds, s.status, j, i);
  }

  // Edges that the protocol itself contributes never stay inside a block.
  lemma InBlockEdgesAreRules(tasks: seq<Task>, rules: seq<Rule>, i: nat, j: nat)
    requires Parsed(tasks)
    ensures InBlockEdge(tasks, D.HardPairs(tasks, rules), i, j) <==> InBlockEdge(tasks, RulePairs(rules), i, j)
  {
    if i < |tasks| && j < |tasks| && (tasks[i].taskId, tasks[j].taskId) in ProtocolPairs(tasks) {
      var a, b :| 0 <= a < |tasks| && 0 <= b < |tasks| && NextBlock(tasks, a, b) &&
                  (tasks[i].taskId, tasks[j].taskId) == (tasks[a].taskId, tasks[b].taskId);
      assert TaskIds(tasks)[a] == TaskIds(tasks)[i] && TaskIds(tasks)[b] == TaskIds(tasks)[j];
      assert a == i && b == j;
    }
  }

  lemma SomeInBlockRule(tasks: seq<Task>, rules: seq<Rule>)
    requires Parsed(tasks)
    ensures SomeInBlockEdge(tasks, D.HardPairs(tasks, rules)) <==> SomeInBlockEdge(tasks, RulePairs(rules))
  {
    if i, j :| InBlockEdge(tasks, D.HardPairs(tasks, rules), i, j) {
      InBlockEdgesAreRules(tasks, rules, i, j);
    }
    if i, j :| InBlockEdge(tasks, RulePairs(rules), i, j) {
      InBlockEdgesAreRules(tasks, rules, i, j);
    }
  }

  lemma HardPairsBuilt(tasks: seq<Task>, rules: seq<Rule>, preds: Adjacency, succs: Adjacency)
    requires Parsed(tasks) && RulesAdmissible(Lookup(tasks), rules)
    requires GraphLists(TaskIds(tasks), D.HardPairs(tasks, rules), preds, succs)
    ensures BuiltGraph(tasks, D.HardPairs(tasks, rules), preds)
  {
    BuiltPairsAreForward(tasks, rules);
  }

  // For a built graph the condition is one on the checklist and the rule table alone: the labels
  // can be trusted on every run exactly when no block id recurs and no rule joins two tasks of one
  // block.
  lemma BuiltLabelsMatchIff(tasks: seq<Task>, rules: seq<Rule>, preds: Adjacency, succs: Adjacency, agents: set<string>)
    requires Parsed(tasks) && agents != {} && RulesAdmissible(Lookup(tasks), rules)
    requires GraphLists(TaskIds(tasks), D.HardPairs(tasks, rules), preds, succs)
    ensures LabelsMatchEverywhere(tasks, preds, agents) <==> Contiguous(tasks) && !SomeInBlockEdge(tasks, RulePairs(rules))
  {
    HardPairsBuilt(tasks, rules, preds, succs);
    SomeInBlockRule(tasks, rules);
    LabelsMatchIff(tasks, D.HardPairs(tasks, rules), preds, agents);
  }

  lemma BuiltBlockedMeansWaitingIff(tasks: seq<Task>, rules: seq<Rule>, preds: Adjacency, succs: Adjacency, agents: set<string>)
    requires Parsed(tasks) && agents != {} && RulesAdmissible(Lookup(tasks), rules)
    requires GraphLists(TaskIds(tasks), D.HardPairs(tasks, rules), preds, succs)
    ensures BlockedMeansWaitingEverywhere(tasks, preds, agents) <==> Contiguous(tasks)
  {
    HardPairsBuilt(tasks, rules, preds, succs);
    BlockedMeansWaitingIff(tasks, D.HardPairs(tasks, rules), preds, agents);
  }

  // Every run claims tasks in the order of the hard edges exactly when no rule joins two tasks of
  // one block.
  lemma BuiltOrderRespectedIff(tasks: seq<Task>, rules: seq<Rule>, agents: set<string>)
    requires Parsed(tasks) && agents != {} && RulesAdmissible(Lookup(tasks), rules)
    ensures HardOrderRespectedEverywhere(tasks, D.HardPairs(tasks, rules), agents) <==> !SomeInBlockEdge(tasks, RulePairs(rules))
  {
    BuiltPairsAreForward(tasks, rules);
    SomeInBlockRule(tasks, rules);
    HardOrderRespectedIff(tasks, D.HardPairs(tasks, rules), agents);
  }
}
