// Consequences for the two planning tools: when their snapshots agree, what hard edges the claim
// protocol respects, how stale snapshots behave, and what the execution plan shows.
module ClaimTheorems {
  import opened Sequences
  import opened Checklist
  import opened Blocks
  import opened HardEdges
  import opened Snapshots
  import opened ClaimProtocol

  // ---- States every team can reach ----

  // The first m tasks complete, the rest untouched, nobody holding anything.
  function Worked(n: nat, m: nat): State
    requires m <= n
  {
    State(seq(n, i => if i < m then Complete else Unclaimed), map[])
  }

  lemma {:induction false} WorkedReachable(tasks: seq<Task>, agents: set<string>, m: nat)
    requires Parsed(tasks) && agents != {} && m <= |tasks|
    ensures Reachable(tasks, agents, Worked(|tasks|, m))
  {
    var n := |tasks|;
    if m == 0 {
      assert Worked(n, 0).status == Initial(n).status;
      assert IsRun(tasks, agents, [Initial(n)]);
    } else {
      WorkedReachable(tasks, agents, m - 1);
      WorkOne(tasks, agents, m - 1);
    }
  }

  lemma WorkOne(tasks: seq<Task>, agents: set<string>, m: nat)
    requires Parsed(tasks) && agents != {} && m < |tasks| && Reachable(tasks, agents, Worked(|tasks|, m))
    ensures Reachable(tasks, agents, Worked(|tasks|, m + 1))
  {
    var a :| a in agents;
    var s := ClaimFromWorked(tasks, agents, a, m, m);
    FinishFromWorked(|tasks|, m, a);
    assert Step(tasks, agents, s, Finish(s, a));
    ReachableStep(tasks, agents, s, Finish(s, a));
  }

  lemma ClaimFromWorked(tasks: seq<Task>, agents: set<string>, a: string, m: nat, i: nat) returns (s: State)
    requires Parsed(tasks) && a in agents && m <= i < |tasks| && Reachable(tasks, agents, Worked(|tasks|, m))
    requires RunIndex(BlockKeys(tasks), m) == RunIndex(BlockKeys(tasks), i)
    ensures s == Claim(Worked(|tasks|, m), a, i) && Reachable(tasks, agents, s)
  {
    var before := Worked(|tasks|, m);
    WorkedClaimable(tasks, m, i);
    s := Claim(before, a, i);
    assert ClaimEnabled(tasks, before, a, i);
    ReachableStep(tasks, agents, before, s);
  }

  lemma FinishFromWorked(n: nat, m: nat, a: string)
    requires m < n
    ensures var s := Claim(Worked(n, m), a, m); Holding(s, a) && Finish(s, a) == Worked(n, m + 1)
  {
    var s := Claim(Worked(n, m), a, m);
    assert Finish(s, a).status == Worked(n, m + 1).status;
    assert Finish(s, a).holds == map[];
  }

  // In such a state everything in the block of task m, from m on, is listed.
  lemma WorkedClaimable(tasks: seq<Task>, m: nat, i: nat)
    requires Parsed(tasks) && m <= i < |tasks| && RunIndex(BlockKeys(tasks), m) == RunIndex(BlockKeys(tasks), i)
    ensures FirstIncomplete(Board(tasks, Worked(|tasks|, m).status)) == m
    ensures tasks[i].taskId in ProtocolSnapshot(Board(tasks, Worked(|tasks|, m).status)).claimable
  {
    var status := Worked(|tasks|, m).status;
    FirstIncompleteAtMost(Board(tasks, status), m);
    ActiveIsClaimable(tasks, status, i);
  }

  // ---- Agreement of the two tools ----

  // Positions at or past the end of a run are in later blocks.
  lemma BeyondRun(tasks: seq<Task>, f: nat, i: nat)
    requires f < |tasks| && RunEnd(tasks, f, tasks[f].blockId) <= i < |tasks|
    ensures RunIndex(BlockKeys(tasks), f) < RunIndex(BlockKeys(tasks), i)
  {
    var keys, end := BlockKeys(tasks), RunEnd(tasks, f, tasks[f].blockId);
    assert f < end;
    UniformStretch(tasks, f, end - 1);
    assert keys[end] == tasks[end].blockId && keys[end - 1] == tasks[end - 1].blockId;
    RunIndexMonotone(keys, end, i);
  }

  lemma ShapeNothingAhead(tasks: seq<Task>, status: seq<Status>)
    requires |status| == |tasks| && Shape(tasks, status)
    ensures NothingAhead(Board(tasks, status))
  {
    var board := Board(tasks, status);
    assert BlockKeys(board) == BlockKeys(tasks);
    var f := FirstIncomplete(board);
    if f < |tasks| {
      var end := RunEnd(board, f, board[f].blockId);
      forall i | end <= i < |tasks| ensures board[i].status.Unclaimed? {
        BeyondRun(board, f, i);
        assert EarlierBlock(tasks, f, i);
      }
    }
  }

  lemma ReachableNothingAhead(tasks: seq<Task>, agents: set<string>, s: State)
    requires Parsed(tasks) && Reachable(tasks, agents, s)
    ensures |s.status| == |tasks| && NothingAhead(Board(tasks, s.status))
  {
    ReachableInvariant(tasks, agents, s);
    ShapeNothingAhead(tasks, s.status);
  }

  // A wave's planner does not list what lies beyond its run, ...
  lemma PlannerOmitsBeyond(board: seq<Task>, f: nat, k: nat)
    requires NoDup(TaskIds(board)) && f == FirstIncomplete(board) < k < |board| && board[f].mode.Parallel?
    requires RunEnd(board, f, board[f].blockId) <= k
    ensures board[k].taskId !in ProtocolSnapshot(board).claimable
  {
    WaveProtocol(board, f);
    Picked(board, OpenPositions(board, f, RunEnd(board, f, board[f].blockId)), k);
  }

  // ... the DAG builder lists whatever carries the wave's id.
  lemma BuilderListsMember(board: seq<Task>, f: nat, k: nat)
    requires NoDup(TaskIds(board)) && f == FirstIncomplete(board) < k < |board| && board[f].mode.Parallel?
    requires board[k].blockId == board[f].blockId && board[k].status.Unclaimed?
    ensures board[k].taskId in EligibilitySnapshot(board).claimableUnclaimed
  {
    WaveEligible(board, f);
    Picked(board, BlockPositions(board, board[f].blockId, Unclaimed), k);
  }

  lemma OnlyOneLists(p: Snapshot, e: Eligibility, id: string)
    requires id !in p.claimable && id in e.claimableUnclaimed
    ensures !Agree(p, e)
  {
    assert id !in Elements(p.claimable) && id in Elements(e.claimableUnclaimed);
  }

  // A block id that recurs after a break makes the tools disagree in a reachable state: with
  // everything before its first stretch done, only the DAG builder offers the later task.
  lemma BrokenBlockDisagrees(tasks: seq<Task>, i: nat, j: nat, k: nat)
    requires Parsed(tasks) && i < j < k < |tasks|
    requires tasks[i].blockId == tasks[k].blockId && tasks[j].blockId != tasks[i].blockId
    ensures var board := Board(tasks, Worked(|tasks|, i).status);
            && tasks[k].taskId !in ProtocolSnapshot(board).claimable
            && tasks[k].taskId in EligibilitySnapshot(board).claimableUnclaimed
            && !Agree(ProtocolSnapshot(board), EligibilitySnapshot(board))
  {
    var board := Board(tasks, Worked(|tasks|, i).status);
    BoardKeeps(tasks, Worked(|tasks|, i).status);
    WorkedClaimable(tasks, i, i);
    RepeatedBlockIsWave(tasks, i, k);
    assert RunEnd(board, i, board[i].blockId) <= j by {
      assert board[j].blockId != board[i].blockId;
    }
    PlannerOmitsBeyond(board, i, k);
    BuilderListsMember(board, i, k);
    OnlyOneLists(ProtocolSnapshot(board), EligibilitySnapshot(board), tasks[k].taskId);
  }

  ghost predicate AgreeEverywhere(tasks: seq<Task>, agents: set<string>) {
    forall s :: Reachable(tasks, agents, s) && |s.status| == |tasks| ==>
      Agree(ProtocolSnapshot(Board(tasks, s.status)), EligibilitySnapshot(Board(tasks, s.status)))
  }

  // The two snapshots agree on every reachable checklist exactly when each block id occupies one
  // contiguous stretch.
  lemma SnapshotsAgreeOnEveryRunIff(tasks: seq<Task>, agents: set<string>)
    requires Parsed(tasks) && agents != {}
    ensures AgreeEverywhere(tasks, agents) <==> Contiguous(tasks)
  {
    if Contiguous(tasks) {
      forall s | Reachable(tasks, agents, s) && |s.status| == |tasks|
        ensures Agree(ProtocolSnapshot(Board(tasks, s.status)), EligibilitySnapshot(Board(tasks, s.status)))
      {
        ReachableNothingAhead(tasks, agents, s);
        BoardKeeps(tasks, s.status);
        SnapshotsAgreeIff(Board(tasks, s.status));
        ContiguousCondition(Board(tasks, s.status));
      }
    } else {
      var i, j, k :| 0 <= i < j < k < |tasks| && tasks[i].blockId == tasks[k].blockId && tasks[j].blockId != tasks[i].blockId;
      BrokenBlockDisagrees(tasks, i, j, k);
      WorkedReachable(tasks, agents, i);
    }
  }

  // ---- Hard edges and the protocol ----

  // A hard edge that stays inside one block, by position.
  ghost predicate InBlockEdge(tasks: seq<Task>, pairs: Pairs, i: nat, j: nat) {
    && i < |tasks| && j < |tasks| && (tasks[i].taskId, tasks[j].taskId) in pairs
    && RunIndex(BlockKeys(tasks), i) == RunIndex(BlockKeys(tasks), j)
  }

  // Nothing has been claimed before all of its hard predecessors were complete.
  ghost predicate HardOrderRespected(tasks: seq<Task>, pairs: Pairs, status: seq<Status>)
    requires |status| == |tasks|
  {
    forall i, j :: 0 <= i < |tasks| && 0 <= j < |tasks| && (tasks[i].taskId, tasks[j].taskId) in pairs && !status[j].Unclaimed? ==>
      status[i].Complete?
  }

  ghost predicate HardOrderRespectedEverywhere(tasks: seq<Task>, pairs: Pairs, agents: set<string>) {
    forall s :: Reachable(tasks, agents, s) && |s.status| == |tasks| ==> HardOrderRespected(tasks, pairs, s.status)
  }

  lemma ForwardInPosition(tasks: seq<Task>, pairs: Pairs, i: nat, j: nat)
    requires Parsed(tasks) && ForwardPairs(tasks, pairs)
    requires i < |tasks| && j < |tasks| && (tasks[i].taskId, tasks[j].taskId) in pairs
    ensures i < j && RunIndex(BlockKeys(tasks), i) <= RunIndex(BlockKeys(tasks), j)
  {
    var e := (tasks[i].taskId, tasks[j].taskId);
    assert e in pairs;
    assert Lookup(tasks)[e.0] == tasks[i] && Lookup(tasks)[e.1] == tasks[j];
    RunIndexMonotone(BlockKeys(tasks), i, j);
  }

  // The snapshot ignores hard edges inside a wave, so the protocol respects a forward hard graph
  // on every run exactly when the graph has no edge inside a block.
  lemma HardOrderRespectedIff(tasks: seq<Task>, pairs: Pairs, agents: set<string>)
    requires Parsed(tasks) && ForwardPairs(tasks, pairs) && agents != {}
    ensures HardOrderRespectedEverywhere(tasks, pairs, agents) <==> !exists i, j :: InBlockEdge(tasks, pairs, i, j)
  {
    if i, j :| InBlockEdge(tasks, pairs, i, j) {
      EarlyClaim(tasks, pairs, agents, i, j);
    } else {
      forall s | Reachable(tasks, agents, s) && |s.status| == |tasks| ensures HardOrderRespected(tasks, pairs, s.status) {
        forall i, j | 0 <= i < |tasks| && 0 <= j < |tasks| && (tasks[i].taskId, tasks[j].taskId) in pairs && !s.status[j].Unclaimed?
          ensures s.status[i].Complete?
        {
          ForwardInPosition(tasks, pairs, i, j);
          assert !InBlockEdge(tasks, pairs, i, j);
          CrossBlockPredecessorsDone(tasks, agents, s, i, j);
        }
      }
    }
  }

  // With everything before i done, j may be claimed although i has not been started.
  lemma EarlyClaim(tasks: seq<Task>, pairs: Pairs, agents: set<string>, i: nat, j: nat)
    requires Parsed(tasks) && ForwardPairs(tasks, pairs) && agents != {} && InBlockEdge(tasks, pairs, i, j)
    ensures !HardOrderRespectedEverywhere(tasks, pairs, agents)
  {
    ForwardInPosition(tasks, pairs, i, j);
    var a :| a in agents;
    WorkedReachable(tasks, agents, i);
    var s := ClaimFromWorked(tasks, agents, a, i, j);
    assert !s.status[j].Unclaimed? && !s.status[i].Complete?;
    assert !HardOrderRespected(tasks, pairs, s.status);
  }

  // ---- Stale snapshots ----

  ghost predicate Progressed(before: seq<Status>, after: seq<Status>) {
    |before| == |after| && forall i :: 0 <= i < |before| && before[i].Complete? ==> after[i].Complete?
  }

  lemma StepProgresses(tasks: seq<Task>, agents: set<string>, s: State, s': State)
    requires Step(tasks, agents, s, s')
    ensures Progressed(s.status, s'.status)
  {
  }

  // Completed tasks stay completed along a run.
  lemma {:induction false} RunProgresses(tasks: seq<Task>, agents: set<string>, run: seq<State>, a: nat, b: nat)
    requires IsRun(tasks, agents, run) && a <= b < |run|
    ensures Progressed(run[a].status, run[b].status)
    decreases b
  {
    if a < b {
      RunProgresses(tasks, agents, run, a, b - 1);
      StepProgresses(tasks, agents, run[b - 1], run[b]);
    }
  }

  // An agent may act on an old snapshot: a task it listed may still be claimed at any later point
  // of the run, as long as nobody has taken it in between.
  lemma StaleClaimStaysValid(tasks: seq<Task>, agents: set<string>, run: seq<State>, a: nat, b: nat, agent: string, i: nat)
    requires Parsed(tasks) && IsRun(tasks, agents, run) && a <= b < |run| && i < |tasks|
    requires |run[a].status| == |tasks| && |run[b].status| == |tasks|
    requires tasks[i].taskId in ProtocolSnapshot(Board(tasks, run[a].status)).claimable
    requires run[b].status[i].Unclaimed? && agent !in run[b].holds
    ensures ClaimEnabled(tasks, run[b], agent, i)
  {
    RunProgresses(tasks, agents, run, a, b);
    var before, after := Board(tasks, run[a].status), Board(tasks, run[b].status);
    var f, g := FirstIncomplete(before), FirstIncomplete(after);
    ClaimableIsActive(tasks, run[a].status, i);
    FirstIncompleteAtMost(after, i);
    FirstIncompleteAtMost(before, g);
    RunIndexMonotone(BlockKeys(tasks), f, g);
    RunIndexMonotone(BlockKeys(tasks), g, i);
    ActiveIsClaimable(tasks, run[b].status, i);
  }

  // ---- The execution plan on reachable boards ----

  // Unit k of the plan the definition-of-done planner builds for this board.
  function PlanUnit(board: seq<Task>, k: nat): ExecutionUnit
    requires k < |Runs(board, PlanKeys(board))|
  {
    var group := Runs(board, PlanKeys(board))[k];
    UnitOf(k, PlanKey(group[0]), group, ProtocolSnapshot(board))
  }

  lemma UnitMembers(board: seq<Task>, k: nat, id: string)
    requires Parsed(board) && k < |Runs(board, PlanKeys(board))|
    ensures id in TaskIds(Runs(board, PlanKeys(board))[k]) <==>
            exists i :: 0 <= i < |board| && board[i].taskId == id && RunIndex(BlockKeys(board), i) == k
  {
    PlanKeysAreBlockKeys(board);
    var group := BlockGroups(board)[k];
    if id in TaskIds(group) {
      var a :| 0 <= a < |group| && TaskIds(group)[a] == id;
      var i := MemberPosition(board, BlockKeys(board), k, a);
    }
    if i :| 0 <= i < |board| && board[i].taskId == id && RunIndex(BlockKeys(board), i) == k {
      var a := PositionMember(board, BlockKeys(board), i);
      assert TaskIds(group)[a] == id;
    }
  }

  lemma UnitAllComplete(board: seq<Task>, k: nat)
    requires Parsed(board) && k < |Runs(board, PlanKeys(board))|
    ensures (forall row :: row in Runs(board, PlanKeys(board))[k] ==> row.status.Complete?) <==>
            forall i :: 0 <= i < |board| && RunIndex(BlockKeys(board), i) == k ==> board[i].status.Complete?
  {
    PlanKeysAreBlockKeys(board);
    var group := BlockGroups(board)[k];
    forall row | row in group ensures exists i :: 0 <= i < |board| && RunIndex(BlockKeys(board), i) == k && board[i] == row {
      var a :| 0 <= a < |group| && group[a] == row;
      var i := MemberPosition(board, BlockKeys(board), k, a);
    }
    forall i | 0 <= i < |board| && RunIndex(BlockKeys(board), i) == k ensures board[i] in group {
      var a := PositionMember(board, BlockKeys(board), i);
    }
  }

  lemma UnitOfPosition(board: seq<Task>, k: nat, i: nat)
    requires Parsed(board) && k < |Runs(board, PlanKeys(board))| && i < |board|
    ensures board[i].taskId in TaskIds(Runs(board, PlanKeys(board))[k]) <==> RunIndex(BlockKeys(board), i) == k
  {
    var id := board[i].taskId;
    UnitMembers(board, k, id);
    if m :| 0 <= m < |board| && board[m].taskId == id && RunIndex(BlockKeys(board), m) == k {
      if m != i {
        DistinctIds(board, m, i);
      }
    }
  }

  lemma UnitIsActiveIff(board: seq<Task>, k: nat)
    requires Parsed(board) && k < |Runs(board, PlanKeys(board))|
    ensures var f := FirstIncomplete(board);
            PlanUnit(board, k).state.UnitActive? <==> f < |board| && RunIndex(BlockKeys(board), f) == k
  {
    var f := FirstIncomplete(board);
    if f < |board| {
      UnitOfPosition(board, k, f);
    }
  }

  // What the shape says about block k as a whole.
  lemma BlockProgress(tasks: seq<Task>, agents: set<string>, s: State, k: nat)
    requires Parsed(tasks) && Reachable(tasks, agents, s) && |s.status| == |tasks|
    ensures var f, keys := FirstIncomplete(Board(tasks, s.status)), BlockKeys(tasks);
            forall m :: 0 <= m < |tasks| && RunIndex(keys, m) == k ==>
              && (f == |tasks| || k < RunIndex(keys, f) ==> s.status[m].Complete?)
              && (f < |tasks| && k > RunIndex(keys, f) ==> s.status[m].Unclaimed?)
  {
    var f, keys := FirstIncomplete(Board(tasks, s.status)), BlockKeys(tasks);
    forall m | 0 <= m < |tasks| && RunIndex(keys, m) == k
      ensures f == |tasks| || k < RunIndex(keys, f) ==> s.status[m].Complete?
      ensures f < |tasks| && k > RunIndex(keys, f) ==> s.status[m].Unclaimed?
    {
      ReachableShape(tasks, agents, s, m);
      assert f < |tasks| ==> (EarlierBlock(tasks, m, f) <==> RunIndex(keys, m) < RunIndex(keys, f));
      assert f < |tasks| ==> (EarlierBlock(tasks, f, m) <==> RunIndex(keys, f) < RunIndex(keys, m));
    }
  }

  // The state a unit of the plan shows, given what holds of its block.
  lemma UnitStateOf(board: seq<Task>, k: nat)
    requires Parsed(board) && k < |Runs(board, PlanKeys(board))|
    ensures var f, keys := FirstIncomplete(board), BlockKeys(board);
            var complete := forall m :: 0 <= m < |board| && RunIndex(keys, m) == k ==> board[m].status.Complete?;
            PlanUnit(board, k).state ==
            if f < |board| && k == RunIndex(keys, f) then UnitActive else if complete then UnitComplete else UnitBlocked
  {
    UnitIsActiveIff(board, k);
    UnitAllComplete(board, k);
  }

  lemma UnitOccupied(board: seq<Task>, k: nat) returns (m: nat)
    requires Parsed(board) && k < |Runs(board, PlanKeys(board))|
    ensures m < |board| && RunIndex(BlockKeys(board), m) == k
  {
    PlanKeysAreBlockKeys(board);
    m := MemberPosition(board, BlockKeys(board), k, 0);
  }

  // Complete units, then at most one active unit, then blocked units.
  lemma PlanStatesInOrder(tasks: seq<Task>, agents: set<string>, s: State, k: nat)
    requires Parsed(tasks) && Reachable(tasks, agents, s)
    requires |s.status| == |tasks| && k < |Runs(Board(tasks, s.status), PlanKeys(Board(tasks, s.status)))|
    ensures var board := Board(tasks, s.status);
            var f := FirstIncomplete(board);
            PlanUnit(board, k).state ==
            if f == |tasks| || k < RunIndex(BlockKeys(tasks), f) then UnitComplete
            else if k == RunIndex(BlockKeys(tasks), f) then UnitActive
            else UnitBlocked
  {
    var board := Board(tasks, s.status);
    BoardKeeps(tasks, s.status);
    BlockProgress(tasks, agents, s, k);
    UnitStateOf(board, k);
    var m := UnitOccupied(board, k);
  }

  // Every claimable task is inside the active unit: that unit lists them all, the others none.
  lemma ClaimableInsideActiveUnit(board: seq<Task>, k: nat)
    requires Parsed(board) && k < |Runs(board, PlanKeys(board))|
    ensures var unit := PlanUnit(board, k);
            unit.claimable == if unit.state.UnitActive? then ProtocolSnapshot(board).claimable else []
  {
    var claimable := ProtocolSnapshot(board).claimable;
    var ids := TaskIds(Runs(board, PlanKeys(board))[k]);
    forall id | id in claimable ensures id in ids <==> PlanUnit(board, k).state.UnitActive? {
      ClaimableUnit(board, k, id);
    }
    if PlanUnit(board, k).state.UnitActive? {
      FilterAll(claimable, Elements(ids));
    } else {
      FilterNone(claimable, Elements(ids));
    }
  }

  lemma ClaimableUnit(board: seq<Task>, k: nat, id: string)
    requires Parsed(board) && k < |Runs(board, PlanKeys(board))|
    requires id in ProtocolSnapshot(board).claimable
    ensures id in TaskIds(Runs(board, PlanKeys(board))[k]) <==> PlanUnit(board, k).state.UnitActive?
  {
    var i := ActiveBlockPosition(board, id);
    UnitOfPosition(board, k, i);
    UnitIsActiveIff(board, k);
  }

  lemma ActiveBlockPosition(board: seq<Task>, id: string) returns (i: nat)
    requires Parsed(board) && id in ProtocolSnapshot(board).claimable
    ensures i < |board| && board[i].taskId == id && FirstIncomplete(board) < |board|
    ensures RunIndex(BlockKeys(board), i) == RunIndex(BlockKeys(board), FirstIncomplete(board))
  {
    var status := seq(|board|, i requires 0 <= i < |board| => board[i].status);
    assert Board(board, status) == board;
    ClaimablePosition(board, id);
    i :| 0 <= i < |board| && board[i].taskId == id;
    ClaimableIsActive(board, status, i);
  }

  lemma ClaimablePosition(board: seq<Task>, id: string)
    requires id in ProtocolSnapshot(board).claimable
    ensures exists i :: 0 <= i < |board| && board[i].taskId == id
  {
    var f := FirstIncomplete(board);
    if board[f].mode.Parallel? {
      PickedPosition(board, OpenPositions(board, f, RunEnd(board, f, board[f].blockId)), id);
    }
  }

  lemma {:induction false} FilterAll<T>(s: seq<T>, keep: set<T>)
    requires forall x :: x in s ==> x in keep
    ensures Filter(s, keep) == s
  {
    if s != [] {
      assert s == s[..|s| - 1] + [s[|s| - 1]];
      FilterAll(s[..|s| - 1], keep);
    }
  }

  lemma {:induction false} FilterNone<T>(s: seq<T>, keep: set<T>)
    requires forall x :: x in s ==> x !in keep
    ensures Filter(s, keep) == []
  {
    if s != [] {
      FilterNone(s[..|s| - 1], keep);
    }
  }
}
