// What the two snapshots and the plan built from them say, by position in the checklist.
module SnapshotMeaning {
  import opened Sequences
  import opened Checklist
  import opened Blocks
  import opened Snapshots
  import opened ClaimProtocol
  import opened ClaimTheorems

  // ---- Positions ----

  ghost predicate IsFirstOpen(tasks: seq<Task>, f: nat) {
    f < |tasks| && !tasks[f].status.Complete? && forall i :: 0 <= i < f ==> tasks[i].status.Complete?
  }

  // e is where the unbroken stretch of f's block id ends.
  ghost predicate IsRunEnd(tasks: seq<Task>, f: nat, e: nat) {
    && f < e <= |tasks| && (forall i :: f <= i < e ==> tasks[i].blockId == tasks[f].blockId)
    && (e < |tasks| ==> tasks[e].blockId != tasks[f].blockId)
  }

  // g is the next position after f whose task is not complete, or the length.
  ghost predicate IsNextOpen(tasks: seq<Task>, f: nat, g: nat) {
    && f < g <= |tasks| && (forall i :: f < i < g ==> tasks[i].status.Complete?)
    && (g < |tasks| ==> !tasks[g].status.Complete?)
  }

  ghost predicate IsLastOfBlock(tasks: seq<Task>, f: nat, l: nat) {
    && f <= l < |tasks| && tasks[l].blockId == tasks[f].blockId
    && forall i :: l < i < |tasks| ==> tasks[i].blockId != tasks[f].blockId
  }

  // b is the smallest position of a later block than f's, or the length when there is none.
  ghost predicate IsFirstLater(tasks: seq<Task>, f: nat, b: nat) {
    && f < b <= |tasks| && (forall i :: f <= i < b ==> !EarlierBlock(tasks, f, i))
    && (b < |tasks| ==> EarlierBlock(tasks, f, b))
  }

  // id names the task at position i, or nothing when the checklist ends before it.
  ghost predicate NamesPosition(id: Option<string>, tasks: seq<Task>, i: nat) {
    (i < |tasks| ==> id == Some(tasks[i].taskId)) && (i >= |tasks| ==> id == None)
  }

  // ids are the ids of exactly these positions, in checklist order.
  ghost predicate ListsPositions(ids: seq<string>, tasks: seq<Task>, positions: set<nat>) {
    exists ps: seq<nat> :: PositionsListed(ids, tasks, positions, ps)
  }

  ghost predicate PositionsListed(ids: seq<string>, tasks: seq<Task>, positions: set<nat>, ps: seq<nat>) {
    && |ps| == |ids| && Elements(ps) == positions
    && (forall a, b :: 0 <= a < b < |ps| ==> ps[a] < ps[b])
    && (forall a :: 0 <= a < |ps| ==> ps[a] < |tasks| && ids[a] == tasks[ps[a]].taskId)
  }

  // The members of keep below n, in rising order.
  ghost function Kept(keep: set<nat>, n: nat): seq<nat> {
    if n == 0 then [] else Kept(keep, n - 1) + if n - 1 in keep then [n - 1] else []
  }

  lemma {:induction false} KeptRising(keep: set<nat>, n: nat)
    ensures forall a :: 0 <= a < |Kept(keep, n)| ==> Kept(keep, n)[a] < n
    ensures forall a, b :: 0 <= a < b < |Kept(keep, n)| ==> Kept(keep, n)[a] < Kept(keep, n)[b]
    ensures forall i :: i in Kept(keep, n) <==> i in keep && i < n
  {
    if n > 0 {
      KeptRising(keep, n - 1);
    }
  }

  lemma {:induction false} PickIsKept(tasks: seq<Task>, keep: set<nat>)
    ensures |Pick(tasks, keep)| == |Kept(keep, |tasks|)|
    ensures forall a :: 0 <= a < |Kept(keep, |tasks|)| ==>
              Kept(keep, |tasks|)[a] < |tasks| && Pick(tasks, keep)[a] == tasks[Kept(keep, |tasks|)[a]].taskId
  {
    if tasks != [] {
      var n := |tasks| - 1;
      PickIsKept(tasks[..n], keep);
    }
  }

  lemma PickLists(tasks: seq<Task>, keep: set<nat>)
    requires forall i :: i in keep ==> i < |tasks|
    ensures ListsPositions(Pick(tasks, keep), tasks, keep)
  {
    var ps := Kept(keep, |tasks|);
    KeptRising(keep, |tasks|);
    PickIsKept(tasks, keep);
    assert Elements(ps) == keep;
    assert PositionsListed(Pick(tasks, keep), tasks, keep, ps);
  }

  lemma ListedSize(ids: seq<string>, tasks: seq<Task>, positions: set<nat>)
    requires ListsPositions(ids, tasks, positions)
    ensures |ids| == |positions|
  {
    var ps: seq<nat> :| PositionsListed(ids, tasks, positions, ps);
    assert NoDup(ps);
    NoDupSize(ps);
  }

  // ---- The definition-of-done planner, on any markers ----

  lemma FirstOpenIs(tasks: seq<Task>, f: nat)
    requires IsFirstOpen(tasks, f)
    ensures FirstIncomplete(tasks) == f
  {
    FirstIncompleteAtMost(tasks, f);
  }

  lemma RunEndIs(tasks: seq<Task>, f: nat, e: nat)
    requires f < |tasks| && IsRunEnd(tasks, f, e)
    ensures RunEnd(tasks, f, tasks[f].blockId) == e
  {
  }

  lemma NextOpenIs(tasks: seq<Task>, f: nat, g: nat)
    requires f < |tasks| && IsNextOpen(tasks, f, g)
    ensures NextIncomplete(tasks, f + 1) == g
  {
  }

  lemma PlannerIdle(tasks: seq<Task>)
    requires forall i :: 0 <= i < |tasks| ==> tasks[i].status.Complete?
    ensures ProtocolSnapshot(tasks) == Snapshot(None, [], None, [])
    ensures EligibilitySnapshot(tasks) == Eligibility(None, [], [], None, None)
  {
    PickNothing(tasks, ClaimedPositions(tasks));
  }

  lemma PlannerOnSequential(tasks: seq<Task>, f: nat, g: nat)
    requires IsFirstOpen(tasks, f) && tasks[f].mode.Sequential? && IsNextOpen(tasks, f, g)
    ensures var p := ProtocolSnapshot(tasks);
            && p.firstIncomplete == Some(tasks[f].taskId) && p.claimable == [tasks[f].taskId]
            && NamesPosition(p.blockedBoundary, tasks, g)
            && ListsPositions(p.activeClaimed, tasks, set i | 0 <= i < |tasks| && tasks[i].status.Claimed?)
  {
    FirstOpenIs(tasks, f);
    NextOpenIs(tasks, f, g);
    SequentialProtocol(tasks, f);
    PickLists(tasks, ClaimedPositions(tasks));
  }

  lemma PlannerOnWave(tasks: seq<Task>, f: nat, e: nat)
    requires IsFirstOpen(tasks, f) && tasks[f].mode.Parallel? && IsRunEnd(tasks, f, e)
    ensures var p := ProtocolSnapshot(tasks);
            && p.firstIncomplete == Some(tasks[f].taskId)
            && ListsPositions(p.claimable, tasks, set i | f <= i < e && !tasks[i].status.Complete?)
            && (e < |tasks| && !tasks[e].status.Complete? ==> p.blockedBoundary == Some(tasks[e].taskId))
            && (e == |tasks| || tasks[e].status.Complete? ==> p.blockedBoundary == None)
            && ListsPositions(p.activeClaimed, tasks, set i | 0 <= i < |tasks| && tasks[i].status.Claimed?)
  {
    FirstOpenIs(tasks, f);
    RunEndIs(tasks, f, e);
    WaveProtocol(tasks, f);
    PickLists(tasks, ClaimedPositions(tasks));
    PickLists(tasks, OpenPositions(tasks, f, e));
  }

  // ---- The DAG builder, on any markers ----

  lemma LastOfBlockIs(tasks: seq<Task>, f: nat, l: nat)
    requires IsLastOfBlock(tasks, f, l)
    ensures LastOfBlock(tasks, f) == l
  {
    LastOfBlockIsLast(tasks, f, l);
  }

  lemma BuilderOnSequential(tasks: seq<Task>, f: nat)
    requires IsFirstOpen(tasks, f) && tasks[f].mode.Sequential? && tasks[f].orderIndex == f
    ensures var e := EligibilitySnapshot(tasks);
            && e.firstIncomplete == Some(tasks[f].taskId) && e.activeBlockId == Some(tasks[f].blockId)
            && e.activeClaimed == (if tasks[f].status.Claimed? then [tasks[f].taskId] else [])
            && e.claimableUnclaimed == (if tasks[f].status.Unclaimed? then [tasks[f].taskId] else [])
            && NamesPosition(e.blockedBoundary, tasks, f + 1)
  {
    FirstOpenIs(tasks, f);
    SequentialEligible(tasks, f);
  }

  lemma BuilderOnWave(tasks: seq<Task>, f: nat, l: nat)
    requires IsFirstOpen(tasks, f) && tasks[f].mode.Parallel? && IsLastOfBlock(tasks, f, l) && tasks[l].orderIndex == l
    ensures var e, b := EligibilitySnapshot(tasks), tasks[f].blockId;
            && e.firstIncomplete == Some(tasks[f].taskId) && e.activeBlockId == Some(b)
            && ListsPositions(e.activeClaimed, tasks, set i | 0 <= i < |tasks| && tasks[i].blockId == b && tasks[i].status.Claimed?)
            && ListsPositions(e.claimableUnclaimed, tasks, set i | 0 <= i < |tasks| && tasks[i].blockId == b && tasks[i].status.Unclaimed?)
            && NamesPosition(e.blockedBoundary, tasks, l + 1)
  {
    var b := tasks[f].blockId;
    FirstOpenIs(tasks, f);
    LastOfBlockIs(tasks, f, l);
    WaveEligible(tasks, f);
    PickLists(tasks, BlockPositions(tasks, b, Claimed));
    PickLists(tasks, BlockPositions(tasks, b, Unclaimed));
    assert BlockPositions(tasks, b, Claimed) == set i | 0 <= i < |tasks| && tasks[i].blockId == b && tasks[i].status.Claimed?;
    assert BlockPositions(tasks, b, Unclaimed) == set i | 0 <= i < |tasks| && tasks[i].blockId == b && tasks[i].status.Unclaimed?;
  }

  lemma BuilderWaveBoundary(tasks: seq<Task>, f: nat, l: nat)
    requires IsFirstOpen(tasks, f) && tasks[f].mode.Parallel? && IsLastOfBlock(tasks, f, l) && tasks[l].orderIndex == l
    ensures NamesPosition(EligibilitySnapshot(tasks).blockedBoundary, tasks, l + 1)
  {
    BuilderOnWave(tasks, f, l);
  }

  // ---- The boundary on reachable boards ----

  lemma FirstLaterIsRunEnd(tasks: seq<Task>, f: nat, b: nat)
    requires f < |tasks| && IsFirstLater(tasks, f, b)
    ensures RunEnd(tasks, f, tasks[f].blockId) == b
  {
    var e := RunEnd(tasks, f, tasks[f].blockId);
    assert EarlierBlock(tasks, f, e) <==> e < |tasks| by {
      if e < |tasks| {
        BeyondRun(tasks, f, e);
      }
    }
    assert b < e ==> !EarlierBlock(tasks, f, b) by {
      if b < e {
        UniformStretch(tasks, f, b);
      }
    }
  }

  lemma LaterIsOpen(tasks: seq<Task>, agents: set<string>, s: State, f: nat, b: nat)
    requires Parsed(tasks) && Reachable(tasks, agents, s) && |s.status| == |tasks|
    requires IsFirstOpen(Board(tasks, s.status), f) && EarlierBlock(tasks, f, b)
    ensures s.status[b].Unclaimed?
  {
    ReachableInvariant(tasks, agents, s);
    assert !Board(tasks, s.status)[f].status.Complete?;
  }

  lemma LaterOnBoard(tasks: seq<Task>, status: seq<Status>, f: nat, b: nat)
    requires |status| == |tasks| && IsFirstLater(tasks, f, b)
    ensures IsFirstLater(Board(tasks, status), f, b)
  {
    var board := Board(tasks, status);
    assert BlockKeys(board) == BlockKeys(tasks);
    forall i ensures EarlierBlock(board, f, i) <==> EarlierBlock(tasks, f, i) {}
  }

  // On every run the planner's boundary is the first task of a later block, or none.
  lemma PlannerBoundaryOnRuns(tasks: seq<Task>, agents: set<string>, s: State, f: nat, b: nat)
    requires Parsed(tasks) && Reachable(tasks, agents, s) && |s.status| == |tasks|
    requires IsFirstOpen(Board(tasks, s.status), f) && IsFirstLater(tasks, f, b)
    ensures NamesPosition(ProtocolSnapshot(Board(tasks, s.status)).blockedBoundary, tasks, b)
  {
    var board := Board(tasks, s.status);
    BoardKeeps(tasks, s.status);
    LaterOnBoard(tasks, s.status, f, b);
    FirstLaterIsRunEnd(board, f, b);
    if b < |tasks| {
      LaterIsOpen(tasks, agents, s, f, b);
      assert board[b].status.Unclaimed?;
    }
    if board[f].mode.Sequential? {
      SequentialRunEnd(board, f);
      PlannerOnSequential(board, f, b);
    } else {
      PlannerOnWave(board, f, b);
    }
  }

  ghost predicate BuilderBoundariesExact(tasks: seq<Task>, agents: set<string>) {
    forall s, f, b :: Reachable(tasks, agents, s) && |s.status| == |tasks| && IsFirstOpen(Board(tasks, s.status), f)
                      && IsFirstLater(tasks, f, b) ==>
      NamesPosition(EligibilitySnapshot(Board(tasks, s.status)).blockedBoundary, tasks, b)
  }

  lemma ContiguousLast(board: seq<Task>, f: nat, b: nat)
    requires Contiguous(board) && f < |board| && IsFirstLater(board, f, b)
    ensures IsLastOfBlock(board, f, b - 1)
  {
    FirstLaterIsRunEnd(board, f, b);
    LastOfActiveBlock(board, f);
    LastOfBlockIsLast(board, f, f);
    forall i | b - 1 < i < |board| ensures board[i].blockId != board[f].blockId {
      LastOfBlockIsLast(board, f, i);
    }
  }

  lemma OrderAt(tasks: seq<Task>, i: nat)
    requires Parsed(tasks) && i < |tasks|
    ensures tasks[i].orderIndex == i
  {
  }

  lemma BoundaryOnBoard(board: seq<Task>, f: nat, b: nat)
    requires b > 0 && IsFirstOpen(board, f) && IsLastOfBlock(board, f, b - 1)
    requires board[f].orderIndex == f && board[b - 1].orderIndex == b - 1 && (board[f].mode.Sequential? ==> b == f + 1)
    ensures NamesPosition(EligibilitySnapshot(board).blockedBoundary, board, b)
  {
    if board[f].mode.Sequential? {
      BuilderOnSequential(board, f);
    } else {
      BuilderWaveBoundary(board, f, b - 1);
    }
  }

  lemma SequentialFirstLater(board: seq<Task>, f: nat, b: nat)
    requires Parsed(board) && f < |board| && IsFirstLater(board, f, b)
    ensures board[f].mode.Sequential? ==> b == f + 1
  {
    FirstLaterIsRunEnd(board, f, b);
    if board[f].mode.Sequential? {
      SequentialRunEnd(board, f);
    }
  }

  lemma BuilderBoundaryOnRuns(tasks: seq<Task>, status: seq<Status>, f: nat, b: nat)
    requires Parsed(tasks) && Contiguous(tasks) && |status| == |tasks|
    requires IsFirstOpen(Board(tasks, status), f) && IsFirstLater(tasks, f, b)
    ensures NamesPosition(EligibilitySnapshot(Board(tasks, status)).blockedBoundary, tasks, b)
  {
    var board := Board(tasks, status);
    BoardKeeps(tasks, status);
    LaterOnBoard(tasks, status, f, b);
    ContiguousLast(board, f, b);
    SequentialFirstLater(board, f, b);
    OrderAt(board, f);
    OrderAt(board, b - 1);
    BoundaryOnBoard(board, f, b);
  }

  lemma FirstLaterExists(tasks: seq<Task>, f: nat) returns (b: nat)
    requires f < |tasks|
    ensures IsFirstLater(tasks, f, b)
  {
    b := RunEnd(tasks, f, tasks[f].blockId);
    assert f < b;
    forall i | f <= i < b ensures !EarlierBlock(tasks, f, i) {
      UniformStretch(tasks, f, i);
    }
    if b < |tasks| {
      BeyondRun(tasks, f, b);
    }
  }

  lemma BehindLastStretch(board: seq<Task>, f: nat, b: nat, l: nat)
    requires NoDup(TaskIds(board)) && IsFirstOpen(board, f) && board[f].mode.Parallel?
    requires IsLastOfBlock(board, f, l) && board[l].orderIndex == l && b < l
    ensures !NamesPosition(EligibilitySnapshot(board).blockedBoundary, board, b)
  {
    BuilderWaveBoundary(board, f, l);
    if l + 1 < |board| {
      DistinctIds(board, b, l + 1);
    }
  }

  lemma RecurringLast(board: seq<Task>, i: nat, k: nat) returns (l: nat)
    requires i < k < |board| && board[i].blockId == board[k].blockId
    ensures k <= l && IsLastOfBlock(board, i, l)
  {
    l := LastOfBlock(board, i);
    LastOfBlockIsLast(board, i, k);
    forall m | l < m < |board| ensures board[m].blockId != board[i].blockId {
      LastOfBlockIsLast(board, i, m);
    }
  }

  lemma WorkedFirstOpen(tasks: seq<Task>, i: nat)
    requires i < |tasks|
    ensures IsFirstOpen(Board(tasks, Worked(|tasks|, i).status), i)
  {
  }

  // A recurring block id puts the builder's boundary behind its last stretch.
  lemma RecurringBoundaryWrong(tasks: seq<Task>, agents: set<string>, i: nat, j: nat, k: nat)
    requires Parsed(tasks) && agents != {} && i < j < k < |tasks|
    requires tasks[i].blockId == tasks[k].blockId && tasks[j].blockId != tasks[i].blockId
    ensures !BuilderBoundariesExact(tasks, agents)
  {
    var status := Worked(|tasks|, i).status;
    var board := Board(tasks, status);
    BoardKeeps(tasks, status);
    WorkedReachable(tasks, agents, i);
    WorkedFirstOpen(tasks, i);
    var b := FirstLaterExists(tasks, i);
    FirstLaterIsRunEnd(tasks, i, b);
    RepeatedBlockIsWave(tasks, i, k);
    var l := RecurringLast(board, i, k);
    OrderAt(board, l);
    BehindLastStretch(board, i, b, l);
    assert !NamesPosition(EligibilitySnapshot(board).blockedBoundary, tasks, b);
  }

  // The builder's boundary is that task on every run exactly when no block id recurs.
  lemma BuilderBoundaryIff(tasks: seq<Task>, agents: set<string>)
    requires Parsed(tasks) && agents != {}
    ensures BuilderBoundariesExact(tasks, agents) <==> Contiguous(tasks)
  {
    if Contiguous(tasks) {
      forall s, f, b | Reachable(tasks, agents, s) && |s.status| == |tasks| && IsFirstOpen(Board(tasks, s.status), f)
                       && IsFirstLater(tasks, f, b)
        ensures NamesPosition(EligibilitySnapshot(Board(tasks, s.status)).blockedBoundary, tasks, b)
      {
        BuilderBoundaryOnRuns(tasks, s.status, f, b);
      }
    } else {
      var i, j, k :| 0 <= i < j < k < |tasks| && tasks[i].blockId == tasks[k].blockId && tasks[j].blockId != tasks[i].blockId;
      RecurringBoundaryWrong(tasks, agents, i, j, k);
    }
  }

  // ---- The plan ----

  ghost function OpenInBlock(board: seq<Task>, k: nat): set<nat> {
    set i | 0 <= i < |board| && RunIndex(BlockKeys(board), i) == k && !board[i].status.Complete?
  }

  // While a wave is active its open tasks are the claimable ones, and a sequential task is alone.
  lemma ClaimableCount(board: seq<Task>, f: nat)
    requires Parsed(board) && IsFirstOpen(board, f)
    ensures |ProtocolSnapshot(board).claimable| == |OpenInBlock(board, RunIndex(BlockKeys(board), f))|
  {
    var open := OpenInBlock(board, RunIndex(BlockKeys(board), f));
    if board[f].mode.Sequential? {
      var g := NextIncomplete(board, f + 1);
      PlannerOnSequential(board, f, g);
      forall i | i in open ensures i == f {
        SequentialBlockAlone(board, f, i);
      }
      assert open == {f};
    } else {
      var e := RunEnd(board, f, board[f].blockId);
      PlannerOnWave(board, f, e);
      var listed := set i | f <= i < e && !board[i].status.Complete?;
      ListedSize(ProtocolSnapshot(board).claimable, board, listed);
      forall i ensures i in open <==> i in listed {
        if i in open {
          RunReaches(board, f, i);
        }
        if i in listed {
          UniformStretch(board, f, i);
        }
      }
      assert open == listed;
    }
  }

  lemma FirstIncompleteReported(board: seq<Task>, f: nat)
    requires IsFirstOpen(board, f)
    ensures ProtocolSnapshot(board).firstIncomplete == Some(board[f].taskId)
  {
    FirstOpenIs(board, f);
    if board[f].mode.Sequential? {
      SequentialProtocol(board, f);
    } else {
      WaveProtocol(board, f);
    }
  }

  // While a task is open, an active unit counts its own open tasks, and a blocked unit, and no
  // other, waits for the first open task.
  lemma UnitSays(board: seq<Task>, k: nat, f: nat)
    requires Parsed(board) && k < |Runs(board, PlanKeys(board))| && IsFirstOpen(board, f)
    ensures var unit := PlanUnit(board, k);
            && unit.orderIndex == k && (unit.state.UnitActive? <==> RunIndex(BlockKeys(board), f) == k)
            && unit.maxParallelism == (if unit.state.UnitActive? then |OpenInBlock(board, k)| else 0)
            && unit.blockedUntil == if unit.state.UnitBlocked? then Some(board[f].taskId) else None
  {
    FirstOpenIs(board, f);
    UnitIsActiveIff(board, k);
    ClaimableCount(board, f);
    FirstIncompleteReported(board, f);
  }

  // Once every task is complete no unit is active or waits.
  lemma UnitAtEnd(board: seq<Task>, k: nat)
    requires Parsed(board) && k < |Runs(board, PlanKeys(board))| && forall i :: 0 <= i < |board| ==> board[i].status.Complete?
    ensures var unit := PlanUnit(board, k);
            !unit.state.UnitActive? && unit.maxParallelism == 0 && unit.claimable == [] && unit.blockedUntil == None
  {
    PlannerIdle(board);
    UnitIsActiveIff(board, k);
    ClaimableInsideActiveUnit(board, k);
  }
}
