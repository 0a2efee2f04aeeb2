// Agents working through the checklist: they claim a task the snapshot lists, and complete or give
// back a task they hold. What every run of this protocol keeps, where it can go, and how it ends.
module ClaimProtocol {
  import opened Sequences
  import opened Checklist
  import opened Blocks
  import opened HardEdges
  import opened Snapshots

  // The checklist markers, and which task each busy agent holds.
  datatype State = State(status: seq<Status>, holds: map<string, nat>)

  // The checklist with the current markers.
  function Board(tasks: seq<Task>, status: seq<Status>): (board: seq<Task>)
    requires |status| == |tasks|
    ensures |board| == |tasks|
    ensures forall i :: 0 <= i < |tasks| ==> board[i] == tasks[i].(status := status[i])
  {
    seq(|tasks|, i requires 0 <= i < |tasks| => tasks[i].(status := status[i]))
  }

  lemma BoardKeeps(tasks: seq<Task>, status: seq<Status>)
    requires |status| == |tasks|
    ensures TaskIds(Board(tasks, status)) == TaskIds(tasks) && BlockKeys(Board(tasks, status)) == BlockKeys(tasks)
    ensures Parsed(tasks) ==> Parsed(Board(tasks, status))
    ensures Contiguous(tasks) ==> Contiguous(Board(tasks, status))
  {
    var board := Board(tasks, status);
    assert TaskIds(board) == TaskIds(tasks);
    assert BlockKeys(board) == BlockKeys(tasks);
  }

  // An agent holding nothing may turn ' ' into '-' on a task the snapshot lists.
  predicate ClaimEnabled(tasks: seq<Task>, s: State, agent: string, i: nat)
    requires |s.status| == |tasks|
  {
    && agent !in s.holds && i < |tasks| && s.status[i].Unclaimed?
    && tasks[i].taskId in ProtocolSnapshot(Board(tasks, s.status)).claimable
  }

  function Claim(s: State, agent: string, i: nat): State
    requires i < |s.status|
  {
    State(s.status[i := Claimed], s.holds[agent := i])
  }

  // An agent may turn its own '-' into 'X', or back into ' '.
  predicate Holding(s: State, agent: string) {
    agent in s.holds && s.holds[agent] < |s.status| && s.status[s.holds[agent]].Claimed?
  }

  function Finish(s: State, agent: string): State
    requires Holding(s, agent)
  {
    State(s.status[s.holds[agent] := Complete], s.holds - {agent})
  }

  function Release(s: State, agent: string): State
    requires Holding(s, agent)
  {
    State(s.status[s.holds[agent] := Unclaimed], s.holds - {agent})
  }

  ghost predicate Step(tasks: seq<Task>, agents: set<string>, s: State, s': State) {
    && |s.status| == |tasks|
    && ((exists agent, i :: agent in agents && ClaimEnabled(tasks, s, agent, i) && s' == Claim(s, agent, i))
        || (exists agent :: agent in agents && Holding(s, agent) && (s' == Finish(s, agent) || s' == Release(s, agent))))
  }

  function Initial(n: nat): State {
    State(seq(n, _ => Unclaimed), map[])
  }

  // A run from the all-unclaimed checklist.
  ghost predicate IsRun(tasks: seq<Task>, agents: set<string>, run: seq<State>) {
    && run != [] && run[0] == Initial(|tasks|)
    && forall i, j :: 0 <= i && j == i + 1 && j < |run| ==> Step(tasks, agents, run[i], run[j])
  }

  ghost predicate Reachable(tasks: seq<Task>, agents: set<string>, s: State) {
    exists run :: IsRun(tasks, agents, run) && run[|run| - 1] == s
  }

  lemma ReachableStep(tasks: seq<Task>, agents: set<string>, s: State, s': State)
    requires Reachable(tasks, agents, s) && Step(tasks, agents, s, s')
    ensures Reachable(tasks, agents, s')
  {
    var run :| IsRun(tasks, agents, run) && run[|run| - 1] == s;
    assert IsRun(tasks, agents, run + [s']);
  }

  // ---- What a step changes ----

  // Between two states only the marker of task i and the hand of this agent differ.
  ghost predicate OnlyTouches(s: State, s': State, agent: string, i: nat) {
    && i < |s.status| == |s'.status| && (forall j :: 0 <= j < |s.status| && j != i ==> s'.status[j] == s.status[j])
    && (forall a :: a != agent ==> (a in s'.holds <==> a in s.holds))
    && (forall a :: a != agent && a in s.holds && a in s'.holds ==> s'.holds[a] == s.holds[a])
  }

  // ' ' becomes '-', on a listed task and in an empty hand.
  ghost predicate TakesUp(tasks: seq<Task>, s: State, s': State, agent: string, i: nat) {
    && OnlyTouches(s, s', agent, i) && |s.status| == |tasks|
    && s.status[i].Unclaimed? && s'.status[i].Claimed?
    && agent !in s.holds && agent in s'.holds && s'.holds[agent] == i
    && tasks[i].taskId in ProtocolSnapshot(Board(tasks, s.status)).claimable
  }

  // '-' becomes 'X' or ' ' again, on the task the agent holds.
  ghost predicate LaysDown(s: State, s': State, agent: string, i: nat) {
    && OnlyTouches(s, s', agent, i) && s.status[i].Claimed? && (s'.status[i].Complete? || s'.status[i].Unclaimed?)
    && agent in s.holds && s.holds[agent] == i && agent !in s'.holds
  }

  ghost predicate Move(tasks: seq<Task>, agents: set<string>, s: State, s': State) {
    && |s.status| == |tasks|
    && exists agent, i :: agent in agents && (TakesUp(tasks, s, s', agent, i) || LaysDown(s, s', agent, i))
  }

  // One step takes up one task or lays one down, and does nothing else; every such change is a step.
  lemma StepIsMove(tasks: seq<Task>, agents: set<string>, s: State, s': State)
    ensures Step(tasks, agents, s, s') <==> Move(tasks, agents, s, s')
  {
    if Step(tasks, agents, s, s') {
      if agent, i :| agent in agents && ClaimEnabled(tasks, s, agent, i) && s' == Claim(s, agent, i) {
        assert TakesUp(tasks, s, s', agent, i);
      } else {
        var agent :| agent in agents && Holding(s, agent) && (s' == Finish(s, agent) || s' == Release(s, agent));
        assert LaysDown(s, s', agent, s.holds[agent]);
      }
    }
    if Move(tasks, agents, s, s') {
      var agent, i :| agent in agents && (TakesUp(tasks, s, s', agent, i) || LaysDown(s, s', agent, i));
      if TakesUp(tasks, s, s', agent, i) {
        TakenUp(tasks, s, s', agent, i);
      } else {
        LaidDown(s, s', agent, i);
      }
    }
  }

  lemma TakenUp(tasks: seq<Task>, s: State, s': State, agent: string, i: nat)
    requires TakesUp(tasks, s, s', agent, i)
    ensures ClaimEnabled(tasks, s, agent, i) && s' == Claim(s, agent, i)
  {
    assert s'.status == s.status[i := Claimed];
    assert s'.holds == s.holds[agent := i];
  }

  lemma LaidDown(s: State, s': State, agent: string, i: nat)
    requires LaysDown(s, s', agent, i)
    ensures Holding(s, agent) && (s' == Finish(s, agent) || s' == Release(s, agent))
  {
    assert s'.status == s.status[i := s'.status[i]];
    assert s'.holds == s.holds - {agent};
  }

  // Giving a task back at once undoes the claim.
  lemma ReleaseUndoesClaim(tasks: seq<Task>, s: State, agent: string, i: nat)
    requires |s.status| == |tasks| && ClaimEnabled(tasks, s, agent, i)
    ensures Holding(Claim(s, agent, i), agent) && Release(Claim(s, agent, i), agent) == s
  {
    var s' := Claim(s, agent, i);
    assert s'.status[i := Unclaimed] == s.status;
    assert s'.holds - {agent} == s.holds;
  }

  // ---- The invariant ----

  // A block that is not finished keeps every later block untouched.
  ghost predicate Shape(tasks: seq<Task>, status: seq<Status>) {
    && |status| == |tasks|
    && forall i, j :: 0 <= i < |tasks| && 0 <= j < |tasks| && EarlierBlock(tasks, i, j) && !status[i].Complete? ==> status[j].Unclaimed?
  }

  ghost predicate EarlierBlock(tasks: seq<Task>, i: nat, j: nat) {
    i < |tasks| && j < |tasks| && RunIndex(BlockKeys(tasks), i) < RunIndex(BlockKeys(tasks), j)
  }

  // Every claimed task has exactly one holder, and every holder holds a claimed task.
  ghost predicate Held(s: State) {
    && (forall a :: a in s.holds ==> s.holds[a] < |s.status| && s.status[s.holds[a]].Claimed?)
    && (forall a, b :: a in s.holds && b in s.holds && a != b ==> s.holds[a] != s.holds[b])
    && (forall i :: 0 <= i < |s.status| && s.status[i].Claimed? ==> exists a :: a in s.holds && s.holds[a] == i)
  }

  ghost predicate Invariant(tasks: seq<Task>, agents: set<string>, s: State) {
    Shape(tasks, s.status) && Held(s) && s.holds.Keys <= agents
  }

  // A listed unclaimed task stands in the first unfinished block, so all earlier blocks are done.
  lemma ClaimableIsActive(tasks: seq<Task>, status: seq<Status>, i: nat)
    requires Parsed(tasks) && |status| == |tasks| && i < |tasks|
    requires tasks[i].taskId in ProtocolSnapshot(Board(tasks, status)).claimable
    ensures var f := FirstIncomplete(Board(tasks, status));
            f <= i && RunIndex(BlockKeys(tasks), i) == RunIndex(BlockKeys(tasks), f) && !status[i].Complete?
  {
    var board := Board(tasks, status);
    BoardKeeps(tasks, status);
    var f := FirstIncomplete(board);
    if board[f].mode.Sequential? {
      assert TaskIds(tasks)[i] == tasks[i].taskId && TaskIds(tasks)[f] == tasks[f].taskId;
      assert i == f;
    } else {
      var end := RunEnd(board, f, board[f].blockId);
      Picked(board, OpenPositions(board, f, end), i);
      UniformStretch(tasks, f, i);
    }
  }

  // Positions joined by an unbroken stretch of one block id share a block.
  lemma UniformStretch(tasks: seq<Task>, f: nat, i: nat)
    requires f <= i < |tasks| && forall k :: f <= k <= i ==> tasks[k].blockId == tasks[f].blockId
    ensures RunIndex(BlockKeys(tasks), f) == RunIndex(BlockKeys(tasks), i)
  {
    var keys := BlockKeys(tasks);
    assert forall k :: f <= k <= i ==> keys[k] == tasks[k].blockId;
    UniformIsRun(keys, f, i);
  }

  lemma RunReaches(tasks: seq<Task>, f: nat, i: nat)
    requires f <= i < |tasks| && RunIndex(BlockKeys(tasks), f) == RunIndex(BlockKeys(tasks), i)
    ensures i < RunEnd(tasks, f, tasks[f].blockId)
  {
    var keys := BlockKeys(tasks);
    forall k | f <= k <= i ensures tasks[k].blockId == tasks[f].blockId {
      RunIndexMonotone(keys, f, k);
      RunIndexMonotone(keys, k, i);
      RunIsUniform(keys, f, k);
      assert keys[k] == tasks[k].blockId && keys[f] == tasks[f].blockId;
    }
  }

  // Conversely, every incomplete task of that block is listed.
  lemma ActiveIsClaimable(tasks: seq<Task>, status: seq<Status>, i: nat)
    requires Parsed(tasks) && |status| == |tasks| && i < |tasks| && !status[i].Complete?
    requires RunIndex(BlockKeys(tasks), i) == RunIndex(BlockKeys(tasks), FirstIncomplete(Board(tasks, status)))
    ensures tasks[i].taskId in ProtocolSnapshot(Board(tasks, status)).claimable
  {
    var board, keys := Board(tasks, status), BlockKeys(tasks);
    BoardKeeps(tasks, status);
    var f := FirstIncomplete(board);
    assert f <= i;
    if board[f].mode.Sequential? {
      SequentialRunEnd(tasks, f);
      RunIsUniform(keys, f, i);
      assert tasks[i].blockId == tasks[f].blockId;
      assert i == f;
    } else {
      var end := RunEnd(board, f, board[f].blockId);
      RunReaches(board, f, i);
      Picked(board, OpenPositions(board, f, end), i);
    }
  }

  lemma EarlierBlocksDone(tasks: seq<Task>, status: seq<Status>, i: nat, j: nat)
    requires Parsed(tasks) && |status| == |tasks| && EarlierBlock(tasks, i, j)
    requires tasks[j].taskId in ProtocolSnapshot(Board(tasks, status)).claimable
    ensures status[i].Complete?
  {
    ClaimableIsActive(tasks, status, j);
    var f := FirstIncomplete(Board(tasks, status));
    if f <= i {
      RunIndexMonotone(BlockKeys(tasks), f, i);
    }
  }

  lemma ClaimKeepsInvariant(tasks: seq<Task>, agents: set<string>, s: State, agent: string, i: nat)
    requires Parsed(tasks) && Invariant(tasks, agents, s) && agent in agents && ClaimEnabled(tasks, s, agent, i)
    ensures Invariant(tasks, agents, Claim(s, agent, i))
  {
    var s' := Claim(s, agent, i);
    forall a, b | 0 <= a < |tasks| && 0 <= b < |tasks| && EarlierBlock(tasks, a, b) && !s'.status[a].Complete?
      ensures s'.status[b].Unclaimed?
    {
      if b == i {
        EarlierBlocksDone(tasks, s.status, a, i);
      }
    }
    assert Held(s') by {
      assert s'.holds[agent] == i;
      forall k | 0 <= k < |s'.status| && s'.status[k].Claimed? ensures exists a :: a in s'.holds && s'.holds[a] == k {
        if k != i {
          var a :| a in s.holds && s.holds[a] == k;
          assert s'.holds[a] == k;
        }
      }
    }
  }

  lemma FinishKeepsInvariant(tasks: seq<Task>, agents: set<string>, s: State, agent: string)
    requires Invariant(tasks, agents, s) && Holding(s, agent)
    ensures Invariant(tasks, agents, Finish(s, agent))
  {
    var i, s' := s.holds[agent], Finish(s, agent);
    forall a, b | 0 <= a < |tasks| && 0 <= b < |tasks| && EarlierBlock(tasks, a, b) && !s'.status[a].Complete?
      ensures s'.status[b].Unclaimed?
    {
      assert !s.status[a].Complete?;
    }
    forall k | 0 <= k < |s'.status| && s'.status[k].Claimed? ensures exists a :: a in s'.holds && s'.holds[a] == k {
      var a :| a in s.holds && s.holds[a] == k;
      assert s'.holds[a] == k;
    }
  }

  // An agent that gives its task back breaks nothing either.
  lemma ReleaseKeepsInvariant(tasks: seq<Task>, agents: set<string>, s: State, agent: string)
    requires Invariant(tasks, agents, s) && Holding(s, agent)
    ensures Invariant(tasks, agents, Release(s, agent))
  {
    var s' := Release(s, agent);
    forall k | 0 <= k < |s'.status| && s'.status[k].Claimed? ensures exists a :: a in s'.holds && s'.holds[a] == k {
      var a :| a in s.holds && s.holds[a] == k;
      assert s'.holds[a] == k;
    }
  }

  lemma StepKeepsInvariant(tasks: seq<Task>, agents: set<string>, s: State, s': State)
    requires Parsed(tasks) && Invariant(tasks, agents, s) && Step(tasks, agents, s, s')
    ensures Invariant(tasks, agents, s')
  {
    if agent, i :| agent in agents && ClaimEnabled(tasks, s, agent, i) && s' == Claim(s, agent, i) {
      ClaimKeepsInvariant(tasks, agents, s, agent, i);
    } else {
      var agent :| agent in agents && Holding(s, agent) && (s' == Finish(s, agent) || s' == Release(s, agent));
      FinishKeepsInvariant(tasks, agents, s, agent);
      ReleaseKeepsInvariant(tasks, agents, s, agent);
    }
  }

  // Every run keeps the invariant.
  lemma {:induction false} RunKeepsInvariant(tasks: seq<Task>, agents: set<string>, run: seq<State>, k: nat)
    requires Parsed(tasks) && IsRun(tasks, agents, run) && k < |run|
    ensures Invariant(tasks, agents, run[k])
  {
    if k > 0 {
      RunKeepsInvariant(tasks, agents, run, k - 1);
      StepKeepsInvariant(tasks, agents, run[k - 1], run[k]);
    }
  }

  lemma ReachableInvariant(tasks: seq<Task>, agents: set<string>, s: State)
    requires Parsed(tasks) && Reachable(tasks, agents, s)
    ensures Invariant(tasks, agents, s)
  {
    var run :| IsRun(tasks, agents, run) && run[|run| - 1] == s;
    RunKeepsInvariant(tasks, agents, run, |run| - 1);
  }

  // The shape read off the first incomplete task: blocks before its block are finished, blocks
  // after it are untouched.
  lemma ReachableShape(tasks: seq<Task>, agents: set<string>, s: State, i: nat)
    requires Parsed(tasks) && Reachable(tasks, agents, s) && i < |tasks|
    ensures |s.status| == |tasks|
    ensures var f := FirstIncomplete(Board(tasks, s.status));
            (EarlierBlock(tasks, i, f) ==> s.status[i].Complete?) && (EarlierBlock(tasks, f, i) ==> s.status[i].Unclaimed?)
    ensures FirstIncomplete(Board(tasks, s.status)) == |tasks| ==> s.status[i].Complete?
  {
    ReachableInvariant(tasks, agents, s);
    var board := Board(tasks, s.status);
    var f := FirstIncomplete(board);
    if f < |tasks| && EarlierBlock(tasks, i, f) && f <= i {
      RunIndexMonotone(BlockKeys(tasks), f, i);
    }
    assert i < f ==> board[i].status.Complete?;
    assert f < |tasks| ==> !board[f].status.Complete?;
  }

  // Whatever forward hard edges the graph holds, a claimed or completed task has every hard
  // predecessor of an earlier block complete.
  lemma CrossBlockPredecessorsDone(tasks: seq<Task>, agents: set<string>, s: State, i: nat, j: nat)
    requires Parsed(tasks) && Reachable(tasks, agents, s)
    requires EarlierBlock(tasks, i, j)
    ensures |s.status| == |tasks| && (!s.status[j].Unclaimed? ==> s.status[i].Complete?)
  {
    ReachableInvariant(tasks, agents, s);
  }

  lemma SequentialBlockAlone(tasks: seq<Task>, i: nat, j: nat)
    requires Parsed(tasks) && i < |tasks| && j < |tasks| && tasks[i].mode.Sequential?
    requires RunIndex(BlockKeys(tasks), i) == RunIndex(BlockKeys(tasks), j)
    ensures i == j
  {
    var keys := BlockKeys(tasks);
    SequentialRunEnd(tasks, i);
    if i <= j {
      RunIsUniform(keys, i, j);
    } else {
      RunIsUniform(keys, j, i);
    }
    assert keys[i] == tasks[i].blockId && keys[j] == tasks[j].blockId;
  }

  // While a sequential task is in progress nothing else is, and nobody can claim anything.
  lemma SequentialTaskIsExclusive(tasks: seq<Task>, agents: set<string>, s: State, i: nat, j: nat, agent: string)
    requires Parsed(tasks) && Reachable(tasks, agents, s) && |s.status| == |tasks|
    requires i < |tasks| && j < |tasks| && tasks[i].mode.Sequential? && s.status[i].Claimed?
    ensures j != i ==> !s.status[j].Claimed?
    ensures !ClaimEnabled(tasks, s, agent, j)
  {
    ReachableInvariant(tasks, agents, s);
    if j != i {
      if RunIndex(BlockKeys(tasks), i) == RunIndex(BlockKeys(tasks), j) {
        SequentialBlockAlone(tasks, i, j);
      }
      assert EarlierBlock(tasks, i, j) || EarlierBlock(tasks, j, i);
      if ClaimEnabled(tasks, s, agent, j) && EarlierBlock(tasks, i, j) {
        EarlierBlocksDone(tasks, s.status, i, j);
      }
    }
  }

  // ---- How runs end ----

  function Weight(status: Status): nat {
    match status
    case Unclaimed => 2
    case Claimed => 1
    case Complete => 0
  }

  // Marker changes still to come.
  function Remaining(status: seq<Status>): nat {
    if status == [] then 0 else Remaining(status[..|status| - 1]) + Weight(status[|status| - 1])
  }

  lemma {:induction false} RemainingUpdate(status: seq<Status>, i: nat, v: Status)
    requires i < |status|
    ensures Remaining(status[i := v]) == Remaining(status) - Weight(status[i]) + Weight(v)
  {
    var n := |status| - 1;
    if i < n {
      RemainingUpdate(status[..n], i, v);
      assert status[i := v][..n] == status[..n][i := v];
    } else {
      assert status[i := v][..n] == status[..n];
    }
  }

  lemma {:induction false} RemainingInitially(n: nat)
    ensures Remaining(Initial(n).status) == 2 * n
  {
    if n > 0 {
      RemainingInitially(n - 1);
      assert Initial(n).status[..n - 1] == Initial(n - 1).status;
    }
  }

  lemma {:induction false} RemainingZero(status: seq<Status>)
    ensures Remaining(status) == 0 <==> forall i :: 0 <= i < |status| ==> status[i].Complete?
  {
    if status != [] {
      var n := |status| - 1;
      RemainingZero(status[..n]);
      assert forall i :: 0 <= i < n ==> status[..n][i] == status[i];
      assert Weight(status[n]) == 0 <==> status[n].Complete?;
      assert (forall i :: 0 <= i < n ==> status[i].Complete?) <==> (forall i :: 0 <= i < n ==> status[..n][i].Complete?);
    }
  }

  // Some task has been given back.
  ghost predicate GivenBack(before: seq<Status>, after: seq<Status>) {
    exists i :: 0 <= i < |before| && i < |after| && before[i].Claimed? && after[i].Unclaimed?
  }

  // How many of the first k steps gave a task back.
  ghost function GivenBackBy(run: seq<State>, k: nat): nat
    requires k < |run|
  {
    if k == 0 then 0 else GivenBackBy(run, k - 1) + if GivenBack(run[k - 1].status, run[k].status) then 1 else 0
  }

  lemma UpdateRemaining(status: seq<Status>, i: nat, v: Status)
    requires i < |status| && (status[i].Claimed? || v.Claimed?)
    ensures Remaining(status[i := v]) == Remaining(status) - Weight(status[i]) + Weight(v)
    ensures GivenBack(status, status[i := v]) <==> status[i].Claimed? && v.Unclaimed?
  {
    RemainingUpdate(status, i, v);
    assert status[i := v][i] == v;
  }

  // A claim or a completion is one marker change less to do, giving back is one more.
  lemma StepRemaining(tasks: seq<Task>, agents: set<string>, s: State, s': State)
    requires Step(tasks, agents, s, s')
    ensures Remaining(s'.status) == Remaining(s.status) + if GivenBack(s.status, s'.status) then 1 else -1
  {
    if agent, i :| agent in agents && ClaimEnabled(tasks, s, agent, i) && s' == Claim(s, agent, i) {
      UpdateRemaining(s.status, i, Claimed);
    } else {
      var agent :| agent in agents && Holding(s, agent) && (s' == Finish(s, agent) || s' == Release(s, agent));
      UpdateRemaining(s.status, s.holds[agent], if s' == Finish(s, agent) then Complete else Unclaimed);
    }
  }

  lemma {:induction false} StepsTaken(tasks: seq<Task>, agents: set<string>, run: seq<State>, k: nat)
    requires Parsed(tasks) && IsRun(tasks, agents, run) && k < |run|
    ensures |run[k].status| == |tasks| && Remaining(run[k].status) + k == 2 * |tasks| + 2 * GivenBackBy(run, k)
  {
    RunKeepsInvariant(tasks, agents, run, k);
    if k == 0 {
      RemainingInitially(|tasks|);
    } else {
      StepsTaken(tasks, agents, run, k - 1);
      RunKeepsInvariant(tasks, agents, run, k - 1);
      StepRemaining(tasks, agents, run[k - 1], run[k]);
    }
  }

  ghost predicate Stuck(tasks: seq<Task>, agents: set<string>, s: State) {
    forall s' :: !Step(tasks, agents, s, s')
  }

  ghost predicate AllComplete(s: State) {
    forall i :: 0 <= i < |s.status| ==> s.status[i].Complete?
  }

  // No deadlock: with at least one agent, some step is enabled until every task is complete.
  lemma NeverStuck(tasks: seq<Task>, agents: set<string>, s: State)
    requires Parsed(tasks) && agents != {} && Reachable(tasks, agents, s)
    ensures Stuck(tasks, agents, s) <==> AllComplete(s)
  {
    ReachableInvariant(tasks, agents, s);
    if i :| 0 <= i < |s.status| && s.status[i].Claimed? {
      var a :| a in s.holds && s.holds[a] == i;
      assert Holding(s, a) && Step(tasks, agents, s, Finish(s, a));
    } else if !AllComplete(s) {
      var board := Board(tasks, s.status);
      var f := FirstIncomplete(board);
      assert f < |tasks|;
      assert s.status[f].Unclaimed?;
      ActiveIsClaimable(tasks, s.status, f);
      var a :| a in agents;
      assert a !in s.holds;
      assert ClaimEnabled(tasks, s, a, f);
      assert Step(tasks, agents, s, Claim(s, a, f));
    } else {
      forall s' ensures !Step(tasks, agents, s, s') { }
    }
  }

  // A run takes at most two steps per task and two per task given back; one that cannot go on has
  // taken exactly that many and completed every task.
  lemma RunsEndComplete(tasks: seq<Task>, agents: set<string>, run: seq<State>)
    requires Parsed(tasks) && agents != {} && IsRun(tasks, agents, run)
    ensures var steps, most := |run| - 1, 2 * |tasks| + 2 * GivenBackBy(run, |run| - 1);
            && steps <= most
            && (Stuck(tasks, agents, run[steps]) <==> steps == most)
            && (AllComplete(run[steps]) <==> steps == most)
  {
    var s := run[|run| - 1];
    StepsTaken(tasks, agents, run, |run| - 1);
    RemainingZero(s.status);
    assert Reachable(tasks, agents, s);
    NeverStuck(tasks, agents, s);
  }
}
