// The two protocol snapshots: what each planning tool says agents may claim next.
module Snapshots {
  import opened Sequences
  import opened Checklist
  import opened Blocks

  // Position of the first task not marked complete, or the length when there is none.
  function FirstIncomplete(tasks: seq<Task>): (f: nat)
    ensures f <= |tasks|
    ensures forall i :: 0 <= i < f ==> tasks[i].status.Complete?
    ensures f < |tasks| ==> !tasks[f].status.Complete?
  {
    if tasks == [] then 0
    else
      var before := FirstIncomplete(tasks[..|tasks| - 1]);
      if before < |tasks| - 1 then before
      else if tasks[before].status.Complete? then before + 1
      else before
  }

  lemma FirstIncompleteAtMost(tasks: seq<Task>, p: nat)
    requires p < |tasks| && !tasks[p].status.Complete?
    ensures FirstIncomplete(tasks) <= p
    ensures (forall i :: 0 <= i < p ==> tasks[i].status.Complete?) ==> FirstIncomplete(tasks) == p
  {
  }

  // Position of the first incomplete task at or after lo, or the length when there is none.
  function NextIncomplete(tasks: seq<Task>, lo: nat): (p: nat)
    requires lo <= |tasks|
    ensures lo <= p <= |tasks|
    ensures forall i :: lo <= i < p ==> tasks[i].status.Complete?
    ensures p < |tasks| ==> !tasks[p].status.Complete?
    decreases |tasks| - lo
  {
    if lo == |tasks| || !tasks[lo].status.Complete? then lo else NextIncomplete(tasks, lo + 1)
  }

  // End of the unbroken stretch, from position lo on, of one block id.
  function RunEnd(tasks: seq<Task>, lo: nat, blockId: string): (end: nat)
    requires lo <= |tasks|
    ensures lo <= end <= |tasks|
    ensures forall i :: lo <= i < end ==> tasks[i].blockId == blockId
    ensures end < |tasks| ==> tasks[end].blockId != blockId
    decreases |tasks| - lo
  {
    if lo == |tasks| || tasks[lo].blockId != blockId then lo else RunEnd(tasks, lo + 1, blockId)
  }

  // The ids at the kept positions, in checklist order.
  function Pick(tasks: seq<Task>, keep: set<nat>): seq<string> {
    if tasks == [] then []
    else
      Pick(tasks[..|tasks| - 1], keep) + if |tasks| - 1 in keep then [tasks[|tasks| - 1].taskId] else []
  }

  lemma {:induction false} PickedPosition(tasks: seq<Task>, keep: set<nat>, id: string)
    ensures id in Pick(tasks, keep) <==> exists i :: 0 <= i < |tasks| && i in keep && tasks[i].taskId == id
  {
    if tasks != [] {
      var n := |tasks| - 1;
      PickedPosition(tasks[..n], keep, id);
      if i :| 0 <= i < |tasks| && i in keep && tasks[i].taskId == id {
        if i < n {
          assert tasks[..n][i].taskId == id;
        }
      }
    }
  }

  // With unique ids, membership in the list is membership of the position.
  lemma Picked(tasks: seq<Task>, keep: set<nat>, i: nat)
    requires NoDup(TaskIds(tasks)) && i < |tasks|
    ensures tasks[i].taskId in Pick(tasks, keep) <==> i in keep
  {
    PickedPosition(tasks, keep, tasks[i].taskId);
    assert forall j :: 0 <= j < |tasks| ==> TaskIds(tasks)[j] == tasks[j].taskId;
  }

  lemma {:induction false} PickAgrees(tasks: seq<Task>, a: set<nat>, b: set<nat>)
    requires forall i :: 0 <= i < |tasks| ==> (i in a <==> i in b)
    ensures Pick(tasks, a) == Pick(tasks, b)
  {
    if tasks != [] {
      PickAgrees(tasks[..|tasks| - 1], a, b);
    }
  }

  function ClaimedPositions(tasks: seq<Task>): set<nat> {
    set i | 0 <= i < |tasks| && tasks[i].status.Claimed?
  }

  // Incomplete positions of [lo, hi).
  function OpenPositions(tasks: seq<Task>, lo: nat, hi: nat): set<nat>
    requires hi <= |tasks|
  {
    set i | lo <= i < hi && !tasks[i].status.Complete?
  }

  function BlockPositions(tasks: seq<Task>, blockId: string, status: Status): set<nat> {
    set i | 0 <= i < |tasks| && tasks[i].blockId == blockId && tasks[i].status == status
  }

  // ---- The definition-of-done planner ----

  function IdAt(tasks: seq<Task>, i: nat): Option<string> {
    if i < |tasks| then Some(tasks[i].taskId) else None
  }

  function ProtocolSnapshot(tasks: seq<Task>): Snapshot {
    var f := FirstIncomplete(tasks);
    if f == |tasks| then
      Snapshot(None, [], None, Pick(tasks, ClaimedPositions(tasks)))
    else if tasks[f].mode.Sequential? then
      SequentialSnapshot(tasks, f)
    else
      WaveSnapshot(tasks, f)
  }

  // The report for a sequential first incomplete task f.
  function SequentialSnapshot(tasks: seq<Task>, f: nat): Snapshot
    requires f < |tasks|
  {
    Snapshot(Some(tasks[f].taskId), [tasks[f].taskId], IdAt(tasks, NextIncomplete(tasks, f + 1)), Pick(tasks, ClaimedPositions(tasks)))
  }

  // The report for a wave whose first incomplete task is f.
  function WaveSnapshot(tasks: seq<Task>, f: nat): Snapshot
    requires f < |tasks|
  {
    var end := RunEnd(tasks, f, tasks[f].blockId);
    Snapshot(Some(tasks[f].taskId), Pick(tasks, OpenPositions(tasks, f, end)), IdAt(tasks, OpenOrEnd(tasks, end)),
             Pick(tasks, ClaimedPositions(tasks)))
  }

  // Position i if an incomplete task stands there, the length otherwise.
  function OpenOrEnd(tasks: seq<Task>, i: nat): nat {
    if i < |tasks| && !tasks[i].status.Complete? then i else |tasks|
  }

  method ScanClaimed(tasks: seq<Task>) returns (ids: seq<string>)
    ensures ids == Pick(tasks, ClaimedPositions(tasks))
  {
    ids := [];
    ghost var keep := ClaimedPositions(tasks);
    for i := 0 to |tasks|
      invariant ids == Pick(tasks[..i], keep)
    {
      assert tasks[..i + 1][..i] == tasks[..i];
      if tasks[i].status.Claimed? {
        ids := ids + [tasks[i].taskId];
      }
    }
    assert tasks[..|tasks|] == tasks;
  }

  // The breaking loop over the rest of the checklist.
  method ScanWave(tasks: seq<Task>, f: nat) returns (claimable: seq<string>, boundary: Option<string>)
    requires f < |tasks|
    ensures var end := RunEnd(tasks, f, tasks[f].blockId);
            && claimable == Pick(tasks, OpenPositions(tasks, f, end))
            && boundary == IdAt(tasks, OpenOrEnd(tasks, end))
  {
    claimable, boundary := [], None;
    ghost var end := RunEnd(tasks, f, tasks[f].blockId);
    ghost var keep := OpenPositions(tasks, f, end);
    PickNothing(tasks[..f], keep);
    var i := f;
    while i < |tasks|
      invariant f <= i <= |tasks| && i <= end
      invariant claimable == Pick(tasks[..i], keep)
      invariant boundary == None
    {
      var task := tasks[i];
      if task.blockId != tasks[f].blockId {
        if !task.status.Complete? {
          boundary := Some(task.taskId);
        }
        break;
      }
      assert i < end;
      assert tasks[..i + 1][..i] == tasks[..i];
      if !task.status.Complete? {
        claimable := claimable + [task.taskId];
      }
      i := i + 1;
    }
    PickUpTo(tasks, i, keep);
  }

  lemma {:induction false} PickNothing(tasks: seq<Task>, keep: set<nat>)
    requires forall i :: 0 <= i < |tasks| ==> i !in keep
    ensures Pick(tasks, keep) == []
  {
    if tasks != [] {
      PickNothing(tasks[..|tasks| - 1], keep);
    }
  }

  lemma {:induction false} PickUpTo(tasks: seq<Task>, n: nat, keep: set<nat>)
    requires n <= |tasks| && forall i :: n <= i < |tasks| ==> i !in keep
    ensures Pick(tasks, keep) == Pick(tasks[..n], keep)
    decreases |tasks|
  {
    if n < |tasks| {
      PickUpTo(tasks[..|tasks| - 1], n, keep);
      assert tasks[..|tasks| - 1][..n] == tasks[..n];
    } else {
      assert tasks[..n] == tasks;
    }
  }

  method FindFirstIncomplete(tasks: seq<Task>, lo: nat) returns (p: nat)
    requires lo <= |tasks|
    ensures p == NextIncomplete(tasks, lo)
  {
    p := lo;
    while p < |tasks| && tasks[p].status.Complete?
      invariant lo <= p <= |tasks|
      invariant NextIncomplete(tasks, p) == NextIncomplete(tasks, lo)
    {
      p := p + 1;
    }
  }

  method ComputeProtocolSnapshot(tasks: seq<Task>) returns (snapshot: Snapshot)
    ensures snapshot == ProtocolSnapshot(tasks)
  {
    var f := FindFirstIncomplete(tasks, 0);
    assert f == FirstIncomplete(tasks) by {
      var g := FirstIncomplete(tasks);
      assert f < |tasks| ==> !tasks[f].status.Complete?;
      assert g < |tasks| ==> !tasks[g].status.Complete?;
    }
    var claimed := ScanClaimed(tasks);
    if f == |tasks| {
      return Snapshot(None, [], None, claimed);
    }
    if tasks[f].mode.Sequential? {
      var next := FindFirstIncomplete(tasks, f + 1);
      return Snapshot(Some(tasks[f].taskId), [tasks[f].taskId], IdAt(tasks, next), claimed);
    }
    var claimable, boundary := ScanWave(tasks, f);
    snapshot := Snapshot(Some(tasks[f].taskId), claimable, boundary, claimed);
  }

  // ---- The DAG builder ----

  datatype Eligibility = Eligibility(
    firstIncomplete: Option<string>,
    activeClaimed: seq<string>,
    claimableUnclaimed: seq<string>,
    blockedBoundary: Option<string>,
    activeBlockId: Option<string>)

  // The last position below n that carries the key of position f.
  function LastWithKey<K(==)>(keys: seq<K>, f: nat, n: nat): (last: nat)
    requires f < n <= |keys|
    ensures f <= last < n && keys[last] == keys[f]
    ensures forall j :: last < j < n ==> keys[j] != keys[f]
  {
    if keys[n - 1] == keys[f] then n - 1 else LastWithKey(keys, f, n - 1)
  }

  // Position of the last task of position f's block id anywhere in the checklist.
  function LastOfBlock(tasks: seq<Task>, f: nat): (last: nat)
    requires f < |tasks|
    ensures f <= last < |tasks|
  {
    LastWithKey(BlockKeys(tasks), f, |tasks|)
  }

  lemma LastOfBlockIsLast(tasks: seq<Task>, f: nat, j: nat)
    requires f < |tasks| && j < |tasks|
    ensures tasks[LastOfBlock(tasks, f)].blockId == tasks[f].blockId
    ensures LastOfBlock(tasks, f) < j ==> tasks[j].blockId != tasks[f].blockId
  {
    var keys, last := BlockKeys(tasks), LastOfBlock(tasks, f);
    assert keys[last] == keys[f];
    assert last < j ==> keys[j] != keys[f];
  }

  function EligibilitySnapshot(tasks: seq<Task>): Eligibility {
    var f := FirstIncomplete(tasks);
    if f == |tasks| then
      Eligibility(None, [], [], None, None)
    else if tasks[f].mode.Sequential? then SequentialEligibility(tasks, f) else WaveEligibility(tasks, f)
  }

  function SequentialEligibility(tasks: seq<Task>, f: nat): Eligibility
    requires f < |tasks|
  {
    var first := tasks[f];
    Eligibility(Some(first.taskId),
                if first.status.Claimed? then [first.taskId] else [],
                if first.status.Unclaimed? then [first.taskId] else [],
                IdAt(tasks, first.orderIndex + 1), Some(first.blockId))
  }

  function WaveEligibility(tasks: seq<Task>, f: nat): Eligibility
    requires f < |tasks|
  {
    var first, last := tasks[f], tasks[LastOfBlock(tasks, f)];
    Eligibility(Some(first.taskId),
                Pick(tasks, BlockPositions(tasks, first.blockId, Claimed)),
                Pick(tasks, BlockPositions(tasks, first.blockId, Unclaimed)),
                IdAt(tasks, last.orderIndex + 1), Some(first.blockId))
  }

  // ---- Agreement ----

  ghost predicate Agree(p: Snapshot, e: Eligibility) {
    && p.firstIncomplete == e.firstIncomplete
    && Elements(p.claimable) == Elements(e.activeClaimed) + Elements(e.claimableUnclaimed)
    && p.blockedBoundary == e.blockedBoundary
    && p.activeClaimed == e.activeClaimed
  }

  // Each block id occupies one unbroken stretch of the checklist.
  ghost predicate Contiguous(tasks: seq<Task>) {
    forall i, j, k :: 0 <= i < j < k < |tasks| && tasks[i].blockId == tasks[k].blockId ==> tasks[j].blockId == tasks[i].blockId
  }

  // No claim stands beyond the active run, and the task after that run is not already complete.
  ghost predicate NothingAhead(tasks: seq<Task>) {
    var f := FirstIncomplete(tasks);
    f < |tasks| ==>
      var end := RunEnd(tasks, f, tasks[f].blockId);
      && (forall i :: end <= i < |tasks| ==> !tasks[i].status.Claimed?)
      && (end < |tasks| ==> !tasks[end].status.Complete?)
  }

  // Beyond the run of position f, no task of its block id is incomplete.
  ghost predicate NoMemberOpenBeyond(tasks: seq<Task>, f: nat)
    requires f < |tasks|
  {
    forall i :: RunEnd(tasks, f, tasks[f].blockId) <= i < |tasks| && tasks[i].blockId == tasks[f].blockId ==> tasks[i].status.Complete?
  }

  ghost predicate NoClaimBeyond(tasks: seq<Task>, f: nat)
    requires f < |tasks|
  {
    forall i :: RunEnd(tasks, f, tasks[f].blockId) <= i < |tasks| ==> !tasks[i].status.Claimed?
  }

  // When the run holds the last task of its block id, the next task must not be complete; when it
  // does not, the next task must be complete and the block id must close the checklist.
  ghost predicate SameBoundary(tasks: seq<Task>, f: nat)
    requires f < |tasks|
  {
    var end, last := RunEnd(tasks, f, tasks[f].blockId), LastOfBlock(tasks, f);
    if last < end then end < |tasks| ==> !tasks[end].status.Complete?
    else tasks[end].status.Complete? && last + 1 == |tasks|
  }

  // What a reader of the checklist can check before comparing the tools.
  ghost predicate AgreementCondition(tasks: seq<Task>) {
    var f := FirstIncomplete(tasks);
    f < |tasks| ==> NoMemberOpenBeyond(tasks, f) && NoClaimBeyond(tasks, f) && SameBoundary(tasks, f)
  }

  // A sequential task is alone in its block.
  lemma SequentialRunEnd(tasks: seq<Task>, f: nat)
    requires Parsed(tasks) && f < |tasks| && tasks[f].mode.Sequential?
    ensures RunEnd(tasks, f, tasks[f].blockId) == f + 1
    ensures forall j :: 0 <= j < |tasks| && tasks[j].blockId == tasks[f].blockId ==> j == f
  {
    forall j | 0 <= j < |tasks| && tasks[j].blockId == tasks[f].blockId ensures j == f {
      assert TaskIds(tasks)[j] == tasks[j].taskId && TaskIds(tasks)[f] == tasks[f].taskId;
      assert tasks[j].mode.Sequential?;
    }
  }

  lemma RepeatedBlockIsWave(tasks: seq<Task>, i: nat, k: nat)
    requires Parsed(tasks) && i < |tasks| && k < |tasks| && i != k && tasks[i].blockId == tasks[k].blockId
    ensures tasks[i].mode.Parallel?
  {
    if tasks[i].mode.Sequential? {
      SequentialRunEnd(tasks, i);
    }
  }

  lemma PickSingle(tasks: seq<Task>, f: nat, keep: set<nat>)
    requires f < |tasks|
    requires forall i :: 0 <= i < |tasks| && i in keep ==> i == f
    ensures Pick(tasks, keep) == if f in keep then [tasks[f].taskId] else []
  {
    PickUpTo(tasks, f + 1, keep);
    PickNothing(tasks[..f], keep);
    assert tasks[..f + 1][..f] == tasks[..f];
  }

  lemma ClaimAheadShows(tasks: seq<Task>, f: nat, i: nat)
    requires NoDup(TaskIds(tasks)) && f < i < |tasks| && tasks[i].status.Claimed?
    ensures Pick(tasks, ClaimedPositions(tasks)) != [tasks[f].taskId] && Pick(tasks, ClaimedPositions(tasks)) != []
  {
    Picked(tasks, ClaimedPositions(tasks), i);
    DistinctIds(tasks, f, i);
  }

  lemma SequentialClaimed(tasks: seq<Task>, f: nat)
    requires NoDup(TaskIds(tasks)) && f == FirstIncomplete(tasks) < |tasks|
    ensures Pick(tasks, ClaimedPositions(tasks)) == (if tasks[f].status.Claimed? then [tasks[f].taskId] else []) <==>
            forall i :: f + 1 <= i < |tasks| ==> !tasks[i].status.Claimed?
  {
    if i :| f + 1 <= i < |tasks| && tasks[i].status.Claimed? {
      ClaimAheadShows(tasks, f, i);
    } else {
      PickSingle(tasks, f, ClaimedPositions(tasks));
    }
  }

  lemma DistinctIds(tasks: seq<Task>, i: nat, j: nat)
    requires NoDup(TaskIds(tasks)) && i < |tasks| && j < |tasks| && i != j
    ensures tasks[i].taskId != tasks[j].taskId
  {
    assert TaskIds(tasks)[i] == tasks[i].taskId && TaskIds(tasks)[j] == tasks[j].taskId;
  }

  lemma SequentialBoundary(tasks: seq<Task>, f: nat)
    requires NoDup(TaskIds(tasks)) && f < |tasks|
    ensures IdAt(tasks, NextIncomplete(tasks, f + 1)) == IdAt(tasks, f + 1) <==>
            (f + 1 < |tasks| ==> !tasks[f + 1].status.Complete?)
  {
    var next := NextIncomplete(tasks, f + 1);
    if f + 1 < |tasks| && next < |tasks| {
      assert TaskIds(tasks)[f + 1] == tasks[f + 1].taskId && TaskIds(tasks)[next] == tasks[next].taskId;
    }
  }

  // An incomplete sequential task is listed by exactly one of the builder's two lists.
  lemma SequentialClaimable(task: Task)
    requires !task.status.Complete?
    ensures Elements([task.taskId]) ==
            Elements(if task.status.Claimed? then [task.taskId] else [])
            + Elements(if task.status.Unclaimed? then [task.taskId] else [])
  {
    assert task.status.Claimed? || task.status.Unclaimed?;
  }

  // Two snapshots agree when their parts do.
  lemma AgreeParts(p: Snapshot, e: Eligibility, sameClaimable: bool, sameClaimed: bool, sameBoundary: bool)
    requires p.firstIncomplete == e.firstIncomplete
    requires Elements(p.claimable) == Elements(e.activeClaimed) + Elements(e.claimableUnclaimed) <==> sameClaimable
    requires sameClaimable ==> (p.activeClaimed == e.activeClaimed <==> sameClaimed)
    requires p.blockedBoundary == e.blockedBoundary <==> sameBoundary
    ensures Agree(p, e) <==> sameClaimable && sameClaimed && sameBoundary
  {
  }

  lemma SequentialBoundaries(tasks: seq<Task>, f: nat)
    requires NoDup(TaskIds(tasks)) && f < |tasks| && tasks[f].orderIndex == f
    ensures SequentialSnapshot(tasks, f).blockedBoundary == SequentialEligibility(tasks, f).blockedBoundary <==>
            (f + 1 < |tasks| ==> !tasks[f + 1].status.Complete?)
  {
    SequentialBoundary(tasks, f);
  }

  lemma SequentialClaims(tasks: seq<Task>, f: nat)
    requires NoDup(TaskIds(tasks)) && f == FirstIncomplete(tasks) < |tasks|
    ensures SequentialSnapshot(tasks, f).activeClaimed == SequentialEligibility(tasks, f).activeClaimed <==>
            forall i :: f + 1 <= i < |tasks| ==> !tasks[i].status.Claimed?
  {
    SequentialClaimed(tasks, f);
  }

  lemma SequentialClaimables(tasks: seq<Task>, f: nat)
    requires f < |tasks| && !tasks[f].status.Complete?
    ensures var p, e := SequentialSnapshot(tasks, f), SequentialEligibility(tasks, f);
            Elements(p.claimable) == Elements(e.activeClaimed) + Elements(e.claimableUnclaimed)
  {
    SequentialClaimable(tasks[f]);
  }

  lemma SequentialAgreement(tasks: seq<Task>, f: nat)
    requires NoDup(TaskIds(tasks)) && f == FirstIncomplete(tasks) < |tasks| && tasks[f].orderIndex == f
    ensures Agree(SequentialSnapshot(tasks, f), SequentialEligibility(tasks, f)) <==>
            (forall i :: f + 1 <= i < |tasks| ==> !tasks[i].status.Claimed?) && (f + 1 < |tasks| ==> !tasks[f + 1].status.Complete?)
  {
    SequentialClaims(tasks, f);
    SequentialBoundaries(tasks, f);
    SequentialClaimables(tasks, f);
    AgreeParts(SequentialSnapshot(tasks, f), SequentialEligibility(tasks, f), true,
               forall i :: f + 1 <= i < |tasks| ==> !tasks[i].status.Claimed?, f + 1 < |tasks| ==> !tasks[f + 1].status.Complete?);
  }

  // Under contiguity the block id picks out exactly the run of the first incomplete task, up to
  // completed tasks before it.
  lemma BlockIsRun(tasks: seq<Task>, f: nat, i: nat)
    requires Contiguous(tasks) && f < |tasks| && i < |tasks|
    ensures var end := RunEnd(tasks, f, tasks[f].blockId);
            && f < end
            && (tasks[i].blockId == tasks[f].blockId ==> i < end)
            && (f <= i < end ==> tasks[i].blockId == tasks[f].blockId)
  {
    var end := RunEnd(tasks, f, tasks[f].blockId);
    assert end < i ==> tasks[end].blockId != tasks[f].blockId;
  }

  lemma LastOfActiveBlock(tasks: seq<Task>, f: nat)
    requires Contiguous(tasks) && f < |tasks|
    ensures LastOfBlock(tasks, f) == RunEnd(tasks, f, tasks[f].blockId) - 1
  {
    var end := RunEnd(tasks, f, tasks[f].blockId);
    var last := LastOfBlock(tasks, f);
    LastOfBlockIsLast(tasks, f, end - 1);
    BlockIsRun(tasks, f, last);
    BlockIsRun(tasks, f, end - 1);
  }

  // The open positions of the run are incomplete positions of its block; the others, if any, lie
  // beyond the run.
  lemma WaveOpen(tasks: seq<Task>, f: nat, i: nat)
    requires f == FirstIncomplete(tasks) < |tasks| && i < |tasks|
    ensures var end, b := RunEnd(tasks, f, tasks[f].blockId), tasks[f].blockId;
            i in OpenPositions(tasks, f, end) <==>
            (i in BlockPositions(tasks, b, Claimed) || i in BlockPositions(tasks, b, Unclaimed)) && i < end
  {
    assert tasks[i].status.Complete? || tasks[i].status.Claimed? || tasks[i].status.Unclaimed?;
  }

  lemma WaveClaimable(tasks: seq<Task>, f: nat)
    requires Parsed(tasks) && f == FirstIncomplete(tasks) < |tasks|
    ensures var end := RunEnd(tasks, f, tasks[f].blockId);
            Elements(Pick(tasks, OpenPositions(tasks, f, end))) ==
            Elements(Pick(tasks, BlockPositions(tasks, tasks[f].blockId, Claimed)))
            + Elements(Pick(tasks, BlockPositions(tasks, tasks[f].blockId, Unclaimed)))
            <==> NoMemberOpenBeyond(tasks, f)
  {
    var end, b := RunEnd(tasks, f, tasks[f].blockId), tasks[f].blockId;
    var open, claimed, unclaimed := OpenPositions(tasks, f, end), BlockPositions(tasks, b, Claimed), BlockPositions(tasks, b, Unclaimed);
    forall i | 0 <= i < |tasks| ensures i in open <==> (i in claimed || i in unclaimed) && i < end {
      WaveOpen(tasks, f, i);
    }
    if NoMemberOpenBeyond(tasks, f) {
      SamePicks(tasks, open, claimed, unclaimed);
    } else {
      var i :| end <= i < |tasks| && tasks[i].blockId == b && !tasks[i].status.Complete?;
      Picked(tasks, open, i);
      Picked(tasks, claimed, i);
      Picked(tasks, unclaimed, i);
      assert i in claimed || i in unclaimed;
      var id := tasks[i].taskId;
      assert id !in Elements(Pick(tasks, open));
      assert id in Elements(Pick(tasks, claimed)) + Elements(Pick(tasks, unclaimed));
    }
  }

  lemma SamePicks(tasks: seq<Task>, a: set<nat>, b: set<nat>, c: set<nat>)
    requires forall i :: 0 <= i < |tasks| ==> (i in a <==> i in b || i in c)
    ensures Elements(Pick(tasks, a)) == Elements(Pick(tasks, b)) + Elements(Pick(tasks, c))
  {
    forall id ensures id in Pick(tasks, a) <==> id in Pick(tasks, b) || id in Pick(tasks, c) {
      PickedPosition(tasks, a, id);
      PickedPosition(tasks, b, id);
      PickedPosition(tasks, c, id);
    }
  }

  lemma WaveClaimed(tasks: seq<Task>, f: nat)
    requires Parsed(tasks) && f == FirstIncomplete(tasks) < |tasks| && NoMemberOpenBeyond(tasks, f)
    ensures Pick(tasks, ClaimedPositions(tasks)) == Pick(tasks, BlockPositions(tasks, tasks[f].blockId, Claimed)) <==>
            NoClaimBeyond(tasks, f)
  {
    var end, b := RunEnd(tasks, f, tasks[f].blockId), tasks[f].blockId;
    var all, inBlock := ClaimedPositions(tasks), BlockPositions(tasks, b, Claimed);
    assert forall i :: 0 <= i < |tasks| ==> (i in inBlock <==> i in all && i < end);
    if NoClaimBeyond(tasks, f) {
      PickAgrees(tasks, all, inBlock);
    } else {
      var i :| end <= i < |tasks| && tasks[i].status.Claimed?;
      Picked(tasks, all, i);
      Picked(tasks, inBlock, i);
    }
  }

  // With unique ids, naming the same task means standing at the same position.
  lemma SameIdIff(tasks: seq<Task>, i: nat, j: nat)
    requires NoDup(TaskIds(tasks))
    ensures IdAt(tasks, i) == IdAt(tasks, j) <==> i == j || (i >= |tasks| && j >= |tasks|)
  {
    if i < |tasks| && j < |tasks| {
      assert TaskIds(tasks)[i] == tasks[i].taskId && TaskIds(tasks)[j] == tasks[j].taskId;
    }
  }

  lemma LastAtOrPastRun(tasks: seq<Task>, f: nat)
    requires f < |tasks|
    ensures f < RunEnd(tasks, f, tasks[f].blockId) <= LastOfBlock(tasks, f) + 1
  {
    var end := RunEnd(tasks, f, tasks[f].blockId);
    assert f < end && tasks[end - 1].blockId == tasks[f].blockId;
    LastOfBlockIsLast(tasks, f, end - 1);
  }

  lemma BoundaryCases(tasks: seq<Task>, end: nat, last: nat)
    requires end <= last + 1 <= |tasks|
    ensures var p, q := OpenOrEnd(tasks, end), last + 1;
            (p == q || (p >= |tasks| && q >= |tasks|)) <==>
            if last < end then end < |tasks| ==> !tasks[end].status.Complete? else tasks[end].status.Complete? && last + 1 == |tasks|
  {
  }

  // The planner's boundary of a wave is the task that ends the run, if open; the builder's is the
  // one after the last member of the block.
  lemma WaveBoundary(tasks: seq<Task>, f: nat)
    requires NoDup(TaskIds(tasks)) && f < |tasks|
    ensures IdAt(tasks, OpenOrEnd(tasks, RunEnd(tasks, f, tasks[f].blockId))) == IdAt(tasks, LastOfBlock(tasks, f) + 1) <==>
            SameBoundary(tasks, f)
  {
    var end, last := RunEnd(tasks, f, tasks[f].blockId), LastOfBlock(tasks, f);
    LastAtOrPastRun(tasks, f);
    SameIdIff(tasks, OpenOrEnd(tasks, end), last + 1);
    BoundaryCases(tasks, end, last);
  }

  lemma SequentialProtocol(tasks: seq<Task>, f: nat)
    requires f == FirstIncomplete(tasks) < |tasks| && tasks[f].mode.Sequential?
    ensures ProtocolSnapshot(tasks) == SequentialSnapshot(tasks, f)
  {
  }

  lemma SequentialEligible(tasks: seq<Task>, f: nat)
    requires f == FirstIncomplete(tasks) < |tasks| && tasks[f].mode.Sequential?
    ensures EligibilitySnapshot(tasks) == SequentialEligibility(tasks, f)
  {
  }

  lemma WaveProtocol(tasks: seq<Task>, f: nat)
    requires f == FirstIncomplete(tasks) < |tasks| && tasks[f].mode.Parallel?
    ensures ProtocolSnapshot(tasks) == WaveSnapshot(tasks, f)
  {
  }

  lemma WaveEligible(tasks: seq<Task>, f: nat)
    requires f == FirstIncomplete(tasks) < |tasks| && tasks[f].mode.Parallel?
    ensures EligibilitySnapshot(tasks) == WaveEligibility(tasks, f)
  {
  }

  lemma WaveAgreementOf(tasks: seq<Task>, f: nat, p: Snapshot, e: Eligibility)
    requires Parsed(tasks) && f == FirstIncomplete(tasks) < |tasks|
    requires p.firstIncomplete == e.firstIncomplete
    requires p.claimable == Pick(tasks, OpenPositions(tasks, f, RunEnd(tasks, f, tasks[f].blockId)))
    requires e.activeClaimed == Pick(tasks, BlockPositions(tasks, tasks[f].blockId, Claimed))
    requires e.claimableUnclaimed == Pick(tasks, BlockPositions(tasks, tasks[f].blockId, Unclaimed))
    requires p.activeClaimed == Pick(tasks, ClaimedPositions(tasks))
    requires p.blockedBoundary == e.blockedBoundary <==> SameBoundary(tasks, f)
    ensures Agree(p, e) <==> NoMemberOpenBeyond(tasks, f) && NoClaimBeyond(tasks, f) && SameBoundary(tasks, f)
  {
    WaveClaimable(tasks, f);
    if NoMemberOpenBeyond(tasks, f) {
      WaveClaimed(tasks, f);
    }
    AgreeParts(p, e, NoMemberOpenBeyond(tasks, f), NoClaimBeyond(tasks, f), SameBoundary(tasks, f));
  }

  lemma WaveBoundaries(tasks: seq<Task>, f: nat)
    requires NoDup(TaskIds(tasks)) && f < |tasks| && tasks[LastOfBlock(tasks, f)].orderIndex == LastOfBlock(tasks, f)
    ensures WaveSnapshot(tasks, f).blockedBoundary == WaveEligibility(tasks, f).blockedBoundary <==> SameBoundary(tasks, f)
  {
    WaveBoundary(tasks, f);
  }

  lemma WaveAgreement(tasks: seq<Task>, f: nat)
    requires Parsed(tasks) && f == FirstIncomplete(tasks) < |tasks|
    ensures Agree(WaveSnapshot(tasks, f), WaveEligibility(tasks, f)) <==>
            NoMemberOpenBeyond(tasks, f) && NoClaimBeyond(tasks, f) && SameBoundary(tasks, f)
  {
    WaveBoundaries(tasks, f);
    WaveAgreementOf(tasks, f, WaveSnapshot(tasks, f), WaveEligibility(tasks, f));
  }

  lemma AloneCondition(tasks: seq<Task>, f: nat)
    requires f == FirstIncomplete(tasks) < |tasks| && RunEnd(tasks, f, tasks[f].blockId) == f + 1
    requires forall j :: 0 <= j < |tasks| && tasks[j].blockId == tasks[f].blockId ==> j == f
    ensures AgreementCondition(tasks) <==>
            (forall i :: f + 1 <= i < |tasks| ==> !tasks[i].status.Claimed?) && (f + 1 < |tasks| ==> !tasks[f + 1].status.Complete?)
  {
    LastOfBlockIsLast(tasks, f, f);
  }

  // On any marker vector of any parsed checklist, the exact condition under which the tools agree.
  lemma SnapshotsAgreeIff(tasks: seq<Task>)
    requires Parsed(tasks)
    ensures Agree(ProtocolSnapshot(tasks), EligibilitySnapshot(tasks)) <==> AgreementCondition(tasks)
  {
    var f := FirstIncomplete(tasks);
    if f == |tasks| {
      PickNothing(tasks, ClaimedPositions(tasks));
    } else if tasks[f].mode.Sequential? {
      SequentialProtocol(tasks, f);
      SequentialEligible(tasks, f);
      SequentialAgreement(tasks, f);
      SequentialRunEnd(tasks, f);
      AloneCondition(tasks, f);
    } else {
      WaveProtocol(tasks, f);
      WaveEligible(tasks, f);
      WaveAgreement(tasks, f);
    }
  }

  // While block ids do not recur, that is: nothing is ahead of the active block.
  lemma ContiguousCondition(tasks: seq<Task>)
    requires Contiguous(tasks)
    ensures AgreementCondition(tasks) <==> NothingAhead(tasks)
  {
    var f := FirstIncomplete(tasks);
    if f < |tasks| {
      LastOfActiveBlock(tasks, f);
      forall i | 0 <= i < |tasks| && tasks[i].blockId == tasks[f].blockId ensures i < RunEnd(tasks, f, tasks[f].blockId) {
        BlockIsRun(tasks, f, i);
      }
    }
  }
}
