// Cutting the checklist into protocol blocks (the DAG builder) and into execution units (the
// definition-of-done planner).
module Blocks {
  import opened Sequences
  import opened Checklist

  datatype Block = Block(
    blockId: string,
    mode: Mode,
    phase: string,
    waveId: Option<string>,
    taskIds: seq<string>,
    firstTaskId: string,
    lastTaskId: string)

  function BlockOf(group: seq<Task>): Block
    requires group != []
  {
    Block(group[0].blockId, group[0].mode, group[0].phase, group[0].waveId,
          TaskIds(group), group[0].taskId, group[|group| - 1].taskId)
  }

  function BlockGroups(tasks: seq<Task>): (groups: seq<seq<Task>>)
    ensures forall k :: 0 <= k < |groups| ==> groups[k] != []
  {
    Runs(tasks, BlockKeys(tasks))
  }

  function Concat<T>(groups: seq<seq<T>>): seq<T> {
    if groups == [] then [] else Concat(groups[..|groups| - 1]) + groups[|groups| - 1]
  }

  // An independent reading of "contiguous blocks": non-empty groups of one block id each,
  // neighbours with different block ids, whose concatenation is the checklist.
  ghost predicate IsBlockPartition(tasks: seq<Task>, groups: seq<seq<Task>>) {
    && Concat(groups) == tasks
    && (forall k :: 0 <= k < |groups| ==> groups[k] != [])
    && (forall k, i :: 0 <= k < |groups| && 0 <= i < |groups[k]| ==> groups[k][i].blockId == groups[k][0].blockId)
    && (forall k, m :: 0 <= k && m == k + 1 && m < |groups| ==> groups[k][0].blockId != groups[m][0].blockId)
  }

  lemma BlockKeysPrefix(tasks: seq<Task>, n: nat)
    requires n <= |tasks|
    ensures BlockKeys(tasks[..n]) == BlockKeys(tasks)[..n]
  {
  }

  // Removing the last task from a partition leaves a partition of what is before it.
  ghost function WithoutLastTask(groups: seq<seq<Task>>): (r: seq<seq<Task>>)
    requires groups != [] && groups[|groups| - 1] != []
  {
    var m := |groups| - 1;
    if |groups[m]| == 1 then groups[..m] else groups[m := groups[m][..|groups[m]| - 1]]
  }

  lemma WithoutLastTaskConcat(tasks: seq<Task>, groups: seq<seq<Task>>)
    requires IsBlockPartition(tasks, groups) && groups != []
    ensures tasks != [] && tasks[|tasks| - 1] == groups[|groups| - 1][|groups[|groups| - 1]| - 1]
    ensures Concat(WithoutLastTask(groups)) == tasks[..|tasks| - 1]
  {
    var m := |groups| - 1;
    var last := groups[m];
    assert tasks == Concat(groups[..m]) + last;
    if |last| > 1 {
      var shorter := WithoutLastTask(groups);
      assert shorter[..m] == groups[..m];
    }
  }

  lemma WithoutLastTaskPartition(tasks: seq<Task>, groups: seq<seq<Task>>)
    requires IsBlockPartition(tasks, groups) && groups != []
    ensures tasks != [] && IsBlockPartition(tasks[..|tasks| - 1], WithoutLastTask(groups))
  {
    WithoutLastTaskConcat(tasks, groups);
  }

  // How one more task extends a list of groups.
  ghost function WithTask(before: seq<seq<Task>>, task: Task, sameBlock: bool): seq<seq<Task>>
    requires sameBlock ==> before != []
  {
    if sameBlock then before[|before| - 1 := before[|before| - 1] + [task]] else before + [[task]]
  }

  lemma BlockGroupsStep(tasks: seq<Task>)
    requires tasks != []
    ensures var n := |tasks| - 1;
            var same := n > 0 && tasks[n].blockId == tasks[n - 1].blockId;
            (same ==> BlockGroups(tasks[..n]) != [])
            && BlockGroups(tasks) == WithTask(BlockGroups(tasks[..n]), tasks[n], same)
  {
    BlockKeysPrefix(tasks, |tasks| - 1);
  }

  lemma PartitionLastKey(tasks: seq<Task>, groups: seq<seq<Task>>)
    requires IsBlockPartition(tasks, groups) && tasks != []
    ensures groups != [] && groups[|groups| - 1][0].blockId == tasks[|tasks| - 1].blockId
  {
    assert groups == [] ==> tasks == [];
    WithoutLastTaskConcat(tasks, groups);
  }

  lemma WithTaskConcat(before: seq<seq<Task>>, task: Task, same: bool)
    requires same ==> before != []
    ensures Concat(WithTask(before, task, same)) == Concat(before) + [task]
  {
    var groups, m := WithTask(before, task, same), |before| - 1;
    if same {
      assert groups[..m] == before[..m];
    } else {
      assert groups[..|before|] == before;
    }
  }

  // Group k of the extended list: it starts as before, and holds one block id.
  lemma WithTaskAt(before: seq<seq<Task>>, task: Task, same: bool, k: nat)
    requires same ==> before != []
    requires k < |before| ==> before[k] != [] && forall i :: 0 <= i < |before[k]| ==> before[k][i].blockId == before[k][0].blockId
    requires same && k == |before| - 1 ==> before[k][0].blockId == task.blockId
    requires k < |WithTask(before, task, same)|
    ensures var group := WithTask(before, task, same)[k];
            && group != [] && group[0] == (if k < |before| then before[k][0] else task)
            && forall i :: 0 <= i < |group| ==> group[i].blockId == group[0].blockId
  {
  }

  lemma WithTaskPartition(tasks: seq<Task>, before: seq<seq<Task>>, task: Task, same: bool)
    requires IsBlockPartition(tasks, before)
    requires same ==> before != []
    requires before != [] ==> (same <==> before[|before| - 1][0].blockId == task.blockId)
    ensures IsBlockPartition(tasks + [task], WithTask(before, task, same))
  {
    WithTaskConcat(before, task, same);
    var groups: seq<seq<Task>> := WithTask(before, task, same);
    forall k | 0 <= k < |groups|
      ensures groups[k] != [] && groups[k][0] == if k < |before| then before[k][0] else task
      ensures forall i :: 0 <= i < |groups[k]| ==> groups[k][i].blockId == groups[k][0].blockId
    {
      WithTaskAt(before, task, same, k);
    }
  }

  // The computed runs are such a partition.
  lemma {:induction false} BlockGroupsPartition(tasks: seq<Task>)
    ensures IsBlockPartition(tasks, BlockGroups(tasks))
    decreases |tasks|
  {
    if tasks != [] {
      var n := |tasks| - 1;
      BlockGroupsPartition(tasks[..n]);
      BlockGroupsStep(tasks);
      if n > 0 {
        PartitionLastKey(tasks[..n], BlockGroups(tasks[..n]));
      }
      assert tasks == tasks[..n] + [tasks[n]];
      WithTaskPartition(tasks[..n], BlockGroups(tasks[..n]), tasks[n], n > 0 && tasks[n].blockId == tasks[n - 1].blockId);
    } else {
      assert Concat<Task>([]) == [];
    }
  }

  lemma PartitionStep(tasks: seq<Task>, groups: seq<seq<Task>>)
    requires IsBlockPartition(tasks, groups) && groups != []
    ensures tasks != []
    ensures var n := |tasks| - 1;
            var same := n > 0 && tasks[n].blockId == tasks[n - 1].blockId;
            (same ==> WithoutLastTask(groups) != []) && groups == WithTask(WithoutLastTask(groups), tasks[n], same)
  {
    var n, m := |tasks| - 1, |groups| - 1;
    var shorter := WithoutLastTask(groups);
    WithoutLastTaskPartition(tasks, groups);
    WithoutLastTaskConcat(tasks, groups);
    if |groups[m]| == 1 {
      assert groups[m] == [tasks[n]];
      assert groups == shorter + [[tasks[n]]];
      if m > 0 {
        WithoutLastTaskConcat(tasks[..n], shorter);
      }
    } else {
      WithoutLastTaskConcat(tasks[..n], shorter);
      assert groups[m] == shorter[m] + [tasks[n]];
      assert groups == shorter[m := shorter[m] + [tasks[n]]];
    }
  }

  // And the only one: whatever tool produces a block partition produces this one.
  lemma {:induction false} BlockPartitionUnique(tasks: seq<Task>, groups: seq<seq<Task>>)
    requires IsBlockPartition(tasks, groups)
    ensures groups == BlockGroups(tasks)
    decreases |tasks|
  {
    if groups != [] {
      WithoutLastTaskPartition(tasks, groups);
      BlockPartitionUnique(tasks[..|tasks| - 1], WithoutLastTask(groups));
      PartitionStep(tasks, groups);
      BlockGroupsStep(tasks);
    }
  }

  lemma TaskIdsAppend(group: seq<Task>, task: Task)
    ensures TaskIds(group + [task]) == TaskIds(group) + [task.taskId]
  {
  }

  method BuildBlocks(tasks: seq<Task>) returns (blocks: seq<Block>)
    ensures |blocks| == |BlockGroups(tasks)|
    ensures forall k :: 0 <= k < |blocks| ==> blocks[k] == BlockOf(BlockGroups(tasks)[k])
  {
    blocks := [];
    var currentBlockId: Option<string> := None;
    var currentTasks: seq<string> := [];
    var currentMode, currentPhase, currentWave := Sequential, "", None;
    ghost var keys := BlockKeys(tasks);
    for i := 0 to |tasks|
      invariant |Runs(tasks[..i], keys[..i])| == |blocks| + if i == 0 then 0 else 1
      invariant forall k :: 0 <= k < |blocks| ==> blocks[k] == BlockOf(Runs(tasks[..i], keys[..i])[k])
      invariant i == 0 <==> currentBlockId.None?
      invariant i > 0 ==>
                  var group := Runs(tasks[..i], keys[..i])[|blocks|];
                  && currentBlockId == Some(tasks[i - 1].blockId)
                  && currentTasks == TaskIds(group)
                  && Block(currentBlockId.value, currentMode, currentPhase, currentWave, currentTasks,
                           currentTasks[0], currentTasks[|currentTasks| - 1]) == BlockOf(group)
    {
      var task := tasks[i];
      assert tasks[..i + 1][..i] == tasks[..i] && keys[..i + 1][..i] == keys[..i];
      if currentBlockId != Some(task.blockId) {
        if currentBlockId.Some? {
          blocks := blocks + [Block(currentBlockId.value, currentMode, currentPhase, currentWave, currentTasks,
                                    currentTasks[0], currentTasks[|currentTasks| - 1])];
        }
        currentBlockId := Some(task.blockId);
        currentTasks := [task.taskId];
        currentMode, currentPhase, currentWave := task.mode, task.phase, task.waveId;
      } else {
        TaskIdsAppend(Runs(tasks[..i], keys[..i])[|blocks|], task);
        currentTasks := currentTasks + [task.taskId];
      }
    }
    assert tasks[..|tasks|] == tasks && keys[..|tasks|] == keys;
    if currentBlockId.Some? {
      blocks := blocks + [Block(currentBlockId.value, currentMode, currentPhase, currentWave, currentTasks,
                                currentTasks[0], currentTasks[|currentTasks| - 1])];
    }
  }

  // The longest stretch of equal keys around lo, cut out at [lo, hi).
  ghost predicate IsStretch<K>(keys: seq<K>, lo: nat, hi: nat) {
    && lo < hi <= |keys| && (forall i :: lo <= i < hi ==> keys[i] == keys[lo])
    && (lo > 0 ==> keys[lo - 1] != keys[lo]) && (hi < |keys| ==> keys[hi] != keys[lo])
  }

  lemma SpanIsStretch<K>(keys: seq<K>, k: nat, lo: nat, hi: nat)
    requires RunSpan(keys, k, lo, hi)
    ensures IsStretch(keys, lo, hi)
  {
    forall i | lo <= i < hi ensures keys[i] == keys[lo] {
      SpanMember(keys, k, lo, hi, i);
      RunIsUniform(keys, lo, i);
    }
    if hi < |keys| {
      assert keys[hi - 1] == keys[lo];
    }
  }

  // What a block says of the tasks [lo, hi) it covers: its id, mode, phase and wave are the first
  // one's, and it lists them from first to last.
  ghost predicate BlockCovers(tasks: seq<Task>, lo: nat, hi: nat, block: Block) {
    && lo < hi <= |tasks| && block.blockId == tasks[lo].blockId && block.mode == tasks[lo].mode
    && block.phase == tasks[lo].phase && block.waveId == tasks[lo].waveId
    && |block.taskIds| == hi - lo && (forall i :: 0 <= i < hi - lo ==> block.taskIds[i] == tasks[lo + i].taskId)
    && block.firstTaskId == tasks[lo].taskId && block.lastTaskId == tasks[hi - 1].taskId
  }

  lemma BlockOfSlice(tasks: seq<Task>, lo: nat, hi: nat)
    requires lo < hi <= |tasks|
    ensures BlockCovers(tasks, lo, hi, BlockOf(tasks[lo..hi]))
  {
  }

  // Block k covers the k-th such stretch.
  lemma BlockFields(tasks: seq<Task>, k: nat) returns (lo: nat, hi: nat)
    requires k < |BlockGroups(tasks)|
    ensures IsStretch(BlockKeys(tasks), lo, hi) && RunIndex(BlockKeys(tasks), lo) == k
    ensures BlockCovers(tasks, lo, hi, BlockOf(BlockGroups(tasks)[k]))
  {
    lo, hi := RunSpanOf(tasks, BlockKeys(tasks), k);
    SpanIsStretch(BlockKeys(tasks), k, lo, hi);
    BlockOfSlice(tasks, lo, hi);
  }

  // ---- Execution units ----

  datatype UnitState = UnitBlocked | UnitActive | UnitComplete

  datatype Snapshot = Snapshot(
    firstIncomplete: Option<string>,
    claimable: seq<string>,
    blockedBoundary: Option<string>,
    activeClaimed: seq<string>)

  datatype ExecutionUnit = ExecutionUnit(
    unitId: string,
    orderIndex: nat,
    mode: Mode,
    taskIds: seq<string>,
    state: UnitState,
    claimable: seq<string>,
    maxParallelism: nat,
    blockedUntil: Option<string>)

  // A sequential row's key is its task id, any other row's its wave id, or its phase when the wave
  // id is missing or empty.
  function PlanKey(row: Task): string {
    if row.mode.Sequential? then row.taskId
    else if row.waveId.Some? && row.waveId.value != "" then row.waveId.value
    else row.phase
  }

  function PlanKeys(rows: seq<Task>): (keys: seq<string>) {
    seq(|rows|, i requires 0 <= i < |rows| => PlanKey(rows[i]))
  }

  function UnitOf(orderIndex: nat, key: string, group: seq<Task>, snapshot: Snapshot): ExecutionUnit
    requires group != []
  {
    var ids := TaskIds(group);
    var active := snapshot.firstIncomplete.Some? && snapshot.firstIncomplete.value in ids;
    var state :=
      if active then UnitActive
      else if forall row :: row in group ==> row.status.Complete? then UnitComplete
      else UnitBlocked;
    ExecutionUnit(key, orderIndex, group[0].mode, ids, state,
                  Filter(snapshot.claimable, Elements(ids)),
                  if active then |snapshot.claimable| else 0,
                  if state.UnitBlocked? then snapshot.firstIncomplete else None)
  }

  // On a parsed checklist both tools use the same keys, so they cut the same blocks.
  lemma PlanKeysAreBlockKeys(tasks: seq<Task>)
    requires Parsed(tasks)
    ensures PlanKeys(tasks) == BlockKeys(tasks)
    ensures Runs(tasks, PlanKeys(tasks)) == BlockGroups(tasks)
  {
    assert |PlanKeys(tasks)| == |BlockKeys(tasks)|;
    forall i | 0 <= i < |tasks| ensures PlanKeys(tasks)[i] == BlockKeys(tasks)[i] {
      assert tasks[i].mode.Sequential? || tasks[i].mode.Parallel?;
    }
    assert PlanKeys(tasks) == BlockKeys(tasks);
  }

  method GroupRows(rows: seq<Task>) returns (grouped: seq<(string, seq<Task>)>)
    ensures |grouped| == |Runs(rows, PlanKeys(rows))|
    ensures forall k :: 0 <= k < |grouped| ==>
              grouped[k].1 == Runs(rows, PlanKeys(rows))[k] && grouped[k].0 == PlanKey(grouped[k].1[0])
  {
    grouped := [];
    var currentKey: Option<string> := None;
    var currentRows: seq<Task> := [];
    ghost var keys := PlanKeys(rows);
    for i := 0 to |rows|
      invariant |Runs(rows[..i], keys[..i])| == |grouped| + if i == 0 then 0 else 1
      invariant forall k :: 0 <= k < |grouped| ==>
                  grouped[k].1 == Runs(rows[..i], keys[..i])[k] && grouped[k].0 == PlanKey(grouped[k].1[0])
      invariant i == 0 ==> currentKey.None? && currentRows == []
      invariant i > 0 ==>
                  && currentKey == Some(keys[i - 1])
                  && currentRows == Runs(rows[..i], keys[..i])[|grouped|]
                  && PlanKey(currentRows[0]) == keys[i - 1]
    {
      var key := PlanKey(rows[i]);
      assert rows[..i + 1][..i] == rows[..i] && keys[..i + 1][..i] == keys[..i];
      if Some(key) != currentKey {
        if currentRows != [] {
          grouped := grouped + [(currentKey.value, currentRows)];
        }
        currentKey := Some(key);
        currentRows := [rows[i]];
      } else {
        currentRows := currentRows + [rows[i]];
      }
    }
    assert rows[..|rows|] == rows && keys[..|rows|] == keys;
    if currentRows != [] {
      grouped := grouped + [(currentKey.value, currentRows)];
    }
  }

  method BuildExecutionPlan(rows: seq<Task>, snapshot: Snapshot) returns (units: seq<ExecutionUnit>)
    ensures |units| == |Runs(rows, PlanKeys(rows))|
    ensures forall k :: 0 <= k < |units| ==>
              var group := Runs(rows, PlanKeys(rows))[k];
              units[k] == UnitOf(k, PlanKey(group[0]), group, snapshot)
  {
    var grouped := GroupRows(rows);
    units := [];
    for k := 0 to |grouped|
      invariant |units| == k
      invariant forall m :: 0 <= m < k ==>
                  var group := Runs(rows, PlanKeys(rows))[m];
                  units[m] == UnitOf(m, PlanKey(group[0]), group, snapshot)
    {
      units := units + [UnitOf(k, grouped[k].0, grouped[k].1, snapshot)];
    }
  }

  // What groups the rows: a sequential row stands alone, another goes with its wave, or with its
  // phase when it has none.
  ghost predicate KeyOfRow(row: Task, key: string) {
    && (row.mode.Sequential? ==> key == row.taskId)
    && (row.mode.Parallel? && row.waveId.Some? && row.waveId.value != "" ==> key == row.waveId.value)
    && (row.mode.Parallel? && (row.waveId.None? || row.waveId.value == "") ==> key == row.phase)
  }

  lemma PlanKeyIs(rows: seq<Task>, i: nat)
    requires i < |rows|
    ensures KeyOfRow(rows[i], PlanKeys(rows)[i])
  {
  }

  // What a unit says of the rows [lo, hi) it covers.
  ghost predicate UnitCovers(rows: seq<Task>, lo: nat, hi: nat, snapshot: Snapshot, unit: ExecutionUnit) {
    && lo < hi <= |rows| && KeyOfRow(rows[lo], unit.unitId) && unit.mode == rows[lo].mode
    && |unit.taskIds| == hi - lo && (forall i :: 0 <= i < hi - lo ==> unit.taskIds[i] == rows[lo + i].taskId)
    && (unit.state.UnitActive? <==> snapshot.firstIncomplete.Some? && snapshot.firstIncomplete.value in unit.taskIds)
    && (unit.state.UnitComplete? <==> !unit.state.UnitActive? && forall i :: lo <= i < hi ==> rows[i].status.Complete?)
    && Elements(unit.claimable) == Elements(snapshot.claimable) * Elements(unit.taskIds)
  }

  lemma SliceComplete(rows: seq<Task>, lo: nat, hi: nat)
    requires lo <= hi <= |rows|
    ensures (forall row :: row in rows[lo..hi] ==> row.status.Complete?) <==> forall i :: lo <= i < hi ==> rows[i].status.Complete?
  {
    forall i | lo <= i < hi ensures rows[i] in rows[lo..hi] {
      assert rows[lo..hi][i - lo] == rows[i];
    }
  }

  lemma UnitOfSlice(rows: seq<Task>, lo: nat, hi: nat, snapshot: Snapshot, k: nat, key: string)
    requires lo < hi <= |rows| && KeyOfRow(rows[lo], key)
    ensures UnitCovers(rows, lo, hi, snapshot, UnitOf(k, key, rows[lo..hi], snapshot))
  {
    SliceComplete(rows, lo, hi);
    FilterMembers(snapshot.claimable, Elements(TaskIds(rows[lo..hi])));
  }

  // Unit k covers the k-th stretch of rows with one key.
  lemma UnitFields(rows: seq<Task>, snapshot: Snapshot, k: nat) returns (lo: nat, hi: nat)
    requires k < |Runs(rows, PlanKeys(rows))|
    ensures IsStretch(PlanKeys(rows), lo, hi) && RunIndex(PlanKeys(rows), lo) == k
    ensures var group := Runs(rows, PlanKeys(rows))[k];
            UnitCovers(rows, lo, hi, snapshot, UnitOf(k, PlanKey(group[0]), group, snapshot))
  {
    lo, hi := RunSpanOf(rows, PlanKeys(rows), k);
    SpanIsStretch(PlanKeys(rows), k, lo, hi);
    PlanKeyIs(rows, lo);
    UnitOfSlice(rows, lo, hi, snapshot, k, PlanKey(rows[lo]));
  }
}
