// Block levels: neighbouring blocks occupy neighbouring stretches of levels, and the critical
// path runs through every one of them from bottom to top.
module BlockLevels {
  import opened Sequences
  import opened Digraph
  import opened Checklist
  import opened Blocks
  import opened HardEdges
  import opened HardGraph
  import opened Leveling
  import opened CriticalPath

  datatype BlockLevelRow = BlockLevelRow(blockId: string, taskIds: seq<string>, minLevel: nat, maxLevel: nat)

  // The lowest and highest level among the named tasks.
  ghost predicate Extremes(ids: seq<string>, level: map<string, nat>, lo: nat, hi: nat) {
    && (forall t :: t in ids ==> t in level && lo <= level[t] <= hi)
    && (exists t :: t in ids && t in level && level[t] == lo)
    && (exists t :: t in ids && t in level && level[t] == hi)
  }

  method LevelRange(ids: seq<string>, level: map<string, nat>) returns (lo: nat, hi: nat)
    requires ids != [] && forall t :: t in ids ==> t in level
    ensures Extremes(ids, level, lo, hi)
  {
    lo, hi := level[ids[0]], level[ids[0]];
    ghost var a, b := ids[0], ids[0];
    for i := 0 to |ids|
      invariant forall t :: t in ids[..i] ==> lo <= level[t] <= hi
      invariant a in ids && level[a] == lo && b in ids && level[b] == hi
    {
      assert ids[..i + 1] == ids[..i] + [ids[i]];
      if level[ids[i]] < lo {
        lo, a := level[ids[i]], ids[i];
      }
      if level[ids[i]] > hi {
        hi, b := level[ids[i]], ids[i];
      }
    }
    assert ids[..|ids|] == ids;
  }

  method BuildBlockLevels(blocks: seq<Block>, level: map<string, nat>) returns (rows: seq<BlockLevelRow>)
    requires forall b :: b in blocks ==> b.taskIds != [] && forall t :: t in b.taskIds ==> t in level
    ensures |rows| == |blocks|
    ensures forall k :: 0 <= k < |rows| ==>
              && rows[k].blockId == blocks[k].blockId && rows[k].taskIds == blocks[k].taskIds
              && Extremes(blocks[k].taskIds, level, rows[k].minLevel, rows[k].maxLevel)
  {
    rows := [];
    for k := 0 to |blocks|
      invariant |rows| == k
      invariant forall m :: 0 <= m < k ==>
                  && rows[m].blockId == blocks[m].blockId && rows[m].taskIds == blocks[m].taskIds
                  && Extremes(blocks[m].taskIds, level, rows[m].minLevel, rows[m].maxLevel)
    {
      var lo, hi := LevelRange(blocks[k].taskIds, level);
      rows := rows + [BlockLevelRow(blocks[k].blockId, blocks[k].taskIds, lo, hi)];
    }
  }

  // ---- Levels by checklist position ----

  // A leveled checklist whose hard pairs run forward and include the protocol pairs.
  ghost predicate LeveledChecklist(tasks: seq<Task>, pairs: Pairs, level: map<string, nat>) {
    && NoDup(TaskIds(tasks)) && (forall i :: 0 <= i < |tasks| ==> tasks[i].orderIndex == i)
    && ForwardPairs(tasks, pairs) && ProtocolPairs(tasks) <= pairs
    && level.Keys == Elements(TaskIds(tasks)) && IsLeveling(pairs, level)
  }

  ghost function LevelAt(tasks: seq<Task>, level: map<string, nat>, i: nat): nat
    requires i < |tasks| && tasks[i].taskId in level
  {
    level[tasks[i].taskId]
  }

  lemma Leveled(tasks: seq<Task>, pairs: Pairs, level: map<string, nat>, i: nat)
    requires LeveledChecklist(tasks, pairs, level) && i < |tasks|
    ensures tasks[i].taskId in level
  {
    assert TaskIds(tasks)[i] in Elements(TaskIds(tasks));
  }

  lemma NextBlockIsHigher(tasks: seq<Task>, pairs: Pairs, level: map<string, nat>, i: nat, j: nat)
    requires LeveledChecklist(tasks, pairs, level) && NextBlock(tasks, i, j)
    ensures tasks[i].taskId in level && tasks[j].taskId in level
    ensures LevelAt(tasks, level, i) < LevelAt(tasks, level, j)
  {
    Leveled(tasks, pairs, level, i);
    Leveled(tasks, pairs, level, j);
    assert (tasks[i].taskId, tasks[j].taskId) in ProtocolPairs(tasks);
    assert (tasks[i].taskId, tasks[j].taskId) in pairs;
  }

  // Every task of an earlier block sits strictly below every task of a later one.
  lemma {:induction false} LaterBlockIsHigher(tasks: seq<Task>, pairs: Pairs, level: map<string, nat>, i: nat, j: nat)
    requires LeveledChecklist(tasks, pairs, level) && i < |tasks| && j < |tasks|
    requires RunIndex(BlockKeys(tasks), i) < RunIndex(BlockKeys(tasks), j)
    ensures tasks[i].taskId in level && tasks[j].taskId in level
    ensures LevelAt(tasks, level, i) < LevelAt(tasks, level, j)
    decreases j
  {
    var keys := BlockKeys(tasks);
    var r := RunIndex(keys, j);
    if RunIndex(keys, i) + 1 == r {
      NextBlockIsHigher(tasks, pairs, level, i, j);
    } else {
      var m := RunIndexOnto(keys, j, r - 1);
      LaterBlockIsHigher(tasks, pairs, level, i, m);
      NextBlockIsHigher(tasks, pairs, level, m, j);
    }
  }

  // A task above level 0 has an earlier task exactly one level below it.
  lemma TightPosition(tasks: seq<Task>, pairs: Pairs, level: map<string, nat>, i: nat) returns (j: nat)
    requires LeveledChecklist(tasks, pairs, level) && i < |tasks|
    requires tasks[i].taskId in level && LevelAt(tasks, level, i) > 0
    ensures j < i && tasks[j].taskId in level && LevelAt(tasks, level, j) + 1 == LevelAt(tasks, level, i)
  {
    var t := tasks[i].taskId;
    assert HasTightPredecessor(pairs, level, t);
    var s :| s in level && (s, t) in pairs && level[s] + 1 == level[t];
    assert s in Elements(TaskIds(tasks));
    j :| 0 <= j < |tasks| && TaskIds(tasks)[j] == s;
    assert Lookup(tasks)[s] == tasks[j] && Lookup(tasks)[t] == tasks[i];
  }

  lemma FirstTaskAtLevelZero(tasks: seq<Task>, pairs: Pairs, level: map<string, nat>)
    requires LeveledChecklist(tasks, pairs, level) && tasks != []
    ensures tasks[0].taskId in level && LevelAt(tasks, level, 0) == 0
  {
    Leveled(tasks, pairs, level, 0);
    if LevelAt(tasks, level, 0) > 0 {
      var j := TightPosition(tasks, pairs, level, 0);
    }
  }

  // The first task f of a block sits exactly one above some task of the block before, and that
  // task is as high as any in its block.
  lemma BlockStartsOneUp(tasks: seq<Task>, pairs: Pairs, level: map<string, nat>, k: nat, f: nat) returns (top: nat)
    requires LeveledChecklist(tasks, pairs, level) && f < |tasks|
    requires RunIndex(BlockKeys(tasks), f) == k + 1
    requires forall m :: 0 <= m < f ==> RunIndex(BlockKeys(tasks), m) < k + 1
    ensures top < |tasks| && RunIndex(BlockKeys(tasks), top) == k
    ensures tasks[top].taskId in level && tasks[f].taskId in level
    ensures LevelAt(tasks, level, f) == LevelAt(tasks, level, top) + 1
  {
    var keys := BlockKeys(tasks);
    var i := RunIndexOnto(keys, f, k);
    NextBlockIsHigher(tasks, pairs, level, i, f);
    top := TightPosition(tasks, pairs, level, f);
    if RunIndex(keys, top) < k {
      LaterBlockIsHigher(tasks, pairs, level, top, i);
      assert false;
    }
  }

  // ---- The tiling theorem ----

  ghost predicate BlockRows(tasks: seq<Task>, blocks: seq<Block>, level: map<string, nat>, rows: seq<BlockLevelRow>) {
    && BlocksOf(tasks, blocks) && |rows| == |blocks|
    && forall k :: 0 <= k < |rows| ==> Extremes(blocks[k].taskIds, level, rows[k].minLevel, rows[k].maxLevel)
  }

  lemma RowWitness(tasks: seq<Task>, blocks: seq<Block>, level: map<string, nat>, rows: seq<BlockLevelRow>, k: nat)
    returns (a: nat, b: nat)
    requires BlockRows(tasks, blocks, level, rows) && k < |rows|
    ensures a < |tasks| && b < |tasks| && RunIndex(BlockKeys(tasks), a) == RunIndex(BlockKeys(tasks), b) == k
    ensures tasks[a].taskId in level && LevelAt(tasks, level, a) == rows[k].minLevel
    ensures tasks[b].taskId in level && LevelAt(tasks, level, b) == rows[k].maxLevel
  {
    var ids := blocks[k].taskIds;
    assert Extremes(ids, level, rows[k].minLevel, rows[k].maxLevel);
    var s :| s in ids && s in level && level[s] == rows[k].minLevel;
    var t :| t in ids && t in level && level[t] == rows[k].maxLevel;
    BlockMember(tasks, blocks, k, s);
    BlockMember(tasks, blocks, k, t);
    a :| 0 <= a < |tasks| && tasks[a].taskId == s && RunIndex(BlockKeys(tasks), a) == k;
    b :| 0 <= b < |tasks| && tasks[b].taskId == t && RunIndex(BlockKeys(tasks), b) == k;
  }

  lemma RowBounds(tasks: seq<Task>, blocks: seq<Block>, level: map<string, nat>, rows: seq<BlockLevelRow>, k: nat, i: nat)
    requires BlockRows(tasks, blocks, level, rows) && k < |rows|
    requires i < |tasks| && RunIndex(BlockKeys(tasks), i) == k && tasks[i].taskId in level
    ensures rows[k].minLevel <= LevelAt(tasks, level, i) <= rows[k].maxLevel
  {
    BlockMember(tasks, blocks, k, tasks[i].taskId);
    assert Extremes(blocks[k].taskIds, level, rows[k].minLevel, rows[k].maxLevel);
  }

  // Levels tile: each block starts exactly one level above the top of the block before it.
  lemma BlocksTile(tasks: seq<Task>, pairs: Pairs, level: map<string, nat>, blocks: seq<Block>,
                   rows: seq<BlockLevelRow>, k: nat)
    requires LeveledChecklist(tasks, pairs, level) && BlockRows(tasks, blocks, level, rows)
    requires k + 1 < |rows|
    ensures rows[k + 1].minLevel == rows[k].maxLevel + 1
  {
    var keys := BlockKeys(tasks);
    var a, b := RowWitness(tasks, blocks, level, rows, k);
    var c, d := RowWitness(tasks, blocks, level, rows, k + 1);
    NextBlockIsHigher(tasks, pairs, level, b, c);
    var f := RunIndexOnto(keys, c, k + 1);
    var top := BlockStartsOneUp(tasks, pairs, level, k, f);
    RowBounds(tasks, blocks, level, rows, k, top);
    RowBounds(tasks, blocks, level, rows, k + 1, f);
  }

  lemma FirstBlockAtLevelZero(tasks: seq<Task>, pairs: Pairs, level: map<string, nat>, blocks: seq<Block>, rows: seq<BlockLevelRow>)
    requires LeveledChecklist(tasks, pairs, level) && BlockRows(tasks, blocks, level, rows) && rows != []
    ensures rows[0].minLevel == 0
  {
    var a, b := RowWitness(tasks, blocks, level, rows, 0);
    FirstTaskAtLevelZero(tasks, pairs, level);
    RowBounds(tasks, blocks, level, rows, 0, 0);
  }

  // A task belongs to block k exactly when its level lies in block k's stretch.
  lemma LevelDecidesBlock(tasks: seq<Task>, pairs: Pairs, level: map<string, nat>, blocks: seq<Block>,
                          rows: seq<BlockLevelRow>, k: nat, t: string)
    requires LeveledChecklist(tasks, pairs, level) && BlockRows(tasks, blocks, level, rows)
    requires k < |rows| && t in level
    ensures t in blocks[k].taskIds <==> rows[k].minLevel <= level[t] <= rows[k].maxLevel
  {
    var keys := BlockKeys(tasks);
    assert t in Elements(TaskIds(tasks));
    var i :| 0 <= i < |tasks| && TaskIds(tasks)[i] == t;
    var a, b := RowWitness(tasks, blocks, level, rows, k);
    BlockMember(tasks, blocks, k, t);
    if RunIndex(keys, i) < k {
      LaterBlockIsHigher(tasks, pairs, level, i, a);
    } else if RunIndex(keys, i) > k {
      LaterBlockIsHigher(tasks, pairs, level, b, i);
    } else {
      RowBounds(tasks, blocks, level, rows, k, i);
    }
    if t in blocks[k].taskIds {
      var m :| 0 <= m < |tasks| && tasks[m].taskId == t && RunIndex(keys, m) == k;
      assert TaskIds(tasks)[m] == t;
      assert m == i;
    }
  }

  // The critical path meets every block in exactly the stretch path[min..max + 1], that is, in
  // max - min + 1 consecutive tasks.
  lemma CriticalPathCrossesBlock(tasks: seq<Task>, pairs: Pairs, preds: Adjacency, level: map<string, nat>,
                                 blocks: seq<Block>, rows: seq<BlockLevelRow>, path: seq<string>, k: nat)
    requires LeveledChecklist(tasks, pairs, level) && BlockRows(tasks, blocks, level, rows)
    requires IsCriticalPath(pairs, preds, level, Numbers(tasks), path) && k < |rows|
    ensures rows[k].minLevel <= rows[k].maxLevel < |path|
    ensures forall i :: 0 <= i < |path| ==>
              (path[i] in blocks[k].taskIds <==> rows[k].minLevel <= i <= rows[k].maxLevel)
  {
    var a, b := RowWitness(tasks, blocks, level, rows, k);
    RowBounds(tasks, blocks, level, rows, k, a);
    forall i | 0 <= i < |path| ensures path[i] in blocks[k].taskIds <==> rows[k].minLevel <= i <= rows[k].maxLevel {
      LevelDecidesBlock(tasks, pairs, level, blocks, rows, k, path[i]);
    }
  }
}
