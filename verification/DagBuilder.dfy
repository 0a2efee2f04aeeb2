// The DAG builder from end to end, and what its output means for any schedule of the tasks.
module DagBuilder {
  import opened Sequences
  import opened Digraph
  import opened Checklist
  import opened Blocks
  import opened EdgeIds
  import opened HardEdges
  import opened HardGraph
  import opened SoftEdges
  import opened Leveling
  import opened Levels
  import opened CriticalPath
  import opened BlockLevels
  import K = Kahn

  datatype Dag = Dag(
    hardEdges: seq<EdgeId>,
    softEdges: seq<EdgeId>,
    preds: Adjacency,
    succs: Adjacency,
    softPairs: Pairs,
    level: map<string, nat>,
    levelRows: seq<LevelRow>,
    maxParallelism: nat,
    blockRows: seq<BlockLevelRow>,
    criticalPath: seq<string>)

  datatype BuildResult = Built(dag: Dag) | EdgeRejected(error: EdgeError) | CycleReported

  // All hard pairs of a checklist under a rule table.
  ghost function HardPairs(tasks: seq<Task>, rules: seq<Rule>): Pairs {
    ProtocolPairs(tasks) + RulePairs(rules)
  }

  // The edges in their order of presentation, joining exactly these pairs.
  ghost predicate ListsPairs(tasks: seq<Task>, listed: seq<EdgeId>, pairs: Pairs)
    requires NoDup(TaskIds(tasks))
  {
    Presents(listed, Elements(listed), Lookup(tasks)) && pairs == set id | id in listed :: (id.source, id.target)
  }

  ghost predicate FaithfulDag(tasks: seq<Task>, blocks: seq<Block>, pairs: Pairs, dag: Dag)
    requires NoDup(TaskIds(tasks))
  {
    && GraphLists(TaskIds(tasks), pairs, dag.preds, dag.succs)
    && dag.softPairs == SameTrackPairs(tasks) - pairs
    && ListsPairs(tasks, dag.hardEdges, pairs) && ListsPairs(tasks, dag.softEdges, dag.softPairs)
    && LeveledChecklist(tasks, pairs, dag.level)
    && RowsOf(tasks, dag.level, dag.levelRows)
    && Widest(dag.levelRows, dag.maxParallelism)
    && BlockRows(tasks, blocks, dag.level, dag.blockRows)
    && IsCriticalPath(pairs, dag.preds, dag.level, Numbers(tasks), dag.criticalPath)
    && |dag.levelRows| == |dag.criticalPath|
  }

  lemma ForwardPairsWithin(tasks: seq<Task>, pairs: Pairs)
    requires NoDup(TaskIds(tasks)) && ForwardPairs(tasks, pairs)
    ensures PairsWithin(pairs, TaskIds(tasks))
  {
  }

  lemma ParsedHardGraph(tasks: seq<Task>, pairs: Pairs, preds: Adjacency, succs: Adjacency)
    requires Parsed(tasks) && ForwardPairs(tasks, pairs) && GraphLists(TaskIds(tasks), pairs, preds, succs)
    ensures HardGraphOf(tasks, pairs, preds)
  {
  }

  // As many levels as tasks on the critical path.
  lemma LevelCountIsPathLength(tasks: seq<Task>, pairs: Pairs, preds: Adjacency, level: map<string, nat>,
                               numbers: map<string, int>, rows: seq<LevelRow>, path: seq<string>)
    requires RowsOf(tasks, level, rows) && IsCriticalPath(pairs, preds, level, numbers, path)
    ensures |rows| == |path|
  {
    assert Last(path) in level && level[Last(path)] == |path| - 1;
    var top := |rows| - 1;
    assert rows[top].taskIds != [];
    var members := TasksAt(tasks, level, top);
    assert rows[top].taskIds == TaskIds(members);
    TasksAtMember(tasks, level, top, members[0]);
  }

  lemma BlocksKnown(tasks: seq<Task>, blocks: seq<Block>, level: map<string, nat>)
    requires BlocksOf(tasks, blocks) && level.Keys == Elements(TaskIds(tasks))
    ensures forall b :: b in blocks ==> b.taskIds != [] && forall t :: t in b.taskIds ==> t in level
  {
    forall b | b in blocks ensures b.taskIds != [] && forall t :: t in b.taskIds ==> t in level {
      var k :| 0 <= k < |blocks| && blocks[k] == b;
      forall t | t in b.taskIds ensures t in level {
        BlockMember(tasks, blocks, k, t);
        var i :| 0 <= i < |tasks| && tasks[i].taskId == t && RunIndex(BlockKeys(tasks), i) == k;
        assert TaskIds(tasks)[i] == t;
      }
    }
  }

  // Levels, block levels and critical path of an accepted graph.
  method Analyse(tasks: seq<Task>, blocks: seq<Block>, preds: Adjacency, ghost pairs: Pairs)
    returns (level: map<string, nat>, levelRows: seq<LevelRow>, maxParallelism: nat,
             blockRows: seq<BlockLevelRow>, path: seq<string>)
    requires HardGraphOf(tasks, pairs, preds) && tasks != [] && BlocksOf(tasks, blocks)
    ensures level.Keys == Elements(TaskIds(tasks)) && IsLeveling(pairs, level)
    ensures RowsOf(tasks, level, levelRows) && Widest(levelRows, maxParallelism)
    ensures BlockRows(tasks, blocks, level, blockRows)
    ensures IsCriticalPath(pairs, preds, level, Numbers(tasks), path) && |levelRows| == |path|
  {
    level, levelRows, maxParallelism := BuildLevels(tasks, preds, pairs);
    path := BuildCriticalPath(tasks, preds, level, pairs);
    LevelCountIsPathLength(tasks, pairs, preds, level, Numbers(tasks), levelRows, path);
    BlocksKnown(tasks, blocks, level);
    blockRows := BuildBlockLevels(blocks, level);
  }

  lemma ListedPairs(tasks: seq<Task>, listed: seq<EdgeId>, edges: set<EdgeId>)
    requires NoDup(TaskIds(tasks)) && Presents(listed, edges, Lookup(tasks))
    ensures ListsPairs(tasks, listed, set id | id in edges :: (id.source, id.target))
  {
    assert forall id :: id in listed <==> id in edges by {
      forall id ensures id in listed <==> id in edges {
        assert id in listed <==> id in Elements(listed);
      }
    }
  }

  // The whole build succeeds exactly when every rule edge runs forward in the checklist. The
  // acyclicity check inside it never fires.
  method BuildExecutionDag(tasks: seq<Task>, rules: seq<Rule>) returns (result: BuildResult, ghost blocks: seq<Block>)
    requires Parsed(tasks) && tasks != []
    ensures result.Built? <==> RulesForward(tasks, rules)
    ensures result.EdgeRejected? ==> RejectsFirstBackward(tasks, rules, result.error)
    ensures !result.CycleReported?
    ensures result.Built? ==> FaithfulDag(tasks, blocks, HardPairs(tasks, rules), result.dag)
    ensures result.Built? ==> Elements(result.dag.hardEdges) == ProtocolIds(tasks) + RuleIds(rules)
    ensures result.Built? ==> Elements(result.dag.softEdges) == SoftIds(tasks, HardPairs(tasks, rules))
  {
    var built := BuildBlocks(tasks);
    blocks := built;
    var outcome, store, hardEdges := BuildHardEdges(tasks, built, rules);
    AdmissibleRulesForward(tasks, rules);
    if outcome.Raised? {
      FirstRejectedMeans(tasks, rules, outcome.error);
      return EdgeRejected(outcome.error), blocks;
    }
    ghost var pairs := HardPairs(tasks, rules);
    var hardPairs := set id | id in store.edges :: (id.source, id.target);
    assert hardPairs == store.EndPoints() == pairs;
    ForwardPairsWithin(tasks, pairs);
    var succs, preds := BuildUniqueHardGraph(tasks, store);
    var soft, softEdges := BuildSoftContextEdges(tasks, hardPairs);
    var softPairs := set id | id in soft.edges :: (id.source, id.target);
    assert softPairs == soft.EndPoints();
    ListedPairs(tasks, hardEdges, store.edges.Keys);
    ListedPairs(tasks, softEdges, soft.edges.Keys);
    ForwardPairsAcyclic(tasks, pairs);
    var verdict := K.AssertAcyclic(TaskIds(tasks), preds, succs, pairs);
    if verdict.Contradiction? {
      return CycleReported, blocks;
    }
    ParsedHardGraph(tasks, pairs, preds, succs);
    var level, levelRows, maxParallelism, blockRows, path := Analyse(tasks, built, preds, pairs);
    result := Built(Dag(hardEdges, softEdges, preds, succs, softPairs, level, levelRows, maxParallelism, blockRows, path));
  }

  // Mirsky duality for the tool's output: the reported level count is the length of a longest
  // chain, is attained by the levels, and no split into unordered rounds does with fewer.
  lemma ReportedScheduleIsOptimal(tasks: seq<Task>, rules: seq<Rule>, blocks: seq<Block>, dag: Dag,
                                  round: map<string, nat>, k: nat)
    requires Parsed(tasks) && tasks != []
    requires FaithfulDag(tasks, blocks, HardPairs(tasks, rules), dag)
    requires dag.level.Keys <= round.Keys && AntichainRounds(HardPairs(tasks, rules), round)
    requires forall t :: t in dag.level ==> round[t] < k
    ensures |dag.levelRows| == |dag.criticalPath| <= k
    ensures AntichainRounds(HardPairs(tasks, rules), dag.level)
    ensures forall t :: t in dag.level ==> dag.level[t] < |dag.levelRows|
  {
    var pairs := HardPairs(tasks, rules);
    LevelsAreAntichainRounds(pairs, dag.level);
    NoFewerRounds(pairs, dag.level, round, k, Last(dag.criticalPath));
  }

  // Every task of the checklist is at most as high as the last block's top.
  lemma TopBlock(tasks: seq<Task>, pairs: Pairs, level: map<string, nat>, blocks: seq<Block>, rows: seq<BlockLevelRow>, t: string)
    requires LeveledChecklist(tasks, pairs, level) && BlockRows(tasks, blocks, level, rows)
    requires rows != [] && t in level
    ensures level[t] <= rows[|rows| - 1].maxLevel
  {
    var keys, top := BlockKeys(tasks), |rows| - 1;
    assert t in Elements(TaskIds(tasks));
    var i :| 0 <= i < |tasks| && TaskIds(tasks)[i] == t;
    RunsAreSpans(tasks, keys);
    RunIndexMonotone(keys, i, |keys| - 1);
    if RunIndex(keys, i) < top {
      var a, b := RowWitness(tasks, blocks, level, rows, top);
      LaterBlockIsHigher(tasks, pairs, level, i, b);
    } else {
      RowBounds(tasks, blocks, level, rows, top, i);
    }
  }

  // The last block's top is the end of the critical path. With FirstBlockAtLevelZero and
  // BlocksTile: the block rows tile the levels from 0 to the path's last.
  lemma LastBlockTopsPath(tasks: seq<Task>, pairs: Pairs, preds: Adjacency, level: map<string, nat>, blocks: seq<Block>,
                          rows: seq<BlockLevelRow>, path: seq<string>)
    requires LeveledChecklist(tasks, pairs, level) && BlockRows(tasks, blocks, level, rows) && rows != []
    requires IsCriticalPath(pairs, preds, level, Numbers(tasks), path)
    ensures rows[|rows| - 1].maxLevel + 1 == |path|
  {
    var last := Last(path);
    CriticalPathCrossesBlock(tasks, pairs, preds, level, blocks, rows, path, |rows| - 1);
    assert last in level && level[last] == |path| - 1;
    TopBlock(tasks, pairs, level, blocks, rows, last);
  }
}
