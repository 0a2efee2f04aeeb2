// Two small checklists that both parsers accept and on which the tools go wrong.
module ExampleChecklists {
  import opened Sequences
  import opened Checklist
  import opened EdgeIds
  import opened HardEdges
  import opened HardGraph
  import opened Snapshots
  import opened ClaimProtocol
  import opened ClaimTheorems
  import opened NodeRows
  import D = DagBuilder

  const WAVE := "phase_00_parallel_wave_01"

  function WaveTask(id: string, number: int, position: nat): Task {
    Task(id, number, Unclaimed, position, "00", Parallel, Some(WAVE), Some("core"), WAVE)
  }

  function GateTask(id: string, number: int, position: nat): Task {
    Task(id, number, Unclaimed, position, "00", Sequential, None, None, id)
  }

  lemma DistinctExampleIds()
    ensures "pc_1" != "pc_2" && "pc_1" != "pc_3" && "pc_2" != "pc_3" && "pc_2" != WAVE
  {
    assert "pc_1"[3] == '1' && "pc_2"[3] == '2' && "pc_3"[3] == '3';
    assert |WAVE| > 4;
  }

  // ---- A wave that a sequential task interrupts ----

  function InterruptedWave(): seq<Task> {
    [WaveTask("pc_1", 1, 0), GateTask("pc_2", 2, 1), WaveTask("pc_3", 3, 2)]
  }

  lemma InterruptedWaveParsed()
    ensures Parsed(InterruptedWave())
  {
    DistinctExampleIds();
    assert TaskIds(InterruptedWave()) == ["pc_1", "pc_2", "pc_3"];
  }

  // Before any work only the first task may be claimed, yet the DAG builder also offers the third,
  // beyond the sequential task in between.
  lemma InterruptedWaveSplitsTools(agents: set<string>)
    requires agents != {}
    ensures var tasks := InterruptedWave();
            && Parsed(tasks) && Reachable(tasks, agents, Initial(3))
            && "pc_3" !in ProtocolSnapshot(tasks).claimable
            && "pc_3" in EligibilitySnapshot(tasks).claimableUnclaimed
            && !AgreeEverywhere(tasks, agents)
  {
    var tasks := InterruptedWave();
    InterruptedWaveParsed();
    WorkedReachable(tasks, agents, 0);
    assert Worked(3, 0).status == Initial(3).status;
    assert Board(tasks, Worked(3, 0).status) == tasks;
    InterruptedAtOne(tasks);
    BrokenBlockDisagrees(tasks, 0, 1, 2);
  }

  lemma InterruptedAtOne(tasks: seq<Task>)
    requires tasks == InterruptedWave()
    ensures tasks[0].blockId == tasks[2].blockId && tasks[1].blockId != tasks[0].blockId && tasks[2].taskId == "pc_3"
  {
    DistinctExampleIds();
  }

  // ---- A rule inside a wave ----

  function TwoTaskWave(): seq<Task> {
    [WaveTask("pc_1", 1, 0), WaveTask("pc_2", 2, 1)]
  }

  function RuleInsideWave(): seq<Rule> {
    [Rule("shared_artifact", "pc_1", ["pc_2"], ArtifactHard, "the second task reads what the first one writes")]
  }

  lemma TwoTaskWaveParsed()
    ensures Parsed(TwoTaskWave()) && Contiguous(TwoTaskWave())
  {
    DistinctExampleIds();
    assert TaskIds(TwoTaskWave()) == ["pc_1", "pc_2"];
  }

  lemma RuleIsForward()
    requires NoDup(TaskIds(TwoTaskWave()))
    ensures RulesAdmissible(Lookup(TwoTaskWave()), RuleInsideWave())
  {
    var tasks := TwoTaskWave();
    assert tasks[0].taskId == "pc_1" && tasks[1].taskId == "pc_2";
  }

  lemma RuleJoinsOneBlock()
    ensures InBlockEdge(TwoTaskWave(), RulePairs(RuleInsideWave()), 0, 1)
    ensures D.HardPairs(TwoTaskWave(), RuleInsideWave()) == {("pc_1", "pc_2")}
  {
    DistinctExampleIds();
    var tasks, rule := TwoTaskWave(), RuleInsideWave()[0];
    assert forall e :: e in RulePairs([rule]) <==> e == ("pc_1", "pc_2") by {
      forall e ensures e in RulePairs([rule]) <==> e == ("pc_1", "pc_2") {
        RulePairsOne(rule, e);
      }
    }
    UniformStretch(tasks, 0, 1);
    forall i, j | 0 <= i < 2 && 0 <= j < 2 ensures !NextBlock(tasks, i, j) {
      assert RunIndex(BlockKeys(tasks), 0) == RunIndex(BlockKeys(tasks), 1);
    }
    assert ProtocolPairs(tasks) == {};
  }

  lemma WaveGraphLists(preds: Adjacency, succs: Adjacency)
    requires preds == map["pc_1" := [], "pc_2" := ["pc_1"]] && succs == map["pc_1" := ["pc_2"], "pc_2" := []]
    ensures GraphLists(TaskIds(TwoTaskWave()), {("pc_1", "pc_2")}, preds, succs)
  {
    DistinctExampleIds();
    var ids := TaskIds(TwoTaskWave());
    assert ids == ["pc_1", "pc_2"];
    assert "pc_1" in ids && "pc_2" in ids;
  }

  // The build accepts the rule; some run then claims the second task first, while the report shows
  // it as claimable beside its unsatisfied predecessor.
  lemma RuleInsideWaveIsIgnored(agents: set<string>) returns (preds: Adjacency, succs: Adjacency)
    requires agents != {}
    ensures var tasks, rules := TwoTaskWave(), RuleInsideWave();
            && Parsed(tasks) && Contiguous(tasks) && RulesAdmissible(Lookup(tasks), rules)
            && GraphLists(TaskIds(tasks), D.HardPairs(tasks, rules), preds, succs)
            && !HardOrderRespectedEverywhere(tasks, D.HardPairs(tasks, rules), agents)
            && !LabelsMatchEverywhere(tasks, preds, agents)
  {
    var tasks, rules := TwoTaskWave(), RuleInsideWave();
    preds, succs := map["pc_1" := [], "pc_2" := ["pc_1"]], map["pc_1" := ["pc_2"], "pc_2" := []];
    TwoTaskWaveParsed();
    RuleIsForward();
    RuleJoinsOneBlock();
    WaveGraphLists(preds, succs);
    assert SomeInBlockEdge(tasks, RulePairs(rules));
    BuiltOrderRespectedIff(tasks, rules, agents);
    BuiltLabelsMatchIff(tasks, rules, preds, succs, agents);
  }
}
