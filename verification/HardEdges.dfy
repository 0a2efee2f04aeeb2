// Edge construction: protocol edges between neighbouring blocks, rule edges, same-track soft
// edges, and the deduplicated predecessor and successor lists.
module HardEdges {
  import opened Sequences
  import opened Digraph
  import opened Checklist
  import opened Blocks
  import opened EdgeIds

  type Pairs = set<(string, string)>

  // One entry of the rule table.
  datatype Rule = Rule(
    ruleId: string,
    source: string,
    targets: seq<string>,
    edgeClass: EdgeClass,
    rationale: string)

  datatype EdgeError = UnknownTask(taskId: string) | NonForward(source: string, target: string)

  datatype Outcome = Done | Raised(error: EdgeError)

  function Lookup(tasks: seq<Task>): (lookup: map<string, Task>)
    requires NoDup(TaskIds(tasks))
    ensures forall id :: id in lookup <==> id in TaskIds(tasks)
    ensures forall i :: 0 <= i < |tasks| ==> tasks[i].taskId in lookup && lookup[tasks[i].taskId] == tasks[i]
  {
    var ids := TaskIds(tasks);
    assert forall i :: 0 <= i < |tasks| ==> ids[i] == tasks[i].taskId && IndexOf(ids, ids[i]) == i;
    map id | id in ids :: tasks[IndexOf(ids, id)]
  }

  // The only edges that may enter a store: self-edges, which are dropped, and forward ones.
  predicate Admissible(lookup: map<string, Task>, source: string, target: string) {
    || source == target
    || (source in lookup && target in lookup && lookup[source].orderIndex < lookup[target].orderIndex)
  }

  // How an inadmissible edge is rejected.
  function RejectionOf(lookup: map<string, Task>, source: string, target: string): EdgeError {
    if source !in lookup then UnknownTask(source)
    else if target !in lookup then UnknownTask(target)
    else NonForward(source, target)
  }

  // Every pair runs forward in the checklist.
  ghost predicate ForwardPairs(tasks: seq<Task>, pairs: Pairs)
    requires NoDup(TaskIds(tasks))
  {
    forall e :: e in pairs ==> e.0 != e.1 && Admissible(Lookup(tasks), e.0, e.1)
  }

  ghost function Ends(ids: set<EdgeId>): Pairs {
    set id | id in ids :: (id.source, id.target)
  }

  lemma EndsOfUnion(a: set<EdgeId>, b: set<EdgeId>)
    ensures Ends(a + b) == Ends(a) + Ends(b)
  {
    forall e ensures e in Ends(a + b) <==> e in Ends(a) + Ends(b) {
      if e in Ends(a) {
        var id :| id in a && e == (id.source, id.target);
        assert id in a + b;
      }
      if e in Ends(b) {
        var id :| id in b && e == (id.source, id.target);
        assert id in a + b;
      }
    }
  }

  class EdgeStore {
    var edges: map<EdgeId, Edge>

    // The endpoints of the stored edges.
    ghost function EndPoints(): Pairs
      reads this
    {
      Ends(edges.Keys)
    }

    constructor ()
      ensures edges == map[] && EndPoints() == {}
    {
      edges := map[];
    }

    method AddEdge(source: string, target: string, edgeClass: EdgeClass, ruleId: string, rationale: string,
                   lookup: map<string, Task>)
      returns (outcome: Outcome)
      modifies this
      ensures outcome.Done? <==> Admissible(lookup, source, target)
      ensures outcome.Done? && source != target ==>
                var id := EdgeId(source, target, edgeClass, ruleId); edges == old(edges)[id := Edge(id, rationale)]
      ensures outcome.Done? && source != target ==>
                edges.Keys == old(edges.Keys) + {EdgeId(source, target, edgeClass, ruleId)}
      ensures outcome.Raised? || source == target ==> edges == old(edges)
      ensures outcome.Raised? ==> outcome.error == RejectionOf(lookup, source, target)
    {
      if source == target {
        return Done;
      }
      if source !in lookup {
        return Raised(UnknownTask(source));
      }
      if target !in lookup {
        return Raised(UnknownTask(target));
      }
      if lookup[source].orderIndex >= lookup[target].orderIndex {
        return Raised(NonForward(source, target));
      }
      var id := EdgeId(source, target, edgeClass, ruleId);
      edges := edges[id := Edge(id, rationale)];
      outcome := Done;
    }
  }

  // ---- Protocol edges ----

  ghost predicate BlocksOf(tasks: seq<Task>, blocks: seq<Block>) {
    && |blocks| == |BlockGroups(tasks)|
    && forall k :: 0 <= k < |blocks| ==> blocks[k] == BlockOf(BlockGroups(tasks)[k])
  }

  // Position i stands in the block just before position j's.
  ghost predicate NextBlock(tasks: seq<Task>, i: nat, j: nat) {
    i < |tasks| && j < |tasks| && RunIndex(BlockKeys(tasks), j) == RunIndex(BlockKeys(tasks), i) + 1
  }

  // Complete bipartite edges between neighbouring blocks, read off the checklist alone.
  ghost function ProtocolPairs(tasks: seq<Task>): Pairs {
    set i, j | 0 <= i < |tasks| && 0 <= j < |tasks| && NextBlock(tasks, i, j) :: (tasks[i].taskId, tasks[j].taskId)
  }

  function BoundaryRule(previous: string, next: string): string {
    "protocol_boundary__" + previous + "__" + next
  }

  // The ids of those edges: class and rule id name the boundary between the two blocks.
  ghost function ProtocolIds(tasks: seq<Task>): set<EdgeId> {
    set i, j | 0 <= i < |tasks| && 0 <= j < |tasks| && NextBlock(tasks, i, j) ::
      EdgeId(tasks[i].taskId, tasks[j].taskId, ProtocolHard, "protocol_boundary__" + tasks[i].blockId + "__" + tasks[j].blockId)
  }

  lemma ProtocolEnds(tasks: seq<Task>)
    ensures Ends(ProtocolIds(tasks)) == ProtocolPairs(tasks)
  {
    forall e ensures e in Ends(ProtocolIds(tasks)) <==> e in ProtocolPairs(tasks) {
      if e in ProtocolPairs(tasks) {
        var i, j :| 0 <= i < |tasks| && 0 <= j < |tasks| && NextBlock(tasks, i, j) && e == (tasks[i].taskId, tasks[j].taskId);
        assert EdgeId(tasks[i].taskId, tasks[j].taskId, ProtocolHard, BoundaryRule(tasks[i].blockId, tasks[j].blockId)) in ProtocolIds(tasks);
      }
    }
  }

  lemma BlockMember(tasks: seq<Task>, blocks: seq<Block>, k: nat, id: string)
    requires BlocksOf(tasks, blocks) && k < |blocks|
    ensures id in blocks[k].taskIds <==>
            exists i :: 0 <= i < |tasks| && tasks[i].taskId == id && RunIndex(BlockKeys(tasks), i) == k
  {
    var keys, group := BlockKeys(tasks), BlockGroups(tasks)[k];
    assert blocks[k].taskIds == TaskIds(group);
    if id in blocks[k].taskIds {
      var a :| 0 <= a < |group| && TaskIds(group)[a] == id;
      var i := MemberPosition(tasks, keys, k, a);
    }
    if i :| 0 <= i < |tasks| && tasks[i].taskId == id && RunIndex(keys, i) == k {
      var a := PositionMember(tasks, keys, i);
      assert TaskIds(group)[a] == id;
    }
  }

  // A block carries the block id of each of its positions.
  lemma BlockIdOf(tasks: seq<Task>, blocks: seq<Block>, i: nat)
    requires BlocksOf(tasks, blocks) && i < |tasks|
    ensures var k := RunIndex(BlockKeys(tasks), i);
            k < |blocks| && blocks[k].blockId == tasks[i].blockId && tasks[i].taskId in blocks[k].taskIds
  {
    var keys, k := BlockKeys(tasks), RunIndex(BlockKeys(tasks), i);
    var a := PositionMember(tasks, keys, i);
    var group := BlockGroups(tasks)[k];
    assert TaskIds(group)[a] == tasks[i].taskId;
    var j := MemberPosition(tasks, keys, k, 0);
    if i <= j {
      RunIsUniform(keys, i, j);
    } else {
      RunIsUniform(keys, j, i);
    }
    assert keys[i] == tasks[i].blockId && keys[j] == tasks[j].blockId;
  }

  // A pair taken from neighbouring blocks is forward, and is a protocol edge.
  lemma NeighbouringBlocks(tasks: seq<Task>, blocks: seq<Block>, k: nat, source: string, target: string)
    requires Parsed(tasks) && BlocksOf(tasks, blocks) && k + 1 < |blocks|
    requires source in blocks[k].taskIds && target in blocks[k + 1].taskIds
    ensures source != target && Admissible(Lookup(tasks), source, target)
    ensures EdgeId(source, target, ProtocolHard, BoundaryRule(blocks[k].blockId, blocks[k + 1].blockId)) in ProtocolIds(tasks)
  {
    BlockMember(tasks, blocks, k, source);
    BlockMember(tasks, blocks, k + 1, target);
    var keys := BlockKeys(tasks);
    var i :| 0 <= i < |tasks| && tasks[i].taskId == source && RunIndex(keys, i) == k;
    var j :| 0 <= j < |tasks| && tasks[j].taskId == target && RunIndex(keys, j) == k + 1;
    if j <= i {
      RunIndexMonotone(keys, j, i);
    }
    BlockIdOf(tasks, blocks, i);
    BlockIdOf(tasks, blocks, j);
    assert NextBlock(tasks, i, j);
    assert TaskIds(tasks)[i] == source && TaskIds(tasks)[j] == target;
  }

  ghost predicate AllForward(lookup: map<string, Task>, sources: seq<string>, targets: seq<string>) {
    forall s, t :: s in sources && t in targets ==> s != t && Admissible(lookup, s, t)
  }

  lemma NeighboursForward(tasks: seq<Task>, blocks: seq<Block>, k: nat)
    requires Parsed(tasks) && BlocksOf(tasks, blocks) && k + 1 < |blocks|
    ensures AllForward(Lookup(tasks), blocks[k].taskIds, blocks[k + 1].taskIds)
  {
    var sources, targets, lookup := blocks[k].taskIds, blocks[k + 1].taskIds, Lookup(tasks);
    forall s, t | s in sources && t in targets ensures s != t && Admissible(lookup, s, t) {
      NeighbouringBlocks(tasks, blocks, k, s, t);
    }
  }

  // The edges contributed by the first n neighbouring block pairs.
  ghost function IdsUpTo(blocks: seq<Block>, n: nat): set<EdgeId>
    requires n == 0 || n < |blocks|
  {
    if n == 0 then {} else IdsUpTo(blocks, n - 1) + BoundaryIds(blocks[n - 1], blocks[n])
  }

  ghost function BoundaryIds(previous: Block, next: Block): set<EdgeId> {
    CrossIds(previous.taskIds, next.taskIds, BoundaryRule(previous.blockId, next.blockId))
  }

  ghost function CrossIds(sources: seq<string>, targets: seq<string>, ruleId: string): set<EdgeId> {
    set s, t | s in sources && t in targets :: EdgeId(s, t, ProtocolHard, ruleId)
  }

  lemma {:induction false} IdsUpToMember(blocks: seq<Block>, n: nat, id: EdgeId)
    requires n == 0 || n < |blocks|
    ensures id in IdsUpTo(blocks, n) <==> exists k :: 0 <= k < n && id in BoundaryIds(blocks[k], blocks[k + 1])
  {
    if n > 0 {
      IdsUpToMember(blocks, n - 1, id);
      assert id in BoundaryIds(blocks[n - 1], blocks[n]) <==> id in BoundaryIds(blocks[n - 1], blocks[n - 1 + 1]);
    }
  }

  lemma ProtocolIdInBlocks(tasks: seq<Task>, blocks: seq<Block>, id: EdgeId) returns (k: nat)
    requires BlocksOf(tasks, blocks) && id in ProtocolIds(tasks)
    ensures k + 1 < |blocks| && id in BoundaryIds(blocks[k], blocks[k + 1])
  {
    var i, j :| 0 <= i < |tasks| && 0 <= j < |tasks| && NextBlock(tasks, i, j) &&
                id == EdgeId(tasks[i].taskId, tasks[j].taskId, ProtocolHard, BoundaryRule(tasks[i].blockId, tasks[j].blockId));
    k := RunIndex(BlockKeys(tasks), i);
    BlockIdOf(tasks, blocks, i);
    BlockIdOf(tasks, blocks, j);
  }

  lemma BoundaryIdIsProtocolId(tasks: seq<Task>, blocks: seq<Block>, k: nat, id: EdgeId)
    requires Parsed(tasks) && BlocksOf(tasks, blocks) && k + 1 < |blocks| && id in BoundaryIds(blocks[k], blocks[k + 1])
    ensures id in ProtocolIds(tasks)
  {
    NeighbouringBlocks(tasks, blocks, k, id.source, id.target);
  }

  lemma IdUpToIffProtocolId(tasks: seq<Task>, blocks: seq<Block>, id: EdgeId)
    requires Parsed(tasks) && BlocksOf(tasks, blocks) && blocks != []
    ensures id in IdsUpTo(blocks, |blocks| - 1) <==> id in ProtocolIds(tasks)
  {
    IdsUpToMember(blocks, |blocks| - 1, id);
    if k :| 0 <= k < |blocks| - 1 && id in BoundaryIds(blocks[k], blocks[k + 1]) {
      BoundaryIdIsProtocolId(tasks, blocks, k, id);
    }
    if id in ProtocolIds(tasks) {
      var k := ProtocolIdInBlocks(tasks, blocks, id);
    }
  }

  lemma IdsUpToAreProtocolIds(tasks: seq<Task>, blocks: seq<Block>)
    requires Parsed(tasks) && BlocksOf(tasks, blocks)
    ensures blocks == [] ==> ProtocolIds(tasks) == {}
    ensures blocks != [] ==> IdsUpTo(blocks, |blocks| - 1) == ProtocolIds(tasks)
  {
    if blocks != [] {
      forall id ensures id in IdsUpTo(blocks, |blocks| - 1) <==> id in ProtocolIds(tasks) {
        IdUpToIffProtocolId(tasks, blocks, id);
      }
    } else {
      assert tasks == [];
    }
  }

  // The two inner loops: all edges from one block to the next.
  method AddBlockEdges(store: EdgeStore, sources: seq<string>, targets: seq<string>, ruleId: string,
                       lookup: map<string, Task>)
    requires AllForward(lookup, sources, targets)
    modifies store
    ensures store.edges.Keys == old(store.edges.Keys) + CrossIds(sources, targets, ruleId)
  {
    for a := 0 to |sources|
      invariant store.edges.Keys == old(store.edges.Keys) + CrossIds(sources[..a], targets, ruleId)
    {
      ghost var before := store.edges.Keys;
      for b := 0 to |targets|
        invariant store.edges.Keys == before + CrossIds([sources[a]], targets[..b], ruleId)
      {
        assert sources[a] in sources && targets[b] in targets;
        var added := store.AddEdge(sources[a], targets[b], ProtocolHard, ruleId,
                                   "blocked until the previous block is complete", lookup);
        CrossNextTarget(sources[a], targets, b, ruleId);
      }
      assert targets[..|targets|] == targets;
      CrossNextSource(sources, a, targets, ruleId);
    }
    assert sources[..|sources|] == sources;
  }

  lemma CrossNextTarget(source: string, targets: seq<string>, b: nat, ruleId: string)
    requires b < |targets|
    ensures CrossIds([source], targets[..b + 1], ruleId) ==
            CrossIds([source], targets[..b], ruleId) + {EdgeId(source, targets[b], ProtocolHard, ruleId)}
  {
    assert targets[..b + 1] == targets[..b] + [targets[b]];
  }

  lemma CrossNextSource(sources: seq<string>, a: nat, targets: seq<string>, ruleId: string)
    requires a < |sources|
    ensures CrossIds(sources[..a + 1], targets, ruleId) == CrossIds(sources[..a], targets, ruleId) + CrossIds([sources[a]], targets, ruleId)
  {
    assert sources[..a + 1] == sources[..a] + [sources[a]];
  }

  // The outer loop, over neighbouring blocks.
  method ConnectBlocks(store: EdgeStore, blocks: seq<Block>, lookup: map<string, Task>)
    requires forall k :: 0 <= k < |blocks| - 1 ==> AllForward(lookup, blocks[k].taskIds, blocks[k + 1].taskIds)
    modifies store
    ensures store.edges.Keys == old(store.edges.Keys) + if blocks == [] then {} else IdsUpTo(blocks, |blocks| - 1)
  {
    var n := 0;
    while n + 1 < |blocks|
      invariant n == 0 || n < |blocks|
      invariant store.edges.Keys == old(store.edges.Keys) + IdsUpTo(blocks, n)
    {
      var previous, next := blocks[n], blocks[n + 1];
      AddBlockEdges(store, previous.taskIds, next.taskIds, BoundaryRule(previous.blockId, next.blockId), lookup);
      n := n + 1;
    }
  }

  method BuildProtocolEdges(tasks: seq<Task>, blocks: seq<Block>) returns (store: EdgeStore)
    requires Parsed(tasks) && BlocksOf(tasks, blocks)
    ensures fresh(store)
    ensures store.edges.Keys == ProtocolIds(tasks) && store.EndPoints() == ProtocolPairs(tasks)
  {
    var lookup := Lookup(tasks);
    store := new EdgeStore();
    forall k | 0 <= k < |blocks| - 1 ensures AllForward(lookup, blocks[k].taskIds, blocks[k + 1].taskIds) {
      NeighboursForward(tasks, blocks, k);
    }
    IdsUpToAreProtocolIds(tasks, blocks);
    ProtocolEnds(tasks);
    ConnectBlocks(store, blocks, lookup);
  }

  // ---- Rule edges ----

  ghost function RulePairs(rules: seq<Rule>): Pairs {
    set r, t | r in rules && t in r.targets && r.source != t :: (r.source, t)
  }

  ghost predicate RulesAdmissible(lookup: map<string, Task>, rules: seq<Rule>) {
    forall r, t :: r in rules && t in r.targets ==> Admissible(lookup, r.source, t)
  }

  // The ids of the rule edges.
  ghost function RuleIds(rules: seq<Rule>): set<EdgeId> {
    set r, t | r in rules && t in r.targets && r.source != t :: EdgeId(r.source, t, r.edgeClass, r.ruleId)
  }

  lemma RuleEnds(rules: seq<Rule>)
    ensures Ends(RuleIds(rules)) == RulePairs(rules)
  {
    forall e ensures e in Ends(RuleIds(rules)) <==> e in RulePairs(rules) {
      if e in RulePairs(rules) {
        var r, t :| r in rules && t in r.targets && r.source != t && e == (r.source, t);
        assert EdgeId(r.source, t, r.edgeClass, r.ruleId) in RuleIds(rules);
      }
    }
  }

  // The edges one rule contributes for a list of its targets.
  ghost function TargetIds(rule: Rule, targets: seq<string>): set<EdgeId> {
    set t | t in targets && t != rule.source :: EdgeId(rule.source, t, rule.edgeClass, rule.ruleId)
  }

  lemma RuleIdsAreTargetIds(rule: Rule, targets: seq<string>)
    requires Elements(targets) == Elements(rule.targets)
    ensures RuleIds([rule]) == TargetIds(rule, targets)
  {
    assert rule in [rule];
    forall t ensures t in targets <==> t in rule.targets {
      assert t in targets <==> t in Elements(rule.targets);
    }
  }

  // The k-th target is the first inadmissible one.
  ghost predicate FirstRejected(lookup: map<string, Task>, source: string, targets: seq<string>, k: nat) {
    && k < |targets| && !Admissible(lookup, source, targets[k])
    && forall m :: 0 <= m < k ==> Admissible(lookup, source, targets[m])
  }

  ghost predicate RejectsFirst(lookup: map<string, Task>, source: string, targets: seq<string>, error: EdgeError) {
    exists k: nat :: FirstRejected(lookup, source, targets, k) && error == RejectionOf(lookup, source, targets[k])
  }

  method AddTargets(store: EdgeStore, rule: Rule, targets: seq<string>, lookup: map<string, Task>) returns (outcome: Outcome)
    modifies store
    ensures outcome.Done? <==> forall t :: t in targets ==> Admissible(lookup, rule.source, t)
    ensures outcome.Done? ==> store.edges.Keys == old(store.edges.Keys) + TargetIds(rule, targets)
    ensures outcome.Raised? ==> RejectsFirst(lookup, rule.source, targets, outcome.error)
  {
    for i := 0 to |targets|
      invariant forall m :: 0 <= m < i ==> Admissible(lookup, rule.source, targets[m])
      invariant store.edges.Keys == old(store.edges.Keys) + TargetIds(rule, targets[..i])
    {
      outcome := store.AddEdge(rule.source, targets[i], rule.edgeClass, rule.ruleId, rule.rationale, lookup);
      if outcome.Raised? {
        assert targets[i] in targets && FirstRejected(lookup, rule.source, targets, i);
        return;
      }
      NextTarget(rule, targets, i);
    }
    assert targets[..|targets|] == targets;
    outcome := Done;
  }

  lemma NextTarget(rule: Rule, targets: seq<string>, i: nat)
    requires i < |targets|
    ensures TargetIds(rule, targets[..i + 1]) ==
            TargetIds(rule, targets[..i])
            + if rule.source == targets[i] then {} else {EdgeId(rule.source, targets[i], rule.edgeClass, rule.ruleId)}
  {
    assert targets[..i + 1] == targets[..i] + [targets[i]];
  }

  // Dropping repeated targets does not change which one is rejected first.
  lemma FirstOfUnique(lookup: map<string, Task>, source: string, targets: seq<string>, error: EdgeError)
    requires RejectsFirst(lookup, source, FirstOccurrences(targets), error)
    ensures RejectsFirst(lookup, source, targets, error)
  {
    var unique := FirstOccurrences(targets);
    var k: nat :| FirstRejected(lookup, source, unique, k) && error == RejectionOf(lookup, source, unique[k]);
    FirstOccurrencesMembers(targets);
    assert unique[k] in Elements(unique);
    var first := IndexOf(targets, unique[k]);
    forall m | 0 <= m < first ensures Admissible(lookup, source, targets[m]) {
      assert targets[m] in Elements(targets);
      var a :| 0 <= a < |unique| && unique[a] == targets[m];
      if a > k {
        FirstOccurrencesOrder(targets, k, a);
      }
    }
    assert FirstRejected(lookup, source, targets, first);
  }

  method AddRuleEdges(store: EdgeStore, rule: Rule, lookup: map<string, Task>) returns (outcome: Outcome)
    modifies store
    ensures outcome.Done? <==> RulesAdmissible(lookup, [rule])
    ensures outcome.Done? ==> store.edges.Keys == old(store.edges.Keys) + RuleIds([rule])
    ensures outcome.Raised? ==> RejectsFirst(lookup, rule.source, rule.targets, outcome.error)
  {
    var targets := OrderedUnique(rule.targets);
    FirstOccurrencesMembers(rule.targets);
    RuleIdsAreTargetIds(rule, targets);
    assert forall t :: t in targets <==> t in Elements(rule.targets);
    assert rule in [rule];
    outcome := AddTargets(store, rule, targets, lookup);
    if outcome.Raised? {
      FirstOfUnique(lookup, rule.source, rule.targets, outcome.error);
    }
  }

  lemma RulePairsOne(rule: Rule, e: (string, string))
    ensures e in RulePairs([rule]) <==> e.0 == rule.source && e.1 in rule.targets && e.0 != e.1
  {
    if e.0 == rule.source && e.1 in rule.targets && e.0 != e.1 {
      assert rule in [rule];
      assert e == (rule.source, e.1);
    }
  }

  // Every rule's targets stand behind its source in the checklist, but for the source itself.
  ghost predicate RulesForward(tasks: seq<Task>, rules: seq<Rule>) {
    forall r, t :: r in rules && t in r.targets ==> r.source == t || RunsForward(tasks, r.source, t)
  }

  ghost predicate RunsForward(tasks: seq<Task>, source: string, target: string) {
    exists i, j :: 0 <= i < j < |tasks| && tasks[i].taskId == source && tasks[j].taskId == target
  }

  lemma AdmissibleMeans(tasks: seq<Task>, source: string, target: string)
    requires Parsed(tasks)
    ensures Admissible(Lookup(tasks), source, target) <==> source == target || RunsForward(tasks, source, target)
  {
    if Admissible(Lookup(tasks), source, target) && source != target {
      var i, j := PlaceOf(tasks, source), PlaceOf(tasks, target);
      assert tasks[i].taskId == source && tasks[j].taskId == target;
    }
    if RunsForward(tasks, source, target) {
      var i, j :| 0 <= i < j < |tasks| && tasks[i].taskId == source && tasks[j].taskId == target;
      ForwardAdmissible(tasks, i, j);
    }
  }

  ghost function PlaceOf(tasks: seq<Task>, id: string): (i: nat)
    requires Parsed(tasks) && id in Lookup(tasks)
    ensures i < |tasks| && tasks[i].taskId == id && Lookup(tasks)[id].orderIndex == tasks[i].orderIndex
  {
    var i :| 0 <= i < |tasks| && TaskIds(tasks)[i] == id;
    assert Lookup(tasks)[tasks[i].taskId] == tasks[i];
    i
  }

  lemma ForwardAdmissible(tasks: seq<Task>, i: nat, j: nat)
    requires Parsed(tasks) && i < j < |tasks|
    ensures Admissible(Lookup(tasks), tasks[i].taskId, tasks[j].taskId)
  {
    assert Lookup(tasks)[tasks[i].taskId] == tasks[i] && Lookup(tasks)[tasks[j].taskId] == tasks[j];
  }

  lemma AdmissibleRulesForward(tasks: seq<Task>, rules: seq<Rule>)
    requires Parsed(tasks)
    ensures RulesAdmissible(Lookup(tasks), rules) <==> RulesForward(tasks, rules)
  {
    forall r, t | r in rules && t in r.targets
      ensures Admissible(Lookup(tasks), r.source, t) <==> r.source == t || RunsForward(tasks, r.source, t)
    {
      AdmissibleMeans(tasks, r.source, t);
    }
  }

  // The error names the edge: its source when that is no task, else its target when that is none,
  // else both, which then do not run forward.
  ghost predicate RejectionNames(tasks: seq<Task>, source: string, target: string, error: EdgeError) {
    match error
    case UnknownTask(id) =>
      id !in TaskIds(tasks) && (id == source || (id == target && source in TaskIds(tasks)))
    case NonForward(s, t) =>
      s == source && t == target && s in TaskIds(tasks) && t in TaskIds(tasks) && !RunsForward(tasks, s, t)
  }

  // The k-th target of rule i is the first one, rule by rule and target by target, that does not run
  // forward.
  ghost predicate FirstBackward(tasks: seq<Task>, rules: seq<Rule>, i: nat, k: nat) {
    && i < |rules| && RulesForward(tasks, rules[..i]) && k < |rules[i].targets|
    && rules[i].source != rules[i].targets[k] && !RunsForward(tasks, rules[i].source, rules[i].targets[k])
    && forall m :: 0 <= m < k ==> rules[i].source == rules[i].targets[m] || RunsForward(tasks, rules[i].source, rules[i].targets[m])
  }

  ghost predicate RejectsFirstBackward(tasks: seq<Task>, rules: seq<Rule>, error: EdgeError) {
    exists i: nat, k: nat :: FirstBackward(tasks, rules, i, k) && RejectionNames(tasks, rules[i].source, rules[i].targets[k], error)
  }

  lemma RejectionNamed(tasks: seq<Task>, source: string, target: string)
    requires Parsed(tasks) && !Admissible(Lookup(tasks), source, target)
    ensures RejectionNames(tasks, source, target, RejectionOf(Lookup(tasks), source, target))
  {
    AdmissibleMeans(tasks, source, target);
  }

  lemma RejectedIsBackward(tasks: seq<Task>, rules: seq<Rule>, i: nat, k: nat)
    requires Parsed(tasks) && i < |rules| && RulesAdmissible(Lookup(tasks), rules[..i])
    requires FirstRejected(Lookup(tasks), rules[i].source, rules[i].targets, k)
    ensures FirstBackward(tasks, rules, i, k)
  {
    var source, targets := rules[i].source, rules[i].targets;
    AdmissibleRulesForward(tasks, rules[..i]);
    AdmissibleMeans(tasks, source, targets[k]);
    forall m | 0 <= m < k ensures source == targets[m] || RunsForward(tasks, source, targets[m]) {
      AdmissibleMeans(tasks, source, targets[m]);
    }
  }

  lemma FirstRejectedMeans(tasks: seq<Task>, rules: seq<Rule>, error: EdgeError)
    requires Parsed(tasks) && NamesFirstRejected(Lookup(tasks), rules, error)
    ensures RejectsFirstBackward(tasks, rules, error)
  {
    var lookup := Lookup(tasks);
    var i :| 0 <= i < |rules| && RulesAdmissible(lookup, rules[..i]) && RejectsFirst(lookup, rules[i].source, rules[i].targets, error);
    var k: nat :| FirstRejected(lookup, rules[i].source, rules[i].targets, k) &&
                  error == RejectionOf(lookup, rules[i].source, rules[i].targets[k]);
    RejectedIsBackward(tasks, rules, i, k);
    RejectionNamed(tasks, rules[i].source, rules[i].targets[k]);
  }

  // The first inadmissible target of the first rule that has one is what the error names.
  ghost predicate NamesFirstRejected(lookup: map<string, Task>, rules: seq<Rule>, error: EdgeError) {
    exists i :: 0 <= i < |rules| && RulesAdmissible(lookup, rules[..i])
      && RejectsFirst(lookup, rules[i].source, rules[i].targets, error)
  }

  // The loop over the rule table.
  method AddRules(store: EdgeStore, rules: seq<Rule>, lookup: map<string, Task>) returns (outcome: Outcome)
    modifies store
    ensures outcome.Done? <==> RulesAdmissible(lookup, rules)
    ensures outcome.Done? ==> store.edges.Keys == old(store.edges.Keys) + RuleIds(rules)
    ensures outcome.Raised? ==> NamesFirstRejected(lookup, rules, outcome.error)
  {
    for i := 0 to |rules|
      invariant RulesAdmissible(lookup, rules[..i])
      invariant store.edges.Keys == old(store.edges.Keys) + RuleIds(rules[..i])
    {
      outcome := AddRuleEdges(store, rules[i], lookup);
      if outcome.Raised? {
        assert forall r :: r in [rules[i]] ==> r in rules;
        return;
      }
      RuleIdsStep(rules, i);
      assert forall r :: r in rules[..i + 1] ==> r in rules[..i] || r in [rules[i]];
    }
    assert rules[..|rules|] == rules;
    outcome := Done;
  }

  method BuildHardEdges(tasks: seq<Task>, blocks: seq<Block>, rules: seq<Rule>)
    returns (outcome: Outcome, store: EdgeStore, listed: seq<EdgeId>)
    requires Parsed(tasks) && BlocksOf(tasks, blocks)
    ensures fresh(store)
    ensures outcome.Done? <==> RulesAdmissible(Lookup(tasks), rules)
    ensures outcome.Raised? ==> NamesFirstRejected(Lookup(tasks), rules, outcome.error)
    ensures outcome.Done? ==> store.edges.Keys == ProtocolIds(tasks) + RuleIds(rules)
    ensures outcome.Done? ==> store.EndPoints() == ProtocolPairs(tasks) + RulePairs(rules)
    ensures outcome.Done? ==> ForwardPairs(tasks, store.EndPoints())
    ensures outcome.Done? ==> Presents(listed, store.edges.Keys, Lookup(tasks))
  {
    var lookup := Lookup(tasks);
    store := BuildProtocolEdges(tasks, blocks);
    listed := [];
    outcome := AddRules(store, rules, lookup);
    if outcome.Done? {
      EndsOfUnion(ProtocolIds(tasks), RuleIds(rules));
      ProtocolEnds(tasks);
      RuleEnds(rules);
      BuiltPairsAreForward(tasks, rules);
      StoredArePositioned(tasks, store.edges.Keys);
      listed := ListEdges(store.edges.Keys, lookup);
    }
  }

  // Forward edges join tasks of the checklist, whose positions differ.
  lemma StoredArePositioned(tasks: seq<Task>, edges: set<EdgeId>)
    requires Parsed(tasks) && ForwardPairs(tasks, Ends(edges))
    ensures Positioned(Lookup(tasks), edges)
  {
    var lookup, pairs := Lookup(tasks), Ends(edges);
    forall s, t | s in lookup && t in lookup && lookup[s].orderIndex == lookup[t].orderIndex ensures s == t {
      var i :| 0 <= i < |tasks| && TaskIds(tasks)[i] == s;
      var j :| 0 <= j < |tasks| && TaskIds(tasks)[j] == t;
      assert lookup[tasks[i].taskId] == tasks[i] && lookup[tasks[j].taskId] == tasks[j];
    }
    forall id | id in edges ensures id.source in lookup && id.target in lookup {
      assert (id.source, id.target) in pairs;
    }
  }

  lemma RuleIdsStep(rules: seq<Rule>, i: nat)
    requires i < |rules|
    ensures RuleIds(rules[..i + 1]) == RuleIds(rules[..i]) + RuleIds([rules[i]])
  {
    assert rules[..i + 1] == rules[..i] + [rules[i]];
    assert forall r :: r in rules[..i + 1] <==> r in rules[..i] || r in [rules[i]];
  }

  // Protocol pairs and admissible rule pairs all run forward, so position is a topological witness.
  lemma BuiltPairsAreForward(tasks: seq<Task>, rules: seq<Rule>)
    requires Parsed(tasks) && RulesAdmissible(Lookup(tasks), rules)
    ensures ForwardPairs(tasks, ProtocolPairs(tasks) + RulePairs(rules))
  {
    var keys := BlockKeys(tasks);
    forall e | e in ProtocolPairs(tasks) ensures e.0 != e.1 && Admissible(Lookup(tasks), e.0, e.1) {
      var i, j :| 0 <= i < |tasks| && 0 <= j < |tasks| && NextBlock(tasks, i, j) &&
                  e == (tasks[i].taskId, tasks[j].taskId);
      if j <= i {
        RunIndexMonotone(keys, j, i);
      }
      assert TaskIds(tasks)[i] == e.0 && TaskIds(tasks)[j] == e.1;
    }
  }

  lemma ForwardPairsAcyclic(tasks: seq<Task>, pairs: Pairs)
    requires NoDup(TaskIds(tasks)) && ForwardPairs(tasks, pairs)
    ensures Acyclic(pairs)
  {
    var lookup := Lookup(tasks);
    RankedIsAcyclic(pairs, map id | id in lookup :: lookup[id].orderIndex as int);
  }
}
