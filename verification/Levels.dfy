// Topological levels and the critical path, as the DAG builder computes them.
module Levels {
  import opened Sequences
  import opened Digraph
  import opened Checklist
  import opened HardEdges
  import opened HardGraph
  import opened Leveling

  datatype LevelRow = LevelRow(
    level: nat,
    taskIds: seq<string>,
    taskCount: nat,
    blockIds: seq<string>,
    parallelism: nat)

  // What the levels and the critical path are computed from: the checklist, and predecessor
  // lists that hold exactly the pairs of a forward hard graph on its tasks.
  ghost predicate HardGraphOf(tasks: seq<Task>, pairs: Pairs, preds: Adjacency) {
    && NoDup(TaskIds(tasks)) && preds.Keys == Elements(TaskIds(tasks))
    && ListsSources(preds, pairs) && PairsWithin(pairs, TaskIds(tasks)) && ForwardPairs(tasks, pairs)
    && forall i :: 0 <= i < |tasks| ==> tasks[i].orderIndex == i
  }

  lemma PredecessorsEarlier(tasks: seq<Task>, pairs: Pairs, preds: Adjacency, i: nat)
    requires HardGraphOf(tasks, pairs, preds) && i < |tasks|
    ensures tasks[i].taskId in preds
    ensures forall s :: s in preds[tasks[i].taskId] ==> s in TaskIds(tasks)[..i]
    ensures tasks[i].taskId !in TaskIds(tasks)[..i]
  {
    var ids, t := TaskIds(tasks), tasks[i].taskId;
    assert ids[i] == t;
    forall s | s in preds[t] ensures s in ids[..i] {
      assert (s, t) in pairs;
      var j :| 0 <= j < |ids| && ids[j] == s;
      assert Lookup(tasks)[s] == tasks[j] && Lookup(tasks)[t] == tasks[i];
      assert ids[..i][j] == s;
    }
  }

  function MaxNumber(ps: seq<string>, number: map<string, nat>): (m: nat)
    requires ps != [] && forall p :: p in ps ==> p in number
    ensures forall p :: p in ps ==> number[p] <= m
    ensures exists p :: p in ps && number[p] == m
  {
    var init, last := ps[..|ps| - 1], ps[|ps| - 1];
    if init == [] then
      number[last]
    else
      var before := MaxNumber(init, number);
      assert ps == init + [last];
      if number[last] > before then number[last] else before
  }

  // A leveling of the tasks reached so far.
  ghost predicate PartialLeveling(pairs: Pairs, level: map<string, nat>) {
    && (forall e :: e in pairs && e.1 in level ==> e.0 in level && level[e.0] < level[e.1])
    && forall t {:trigger HasTightPredecessor(pairs, level, t)} :: t in level && level[t] > 0 ==> HasTightPredecessor(pairs, level, t)
  }

  lemma LevelStep(pairs: Pairs, preds: Adjacency, level: map<string, nat>, t: string, n: nat)
    requires ListsSources(preds, pairs) && PartialLeveling(pairs, level)
    requires t in preds && t !in level && forall s :: s in preds[t] ==> s in level
    requires preds[t] == [] ==> n == 0
    requires preds[t] != [] ==> n == MaxNumber(preds[t], level) + 1
    requires forall e :: e in pairs && e.0 == t ==> e.1 !in level
    ensures PartialLeveling(pairs, level[t := n])
  {
    var longer := level[t := n];
    forall e | e in pairs && e.1 in longer ensures e.0 in longer && longer[e.0] < longer[e.1] {
      if e.1 == t {
        assert e == (e.0, t);
        assert e.0 in preds[t];
      }
    }
    forall x | x in longer && longer[x] > 0 ensures HasTightPredecessor(pairs, longer, x) {
      if x == t {
        var s :| s in preds[t] && level[s] == MaxNumber(preds[t], level);
        assert (s, t) in pairs;
      } else {
        assert HasTightPredecessor(pairs, level, x);
        var s :| s in level && (s, x) in pairs && level[s] + 1 == level[x];
      }
    }
  }

  // Every task is listed after its predecessors.
  ghost predicate PredecessorsFirst(ids: seq<string>, preds: Adjacency) {
    forall i :: 0 <= i < |ids| ==> ids[i] in preds && Elements(preds[ids[i]]) <= Elements(ids[..i])
  }

  lemma ChecklistPredecessorsFirst(tasks: seq<Task>, pairs: Pairs, preds: Adjacency)
    requires HardGraphOf(tasks, pairs, preds)
    ensures PredecessorsFirst(TaskIds(tasks), preds)
  {
    var ids := TaskIds(tasks);
    forall i | 0 <= i < |ids| ensures ids[i] in preds && Elements(preds[ids[i]]) <= Elements(ids[..i]) {
      PredecessorsEarlier(tasks, pairs, preds, i);
    }
  }

  lemma ElementsStep(ids: seq<string>, i: nat)
    requires i < |ids|
    ensures Elements(ids[..i + 1]) == Elements(ids[..i]) + {ids[i]}
    ensures ids[i] in Elements(ids)
  {
    assert ids[..i + 1] == ids[..i] + [ids[i]];
  }

  lemma NoSuccessorEarlier(ids: seq<string>, pairs: Pairs, preds: Adjacency, i: nat)
    requires NoDup(ids) && PredecessorsFirst(ids, preds) && ListsSources(preds, pairs) && i < |ids|
    ensures forall e :: e in pairs && e.0 == ids[i] ==> e.1 !in ids[..i]
    ensures ids[i] !in ids[..i]
  {
    forall j | 0 <= j < i ensures (ids[i], ids[j]) !in pairs {
      assert ids[i] !in Elements(ids[..j]);
      assert Elements(preds[ids[j]]) <= Elements(ids[..j]);
    }
    forall e | e in pairs && e.0 == ids[i] ensures e.1 !in ids[..i] {
      assert e == (ids[i], e.1);
    }
  }

  method AssignLevels(ids: seq<string>, preds: Adjacency, ghost pairs: Pairs) returns (level: map<string, nat>)
    requires NoDup(ids) && PredecessorsFirst(ids, preds) && ListsSources(preds, pairs) && PairsWithin(pairs, ids)
    ensures level.Keys == Elements(ids) && IsLeveling(pairs, level)
  {
    level := map[];
    for i := 0 to |ids|
      invariant level.Keys == Elements(ids[..i])
      invariant PartialLeveling(pairs, level)
    {
      NoSuccessorEarlier(ids, pairs, preds, i);
      ElementsStep(ids, i);
      forall s | s in preds[ids[i]] ensures s in level {
        assert s in Elements(preds[ids[i]]);
      }
      var n := if preds[ids[i]] == [] then 0 else MaxNumber(preds[ids[i]], level) + 1;
      LevelStep(pairs, preds, level, ids[i], n);
      level := level[ids[i] := n];
    }
    assert ids[..|ids|] == ids;
    PartialIsComplete(ids, pairs, level);
  }

  lemma PartialIsComplete(ids: seq<string>, pairs: Pairs, level: map<string, nat>)
    requires PartialLeveling(pairs, level) && PairsWithin(pairs, ids) && level.Keys == Elements(ids)
    ensures IsLeveling(pairs, level)
  {
    forall e | e in pairs ensures e.0 in level && e.1 in level && level[e.0] < level[e.1] {
      assert e.1 in ids;
      assert e.1 in Elements(ids);
    }
  }

  // ---- Rows, one per level ----

  // The tasks of one level, in checklist order.
  function TasksAt(tasks: seq<Task>, level: map<string, nat>, k: nat): seq<Task> {
    if tasks == [] then []
    else
      var task := tasks[|tasks| - 1];
      TasksAt(tasks[..|tasks| - 1], level, k)
      + if task.taskId in level && level[task.taskId] == k then [task] else []
  }

  function RowOf(k: nat, members: seq<Task>): LevelRow {
    LevelRow(k, TaskIds(members), |members|, FirstOccurrences(BlockKeys(members)), |members|)
  }

  lemma {:induction false} TasksAtMember(tasks: seq<Task>, level: map<string, nat>, k: nat, task: Task)
    ensures task in TasksAt(tasks, level, k) <==> task in tasks && task.taskId in level && level[task.taskId] == k
  {
    if tasks != [] {
      TasksAtMember(tasks[..|tasks| - 1], level, k, task);
      assert tasks == tasks[..|tasks| - 1] + [tasks[|tasks| - 1]];
    }
  }

  // The positions of the tasks of level k, in checklist order.
  ghost function PositionsAt(tasks: seq<Task>, level: map<string, nat>, k: nat): seq<nat> {
    if tasks == [] then []
    else
      var n := |tasks| - 1;
      PositionsAt(tasks[..n], level, k) + if tasks[n].taskId in level && level[tasks[n].taskId] == k then [n] else []
  }

  lemma {:induction false} PositionsRise(tasks: seq<Task>, level: map<string, nat>, k: nat)
    ensures var ps := PositionsAt(tasks, level, k);
            && (forall a :: 0 <= a < |ps| ==> ps[a] < |tasks|)
            && (forall a, b :: 0 <= a < b < |ps| ==> ps[a] < ps[b])
            && forall i: nat :: i in ps <==> i < |tasks| && tasks[i].taskId in level && level[tasks[i].taskId] == k
  {
    if tasks != [] {
      PositionsRise(tasks[..|tasks| - 1], level, k);
    }
  }

  lemma {:induction false} MembersAtPositions(tasks: seq<Task>, level: map<string, nat>, k: nat)
    ensures var ps, members := PositionsAt(tasks, level, k), TasksAt(tasks, level, k);
            |ps| == |members| && forall a :: 0 <= a < |ps| ==> ps[a] < |tasks| && members[a] == tasks[ps[a]]
  {
    if tasks != [] {
      MembersAtPositions(tasks[..|tasks| - 1], level, k);
    }
  }

  // A row names the tasks of its level in checklist order; how many there are is both its count and
  // its parallelism; and its blocks are theirs, each once.
  lemma RowSays(tasks: seq<Task>, level: map<string, nat>, rows: seq<LevelRow>, k: nat) returns (ps: seq<nat>)
    requires RowsOf(tasks, level, rows) && k < |rows|
    ensures forall a, b :: 0 <= a < b < |ps| ==> ps[a] < ps[b]
    ensures forall i: nat :: i in ps <==> i < |tasks| && tasks[i].taskId in level && level[tasks[i].taskId] == k
    ensures rows[k].level == k && |rows[k].taskIds| == rows[k].taskCount == rows[k].parallelism == |ps|
    ensures forall a :: 0 <= a < |ps| ==> ps[a] < |tasks| && rows[k].taskIds[a] == tasks[ps[a]].taskId
    ensures NoDup(rows[k].blockIds)
    ensures forall b :: b in rows[k].blockIds <==> exists a :: 0 <= a < |ps| && ps[a] < |tasks| && tasks[ps[a]].blockId == b
  {
    ps := PositionsAt(tasks, level, k);
    var members := TasksAt(tasks, level, k);
    PositionsRise(tasks, level, k);
    MembersAtPositions(tasks, level, k);
    FirstOccurrencesMembers(BlockKeys(members));
    forall b ensures b in rows[k].blockIds <==> exists a :: 0 <= a < |ps| && ps[a] < |tasks| && tasks[ps[a]].blockId == b {
      assert b in rows[k].blockIds <==> b in Elements(FirstOccurrences(BlockKeys(members)));
      if a :| 0 <= a < |ps| && tasks[ps[a]].blockId == b {
        assert BlockKeys(members)[a] == b;
      }
    }
  }

  // The groups hold exactly the occupied levels of the tasks reached so far.
  ghost predicate GroupsAre(tasks: seq<Task>, level: map<string, nat>, grouped: map<nat, seq<Task>>) {
    && (forall k :: k in grouped ==> grouped[k] == TasksAt(tasks, level, k) && grouped[k] != [])
    && (forall k :: k !in grouped ==> TasksAt(tasks, level, k) == [])
  }

  lemma GroupStep(tasks: seq<Task>, level: map<string, nat>, grouped: map<nat, seq<Task>>, i: nat)
    requires i < |tasks| && tasks[i].taskId in level && GroupsAre(tasks[..i], level, grouped)
    ensures var n := level[tasks[i].taskId];
            GroupsAre(tasks[..i + 1], level, grouped[n := (if n in grouped then grouped[n] else []) + [tasks[i]]])
  {
    var task := tasks[i];
    var n := level[task.taskId];
    var more := grouped[n := (if n in grouped then grouped[n] else []) + [task]];
    forall k: nat
      ensures TasksAt(tasks[..i + 1], level, k) == TasksAt(tasks[..i], level, k) + if n == k then [task] else []
    {
      assert tasks[..i + 1][..i] == tasks[..i];
    }
  }

  method GroupByLevel(tasks: seq<Task>, level: map<string, nat>) returns (grouped: map<nat, seq<Task>>)
    requires forall task :: task in tasks ==> task.taskId in level
    ensures GroupsAre(tasks, level, grouped)
  {
    grouped := map[];
    for i := 0 to |tasks|
      invariant GroupsAre(tasks[..i], level, grouped)
    {
      var n := level[tasks[i].taskId];
      GroupStep(tasks, level, grouped, i);
      grouped := grouped[n := (if n in grouped then grouped[n] else []) + [tasks[i]]];
    }
    assert tasks[..|tasks|] == tasks;
  }

  ghost predicate StrictlyRising(sorted: seq<nat>) {
    forall i, j :: 0 <= i < j < |sorted| ==> sorted[i] < sorted[j]
  }

  ghost predicate AllBelow(sorted: seq<nat>, rest: set<nat>) {
    forall i, k :: 0 <= i < |sorted| && k in rest ==> sorted[i] < k
  }

  method Least(keys: set<nat>) returns (least: nat)
    requires keys != {}
    ensures least in keys && forall k :: k in keys ==> least <= k
  {
    least :| least in keys;
    var rest := keys - {least};
    while rest != {}
      invariant least in keys && rest <= keys
      invariant forall k :: k in keys ==> k in rest || least <= k
      decreases |rest|
    {
      var k :| k in rest;
      rest := rest - {k};
      if k < least {
        least := k;
      }
    }
  }

  lemma RisingStep(sorted: seq<nat>, rest: set<nat>, least: nat)
    requires StrictlyRising(sorted) && AllBelow(sorted, rest)
    requires least in rest && forall k :: k in rest ==> least <= k
    ensures StrictlyRising(sorted + [least]) && AllBelow(sorted + [least], rest - {least})
  {
    var longer := sorted + [least];
    forall i, k | 0 <= i < |longer| && k in rest - {least} ensures longer[i] < k {
      if i < |sorted| {
        assert longer[i] == sorted[i];
      }
    }
  }

  lemma MoveElement(taken: seq<nat>, rest: set<nat>, x: nat)
    requires x in rest
    ensures Elements(taken + [x]) + (rest - {x}) == Elements(taken) + rest
  {
    assert Elements(taken + [x]) == Elements(taken) + {x};
  }

  method SortedKeys(keys: set<nat>) returns (sorted: seq<nat>)
    ensures Elements(sorted) == keys && StrictlyRising(sorted)
  {
    sorted := [];
    var rest := keys;
    while rest != {}
      invariant Elements(sorted) + rest == keys
      invariant StrictlyRising(sorted) && AllBelow(sorted, rest)
      decreases |rest|
    {
      var least := Least(rest);
      RisingStep(sorted, rest, least);
      MoveElement(sorted, rest, least);
      sorted := sorted + [least];
      rest := rest - {least};
    }
  }

  // A strictly rising list of exactly the numbers below some bound counts 0, 1, 2, ...
  lemma {:induction false} RisingCounts(sorted: seq<nat>, i: nat)
    requires StrictlyRising(sorted)
    requires forall k, n: nat :: n in sorted && 0 <= k < n ==> k in sorted
    requires i < |sorted|
    ensures sorted[i] == i
  {
    if i > 0 {
      RisingCounts(sorted, i - 1);
    }
    assert sorted[i] in sorted;
    assert i in sorted;
    var j :| 0 <= j < |sorted| && sorted[j] == i;
    assert j < i ==> j <= i - 1;
  }

  // The rows are the levels 0, 1, 2, ..., none empty, each listing its tasks in checklist order.
  ghost predicate RowsOf(tasks: seq<Task>, level: map<string, nat>, rows: seq<LevelRow>) {
    && (forall k :: 0 <= k < |rows| ==> rows[k] == RowOf(k, TasksAt(tasks, level, k)) && rows[k].taskIds != [])
    && (forall t :: t in level ==> level[t] < |rows|)
  }

  lemma LevelOccupied(tasks: seq<Task>, level: map<string, nat>, t: string)
    requires level.Keys == Elements(TaskIds(tasks)) && t in level
    ensures TasksAt(tasks, level, level[t]) != []
  {
    var i :| 0 <= i < |TaskIds(tasks)| && TaskIds(tasks)[i] == t;
    TasksAtMember(tasks, level, level[t], tasks[i]);
  }

  lemma OccupiedLevels(tasks: seq<Task>, pairs: Pairs, level: map<string, nat>,
                       grouped: map<nat, seq<Task>>, sorted: seq<nat>)
    requires tasks != [] && level.Keys == Elements(TaskIds(tasks)) && IsLeveling(pairs, level)
    requires GroupsAre(tasks, level, grouped)
    requires Elements(sorted) == grouped.Keys && StrictlyRising(sorted)
    ensures sorted != [] && forall i :: 0 <= i < |sorted| ==> sorted[i] == i
    ensures forall i :: 0 <= i < |sorted| ==> i in grouped
    ensures forall t :: t in level ==> level[t] < |sorted|
  {
    forall k, n: nat | n in sorted && 0 <= k < n ensures k in sorted {
      assert n in Elements(sorted);
      var members := TasksAt(tasks, level, n);
      TasksAtMember(tasks, level, n, members[0]);
      LevelsContiguous(pairs, level, members[0].taskId, k);
      var s :| s in level && level[s] == k;
      LevelOccupied(tasks, level, s);
      assert k in grouped.Keys;
      assert k in Elements(sorted);
    }
    forall i | 0 <= i < |sorted| ensures sorted[i] == i && i in grouped {
      RisingCounts(sorted, i);
      assert sorted[i] in Elements(sorted);
    }
    forall t | t in level ensures level[t] < |sorted| {
      LevelOccupied(tasks, level, t);
      assert level[t] in Elements(sorted);
    }
    assert TaskIds(tasks)[0] in level;
  }

  // m is the parallelism of some row and at least that of every row.
  ghost predicate Widest(rows: seq<LevelRow>, m: nat) {
    && (forall k :: 0 <= k < |rows| ==> rows[k].parallelism <= m)
    && exists k :: 0 <= k < |rows| && rows[k].parallelism == m
  }

  lemma WidestStep(rows: seq<LevelRow>, m: nat, row: LevelRow)
    requires Widest(rows, m)
    ensures Widest(rows + [row], if row.parallelism > m then row.parallelism else m)
  {
    var longer := rows + [row];
    assert longer[|rows|] == row;
    var w :| 0 <= w < |rows| && rows[w].parallelism == m;
    assert longer[w] == rows[w];
  }

  // The list comprehension that turns the groups into rows, and the largest row.
  method RowsFromGroups(grouped: map<nat, seq<Task>>, sorted: seq<nat>) returns (rows: seq<LevelRow>, maxParallelism: nat)
    requires sorted != [] && forall i :: 0 <= i < |sorted| ==> sorted[i] == i && i in grouped
    ensures |rows| == |sorted| && forall k :: 0 <= k < |rows| ==> rows[k] == RowOf(k, grouped[k])
    ensures Widest(rows, maxParallelism)
  {
    rows := [RowOf(sorted[0], grouped[sorted[0]])];
    maxParallelism := rows[0].parallelism;
    for i := 1 to |sorted|
      invariant |rows| == i
      invariant forall k :: 0 <= k < i ==> rows[k] == RowOf(k, grouped[k])
      invariant Widest(rows, maxParallelism)
    {
      var row := RowOf(sorted[i], grouped[sorted[i]]);
      WidestStep(rows, maxParallelism, row);
      rows := rows + [row];
      if row.parallelism > maxParallelism {
        maxParallelism := row.parallelism;
      }
    }
  }

  method BuildLevels(tasks: seq<Task>, preds: Adjacency, ghost pairs: Pairs)
    returns (level: map<string, nat>, rows: seq<LevelRow>, maxParallelism: nat)
    requires HardGraphOf(tasks, pairs, preds) && tasks != []
    ensures level.Keys == Elements(TaskIds(tasks)) && IsLeveling(pairs, level)
    ensures RowsOf(tasks, level, rows)
    ensures Widest(rows, maxParallelism)
  {
    ChecklistPredecessorsFirst(tasks, pairs, preds);
    level := AssignLevels(TaskIds(tasks), preds, pairs);
    AllLeveled(tasks, level);
    var grouped := GroupByLevel(tasks, level);
    var sorted := SortedKeys(grouped.Keys);
    OccupiedLevels(tasks, pairs, level, grouped, sorted);
    rows, maxParallelism := RowsFromGroups(grouped, sorted);
  }

  lemma AllLeveled(tasks: seq<Task>, level: map<string, nat>)
    requires level.Keys == Elements(TaskIds(tasks))
    ensures forall task :: task in tasks ==> task.taskId in level
  {
    forall task | task in tasks ensures task.taskId in level {
      var i :| 0 <= i < |tasks| && tasks[i] == task;
      assert TaskIds(tasks)[i] == task.taskId;
    }
  }
}
