// The longest chain of hard edges, found by distances and back pointers.
module CriticalPath {
  import opened Sequences
  import opened Digraph
  import opened Checklist
  import opened HardEdges
  import opened HardGraph
  import opened Leveling
  import opened Levels

  type Key = (int, int, int)

  // Tuple comparison, first component first.
  predicate LexAtMost(a: Key, b: Key) {
    a.0 < b.0 || (a.0 == b.0 && (a.1 < b.1 || (a.1 == b.1 && a.2 <= b.2)))
  }

  function Numbers(tasks: seq<Task>): (numbers: map<string, int>)
    requires NoDup(TaskIds(tasks))
    ensures numbers.Keys == Elements(TaskIds(tasks))
  {
    var lookup := Lookup(tasks);
    assert lookup.Keys == Elements(TaskIds(tasks));
    map id | id in lookup :: lookup[id].number
  }

  // A member whose key no other member's key exceeds.
  method MaxBy(ps: seq<string>, key: map<string, Key>) returns (best: string)
    requires ps != [] && forall p :: p in ps ==> p in key
    ensures best in ps && forall p :: p in ps ==> LexAtMost(key[p], key[best])
  {
    best := ps[0];
    for i := 1 to |ps|
      invariant best in ps
      invariant forall p :: p in ps[..i] ==> LexAtMost(key[p], key[best])
    {
      assert ps[..i + 1] == ps[..i] + [ps[i]];
      if !LexAtMost(key[ps[i]], key[best]) {
        best := ps[i];
      }
    }
    assert ps[..|ps|] == ps;
  }

  // Deepest predecessor, lowest task number among equals.
  ghost predicate BestPredecessor(preds: Adjacency, level: map<string, nat>, numbers: map<string, int>, t: string, b: string) {
    && t in preds && b in preds[t] && b in level && b in numbers
    && forall p :: p in preds[t] && p in level && p in numbers ==>
         level[p] < level[b] || (level[p] == level[b] && numbers[b] <= numbers[p])
  }

  ghost predicate BackPointers(preds: Adjacency, level: map<string, nat>, numbers: map<string, int>,
                               distance: map<string, int>, previous: map<string, Option<string>>) {
    && distance.Keys == previous.Keys
    && forall t :: t in distance ==> PointsBack(preds, level, numbers, t, distance[t], previous[t])
  }

  // The distance and back pointer recorded for one task.
  ghost predicate PointsBack(preds: Adjacency, level: map<string, nat>, numbers: map<string, int>,
                             t: string, d: int, previous: Option<string>) {
    && t in preds && t in level && d == level[t] + 1
    && (preds[t] == [] ==> previous == None)
    && (preds[t] != [] ==> previous.Some? && BestPredecessor(preds, level, numbers, t, previous.value))
  }

  // A deepest predecessor is exactly one level up.
  lemma BestIsTight(pairs: Pairs, preds: Adjacency, level: map<string, nat>, numbers: map<string, int>, t: string, b: string)
    requires ListsSources(preds, pairs) && IsLeveling(pairs, level) && level.Keys == numbers.Keys
    requires BestPredecessor(preds, level, numbers, t, b)
    ensures (b, t) in pairs && t in level && level[t] == level[b] + 1
  {
    assert (b, t) in pairs;
    assert HasTightPredecessor(pairs, level, t);
    var s :| s in level && (s, t) in pairs && level[s] + 1 == level[t];
    assert s in preds[t];
  }

  lemma SourceIsLevelZero(pairs: Pairs, preds: Adjacency, level: map<string, nat>, t: string)
    requires ListsSources(preds, pairs) && IsLeveling(pairs, level) && t in level && t in preds
    ensures preds[t] == [] ==> level[t] == 0
  {
    if level[t] > 0 {
      assert HasTightPredecessor(pairs, level, t);
      var s :| s in level && (s, t) in pairs;
      assert s in preds[t];
    }
  }

  method ChoosePrevious(ps: seq<string>, distance: map<string, int>, level: map<string, nat>, numbers: map<string, int>)
    returns (best: string)
    requires ps != [] && forall p :: p in ps ==> p in distance && p in level && p in numbers && distance[p] == level[p] + 1
    ensures best in ps
    ensures forall p :: p in ps ==> level[p] < level[best] || (level[p] == level[best] && numbers[best] <= numbers[p])
  {
    var key := map p | p in ps :: (distance[p], -(level[p] as int), -numbers[p]);
    best := MaxBy(ps, key);
  }

  // The loop body: distance and back pointer of one task, from those of its predecessors.
  method LinkTask(t: string, preds: Adjacency, level: map<string, nat>, numbers: map<string, int>,
                  distance: map<string, int>, ghost pairs: Pairs)
    returns (d: int, previous: Option<string>)
    requires ListsSources(preds, pairs) && IsLeveling(pairs, level) && level.Keys == numbers.Keys
    requires t in preds && t in level
    requires forall p :: p in preds[t] ==> p in distance && p in level && distance[p] == level[p] + 1
    ensures PointsBack(preds, level, numbers, t, d, previous)
  {
    SourceIsLevelZero(pairs, preds, level, t);
    if preds[t] == [] {
      d, previous := 1, None;
    } else {
      var best := ChoosePrevious(preds[t], distance, level, numbers);
      BestIsTight(pairs, preds, level, numbers, t, best);
      d, previous := distance[best] + 1, Some(best);
    }
  }

  method LinkPredecessors(ids: seq<string>, preds: Adjacency, level: map<string, nat>, numbers: map<string, int>,
                          ghost pairs: Pairs)
    returns (distance: map<string, int>, previous: map<string, Option<string>>)
    requires PredecessorsFirst(ids, preds) && ListsSources(preds, pairs)
    requires level.Keys == numbers.Keys == Elements(ids) && IsLeveling(pairs, level)
    ensures distance.Keys == Elements(ids) && BackPointers(preds, level, numbers, distance, previous)
  {
    distance, previous := map[], map[];
    for i := 0 to |ids|
      invariant distance.Keys == Elements(ids[..i])
      invariant BackPointers(preds, level, numbers, distance, previous)
    {
      ElementsStep(ids, i);
      forall p | p in preds[ids[i]] ensures p in distance && PointsBack(preds, level, numbers, p, distance[p], previous[p]) {
        assert p in Elements(preds[ids[i]]);
      }
      var d, best := LinkTask(ids[i], preds, level, numbers, distance, pairs);
      distance, previous := distance[ids[i] := d], previous[ids[i] := best];
    }
    assert ids[..|ids|] == ids;
  }

  // The walked tasks, last first.
  function Reverse<T>(s: seq<T>): (r: seq<T>)
    ensures |r| == |s|
  {
    if s == [] then [] else [s[|s| - 1]] + Reverse(s[..|s| - 1])
  }

  // A chain that follows the back pointers and climbs one level per step.
  ghost predicate PointerChain(pairs: Pairs, level: map<string, nat>, previous: map<string, Option<string>>, p: seq<string>) {
    && IsPath(pairs, p)
    && (forall i :: 0 <= i < |p| ==> p[i] in level && p[i] in previous)
    && (forall i, j :: 0 <= i && j == i + 1 && j < |p| ==> previous[p[j]] == Some(p[i]) && level[p[j]] == level[p[i]] + 1)
  }

  lemma PointerPrepend(pairs: Pairs, level: map<string, nat>, previous: map<string, Option<string>>, c: string, p: seq<string>)
    requires PointerChain(pairs, level, previous, p) && c in level && c in previous
    requires (c, p[0]) in pairs && previous[p[0]] == Some(c) && level[p[0]] == level[c] + 1
    ensures PointerChain(pairs, level, previous, [c] + p)
  {
    PathPrepend(pairs, c, p);
    var q := [c] + p;
    forall i, j | 0 <= i && j == i + 1 && j < |q| ensures previous[q[j]] == Some(q[i]) && level[q[j]] == level[q[i]] + 1 {
      if i > 0 {
        assert q[i] == p[i - 1] && q[j] == p[j - 1];
      }
    }
  }

  lemma {:induction false} PointerLevels(pairs: Pairs, level: map<string, nat>, previous: map<string, Option<string>>, p: seq<string>, i: nat)
    requires PointerChain(pairs, level, previous, p) && i < |p|
    ensures level[p[i]] == level[p[0]] + i
  {
    if i > 0 {
      PointerLevels(pairs, level, previous, p, i - 1);
      assert p[i - 1] in level;
    }
  }

  method WalkBack(sink: string, preds: Adjacency, level: map<string, nat>, numbers: map<string, int>,
                  ghost distance: map<string, int>, previous: map<string, Option<string>>, ghost pairs: Pairs)
    returns (path: seq<string>)
    requires ListsSources(preds, pairs) && IsLeveling(pairs, level) && level.Keys == numbers.Keys == distance.Keys
    requires BackPointers(preds, level, numbers, distance, previous) && sink in level
    ensures PointerChain(pairs, level, previous, path) && Last(path) == sink && previous[path[0]] == None
  {
    var walked := [sink];
    ghost var chain := [sink];
    var cursor := previous[sink];
    while cursor.Some?
      invariant chain == Reverse(walked)
      invariant PointerChain(pairs, level, previous, chain) && Last(chain) == sink
      invariant cursor == previous[chain[0]]
      decreases level[chain[0]]
    {
      var c := cursor.value;
      BestIsTight(pairs, preds, level, numbers, chain[0], c);
      PointerPrepend(pairs, level, previous, c, chain);
      chain := [c] + chain;
      walked := walked + [c];
      assert walked[..|walked| - 1] + [c] == walked;
      cursor := previous[c];
    }
    path := Reverse(walked);
  }

  // A genuine critical path: it starts at a task nothing precedes, passes through levels
  // 0, 1, 2, ... up to the deepest, and ties are broken by task number as the tool does.
  ghost predicate IsCriticalPath(pairs: Pairs, preds: Adjacency, level: map<string, nat>, numbers: map<string, int>, path: seq<string>) {
    && IsPath(pairs, path)
    && (forall i :: 0 <= i < |path| ==> path[i] in level && level[path[i]] == i)
    && path[0] in preds && preds[path[0]] == []
    && Last(path) in numbers
    && (forall t :: t in level ==> level[t] < |path|)
    && (forall t :: t in level && t in numbers && level[t] == |path| - 1 ==> numbers[t] <= numbers[Last(path)])
    && (forall i, j :: 0 <= i && j == i + 1 && j < |path| ==> BestPredecessor(preds, level, numbers, path[j], path[i]))
  }

  // The deepest task, of the highest task number among equals.
  method ChooseSink(ids: seq<string>, distance: map<string, int>, level: map<string, nat>, numbers: map<string, int>)
    returns (sink: string)
    requires ids != [] && level.Keys == numbers.Keys == distance.Keys == Elements(ids)
    requires forall t :: t in level ==> distance[t] == level[t] + 1
    ensures sink in level
    ensures forall t :: t in level ==> level[t] < level[sink] || (level[t] == level[sink] && numbers[t] <= numbers[sink])
  {
    var key := map id | id in distance :: (distance[id], level[id] as int, numbers[id]);
    assert key.Keys == Elements(ids);
    sink := MaxBy(ids, key);
    assert sink in Elements(ids);
    forall t | t in level ensures LexAtMost(key[t], key[sink]) {
      assert t in Elements(ids);
    }
  }

  method BuildCriticalPath(tasks: seq<Task>, preds: Adjacency, level: map<string, nat>, ghost pairs: Pairs)
    returns (path: seq<string>)
    requires HardGraphOf(tasks, pairs, preds) && tasks != []
    requires level.Keys == Elements(TaskIds(tasks)) && IsLeveling(pairs, level)
    ensures IsCriticalPath(pairs, preds, level, Numbers(tasks), path)
  {
    ChecklistPredecessorsFirst(tasks, pairs, preds);
    path := TraceCriticalPath(TaskIds(tasks), preds, level, Numbers(tasks), pairs);
  }

  method TraceCriticalPath(ids: seq<string>, preds: Adjacency, level: map<string, nat>, numbers: map<string, int>,
                           ghost pairs: Pairs)
    returns (path: seq<string>)
    requires ids != [] && PredecessorsFirst(ids, preds) && ListsSources(preds, pairs)
    requires level.Keys == numbers.Keys == Elements(ids) && IsLeveling(pairs, level)
    ensures IsCriticalPath(pairs, preds, level, numbers, path)
  {
    var distance, previous := LinkPredecessors(ids, preds, level, numbers, pairs);
    var sink := ChooseSink(ids, distance, level, numbers);
    path := WalkBack(sink, preds, level, numbers, distance, previous, pairs);
    PathIsCritical(pairs, preds, level, numbers, distance, previous, path);
  }

  lemma PathIsCritical(pairs: Pairs, preds: Adjacency, level: map<string, nat>, numbers: map<string, int>,
                       distance: map<string, int>, previous: map<string, Option<string>>, path: seq<string>)
    requires ListsSources(preds, pairs) && IsLeveling(pairs, level) && level.Keys == numbers.Keys == distance.Keys
    requires BackPointers(preds, level, numbers, distance, previous)
    requires PointerChain(pairs, level, previous, path) && previous[path[0]] == None
    requires forall t :: t in level ==>
               level[t] < level[Last(path)] || (level[t] == level[Last(path)] && numbers[t] <= numbers[Last(path)])
    ensures IsCriticalPath(pairs, preds, level, numbers, path)
  {
    assert path[0] in distance;
    SourceIsLevelZero(pairs, preds, level, path[0]);
    forall i | 0 <= i < |path| ensures level[path[i]] == i {
      PointerLevels(pairs, level, previous, path, i);
    }
    forall i, j | 0 <= i && j == i + 1 && j < |path| ensures BestPredecessor(preds, level, numbers, path[j], path[i]) {
      assert path[j] in distance;
    }
  }

  // No chain of tasks in the hard graph is longer.
  lemma CriticalPathIsLongest(pairs: Pairs, preds: Adjacency, level: map<string, nat>, numbers: map<string, int>,
                              path: seq<string>, p: seq<string>)
    requires IsLeveling(pairs, level) && IsCriticalPath(pairs, preds, level, numbers, path)
    requires IsPath(pairs, p) && p[0] in level
    ensures |p| <= |path|
  {
    RankAlongPath(pairs, level, p);
  }

  lemma NumberAt(tasks: seq<Task>, i: nat)
    requires NoDup(TaskIds(tasks)) && i < |tasks|
    ensures tasks[i].taskId in Numbers(tasks) && Numbers(tasks)[tasks[i].taskId] == tasks[i].number
  {
  }

  lemma KnownId(tasks: seq<Task>, i: nat)
    requires i < |tasks|
    ensures tasks[i].taskId in Elements(TaskIds(tasks))
  {
    assert TaskIds(tasks)[i] in Elements(TaskIds(tasks));
  }

  // How the path breaks ties, by the digits of the task ids: each task on it follows the lowest
  // numbered of its deepest predecessors, and it ends at the highest numbered of the deepest tasks.
  lemma TiesByNumber(tasks: seq<Task>, pairs: Pairs, preds: Adjacency, level: map<string, nat>, path: seq<string>,
                     i: nat, a: nat, b: nat)
    requires NoDup(TaskIds(tasks)) && level.Keys == Elements(TaskIds(tasks)) && preds.Keys == level.Keys
    requires IsCriticalPath(pairs, preds, level, Numbers(tasks), path)
    requires i < |path| && a < |tasks| && b < |tasks| && tasks[a].taskId == path[i]
    ensures tasks[b].taskId in level
    ensures i + 1 < |path| && tasks[b].taskId in preds[path[i + 1]] ==>
              level[tasks[b].taskId] < i || (level[tasks[b].taskId] == i && tasks[a].number <= tasks[b].number)
    ensures i + 1 == |path| ==>
              level[tasks[b].taskId] < i || (level[tasks[b].taskId] == i && tasks[b].number <= tasks[a].number)
  {
    NumberAt(tasks, a);
    NumberAt(tasks, b);
    KnownId(tasks, b);
    if i + 1 < |path| {
      assert BestPredecessor(preds, level, Numbers(tasks), path[i + 1], path[i]);
    } else {
      assert Last(path) == path[i];
    }
  }
}
