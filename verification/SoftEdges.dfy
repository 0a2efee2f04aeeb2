// Same-track context edges: neighbours of one track inside one wave that no hard edge joins.
module SoftEdges {
  import opened Sequences
  import opened Digraph
  import opened Checklist
  import opened EdgeIds
  import opened HardEdges

  type TrackKey = (string, string)

  predicate OnTrack(task: Task, key: TrackKey) {
    task.mode.Parallel? && task.track.Some? && task.blockId == key.0 && task.track.value == key.1
  }

  // The tasks of one (block, track) pair, in checklist order.
  function TrackGroup(tasks: seq<Task>, key: TrackKey): seq<Task> {
    if tasks == [] then []
    else
      var task := tasks[|tasks| - 1];
      TrackGroup(tasks[..|tasks| - 1], key) + if OnTrack(task, key) then [task] else []
  }

  // Positions i and j hold the same track of the same block, with no such task between them.
  ghost predicate TrackNeighbours(tasks: seq<Task>, i: nat, j: nat) {
    && i < j < |tasks|
    && tasks[i].mode.Parallel? && tasks[i].track.Some? && SameTrack(tasks[i], tasks[j])
    && forall m :: i < m < j ==> !SameTrack(tasks[i], tasks[m])
  }

  ghost predicate SameTrack(a: Task, b: Task) {
    b.mode.Parallel? && b.blockId == a.blockId && b.track == a.track
  }

  ghost function SameTrackPairs(tasks: seq<Task>): Pairs {
    set i, j | 0 <= i < |tasks| && 0 <= j < |tasks| && TrackNeighbours(tasks, i, j) :: (tasks[i].taskId, tasks[j].taskId)
  }

  function TrackRule(key: TrackKey): string {
    "same_track_adjacency__" + key.0 + "__" + key.1
  }

  // The ids of the soft edges: neighbours that no hard edge joins, labelled with block and track.
  ghost function SoftIds(tasks: seq<Task>, hardPairs: Pairs): set<EdgeId> {
    set i, j | 0 <= i < |tasks| && 0 <= j < |tasks| && TrackNeighbours(tasks, i, j)
               && (tasks[i].taskId, tasks[j].taskId) !in hardPairs ::
      EdgeId(tasks[i].taskId, tasks[j].taskId, SoftContext,
             "same_track_adjacency__" + tasks[i].blockId + "__" + tasks[i].track.value)
  }

  lemma SoftEnds(tasks: seq<Task>, hardPairs: Pairs)
    ensures Ends(SoftIds(tasks, hardPairs)) == SameTrackPairs(tasks) - hardPairs
  {
    forall e ensures e in Ends(SoftIds(tasks, hardPairs)) <==> e in SameTrackPairs(tasks) - hardPairs {
      if e in SameTrackPairs(tasks) - hardPairs {
        var i, j :| 0 <= i < |tasks| && 0 <= j < |tasks| && TrackNeighbours(tasks, i, j) && e == (tasks[i].taskId, tasks[j].taskId);
        assert EdgeId(tasks[i].taskId, tasks[j].taskId, SoftContext, TrackRule((tasks[i].blockId, tasks[i].track.value)))
               in SoftIds(tasks, hardPairs);
      }
    }
  }

  // Consecutive members of a list of tasks, by id.
  ghost function AdjacentIds(group: seq<Task>): Pairs {
    if |group| < 2 then {}
    else AdjacentIds(group[..|group| - 1]) + {(group[|group| - 2].taskId, group[|group| - 1].taskId)}
  }

  lemma {:induction false} GroupLast(tasks: seq<Task>, key: TrackKey) returns (i: nat)
    requires TrackGroup(tasks, key) != []
    ensures i < |tasks| && tasks[i] == TrackGroup(tasks, key)[|TrackGroup(tasks, key)| - 1] && OnTrack(tasks[i], key)
    ensures forall m :: i < m < |tasks| ==> !OnTrack(tasks[m], key)
  {
    var n := |tasks| - 1;
    if OnTrack(tasks[n], key) {
      i := n;
    } else {
      i := GroupLast(tasks[..n], key);
    }
  }

  lemma {:induction false} GroupEmpty(tasks: seq<Task>, key: TrackKey, i: nat)
    requires TrackGroup(tasks, key) == [] && i < |tasks|
    ensures !OnTrack(tasks[i], key)
  {
    if i < |tasks| - 1 {
      GroupEmpty(tasks[..|tasks| - 1], key, i);
    }
  }

  // Consecutive group members are exactly the neighbouring positions of that track.
  lemma {:induction false} AdjacentAreNeighbours(tasks: seq<Task>, key: TrackKey, e: (string, string))
    ensures e in AdjacentIds(TrackGroup(tasks, key)) <==>
            exists i, j :: 0 <= i < |tasks| && 0 <= j < |tasks| && TrackNeighbours(tasks, i, j) &&
                           OnTrack(tasks[i], key) && e == (tasks[i].taskId, tasks[j].taskId)
    decreases |tasks|
  {
    if tasks != [] {
      var n := |tasks| - 1;
      var init := tasks[..n];
      AdjacentAreNeighbours(init, key, e);
      var before, group := TrackGroup(init, key), TrackGroup(tasks, key);
      forall i, j | 0 <= i < n && 0 <= j < n ensures TrackNeighbours(tasks, i, j) <==> TrackNeighbours(init, i, j) {
        assert forall m :: 0 <= m < n ==> init[m] == tasks[m];
      }
      if OnTrack(tasks[n], key) {
        assert group[..|group| - 1] == before;
        if before == [] {
          forall i | 0 <= i < n ensures !OnTrack(tasks[i], key) {
            GroupEmpty(init, key, i);
            assert init[i] == tasks[i];
          }
        } else {
          var p := GroupLast(init, key);
          assert init[p] == tasks[p];
          forall m | p < m < n ensures !OnTrack(tasks[m], key) {
            assert init[m] == tasks[m];
          }
          assert TrackNeighbours(tasks, p, n);
          assert AdjacentIds(group) == AdjacentIds(before) + {(tasks[p].taskId, tasks[n].taskId)};
          assert OnTrack(tasks[p], key);
          forall i | 0 <= i < |tasks| && TrackNeighbours(tasks, i, n) && OnTrack(tasks[i], key) ensures i == p {
          }
        }
      } else {
        assert group == before;
      }
    }
  }

  // ---- The tool's loops ----

  ghost predicate GroupsHold(tasks: seq<Task>, groups: map<TrackKey, seq<Task>>) {
    && (forall key :: key in groups ==> groups[key] == TrackGroup(tasks, key))
    && (forall key :: key !in groups ==> TrackGroup(tasks, key) == [])
  }

  lemma GroupsStep(tasks: seq<Task>, groups: map<TrackKey, seq<Task>>, i: nat)
    requires i < |tasks| && GroupsHold(tasks[..i], groups)
    ensures var task := tasks[i];
            GroupsHold(tasks[..i + 1],
                       if task.mode.Parallel? && task.track.Some? then
                         var key := (task.blockId, task.track.value);
                         groups[key := (if key in groups then groups[key] else []) + [task]]
                       else groups)
  {
    forall key: TrackKey
      ensures TrackGroup(tasks[..i + 1], key) ==
              TrackGroup(tasks[..i], key) + if OnTrack(tasks[i], key) then [tasks[i]] else []
    {
      assert tasks[..i + 1][..i] == tasks[..i];
    }
  }

  method GroupTracks(tasks: seq<Task>) returns (groups: map<TrackKey, seq<Task>>)
    ensures GroupsHold(tasks, groups)
  {
    groups := map[];
    for i := 0 to |tasks|
      invariant GroupsHold(tasks[..i], groups)
    {
      var task := tasks[i];
      GroupsStep(tasks, groups, i);
      if task.mode.Parallel? && task.track.Some? {
        var key := (task.blockId, task.track.value);
        groups := groups[key := (if key in groups then groups[key] else []) + [task]];
      }
    }
    assert tasks[..|tasks|] == tasks;
  }

  ghost predicate GroupForward(lookup: map<string, Task>, group: seq<Task>) {
    forall i, j :: 0 <= i && j == i + 1 && j < |group| ==>
      group[i].taskId != group[j].taskId && Admissible(lookup, group[i].taskId, group[j].taskId)
  }

  // The edges of one group.
  ghost function GroupIds(group: seq<Task>, ruleId: string, hardPairs: Pairs): set<EdgeId> {
    set e | e in AdjacentIds(group) && e !in hardPairs :: EdgeId(e.0, e.1, SoftContext, ruleId)
  }

  lemma NextAdjacent(group: seq<Task>, m: nat, ruleId: string, hardPairs: Pairs)
    requires 1 <= m < |group|
    ensures var e := (group[m - 1].taskId, group[m].taskId);
            GroupIds(group[..m + 1], ruleId, hardPairs) ==
            GroupIds(group[..m], ruleId, hardPairs) + if e in hardPairs then {} else {EdgeId(e.0, e.1, SoftContext, ruleId)}
  {
    assert group[..m + 1][..m] == group[..m];
  }

  // One group's adjacent pairs, skipping those a hard edge already joins.
  method AddAdjacent(store: EdgeStore, group: seq<Task>, ruleId: string, hardPairs: Pairs, lookup: map<string, Task>)
    requires GroupForward(lookup, group)
    modifies store
    ensures store.edges.Keys == old(store.edges.Keys) + GroupIds(group, ruleId, hardPairs)
  {
    if group == [] {
      return;
    }
    var m := 1;
    while m < |group|
      invariant 1 <= m <= |group|
      invariant store.edges.Keys == old(store.edges.Keys) + GroupIds(group[..m], ruleId, hardPairs)
    {
      var source, target := group[m - 1].taskId, group[m].taskId;
      NextAdjacent(group, m, ruleId, hardPairs);
      if (source, target) !in hardPairs {
        var outcome := store.AddEdge(source, target, SoftContext, ruleId, "same-track neighbours", lookup);
      }
      m := m + 1;
    }
    assert group[..m] == group;
  }

  lemma {:induction false} GroupOrdered(tasks: seq<Task>, key: TrackKey, a: nat, b: nat) returns (i: nat, j: nat)
    requires a < b < |TrackGroup(tasks, key)|
    ensures i < j < |tasks| && tasks[i] == TrackGroup(tasks, key)[a] && tasks[j] == TrackGroup(tasks, key)[b]
  {
    var n := |tasks| - 1;
    var before := TrackGroup(tasks[..n], key);
    if b < |before| {
      i, j := GroupOrdered(tasks[..n], key, a, b);
    } else {
      j := n;
      i := GroupPosition(tasks[..n], key, a);
    }
  }

  lemma {:induction false} GroupPosition(tasks: seq<Task>, key: TrackKey, a: nat) returns (i: nat)
    requires a < |TrackGroup(tasks, key)|
    ensures i < |tasks| && tasks[i] == TrackGroup(tasks, key)[a]
  {
    var n := |tasks| - 1;
    if a < |TrackGroup(tasks[..n], key)| {
      i := GroupPosition(tasks[..n], key, a);
    } else {
      i := n;
    }
  }

  lemma GroupsRunForward(tasks: seq<Task>, key: TrackKey)
    requires Parsed(tasks)
    ensures GroupForward(Lookup(tasks), TrackGroup(tasks, key))
  {
    var group := TrackGroup(tasks, key);
    forall a, b | 0 <= a && b == a + 1 && b < |group|
      ensures group[a].taskId != group[b].taskId && Admissible(Lookup(tasks), group[a].taskId, group[b].taskId)
    {
      var i, j := GroupOrdered(tasks, key, a, b);
      assert TaskIds(tasks)[i] == group[a].taskId && TaskIds(tasks)[j] == group[b].taskId;
    }
  }

  lemma NeighboursForward(tasks: seq<Task>)
    requires Parsed(tasks)
    ensures ForwardPairs(tasks, SameTrackPairs(tasks))
  {
    forall e | e in SameTrackPairs(tasks) ensures e.0 != e.1 && Admissible(Lookup(tasks), e.0, e.1) {
      var i, j :| 0 <= i < |tasks| && 0 <= j < |tasks| && TrackNeighbours(tasks, i, j) && e == (tasks[i].taskId, tasks[j].taskId);
      assert TaskIds(tasks)[i] == e.0 && TaskIds(tasks)[j] == e.1;
    }
  }

  method BuildSoftContextEdges(tasks: seq<Task>, hardPairs: Pairs) returns (store: EdgeStore, listed: seq<EdgeId>)
    requires Parsed(tasks)
    ensures fresh(store)
    ensures store.edges.Keys == SoftIds(tasks, hardPairs)
    ensures store.EndPoints() == SameTrackPairs(tasks) - hardPairs
    ensures Presents(listed, store.edges.Keys, Lookup(tasks))
  {
    var lookup := Lookup(tasks);
    store := new EdgeStore();
    var groups := GroupTracks(tasks);
    AllGroups(tasks, groups, hardPairs);
    forall key | key in groups ensures GroupForward(lookup, groups[key]) {
      GroupsRunForward(tasks, key);
    }
    AddGroups(store, groups, hardPairs, lookup);
    SoftEnds(tasks, hardPairs);
    NeighboursForward(tasks);
    StoredArePositioned(tasks, store.edges.Keys);
    listed := ListEdges(store.edges.Keys, lookup);
  }

  // The edges of the named groups.
  ghost function IdsIn(groups: map<TrackKey, seq<Task>>, keys: set<TrackKey>, hardPairs: Pairs): set<EdgeId>
    requires keys <= groups.Keys
  {
    set key, id | key in keys && id in GroupIds(groups[key], TrackRule(key), hardPairs) :: id
  }

  lemma NextGroup(groups: map<TrackKey, seq<Task>>, rest: set<TrackKey>, key: TrackKey, hardPairs: Pairs)
    requires rest <= groups.Keys && key in rest
    ensures IdsIn(groups, groups.Keys - (rest - {key}), hardPairs) ==
            IdsIn(groups, groups.Keys - rest, hardPairs) + GroupIds(groups[key], TrackRule(key), hardPairs)
  {
    assert groups.Keys - (rest - {key}) == (groups.Keys - rest) + {key};
  }

  // The loop over groups. Its order does not matter for the edges it leaves.
  method AddGroups(store: EdgeStore, groups: map<TrackKey, seq<Task>>, hardPairs: Pairs, lookup: map<string, Task>)
    requires forall key :: key in groups ==> GroupForward(lookup, groups[key])
    modifies store
    ensures store.edges.Keys == old(store.edges.Keys) + IdsIn(groups, groups.Keys, hardPairs)
  {
    var rest := groups.Keys;
    while rest != {}
      invariant rest <= groups.Keys
      invariant store.edges.Keys == old(store.edges.Keys) + IdsIn(groups, groups.Keys - rest, hardPairs)
      decreases |rest|
    {
      var key :| key in rest;
      AddAdjacent(store, groups[key], TrackRule(key), hardPairs, lookup);
      NextGroup(groups, rest, key, hardPairs);
      rest := rest - {key};
    }
    assert groups.Keys - {} == groups.Keys;
  }

  lemma GroupIdIsSoftId(tasks: seq<Task>, key: TrackKey, hardPairs: Pairs, id: EdgeId)
    requires id in GroupIds(TrackGroup(tasks, key), TrackRule(key), hardPairs)
    ensures id in SoftIds(tasks, hardPairs)
  {
    AdjacentAreNeighbours(tasks, key, (id.source, id.target));
  }

  lemma SoftIdInGroup(tasks: seq<Task>, hardPairs: Pairs, id: EdgeId) returns (key: TrackKey)
    requires id in SoftIds(tasks, hardPairs)
    ensures id in GroupIds(TrackGroup(tasks, key), TrackRule(key), hardPairs) && TrackGroup(tasks, key) != []
  {
    var i, j :| 0 <= i < |tasks| && 0 <= j < |tasks| && TrackNeighbours(tasks, i, j)
                && id == EdgeId(tasks[i].taskId, tasks[j].taskId, SoftContext, TrackRule((tasks[i].blockId, tasks[i].track.value)));
    key := (tasks[i].blockId, tasks[i].track.value);
    assert OnTrack(tasks[i], key);
    AdjacentAreNeighbours(tasks, key, (id.source, id.target));
  }

  lemma AllGroups(tasks: seq<Task>, groups: map<TrackKey, seq<Task>>, hardPairs: Pairs)
    requires GroupsHold(tasks, groups)
    ensures IdsIn(groups, groups.Keys, hardPairs) == SoftIds(tasks, hardPairs)
  {
    forall id ensures id in IdsIn(groups, groups.Keys, hardPairs) <==> id in SoftIds(tasks, hardPairs) {
      if id in IdsIn(groups, groups.Keys, hardPairs) {
        var key :| key in groups.Keys && id in GroupIds(groups[key], TrackRule(key), hardPairs);
        GroupIdIsSoftId(tasks, key, hardPairs, id);
      }
      if id in SoftIds(tasks, hardPairs) {
        var key := SoftIdInGroup(tasks, hardPairs, id);
        assert key in groups.Keys;
      }
    }
  }

  // ---- Coverage ----

  // Every same-track neighbour pair is in exactly one of the two edge sets, soft edges hold
  // nothing else, and together the edges are still acyclic.
  lemma SoftEdgesComplete(tasks: seq<Task>, hardPairs: Pairs, softPairs: Pairs)
    requires Parsed(tasks) && ForwardPairs(tasks, hardPairs)
    requires softPairs == SameTrackPairs(tasks) - hardPairs
    ensures forall e :: e in SameTrackPairs(tasks) ==> (e in hardPairs <==> e !in softPairs)
    ensures softPairs !! hardPairs && softPairs <= SameTrackPairs(tasks)
    ensures Acyclic(hardPairs + softPairs)
  {
    NeighboursForward(tasks);
    ForwardPairsAcyclic(tasks, hardPairs + softPairs);
  }

  // A track of k tasks in a block has exactly k - 1 neighbour pairs.
  lemma {:induction false} TrackPairCount(tasks: seq<Task>, key: TrackKey)
    requires NoDup(TaskIds(tasks))
    ensures |AdjacentIds(TrackGroup(tasks, key))| == if TrackGroup(tasks, key) == [] then 0 else |TrackGroup(tasks, key)| - 1
  {
    var group := TrackGroup(tasks, key);
    forall a, b | 0 <= a < b < |group| ensures group[a].taskId != group[b].taskId {
      var i, j := GroupOrdered(tasks, key, a, b);
      assert TaskIds(tasks)[i] == group[a].taskId && TaskIds(tasks)[j] == group[b].taskId;
    }
    AdjacentCount(group);
  }

  lemma {:induction false} AdjacentCount(group: seq<Task>)
    requires forall a, b :: 0 <= a < b < |group| ==> group[a].taskId != group[b].taskId
    ensures |AdjacentIds(group)| == if group == [] then 0 else |group| - 1
    ensures forall e :: e in AdjacentIds(group) ==> exists a :: 0 <= a < |group| && group[a].taskId == e.1
  {
    if |group| >= 2 {
      var init := group[..|group| - 1];
      AdjacentCount(init);
      forall a | 0 <= a < |init| ensures init[a].taskId != group[|group| - 1].taskId {
        assert init[a] == group[a];
      }
      assert (group[|group| - 2].taskId, group[|group| - 1].taskId) !in AdjacentIds(init);
      forall e | e in AdjacentIds(group) ensures exists a :: 0 <= a < |group| && group[a].taskId == e.1 {
        if e in AdjacentIds(init) {
          var a :| 0 <= a < |init| && init[a].taskId == e.1;
          assert group[a].taskId == e.1;
        }
      }
    }
  }
}
