// The acyclicity check of the DAG builder: Kahn's algorithm over predecessor counts.
module Kahn {
  import opened Sequences
  import opened Digraph
  import opened HardEdges
  import opened HardGraph

  datatype Verdict = Sorted(ordered: seq<string>) | Contradiction(blocked: set<string>)

  function ZeroDegree(indegree: map<string, int>): set<string> {
    set t | t in indegree && indegree[t] == 0
  }

  // One pass of the inner loop: every follower loses one pending predecessor, and those that
  // reach zero queue up in order.
  method Release(followers: seq<string>, indegree: map<string, int>, ready: seq<string>)
    returns (indegree': map<string, int>, ready': seq<string>)
    requires NoDup(followers) && forall t :: t in followers ==> t in indegree
    ensures indegree'.Keys == indegree.Keys
    ensures forall t :: t in indegree ==> indegree'[t] == indegree[t] - if t in followers then 1 else 0
    ensures ready' == ready + Filter(followers, ZeroDegree(indegree'))
  {
    indegree', ready' := indegree, ready;
    for k := 0 to |followers|
      invariant indegree'.Keys == indegree.Keys
      invariant forall t :: t in indegree ==> indegree'[t] == indegree[t] - if t in followers[..k] then 1 else 0
      invariant ready' == ready + Filter(followers[..k], ZeroDegree(indegree'))
    {
      var follower := followers[k];
      ghost var before := indegree';
      indegree' := indegree'[follower := indegree'[follower] - 1];
      if indegree'[follower] == 0 {
        ready' := ready' + [follower];
      }
      assert followers[..k + 1][..k] == followers[..k];
      assert follower !in followers[..k];
      FilterAgrees(followers[..k], ZeroDegree(before), ZeroDegree(indegree'));
    }
    assert followers[..|followers|] == followers;
  }

  lemma {:induction false} FilterAgrees<T>(s: seq<T>, a: set<T>, b: set<T>)
    requires forall x :: x in s ==> (x in a <==> x in b)
    ensures Filter(s, a) == Filter(s, b)
  {
    if s != [] {
      FilterAgrees(s[..|s| - 1], a, b);
    }
  }

  // Each count is the number of predecessors not yet ordered.
  ghost predicate CountsPending(preds: Adjacency, indegree: map<string, int>, ordered: seq<string>) {
    forall t :: t in indegree ==> t in preds && indegree[t] == |Elements(preds[t]) - Elements(ordered)|
  }

  // The ordered and queued tasks are exactly those with nothing pending, each listed once.
  ghost predicate QueueExact(indegree: map<string, int>, queue: seq<string>) {
    NoDup(queue) && Elements(queue) == ZeroDegree(indegree)
  }

  lemma CountsStart(preds: Adjacency, indegree: map<string, int>)
    requires ListsNoDup(preds) && indegree.Keys == preds.Keys
    requires forall t :: t in indegree ==> indegree[t] == |preds[t]|
    ensures CountsPending(preds, indegree, [])
  {
    forall t | t in indegree ensures indegree[t] == |Elements(preds[t]) - Elements([])| {
      NoDupSize(preds[t]);
      assert Elements(preds[t]) - Elements([]) == Elements(preds[t]);
    }
  }

  // Ordering one more task takes one pending predecessor from exactly its followers.
  lemma PendingStep(pending: set<string>, ordered: seq<string>, current: string)
    requires current !in ordered
    ensures |pending - Elements(ordered + [current])| ==
            |pending - Elements(ordered)| - if current in pending then 1 else 0
  {
    assert Elements(ordered + [current]) == Elements(ordered) + {current};
    assert pending - Elements(ordered + [current]) == (pending - Elements(ordered)) - {current};
  }

  lemma CountsStep(pairs: Pairs, preds: Adjacency, succs: Adjacency, indegree: map<string, int>,
                   ordered: seq<string>, current: string, indegree': map<string, int>)
    requires ListsSources(preds, pairs) && ListsTargets(succs, pairs)
    requires CountsPending(preds, indegree, ordered) && current !in ordered && current in succs
    requires indegree'.Keys == indegree.Keys
    requires forall t :: t in indegree ==> indegree'[t] == indegree[t] - if t in succs[current] then 1 else 0
    ensures CountsPending(preds, indegree', ordered + [current])
    ensures forall t :: t in succs[current] && t in indegree ==> indegree[t] > 0
  {
    forall t | t in indegree
      ensures indegree'[t] == |Elements(preds[t]) - Elements(ordered + [current])|
      ensures t in succs[current] ==> indegree[t] > 0
    {
      PendingStep(Elements(preds[t]), ordered, current);
      assert t in succs[current] <==> (current, t) in pairs;
      assert current in preds[t] <==> (current, t) in pairs;
    }
  }

  lemma QueueStep(indegree: map<string, int>, queue: seq<string>, followers: seq<string>, indegree': map<string, int>)
    requires QueueExact(indegree, queue) && NoDup(followers)
    requires indegree'.Keys == indegree.Keys
    requires forall t :: t in followers ==> t in indegree && indegree[t] > 0
    requires forall t :: t in indegree ==> indegree'[t] == indegree[t] - if t in followers then 1 else 0
    ensures QueueExact(indegree', queue + Filter(followers, ZeroDegree(indegree')))
  {
    var released := Filter(followers, ZeroDegree(indegree'));
    FilterMembers(followers, ZeroDegree(indegree'));
    assert Elements(queue + released) == Elements(queue) + Elements(released);
    assert Elements(queue) !! Elements(released);
    NoDupConcat(queue, released);
    assert ZeroDegree(indegree') == ZeroDegree(indegree) + Elements(followers) * ZeroDegree(indegree');
  }

  lemma NoDupConcat<T>(a: seq<T>, b: seq<T>)
    requires NoDup(a) && NoDup(b) && Elements(a) !! Elements(b)
    ensures NoDup(a + b)
  {
    var c := a + b;
    forall i, j | 0 <= i < j < |c| ensures c[i] != c[j] {
      if i < |a| <= j {
        assert c[i] in Elements(a) && c[j] in Elements(b);
      }
    }
  }

  // The head of the queue has not been ordered and waits for nothing.
  lemma HeadOfQueue(indegree: map<string, int>, ordered: seq<string>, ready: seq<string>)
    requires QueueExact(indegree, ordered + ready) && ready != []
    ensures ready[0] in indegree && indegree[ready[0]] == 0 && ready[0] !in ordered
    ensures |ordered| < |indegree.Keys|
    ensures ordered + ready == ordered + [ready[0]] + ready[1..]
  {
    var queue := ordered + ready;
    assert queue[|ordered|] == ready[0];
    assert ready[0] in Elements(queue);
    forall i | 0 <= i < |ordered| ensures ordered[i] != ready[0] {
      assert queue[i] == ordered[i];
    }
    NoDupSize(queue);
    SubsetSize(Elements(queue), indegree.Keys);
  }

  lemma NothingPending(pairs: Pairs, preds: Adjacency, ordered: seq<string>, current: string)
    requires ListsSources(preds, pairs) && current in preds
    requires |Elements(preds[current]) - Elements(ordered)| == 0
    ensures forall e :: e in pairs && e.1 == current ==> e.0 in ordered
  {
    assert Elements(preds[current]) - Elements(ordered) == {};
    forall e | e in pairs && e.1 == current ensures e.0 in ordered {
      assert e == (e.0, current);
      assert e.0 in Elements(preds[current]);
      assert e.0 !in Elements(preds[current]) - Elements(ordered);
    }
  }

  lemma SomethingPending(preds: Adjacency, indegree: map<string, int>, ordered: seq<string>, t: string) returns (s: string)
    requires CountsPending(preds, indegree, ordered) && t in indegree && indegree[t] != 0
    ensures t in preds && s in preds[t] && s !in ordered
  {
    assert Elements(preds[t]) - Elements(ordered) != {};
    s :| s in Elements(preds[t]) - Elements(ordered);
  }

  // At the end an incomplete order leaves a core in which everyone waits for someone.
  lemma StuckCore(pairs: Pairs, preds: Adjacency, indegree: map<string, int>, ordered: seq<string>)
    requires ListsSources(preds, pairs) && CountsPending(preds, indegree, ordered)
    requires Blocked(indegree) == indegree.Keys - Elements(ordered)
    requires forall e :: e in pairs ==> e.0 in indegree
    ensures EveryoneHasPredecessorIn(pairs, Blocked(indegree))
  {
    var core := Blocked(indegree);
    forall t | t in core ensures HasPredecessorIn(pairs, core, t) {
      var s := SomethingPending(preds, indegree, ordered, t);
      assert (s, t) in pairs;
      assert s in core;
    }
  }

  lemma BlockedAreUnordered(preds: Adjacency, indegree: map<string, int>, ordered: seq<string>)
    requires CountsPending(preds, indegree, ordered) && QueueExact(indegree, ordered)
    ensures Blocked(indegree) == indegree.Keys - Elements(ordered)
  {
    forall t | t in indegree ensures indegree[t] >= 0 { }
  }

  // The tasks the error message names.
  function Blocked(indegree: map<string, int>): set<string> {
    set t | t in indegree && indegree[t] > 0
  }

  // They are exactly the tasks on or downstream of a cycle.
  lemma BlockedExactly(pairs: Pairs, indegree: map<string, int>, ordered: seq<string>)
    requires EveryoneHasPredecessorIn(pairs, Blocked(indegree))
    requires Blocked(indegree) == indegree.Keys - Elements(ordered)
    requires Topological(pairs, ordered)
    requires forall e :: e in pairs ==> e.0 in indegree
    requires Elements(ordered) != indegree.Keys && Elements(ordered) <= indegree.Keys
    ensures CycleWithin(pairs, Blocked(indegree)) && !Acyclic(pairs)
    ensures forall t :: t in indegree ==> (t in Blocked(indegree) <==> DownstreamOfCycle(pairs, t))
  {
    var blocked := Blocked(indegree);
    assert indegree.Keys == Elements(ordered) + blocked;
    var x :| x in blocked;
    var c := CoreHasCycle(pairs, blocked, x);
    forall t | t in indegree ensures t in blocked <==> DownstreamOfCycle(pairs, t) {
      if t in blocked {
        var _ := CoreHasCycle(pairs, blocked, t);
      } else {
        TopologicalAvoidsCycles(pairs, ordered, t);
      }
    }
  }

  ghost predicate CycleWithin(pairs: Pairs, nodes: set<string>) {
    exists c :: IsCycle(pairs, c) && forall k :: 0 <= k < |c| ==> c[k] in nodes
  }

  lemma Requeue(ordered: seq<string>, ready: seq<string>, released: seq<string>)
    requires ready != []
    ensures ordered + [ready[0]] + (ready[1..] + released) == ordered + ready + released
  {
  }

  // What the loop keeps: exact counts, an exact queue, a topological order so far.
  ghost predicate KahnState(pairs: Pairs, preds: Adjacency, indegree: map<string, int>, ordered: seq<string>, ready: seq<string>) {
    CountsPending(preds, indegree, ordered) && QueueExact(indegree, ordered + ready) && Topological(pairs, ordered)
  }

  // One turn of the loop: order the head of the queue and release its followers.
  method OrderHead(ids: seq<string>, preds: Adjacency, succs: Adjacency, indegree: map<string, int>, ready: seq<string>,
                   ghost pairs: Pairs, ghost ordered: seq<string>)
    returns (indegree': map<string, int>, ready': seq<string>)
    requires ListsSources(preds, pairs) && ListsTargets(succs, pairs) && ListsNoDup(succs) && PairsWithin(pairs, ids)
    requires indegree.Keys == succs.Keys == Elements(ids)
    requires KahnState(pairs, preds, indegree, ordered, ready) && ready != []
    ensures indegree'.Keys == Elements(ids) && |ordered| < |Elements(ids)|
    ensures KahnState(pairs, preds, indegree', ordered + [ready[0]], ready')
  {
    var current := ready[0];
    HeadOfQueue(indegree, ordered, ready);
    FollowersKnown(ids, pairs, succs, current);
    indegree', ready' := Release(succs[current], indegree, ready[1..]);
    CountsStep(pairs, preds, succs, indegree, ordered, current, indegree');
    NothingPending(pairs, preds, ordered, current);
    ExtendTopological(pairs, ordered, current);
    QueueStep(indegree, ordered + ready, succs[current], indegree');
    Requeue(ordered, ready, Filter(succs[current], ZeroDegree(indegree')));
  }

  // The loop, from the initial counts to an empty queue.
  method Drain(ids: seq<string>, preds: Adjacency, succs: Adjacency, ghost pairs: Pairs)
    returns (indegree: map<string, int>, ordered: seq<string>)
    requires GraphLists(ids, pairs, preds, succs)
    ensures indegree.Keys == Elements(ids)
    ensures CountsPending(preds, indegree, ordered) && QueueExact(indegree, ordered) && Topological(pairs, ordered)
  {
    indegree := map t | t in ids :: |preds[t]|;
    var ready := Filter(ids, ZeroDegree(indegree));
    ordered := [];
    CountsStart(preds, indegree);
    FilterMembers(ids, ZeroDegree(indegree));
    assert ordered + ready == ready;
    while ready != []
      invariant indegree.Keys == Elements(ids)
      invariant KahnState(pairs, preds, indegree, ordered, ready)
      decreases |Elements(ids)| - |ordered|
    {
      var current := ready[0];
      indegree, ready := OrderHead(ids, preds, succs, indegree, ready, pairs, ordered);
      ordered := ordered + [current];
    }
    assert ordered + ready == ordered;
  }

  lemma FollowersKnown(ids: seq<string>, pairs: Pairs, succs: Adjacency, current: string)
    requires ListsTargets(succs, pairs) && PairsWithin(pairs, ids) && ListsNoDup(succs) && current in succs
    ensures NoDup(succs[current]) && forall t :: t in succs[current] ==> t in ids
  {
    forall t | t in succs[current] ensures t in ids {
      assert (current, t) in pairs;
    }
  }

  lemma CompleteOrderIsAcyclic(ids: seq<string>, pairs: Pairs, ordered: seq<string>)
    requires PairsWithin(pairs, ids) && Topological(pairs, ordered) && Elements(ordered) == Elements(ids)
    ensures Acyclic(pairs)
  {
    forall e | e in pairs ensures e.1 in ordered {
      assert e.1 in Elements(ids);
      assert e.1 in Elements(ordered);
    }
    TopologicalIsAcyclic(pairs, ordered);
  }

  method AssertAcyclic(ids: seq<string>, preds: Adjacency, succs: Adjacency, ghost pairs: Pairs) returns (verdict: Verdict)
    requires GraphLists(ids, pairs, preds, succs)
    ensures verdict.Sorted? <==> Acyclic(pairs)
    ensures verdict.Sorted? ==>
              Topological(pairs, verdict.ordered) && Elements(verdict.ordered) == Elements(ids) && |verdict.ordered| == |ids|
    ensures verdict.Contradiction? ==> CycleWithin(pairs, verdict.blocked)
    ensures verdict.Contradiction? ==>
              forall t :: t in verdict.blocked <==> t in ids && DownstreamOfCycle(pairs, t)
  {
    var indegree, ordered := Drain(ids, preds, succs, pairs);
    NoDupSize(ordered);
    NoDupSize(ids);
    SubsetSize(Elements(ordered), Elements(ids));
    if |ordered| != |ids| {
      BlockedAreUnordered(preds, indegree, ordered);
      StuckCore(pairs, preds, indegree, ordered);
      BlockedExactly(pairs, indegree, ordered);
      verdict := Contradiction(Blocked(indegree));
    } else {
      CompleteOrderIsAcyclic(ids, pairs, ordered);
      verdict := Sorted(ordered);
    }
  }
}
