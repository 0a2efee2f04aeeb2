// Paths, cycles and reachability in a finite directed graph given by its edge pairs.
module Digraph {
  import opened Sequences

  function Last<T>(p: seq<T>): T
    requires p != []
  {
    p[|p| - 1]
  }

  ghost predicate IsPath<T>(edges: set<(T, T)>, p: seq<T>) {
    && p != []
    && forall i, j :: 0 <= i && j == i + 1 && j < |p| ==> (p[i], p[j]) in edges
  }

  ghost predicate IsCycle<T>(edges: set<(T, T)>, p: seq<T>) {
    |p| >= 2 && IsPath(edges, p) && p[0] == Last(p)
  }

  ghost predicate Acyclic<T(!new)>(edges: set<(T, T)>) {
    forall p :: !IsCycle(edges, p)
  }

  // b is a, or follows a along edges.
  ghost predicate Reaches<T(!new)>(edges: set<(T, T)>, a: T, b: T) {
    exists p :: IsPath(edges, p) && p[0] == a && Last(p) == b
  }

  // b follows a along at least one edge.
  ghost predicate StrictlyReaches<T(!new)>(edges: set<(T, T)>, a: T, b: T) {
    exists p :: IsPath(edges, p) && |p| >= 2 && p[0] == a && Last(p) == b
  }

  // a stands before every position at which b is listed.
  ghost predicate ListedBefore<T>(order: seq<T>, a: T, b: T) {
    forall j :: 0 <= j < |order| && order[j] == b ==> a in order[..j]
  }

  // order lists the nodes so that every edge into a listed node comes from an earlier one.
  ghost predicate Topological<T>(edges: set<(T, T)>, order: seq<T>) {
    NoDup(order) && forall e {:trigger ListedBefore(order, e.0, e.1)} :: e in edges ==> ListedBefore(order, e.0, e.1)
  }

  lemma PathAppend<T>(edges: set<(T, T)>, p: seq<T>, x: T)
    requires IsPath(edges, p) && (Last(p), x) in edges
    ensures IsPath(edges, p + [x])
  {
  }

  lemma PathPrepend<T>(edges: set<(T, T)>, x: T, p: seq<T>)
    requires IsPath(edges, p) && (x, p[0]) in edges
    ensures IsPath(edges, [x] + p)
  {
    var q := [x] + p;
    forall i, j | 0 <= i && j == i + 1 && j < |q| ensures (q[i], q[j]) in edges {
      if i > 0 { assert q[i] == p[i - 1] && q[j] == p[j - 1]; }
    }
  }

  lemma PathSlice<T>(edges: set<(T, T)>, p: seq<T>, lo: nat, hi: nat)
    requires IsPath(edges, p) && lo < hi <= |p|
    ensures IsPath(edges, p[lo..hi])
  {
    var q := p[lo..hi];
    forall i, j | 0 <= i && j == i + 1 && j < |q| ensures (q[i], q[j]) in edges {
      assert q[i] == p[lo + i] && q[j] == p[lo + j];
    }
  }

  // Join two paths at a shared node.
  lemma PathJoin<T>(edges: set<(T, T)>, p: seq<T>, q: seq<T>)
    requires IsPath(edges, p) && IsPath(edges, q) && Last(p) == q[0]
    ensures IsPath(edges, p + q[1..])
    ensures (p + q[1..])[0] == p[0] && Last(p + q[1..]) == Last(q)
  {
    var r := p + q[1..];
    forall i, j | 0 <= i && j == i + 1 && j < |r| ensures (r[i], r[j]) in edges {
      if j >= |p| {
        assert r[j] == q[j - |p| + 1] && r[i] == q[i - |p| + 1];
      }
    }
  }

  lemma ReachesSelf<T(!new)>(edges: set<(T, T)>, a: T)
    ensures Reaches(edges, a, a)
  {
    assert IsPath(edges, [a]);
  }

  lemma ReachesTransitive<T(!new)>(edges: set<(T, T)>, a: T, b: T, c: T)
    requires Reaches(edges, a, b) && Reaches(edges, b, c)
    ensures Reaches(edges, a, c)
  {
    var p :| IsPath(edges, p) && p[0] == a && Last(p) == b;
    var q :| IsPath(edges, q) && q[0] == b && Last(q) == c;
    PathJoin(edges, p, q);
  }

  lemma ReachesEdge<T(!new)>(edges: set<(T, T)>, a: T, b: T)
    requires (a, b) in edges
    ensures Reaches(edges, a, b) && StrictlyReaches(edges, a, b)
  {
    assert IsPath(edges, [a, b]);
  }

  // A set that is closed under following edges contains all a member reaches.
  lemma {:induction false} ClosedUnderPath<T>(edges: set<(T, T)>, closed: set<T>, p: seq<T>)
    requires IsPath(edges, p) && p[0] in closed
    requires forall e :: e in edges && e.0 in closed ==> e.1 in closed
    ensures Last(p) in closed
  {
    if |p| > 1 {
      PathSlice(edges, p, 1, |p|);
      assert (p[0], p[1]) in edges;
      ClosedUnderPath(edges, closed, p[1..]);
    }
  }

  // Along a path a rank that rises on every edge has risen by at least the path's length.
  lemma {:induction false} RankAlongPath<T>(edges: set<(T, T)>, rank: map<T, int>, p: seq<T>)
    requires IsPath(edges, p) && p[0] in rank
    requires forall e :: e in edges ==> e.0 in rank && e.1 in rank && rank[e.0] < rank[e.1]
    ensures Last(p) in rank && rank[p[0]] + |p| - 1 <= rank[Last(p)]
  {
    if |p| > 1 {
      PathSlice(edges, p, 1, |p|);
      assert (p[0], p[1]) in edges;
      RankAlongPath(edges, rank, p[1..]);
    }
  }

  // A numbering that rises along every edge witnesses acyclicity.
  lemma RankedIsAcyclic<T(!new)>(edges: set<(T, T)>, rank: map<T, int>)
    requires forall e :: e in edges ==> e.0 in rank && e.1 in rank && rank[e.0] < rank[e.1]
    ensures Acyclic(edges)
  {
    forall p ensures !IsCycle(edges, p) {
      if IsCycle(edges, p) {
        assert (p[0], p[1]) in edges;
        RankAlongPath(edges, rank, p);
      }
    }
  }

  // The cycle hidden in a path that visits a node twice.
  lemma RepeatIsCycle<T>(edges: set<(T, T)>, p: seq<T>, i: nat, j: nat)
    requires IsPath(edges, p) && i < j < |p| && p[i] == p[j]
    ensures IsCycle(edges, p[i..j + 1])
  {
    PathSlice(edges, p, i, j + 1);
  }

  ghost predicate HasPredecessorIn<T(!new)>(edges: set<(T, T)>, core: set<T>, t: T) {
    exists s :: s in core && (s, t) in edges
  }

  ghost predicate EveryoneHasPredecessorIn<T(!new)>(edges: set<(T, T)>, core: set<T>) {
    forall t {:trigger HasPredecessorIn(edges, core, t)} :: t in core ==> HasPredecessorIn(edges, core, t)
  }

  // If every member of core has a predecessor in core, one can walk backwards in core for ever.
  lemma {:induction false} BackwardWalk<T(!new)>(edges: set<(T, T)>, core: set<T>, x: T, n: nat) returns (p: seq<T>)
    requires x in core
    requires EveryoneHasPredecessorIn(edges, core)
    ensures |p| == n + 1 && IsPath(edges, p) && Last(p) == x
    ensures forall k :: 0 <= k < |p| ==> p[k] in core
  {
    if n == 0 {
      p := [x];
    } else {
      var q := BackwardWalk(edges, core, x, n - 1);
      assert HasPredecessorIn(edges, core, q[0]);
      var s :| s in core && (s, q[0]) in edges;
      PathPrepend(edges, s, q);
      p := [s] + q;
    }
  }

  // x lies on a cycle or downstream of one: some path into x closes a loop at its start.
  ghost predicate DownstreamOfCycle<T(!new)>(edges: set<(T, T)>, x: T) {
    exists p, j :: IsPath(edges, p) && Last(p) == x && 0 < j < |p| && p[j] == p[0]
  }

  // In such a core every node is downstream of a cycle that stays inside the core.
  lemma CoreHasCycle<T(!new)>(edges: set<(T, T)>, core: set<T>, x: T) returns (c: seq<T>)
    requires x in core
    requires EveryoneHasPredecessorIn(edges, core)
    ensures IsCycle(edges, c) && forall k :: 0 <= k < |c| ==> c[k] in core
    ensures DownstreamOfCycle(edges, x)
  {
    var p := BackwardWalk(edges, core, x, |core|);
    var i, j := Pigeonhole(p, core);
    RepeatIsCycle(edges, p, i, j);
    c := p[i..j + 1];
    PathSlice(edges, p, i, |p|);
    var q := p[i..];
    assert IsPath(edges, q) && Last(q) == x && q[j - i] == q[0];
  }

  // Nothing listed by a topological order is downstream of a cycle.
  lemma TopologicalAvoidsCycles<T(!new)>(edges: set<(T, T)>, order: seq<T>, x: T)
    requires Topological(edges, order) && x in order
    ensures !DownstreamOfCycle(edges, x)
  {
    if DownstreamOfCycle(edges, x) {
      var p, j :| IsPath(edges, p) && Last(p) == x && 0 < j < |p| && p[j] == p[0];
      var k := PositionFalls(edges, order, p, 0);
      PathSlice(edges, p, 0, j + 1);
      var m := PositionFalls(edges, order, p, j);
      PositionsAlongPath(edges, order, p[..j + 1], m);
      assert false;
    }
  }

  lemma {:induction false} PositionFalls<T>(edges: set<(T, T)>, order: seq<T>, p: seq<T>, i: nat) returns (k: nat)
    requires Topological(edges, order) && IsPath(edges, p) && Last(p) in order && i < |p|
    ensures k < |order| && order[k] == p[i]
    decreases |p| - i
  {
    if i == |p| - 1 {
      k :| 0 <= k < |order| && order[k] == p[i];
    } else {
      var m := PositionFalls(edges, order, p, i + 1);
      var e := (p[i], p[i + 1]);
      assert e in edges;
      assert ListedBefore(order, e.0, e.1);
      assert p[i] in order[..m];
      k :| 0 <= k < m && order[k] == p[i];
    }
  }

  // Walking back along a path from position m of the order strictly lowers the position.
  lemma {:induction false} PositionsAlongPath<T>(edges: set<(T, T)>, order: seq<T>, p: seq<T>, m: nat)
    requires Topological(edges, order) && IsPath(edges, p) && m < |order| && order[m] == Last(p)
    ensures |p| > 1 ==> p[0] in order[..m] && p[0] != Last(p)
  {
    if |p| > 1 {
      var init := p[..|p| - 1];
      PathSlice(edges, p, 0, |p| - 1);
      var e := (p[|p| - 2], p[|p| - 1]);
      assert e in edges;
      assert ListedBefore(order, e.0, e.1);
      assert Last(init) in order[..m];
      var k :| 0 <= k < m && order[k] == Last(init);
      PositionsAlongPath(edges, order, init, k);
    }
  }

  // A complete topological order exists exactly for acyclic graphs: the "only if" half.
  lemma TopologicalIsAcyclic<T(!new)>(edges: set<(T, T)>, order: seq<T>)
    requires Topological(edges, order)
    requires forall e :: e in edges ==> e.1 in order
    ensures Acyclic(edges)
  {
    forall p ensures !IsCycle(edges, p) {
      if IsCycle(edges, p) {
        assert (p[|p| - 2], p[|p| - 1]) in edges;
        var m :| 0 <= m < |order| && order[m] == Last(p);
        PositionsAlongPath(edges, order, p, m);
      }
    }
  }

  // A complete topological order exists exactly for acyclic graphs: the "if" half.
  lemma AcyclicHasOrder<T(!new)>(edges: set<(T, T)>, nodes: set<T>) returns (order: seq<T>)
    requires Acyclic(edges)
    requires forall e :: e in edges ==> e.0 in nodes && e.1 in nodes
    ensures Topological(edges, order) && Elements(order) == nodes
  {
    order := [];
    var rest := nodes;
    while rest != {}
      invariant rest <= nodes && rest == nodes - Elements(order) && Elements(order) <= nodes
      invariant Topological(edges, order)
      decreases |rest|
    {
      if EveryoneHasPredecessorIn(edges, rest) {
        var x :| x in rest;
        var c := CoreHasCycle(edges, rest, x);
        assert false;
      }
      var t :| t in rest && !HasPredecessorIn(edges, rest, t);
      forall e | e in edges && e.1 == t ensures e.0 in order {
        assert e == (e.0, t);
        assert e.0 in nodes && e.0 !in rest;
      }
      ExtendTopological(edges, order, t);
      assert Elements(order + [t]) == Elements(order) + {t};
      order := order + [t];
      rest := rest - {t};
    }
  }

  lemma ExtendTopological<T>(edges: set<(T, T)>, order: seq<T>, t: T)
    requires Topological(edges, order) && t !in order
    requires forall e :: e in edges && e.1 == t ==> e.0 in order
    ensures Topological(edges, order + [t])
  {
    var longer := order + [t];
    forall e | e in edges ensures ListedBefore(longer, e.0, e.1) {
      assert ListedBefore(order, e.0, e.1);
      forall j | 0 <= j < |longer| && longer[j] == e.1 ensures e.0 in longer[..j] {
        assert longer[..j] == if j < |order| then order[..j] else order;
      }
    }
  }

  // ---- Turning every edge round ----

  ghost function Flip<T>(edges: set<(T, T)>): set<(T, T)> {
    set e | e in edges :: (e.1, e.0)
  }

  lemma FlipMember<T>(edges: set<(T, T)>, a: T, b: T)
    ensures (a, b) in Flip(edges) <==> (b, a) in edges
  {
    if (b, a) in edges {
      var e := (b, a);
      assert e in edges && (e.1, e.0) == (a, b);
    }
  }

  ghost function Backwards<T>(p: seq<T>): (r: seq<T>)
    ensures |r| == |p| && forall i :: 0 <= i < |p| ==> r[i] == p[|p| - 1 - i]
  {
    seq(|p|, i requires 0 <= i < |p| => p[|p| - 1 - i])
  }

  lemma FlipPath<T>(edges: set<(T, T)>, p: seq<T>)
    requires IsPath(edges, p)
    ensures IsPath(Flip(edges), Backwards(p))
    ensures Backwards(p)[0] == Last(p) && Last(Backwards(p)) == p[0]
  {
    var r := Backwards(p);
    forall i, j | 0 <= i && j == i + 1 && j < |r| ensures (r[i], r[j]) in Flip(edges) {
      var m, n := |p| - 1 - j, |p| - 1 - i;
      assert n == m + 1 && (p[m], p[n]) in edges;
      FlipMember(edges, p[n], p[m]);
    }
  }

  lemma FlipTwice<T>(edges: set<(T, T)>)
    ensures Flip(Flip(edges)) == edges
  {
    forall e ensures e in Flip(Flip(edges)) <==> e in edges {
      FlipMember(edges, e.1, e.0);
      FlipMember(Flip(edges), e.0, e.1);
    }
  }

  lemma FlipAcyclic<T(!new)>(edges: set<(T, T)>)
    ensures Acyclic(edges) <==> Acyclic(Flip(edges))
  {
    FlipTwice(edges);
    if p :| IsCycle(edges, p) {
      FlipPath(edges, p);
      assert IsCycle(Flip(edges), Backwards(p));
    }
    if p :| IsCycle(Flip(edges), p) {
      FlipPath(Flip(edges), p);
      assert IsCycle(edges, Backwards(p));
    }
  }
}
