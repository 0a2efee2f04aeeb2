// The deduplicated hard graph: predecessor and successor lists in checklist order.
module HardGraph {
  import opened Sequences
  import opened Digraph
  import opened Checklist
  import opened EdgeIds
  import opened HardEdges

  type Adjacency = map<string, seq<string>>

  ghost predicate ListsSources(preds: Adjacency, pairs: Pairs) {
    forall s, t :: t in preds ==> (s in preds[t] <==> (s, t) in pairs)
  }

  ghost predicate ListsTargets(succs: Adjacency, pairs: Pairs) {
    forall s, t :: s in succs ==> (t in succs[s] <==> (s, t) in pairs)
  }

  ghost predicate ListsNoDup(adjacency: Adjacency) {
    forall t :: t in adjacency ==> NoDup(adjacency[t])
  }

  ghost predicate PairsWithin(pairs: Pairs, ids: seq<string>) {
    forall e :: e in pairs ==> e.0 in ids && e.1 in ids
  }

  // Mutually inverse, duplicate-free predecessor and successor lists that together hold exactly
  // the given pairs. This is what the acyclicity check and the levels rely on.
  ghost predicate GraphLists(ids: seq<string>, pairs: Pairs, preds: Adjacency, succs: Adjacency) {
    && NoDup(ids) && PairsWithin(pairs, ids)
    && preds.Keys == Elements(ids) && succs.Keys == Elements(ids)
    && ListsNoDup(preds) && ListsNoDup(succs)
    && ListsSources(preds, pairs) && ListsTargets(succs, pairs)
  }

  function SourcesInto(ids: seq<string>, pairs: Pairs, t: string): set<string> {
    set s | s in ids && (s, t) in pairs
  }

  function TargetsFrom(ids: seq<string>, pairs: Pairs, s: string): set<string> {
    set t | t in ids && (s, t) in pairs
  }

  function PairAll(sources: seq<string>, t: string): seq<(string, string)> {
    seq(|sources|, i requires 0 <= i < |sources| => (sources[i], t))
  }

  // The pairs with target among the first n ids, sorted by (target position, source position).
  function SortedPairs(ids: seq<string>, pairs: Pairs, n: nat): seq<(string, string)>
    requires n <= |ids|
  {
    if n == 0 then []
    else SortedPairs(ids, pairs, n - 1) + PairAll(Filter(ids, SourcesInto(ids, pairs, ids[n - 1])), ids[n - 1])
  }

  // It is a sort: the same pairs, each once, with strictly rising keys.
  lemma {:induction false} SortedPairsIsSort(ids: seq<string>, pairs: Pairs, n: nat)
    requires NoDup(ids) && n <= |ids|
    requires PairsWithin(pairs, ids)
    ensures forall e :: e in SortedPairs(ids, pairs, n) <==> e in pairs && e.1 in ids[..n]
    ensures forall a, b :: 0 <= a < b < |SortedPairs(ids, pairs, n)| ==>
              KeyBelow(ids, SortedPairs(ids, pairs, n)[a], SortedPairs(ids, pairs, n)[b])
  {
    if n > 0 {
      SortedPairsIsSort(ids, pairs, n - 1);
      var t := ids[n - 1];
      var keep := SourcesInto(ids, pairs, t);
      var sources := Filter(ids, keep);
      FilterMembers(ids, keep);
      var before, last := SortedPairs(ids, pairs, n - 1), PairAll(sources, t);
      assert ids[..n] == ids[..n - 1] + [t];
      forall e ensures e in last <==> e in pairs && e.1 == t {
        InFilter(ids, keep, e.0);
        if e in last {
          var k :| 0 <= k < |last| && last[k] == e;
          assert sources[k] == e.0;
        }
        if e in pairs && e.1 == t {
          var k :| 0 <= k < |sources| && sources[k] == e.0;
          assert last[k] == e;
        }
      }
      forall a, b | 0 <= a < b < |before + last| ensures KeyBelow(ids, (before + last)[a], (before + last)[b]) {
        var x, y := (before + last)[a], (before + last)[b];
        if b >= |before| {
          assert y == last[b - |before|];
          if a < |before| {
            assert x in before;
            assert x.1 in ids[..n - 1];
            var i :| 0 <= i < n - 1 && ids[i] == x.1;
            KeyBelowByTarget(ids, x, y, i, n - 1);
          } else {
            var i, j := FilterOrder(ids, keep, a - |before|, b - |before|);
            KeyBelowBySource(ids, x, y, i, j);
          }
        }
      }
    }
  }

  // e comes strictly before f by (target position, source position).
  ghost predicate KeyBelow(ids: seq<string>, e: (string, string), f: (string, string)) {
    && e.0 in ids && e.1 in ids && f.0 in ids && f.1 in ids
    && (IndexOf(ids, e.1) < IndexOf(ids, f.1)
        || (IndexOf(ids, e.1) == IndexOf(ids, f.1) && IndexOf(ids, e.0) < IndexOf(ids, f.0)))
  }

  lemma KeyBelowByTarget(ids: seq<string>, e: (string, string), f: (string, string), i: nat, j: nat)
    requires NoDup(ids) && i < j < |ids| && ids[i] == e.1 && ids[j] == f.1 && e.0 in ids && f.0 in ids
    ensures KeyBelow(ids, e, f)
  {
    assert IndexOf(ids, e.1) == i && IndexOf(ids, f.1) == j;
  }

  lemma KeyBelowBySource(ids: seq<string>, e: (string, string), f: (string, string), i: nat, j: nat)
    requires NoDup(ids) && i < j < |ids| && ids[i] == e.0 && ids[j] == f.0 && e.1 == f.1 && e.1 in ids
    ensures KeyBelow(ids, e, f)
  {
    assert IndexOf(ids, e.0) == i && IndexOf(ids, f.0) == j;
  }

  // ---- What appending the sorted pairs one by one leaves in each list ----

  function SourcesListed(list: seq<(string, string)>, t: string): seq<string> {
    if list == [] then []
    else
      var e := list[|list| - 1];
      SourcesListed(list[..|list| - 1], t) + if e.1 == t then [e.0] else []
  }

  function TargetsListed(list: seq<(string, string)>, s: string): seq<string> {
    if list == [] then []
    else
      var e := list[|list| - 1];
      TargetsListed(list[..|list| - 1], s) + if e.0 == s then [e.1] else []
  }

  lemma {:induction false} SourcesListedConcat(a: seq<(string, string)>, b: seq<(string, string)>, t: string)
    ensures SourcesListed(a + b, t) == SourcesListed(a, t) + SourcesListed(b, t)
  {
    if b == [] {
      assert a + b == a;
    } else {
      var n := |b| - 1;
      SourcesListedConcat(a, b[..n], t);
      assert (a + b)[..|a + b| - 1] == a + b[..n];
    }
  }

  lemma {:induction false} TargetsListedConcat(a: seq<(string, string)>, b: seq<(string, string)>, s: string)
    ensures TargetsListed(a + b, s) == TargetsListed(a, s) + TargetsListed(b, s)
  {
    if b == [] {
      assert a + b == a;
    } else {
      var n := |b| - 1;
      TargetsListedConcat(a, b[..n], s);
      assert (a + b)[..|a + b| - 1] == a + b[..n];
    }
  }

  lemma {:induction false} PairAllSources(sources: seq<string>, t: string, t': string)
    ensures SourcesListed(PairAll(sources, t), t') == if t == t' then sources else []
  {
    if sources != [] {
      var n := |sources| - 1;
      assert PairAll(sources, t)[..n] == PairAll(sources[..n], t);
      PairAllSources(sources[..n], t, t');
      assert sources == sources[..n] + [sources[n]];
    }
  }

  lemma {:induction false} PairAllTargets(sources: seq<string>, t: string, s: string)
    requires NoDup(sources)
    ensures TargetsListed(PairAll(sources, t), s) == if s in sources then [t] else []
  {
    if sources != [] {
      var n := |sources| - 1;
      assert PairAll(sources, t)[..n] == PairAll(sources[..n], t);
      PairAllTargets(sources[..n], t, s);
      InPrefix(sources, |sources|, s);
      assert sources[..|sources|] == sources;
    }
  }

  // Sorting by (target, source) leaves both kinds of list in checklist order.
  lemma {:induction false} SortedPairsSources(ids: seq<string>, pairs: Pairs, n: nat, x: string)
    requires NoDup(ids) && n <= |ids|
    ensures SourcesListed(SortedPairs(ids, pairs, n), x) ==
            if x in ids[..n] then Filter(ids, SourcesInto(ids, pairs, x)) else []
  {
    if n > 0 {
      SortedPairsSources(ids, pairs, n - 1, x);
      var t := ids[n - 1];
      ListedInto(ids, SortedPairs(ids, pairs, n - 1), SourcesInto(ids, pairs, t), t, x);
      InPrefix(ids, n, x);
    }
  }

  lemma InPrefix<T>(s: seq<T>, n: nat, x: T)
    requires NoDup(s) && 0 < n <= |s|
    ensures x in s[..n] <==> x in s[..n - 1] || x == s[n - 1]
    ensures x in s[..n - 1] ==> x != s[n - 1]
  {
    assert s[..n] == s[..n - 1] + [s[n - 1]];
  }

  // Appending one target's pairs extends that target's sources and its sources' targets.
  lemma ListedInto(ids: seq<string>, before: seq<(string, string)>, keep: set<string>, t: string, x: string)
    requires NoDup(ids)
    ensures var list := before + PairAll(Filter(ids, keep), t);
            && SourcesListed(list, x) == SourcesListed(before, x) + (if x == t then Filter(ids, keep) else [])
            && TargetsListed(list, x) == TargetsListed(before, x) + (if x in ids && x in keep then [t] else [])
  {
    FilterMembers(ids, keep);
    InFilter(ids, keep, x);
    PairAllSources(Filter(ids, keep), t, x);
    PairAllTargets(Filter(ids, keep), t, x);
    SourcesListedConcat(before, PairAll(Filter(ids, keep), t), x);
    TargetsListedConcat(before, PairAll(Filter(ids, keep), t), x);
  }

  lemma FilterStep<T>(s: seq<T>, keep: set<T>, n: nat)
    requires 0 < n <= |s|
    ensures Filter(s[..n], keep) == Filter(s[..n - 1], keep) + if s[n - 1] in keep then [s[n - 1]] else []
  {
    assert s[..n][..n - 1] == s[..n - 1];
  }

  lemma {:induction false} SortedPairsTargets(ids: seq<string>, pairs: Pairs, n: nat, x: string)
    requires NoDup(ids) && n <= |ids| && x in ids
    ensures TargetsListed(SortedPairs(ids, pairs, n), x) == Filter(ids[..n], TargetsFrom(ids, pairs, x))
  {
    if n > 0 {
      SortedPairsTargets(ids, pairs, n - 1, x);
      var t := ids[n - 1];
      ListedInto(ids, SortedPairs(ids, pairs, n - 1), SourcesInto(ids, pairs, t), t, x);
      FilterStep(ids, TargetsFrom(ids, pairs, x), n);
    }
  }

  lemma {:induction false} FirstOccurrencesOfNoDup<T>(s: seq<T>)
    requires NoDup(s)
    ensures FirstOccurrences(s) == s
  {
    if s != [] {
      FirstOccurrencesOfNoDup(s[..|s| - 1]);
      assert s == s[..|s| - 1] + [s[|s| - 1]];
    }
  }

  lemma ListsFromFilters(ids: seq<string>, pairs: Pairs, preds: Adjacency, succs: Adjacency)
    requires NoDup(ids) && preds.Keys == Elements(ids) && succs.Keys == Elements(ids)
    requires PairsWithin(pairs, ids)
    requires forall t :: t in preds ==> preds[t] == Filter(ids, SourcesInto(ids, pairs, t))
    requires forall s :: s in succs ==> succs[s] == Filter(ids, TargetsFrom(ids, pairs, s))
    ensures GraphLists(ids, pairs, preds, succs)
  {
    forall t | t in preds ensures NoDup(preds[t]) && forall s :: s in preds[t] <==> (s, t) in pairs {
      FilterMembers(ids, SourcesInto(ids, pairs, t));
      forall s ensures s in preds[t] <==> (s, t) in pairs { InFilter(ids, SourcesInto(ids, pairs, t), s); }
    }
    forall s | s in succs ensures NoDup(succs[s]) && forall t :: t in succs[s] <==> (s, t) in pairs {
      FilterMembers(ids, TargetsFrom(ids, pairs, s));
      forall t ensures t in succs[s] <==> (s, t) in pairs { InFilter(ids, TargetsFrom(ids, pairs, s), t); }
    }
  }

  ghost predicate ListsInOrder(ids: seq<string>, pairs: Pairs, preds: Adjacency, succs: Adjacency) {
    && preds.Keys == Elements(ids) && succs.Keys == Elements(ids)
    && (forall t :: t in preds ==> preds[t] == Filter(ids, SourcesInto(ids, pairs, t)))
    && (forall s :: s in succs ==> succs[s] == Filter(ids, TargetsFrom(ids, pairs, s)))
  }

  // What the lists hold once the pairs of list have been appended.
  ghost predicate SourcesAppended(preds: Adjacency, list: seq<(string, string)>) {
    forall t :: t in preds ==> preds[t] == SourcesListed(list, t)
  }

  ghost predicate TargetsAppended(succs: Adjacency, list: seq<(string, string)>) {
    forall s :: s in succs ==> succs[s] == TargetsListed(list, s)
  }

  lemma AppendSource(preds: Adjacency, sorted: seq<(string, string)>, k: nat)
    requires k < |sorted| && SourcesAppended(preds, sorted[..k]) && sorted[k].1 in preds
    ensures SourcesAppended(preds[sorted[k].1 := preds[sorted[k].1] + [sorted[k].0]], sorted[..k + 1])
  {
    assert sorted[..k + 1][..k] == sorted[..k];
  }

  lemma AppendTarget(succs: Adjacency, sorted: seq<(string, string)>, k: nat)
    requires k < |sorted| && TargetsAppended(succs, sorted[..k]) && sorted[k].0 in succs
    ensures TargetsAppended(succs[sorted[k].0 := succs[sorted[k].0] + [sorted[k].1]], sorted[..k + 1])
  {
    assert sorted[..k + 1][..k] == sorted[..k];
  }

  // Append every listed pair to its two lists.
  method AppendPairs(ids: seq<string>, sorted: seq<(string, string)>) returns (succs: Adjacency, preds: Adjacency)
    requires forall e :: e in sorted ==> e.0 in ids && e.1 in ids
    ensures preds.Keys == Elements(ids) && succs.Keys == Elements(ids)
    ensures SourcesAppended(preds, sorted) && TargetsAppended(succs, sorted)
  {
    succs, preds := map id | id in ids :: [], map id | id in ids :: [];
    for k := 0 to |sorted|
      invariant preds.Keys == Elements(ids) && succs.Keys == Elements(ids)
      invariant SourcesAppended(preds, sorted[..k]) && TargetsAppended(succs, sorted[..k])
    {
      var (source, target) := sorted[k];
      assert sorted[k] in sorted;
      AppendTarget(succs, sorted, k);
      AppendSource(preds, sorted, k);
      succs := succs[source := succs[source] + [target]];
      preds := preds[target := preds[target] + [source]];
    }
    assert sorted[..|sorted|] == sorted;
  }

  lemma ListedInOrder(ids: seq<string>, pairs: Pairs, preds: Adjacency, succs: Adjacency)
    requires NoDup(ids) && preds.Keys == Elements(ids) && succs.Keys == Elements(ids)
    requires SourcesAppended(preds, SortedPairs(ids, pairs, |ids|)) && TargetsAppended(succs, SortedPairs(ids, pairs, |ids|))
    ensures ListsInOrder(ids, pairs, preds, succs)
  {
    assert ids[..|ids|] == ids;
    forall t | t in preds ensures preds[t] == Filter(ids, SourcesInto(ids, pairs, t)) {
      SortedPairsSources(ids, pairs, |ids|, t);
    }
    forall s | s in succs ensures succs[s] == Filter(ids, TargetsFrom(ids, pairs, s)) {
      SortedPairsTargets(ids, pairs, |ids|, s);
    }
  }

  method BuildUniqueHardGraph(tasks: seq<Task>, store: EdgeStore) returns (succs: Adjacency, preds: Adjacency)
    requires NoDup(TaskIds(tasks))
    requires PairsWithin(store.EndPoints(), TaskIds(tasks))
    ensures GraphLists(TaskIds(tasks), store.EndPoints(), preds, succs)
    ensures ListsInOrder(TaskIds(tasks), store.EndPoints(), preds, succs)
  {
    succs, preds := UniqueLists(TaskIds(tasks), set id | id in store.edges :: (id.source, id.target));
  }

  method UniqueLists(ids: seq<string>, pairs: Pairs) returns (succs: Adjacency, preds: Adjacency)
    requires NoDup(ids) && PairsWithin(pairs, ids)
    ensures GraphLists(ids, pairs, preds, succs) && ListsInOrder(ids, pairs, preds, succs)
  {
    SortedPairsIsSort(ids, pairs, |ids|);
    assert ids[..|ids|] == ids;
    succs, preds := AppendPairs(ids, SortedPairs(ids, pairs, |ids|));
    ListedInOrder(ids, pairs, preds, succs);
    ListsFromFilters(ids, pairs, preds, succs);
    succs, preds := Deduplicate(ids, succs, preds);
  }

  // The final pass of ordered_unique over every list, which finds nothing to drop.
  method Deduplicate(ids: seq<string>, succs: Adjacency, preds: Adjacency) returns (succs': Adjacency, preds': Adjacency)
    requires preds.Keys == Elements(ids) && succs.Keys == Elements(ids) && ListsNoDup(succs) && ListsNoDup(preds)
    ensures preds' == preds && succs' == succs
  {
    succs', preds' := succs, preds;
    for i := 0 to |ids|
      invariant preds' == preds && succs' == succs
    {
      assert ids[i] in Elements(ids);
      var uniqueSuccs := OrderedUnique(succs'[ids[i]]);
      var uniquePreds := OrderedUnique(preds'[ids[i]]);
      FirstOccurrencesOfNoDup(succs[ids[i]]);
      FirstOccurrencesOfNoDup(preds[ids[i]]);
      succs', preds' := succs'[ids[i] := uniqueSuccs], preds'[ids[i] := uniquePreds];
    }
  }
}
