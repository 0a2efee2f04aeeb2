// What it means for task numbers to be topological levels, and why such levels are the optimal
// schedule: they are the longest-chain lengths, and no split of the tasks into mutually
// unordered rounds has fewer rounds (Mirsky's theorem).
module Leveling {
  import opened Sequences
  import opened Digraph
  import opened HardEdges

  // Numbers rise along every hard edge.
  ghost predicate Rising(pairs: Pairs, numbers: map<string, nat>) {
    forall e :: e in pairs ==> e.0 in numbers && e.1 in numbers && numbers[e.0] < numbers[e.1]
  }

  ghost predicate HasTightPredecessor(pairs: Pairs, numbers: map<string, nat>, t: string)
    requires t in numbers
  {
    exists s :: s in numbers && (s, t) in pairs && numbers[s] + 1 == numbers[t]
  }

  // Levels: rising numbers with no slack.
  ghost predicate IsLeveling(pairs: Pairs, level: map<string, nat>) {
    && Rising(pairs, level)
    && forall t {:trigger HasTightPredecessor(pairs, level, t)} :: t in level && level[t] > 0 ==> HasTightPredecessor(pairs, level, t)
  }

  // A chain into t that passes through every level below it.
  lemma {:induction false} ChainInto(pairs: Pairs, level: map<string, nat>, t: string) returns (p: seq<string>)
    requires IsLeveling(pairs, level) && t in level
    ensures IsPath(pairs, p) && Last(p) == t && |p| == level[t] + 1
    ensures forall i :: 0 <= i < |p| ==> p[i] in level && level[p[i]] == i
    decreases level[t]
  {
    if level[t] == 0 {
      p := [t];
    } else {
      assert HasTightPredecessor(pairs, level, t);
      var s :| s in level && (s, t) in pairs && level[s] + 1 == level[t];
      var q := ChainInto(pairs, level, s);
      PathAppend(pairs, q, t);
      p := q + [t];
    }
  }

  // n is the number of tasks on a longest chain that ends at t.
  ghost predicate LongestChainInto(pairs: Pairs, t: string, n: nat) {
    && (exists p :: IsPath(pairs, p) && Last(p) == t && |p| == n)
    && (forall p :: IsPath(pairs, p) && Last(p) == t ==> |p| <= n)
  }

  lemma LevelIsLongestChain(pairs: Pairs, level: map<string, nat>, t: string)
    requires IsLeveling(pairs, level) && t in level
    ensures LongestChainInto(pairs, t, level[t] + 1)
  {
    var q := ChainInto(pairs, level, t);
    forall p | IsPath(pairs, p) && Last(p) == t ensures |p| <= level[t] + 1 {
      if |p| > 1 {
        assert (p[0], p[1]) in pairs;
        RankAlongPath(pairs, level, p);
      }
    }
  }

  // Any two levelings of the same tasks agree.
  lemma LevelingUnique(pairs: Pairs, a: map<string, nat>, b: map<string, nat>)
    requires IsLeveling(pairs, a) && IsLeveling(pairs, b) && a.Keys == b.Keys
    ensures a == b
  {
    forall t | t in a ensures a[t] == b[t] {
      var p := ChainInto(pairs, a, t);
      var q := ChainInto(pairs, b, t);
      RankAlongPath(pairs, a, q);
      RankAlongPath(pairs, b, p);
    }
  }

  // No numbering that respects the hard edges starts a task earlier than its level.
  lemma LevelsAreEarliest(pairs: Pairs, level: map<string, nat>, numbers: map<string, nat>, t: string)
    requires IsLeveling(pairs, level) && Rising(pairs, numbers)
    requires level.Keys <= numbers.Keys && t in level
    ensures level[t] <= numbers[t]
  {
    var p := ChainInto(pairs, level, t);
    RankAlongPath(pairs, numbers, p);
  }

  // Tasks of one level never depend on each other, even indirectly.
  lemma LevelIsAntichain(pairs: Pairs, level: map<string, nat>, a: string, b: string)
    requires Rising(pairs, level) && a in level && b in level && a != b && level[a] == level[b]
    ensures !Reaches(pairs, a, b)
  {
    if p :| IsPath(pairs, p) && p[0] == a && Last(p) == b {
      RankAlongPath(pairs, level, p);
      assert false;
    }
  }

  // A split of the tasks into rounds whose members are mutually unordered.
  ghost predicate AntichainRounds(pairs: Pairs, round: map<string, nat>) {
    forall a, b :: a in round && b in round && a != b && round[a] == round[b] ==> !Reaches(pairs, a, b)
  }

  ghost function Below(k: nat): set<nat> {
    if k == 0 then {} else Below(k - 1) + {k - 1}
  }

  lemma {:induction false} BelowExact(k: nat, n: nat)
    ensures n in Below(k) <==> n < k
    ensures |Below(k)| == k
  {
    if k > 0 {
      BelowExact(k - 1, n);
      BelowExact(k - 1, k - 1);
    }
  }

  // Mirsky's theorem, lower bound: every split into k unordered rounds has more rounds than the
  // deepest level. The levels themselves attain it.
  lemma NoFewerRounds(pairs: Pairs, level: map<string, nat>, round: map<string, nat>, k: nat, t: string)
    requires IsLeveling(pairs, level) && t in level
    requires level.Keys <= round.Keys && AntichainRounds(pairs, round)
    requires forall x :: x in level ==> round[x] < k
    ensures level[t] + 1 <= k
  {
    var p := ChainInto(pairs, level, t);
    var rounds := seq(|p|, i requires 0 <= i < |p| => round[p[i]]);
    forall i, j | 0 <= i < j < |p| ensures rounds[i] != rounds[j] {
      PathSlice(pairs, p, i, j + 1);
      var q := p[i..j + 1];
      assert q[0] == p[i] && Last(q) == p[j];
      assert Reaches(pairs, p[i], p[j]);
      assert level[p[i]] != level[p[j]];
    }
    NoDupSize(rounds);
    forall n | n in Elements(rounds) ensures n in Below(k) {
      BelowExact(k, n);
    }
    BelowExact(k, k);
    SubsetSize(Elements(rounds), Below(k));
  }

  lemma LevelsAreAntichainRounds(pairs: Pairs, level: map<string, nat>)
    requires Rising(pairs, level)
    ensures AntichainRounds(pairs, level)
  {
    forall a, b | a in level && b in level && a != b && level[a] == level[b] ensures !Reaches(pairs, a, b) {
      LevelIsAntichain(pairs, level, a, b);
    }
  }

  // No level below an occupied one is empty.
  lemma LevelsContiguous(pairs: Pairs, level: map<string, nat>, t: string, k: nat)
    requires IsLeveling(pairs, level) && t in level && k <= level[t]
    ensures exists s :: s in level && level[s] == k
  {
    var p := ChainInto(pairs, level, t);
    assert level[p[k]] == k;
  }
}
