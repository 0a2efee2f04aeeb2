// The parsed checklist: one record per task line, in file order, and the maximal runs of equal
// block ids that both planning tools cut it into.
module Checklist {
  import opened Sequences

  datatype Option<+T> = None | Some(value: T)

  // The three checklist markers ' ', '-' and 'X'.
  datatype Status = Unclaimed | Claimed | Complete

  datatype Mode = Sequential | Parallel

  datatype Task = Task(
    taskId: string,
    number: int,  // the digits of the task id, read as an integer
    status: Status,
    orderIndex: nat,
    phase: string,
    mode: Mode,
    waveId: Option<string>,
    track: Option<string>,
    blockId: string)

  function TaskIds(tasks: seq<Task>): (ids: seq<string>) {
    seq(|tasks|, i requires 0 <= i < |tasks| => tasks[i].taskId)
  }

  function BlockKeys(tasks: seq<Task>): (keys: seq<string>) {
    seq(|tasks|, i requires 0 <= i < |tasks| => tasks[i].blockId)
  }

  // What parsing the checklist establishes, with task ids unique as the checklist keeps them:
  // positions are consecutive, a sequential task is its own block, and a parallel task's block
  // is its wave.
  ghost predicate Parsed(tasks: seq<Task>) {
    && NoDup(TaskIds(tasks))
    && (forall i :: 0 <= i < |tasks| ==> tasks[i].orderIndex == i)
    && (forall i :: 0 <= i < |tasks| && tasks[i].mode.Sequential? ==>
          tasks[i].blockId == tasks[i].taskId && tasks[i].waveId.None? && tasks[i].track.None?)
    && (forall i :: 0 <= i < |tasks| && tasks[i].mode.Parallel? ==>
          tasks[i].waveId == Some(tasks[i].blockId) && tasks[i].blockId != "" && tasks[i].track.Some?)
    && (forall i, j :: 0 <= i < |tasks| && 0 <= j < |tasks| && tasks[i].mode.Sequential? && tasks[j].mode.Parallel? ==>
          tasks[i].blockId != tasks[j].blockId)
  }

  // Number of block boundaries at or before position i: the index of the block that holds i.
  function RunIndex<K(==)>(keys: seq<K>, i: nat): (r: nat)
    requires i < |keys|
  {
    if i == 0 then 0
    else RunIndex(keys, i - 1) + if keys[i] == keys[i - 1] then 0 else 1
  }

  lemma {:induction false} RunIndexMonotone<K>(keys: seq<K>, i: nat, j: nat)
    requires i <= j < |keys|
    ensures RunIndex(keys, i) <= RunIndex(keys, j) <= RunIndex(keys, i) + (j - i)
    decreases j
  {
    if i < j {
      RunIndexMonotone(keys, i, j - 1);
    }
  }

  lemma {:induction false} RunIndexPrefix<K>(keys: seq<K>, n: nat, i: nat)
    requires i < n <= |keys|
    ensures RunIndex(keys[..n], i) == RunIndex(keys, i)
  {
    if i > 0 {
      RunIndexPrefix(keys, n, i - 1);
    }
  }

  // Every position between two positions of one block is in that block and carries its key.
  lemma {:induction false} RunIsUniform<K>(keys: seq<K>, i: nat, j: nat)
    requires i <= j < |keys| && RunIndex(keys, i) == RunIndex(keys, j)
    ensures keys[i] == keys[j]
  {
    if i < j {
      RunIndexMonotone(keys, i, j - 1);
      RunIndexMonotone(keys, j - 1, j);
      RunIsUniform(keys, i, j - 1);
    }
  }

  // Conversely, positions joined by an unbroken stretch of one key share a block.
  lemma {:induction false} UniformIsRun<K>(keys: seq<K>, i: nat, j: nat)
    requires i <= j < |keys| && forall k :: i <= k <= j ==> keys[k] == keys[i]
    ensures RunIndex(keys, i) == RunIndex(keys, j)
    decreases j
  {
    if i < j {
      UniformIsRun(keys, i, j - 1);
      assert keys[j] == keys[j - 1];
    }
  }

  // No block index is skipped.
  lemma {:induction false} RunIndexOnto<K>(keys: seq<K>, j: nat, k: nat) returns (i: nat)
    requires j < |keys| && k <= RunIndex(keys, j)
    ensures i <= j && RunIndex(keys, i) == k
    ensures forall m :: 0 <= m < i ==> RunIndex(keys, m) < k
    decreases j
  {
    if j == 0 {
      i := 0;
    } else if k <= RunIndex(keys, j - 1) {
      i := RunIndexOnto(keys, j - 1, k);
    } else {
      i := j;
      forall m | 0 <= m < i ensures RunIndex(keys, m) < k {
        RunIndexMonotone(keys, m, j - 1);
      }
    }
  }

  // The maximal runs of equal keys, cut out of items.
  function Runs<T, K(==)>(items: seq<T>, keys: seq<K>): (groups: seq<seq<T>>)
    requires |items| == |keys|
    ensures groups == [] <==> items == []
    ensures forall k :: 0 <= k < |groups| ==> groups[k] != []
    decreases |items|
  {
    if items == [] then []
    else
      var n := |items| - 1;
      var before := Runs(items[..n], keys[..n]);
      if n > 0 && keys[n] == keys[n - 1] then
        before[|before| - 1 := before[|before| - 1] + [items[n]]]
      else
        before + [[items[n]]]
  }

  // [lo, hi) is exactly the stretch of positions whose block index is k, given by its ends.
  ghost predicate RunSpan<K>(keys: seq<K>, k: nat, lo: nat, hi: nat) {
    && lo < hi <= |keys|
    && RunIndex(keys, lo) == k && RunIndex(keys, hi - 1) == k
    && (lo > 0 ==> RunIndex(keys, lo - 1) < k)
    && (hi < |keys| ==> RunIndex(keys, hi) > k)
  }

  lemma SpanMember<K>(keys: seq<K>, k: nat, lo: nat, hi: nat, i: nat)
    requires RunSpan(keys, k, lo, hi) && i < |keys|
    ensures lo <= i < hi <==> RunIndex(keys, i) == k
  {
    if i < lo {
      RunIndexMonotone(keys, i, lo - 1);
    } else if i < hi {
      RunIndexMonotone(keys, lo, i);
      RunIndexMonotone(keys, i, hi - 1);
    } else {
      RunIndexMonotone(keys, hi, i);
    }
  }

  lemma {:induction false} RunsAreSpans<T, K>(items: seq<T>, keys: seq<K>)
    requires |items| == |keys|
    ensures |Runs(items, keys)| == if items == [] then 0 else RunIndex(keys, |keys| - 1) + 1
    decreases |items|
  {
    if items != [] {
      var n := |items| - 1;
      RunsAreSpans(items[..n], keys[..n]);
      if n > 0 {
        RunIndexPrefix(keys, n, n - 1);
      }
    }
  }

  // Appending one key either leaves a span alone or, when it belongs to that run, extends it.
  lemma SpanExtend<K>(keys: seq<K>, k: nat, lo: nat, hi: nat)
    requires keys != [] && RunSpan(keys[..|keys| - 1], k, lo, hi)
    ensures var n := |keys| - 1;
            if RunIndex(keys, n) == k then hi == n && RunSpan(keys, k, lo, n + 1) else RunSpan(keys, k, lo, hi)
  {
    var n := |keys| - 1;
    RunIndexPrefix(keys, n, lo);
    RunIndexPrefix(keys, n, hi - 1);
    if lo > 0 {
      RunIndexPrefix(keys, n, lo - 1);
    }
    if hi < n {
      RunIndexPrefix(keys, n, hi);
      RunIndexMonotone(keys, hi, n);
    }
  }

  lemma SpanNew<K>(keys: seq<K>)
    requires keys != [] && (|keys| == 1 || keys[|keys| - 1] != keys[|keys| - 2])
    ensures RunSpan(keys, RunIndex(keys, |keys| - 1), |keys| - 1, |keys|)
  {
  }

  // How the last position extends the runs of what is before it.
  lemma RunsStep<T, K>(items: seq<T>, keys: seq<K>)
    requires |items| == |keys| && items != []
    ensures var n := |items| - 1;
            var before, r := Runs(items[..n], keys[..n]), RunIndex(keys, n);
            && (r == |before| - 1 || r == |before|)
            && (r == |before| <==> n == 0 || keys[n] != keys[n - 1])
            && Runs(items, keys) ==
               if r == |before| then before + [[items[n]]] else before[r := before[r] + [items[n]]]
  {
    var n := |items| - 1;
    RunsAreSpans(items[..n], keys[..n]);
    if n > 0 {
      RunIndexPrefix(keys, n, n - 1);
    }
  }

  lemma {:induction false} RunSpanOf<T, K>(items: seq<T>, keys: seq<K>, k: nat) returns (lo: nat, hi: nat)
    requires |items| == |keys| && k < |Runs(items, keys)|
    ensures RunSpan(keys, k, lo, hi) && Runs(items, keys)[k] == items[lo..hi]
    decreases |items|
  {
    var n := |items| - 1;
    RunsStep(items, keys);
    if k < |Runs(items[..n], keys[..n])| {
      lo, hi := RunSpanOf(items[..n], keys[..n], k);
      assert items[..n][lo..hi] == items[lo..hi];
      SpanExtend(keys, k, lo, hi);
      if RunIndex(keys, n) == k {
        hi := n + 1;
        assert items[lo..n + 1] == items[lo..n] + [items[n]];
      }
    } else {
      SpanNew(keys);
      lo, hi := n, n + 1;
      assert items[n..n + 1] == [items[n]];
    }
  }

  // Member a of run k stands at some position of block index k, and conversely.
  lemma MemberPosition<T, K>(items: seq<T>, keys: seq<K>, k: nat, a: nat) returns (i: nat)
    requires |items| == |keys| && k < |Runs(items, keys)| && a < |Runs(items, keys)[k]|
    ensures i < |items| && items[i] == Runs(items, keys)[k][a] && RunIndex(keys, i) == k
  {
    var lo, hi := RunSpanOf(items, keys, k);
    i := lo + a;
    SpanMember(keys, k, lo, hi, i);
  }

  lemma PositionMember<T, K>(items: seq<T>, keys: seq<K>, i: nat) returns (a: nat)
    requires |items| == |keys| && i < |items|
    ensures var k := RunIndex(keys, i);
            k < |Runs(items, keys)| && a < |Runs(items, keys)[k]| && Runs(items, keys)[k][a] == items[i]
  {
    var k := RunIndex(keys, i);
    RunsAreSpans(items, keys);
    RunIndexMonotone(keys, i, |keys| - 1);
    var lo, hi := RunSpanOf(items, keys, k);
    SpanMember(keys, k, lo, hi, i);
    a := i - lo;
  }
}
