// Facts about finite sequences that the graph and protocol modules share.
module Sequences {

  // The elements of s, as a set.
  function Elements<T>(s: seq<T>): set<T> {
    set x | x in s
  }

  ghost predicate NoDup<T>(s: seq<T>) {
    forall i, j :: 0 <= i < j < |s| ==> s[i] != s[j]
  }

  lemma NoDupParts<T>(s: seq<T>, t: seq<T>)
    requires NoDup(s + t)
    ensures NoDup(s) && forall k :: 0 <= k < |t| ==> t[k] !in s
  {
    var c := s + t;
    assert forall i :: 0 <= i < |s| ==> c[i] == s[i];
    assert forall k :: 0 <= k < |t| ==> c[|s| + k] == t[k];
  }

  lemma {:induction false} NoDupSize<T>(s: seq<T>)
    requires NoDup(s)
    ensures |Elements(s)| == |s|
  {
    if s != [] {
      var last := |s| - 1;
      NoDupSize(s[..last]);
      assert s == s[..last] + [s[last]];
      assert Elements(s) == Elements(s[..last]) + {s[last]};
      assert s[last] !in s[..last];
    } else {
      assert Elements(s) == {};
    }
  }

  lemma {:induction false} ElementsSize<T>(s: seq<T>)
    ensures |Elements(s)| <= |s|
  {
    if s != [] {
      var last := |s| - 1;
      ElementsSize(s[..last]);
      assert Elements(s) == Elements(s[..last]) + {s[last]};
    } else {
      assert Elements(s) == {};
    }
  }

  // A sequence repeats an element exactly when it is longer than its set of elements.
  lemma {:induction false} SizeDetectsDuplicates<T>(s: seq<T>)
    ensures |Elements(s)| == |s| <==> NoDup(s)
  {
    if NoDup(s) {
      NoDupSize(s);
    } else {
      var i, j :| 0 <= i < j < |s| && s[i] == s[j];
      var shorter := s[..j] + s[j + 1..];
      assert Elements(s) == Elements(shorter) by {
        forall x | x in s ensures x in shorter {
          var k :| 0 <= k < |s| && s[k] == x;
          var k' := if k == j then i else k;
          assert shorter[if k' < j then k' else k' - 1] == x;
        }
        assert forall x :: x in shorter ==> x in s;
      }
      ElementsSize(shorter);
    }
  }

  lemma SubsetSize<T>(a: set<T>, b: set<T>)
    requires a <= b
    ensures |a| <= |b|
    ensures |a| == |b| ==> a == b
  {
    assert b == a + (b - a);
  }

  // Pigeonhole: a sequence longer than the set it draws from repeats an element.
  lemma Pigeonhole<T>(s: seq<T>, pool: set<T>) returns (i: nat, j: nat)
    requires forall k :: 0 <= k < |s| ==> s[k] in pool
    requires |s| > |pool|
    ensures i < j < |s| && s[i] == s[j]
  {
    if NoDup(s) {
      NoDupSize(s);
      SubsetSize(Elements(s), pool);
      assert false;
    }
    i, j :| 0 <= i < j < |s| && s[i] == s[j];
  }

  // x is the first element of list outside known.
  ghost predicate IsFirstMissing<T(!new)>(list: seq<T>, known: set<T>, x: T) {
    x !in known && exists i :: 0 <= i < |list| && list[i] == x && forall m :: 0 <= m < i ==> list[m] in known
  }

  lemma FirstMissingUnique<T(!new)>(list: seq<T>, known: set<T>, x: T, y: T)
    requires IsFirstMissing(list, known, x) && IsFirstMissing(list, known, y)
    ensures x == y
  {
    var i :| 0 <= i < |list| && list[i] == x && forall m :: 0 <= m < i ==> list[m] in known;
    var j :| 0 <= j < |list| && list[j] == y && forall m :: 0 <= m < j ==> list[m] in known;
    assert i == j;
  }

  // Keep the elements of s that lie in keep, in order.
  function Filter<T>(s: seq<T>, keep: set<T>): (r: seq<T>)
  {
    if s == [] then []
    else
      var rest := Filter(s[..|s| - 1], keep);
      if s[|s| - 1] in keep then rest + [s[|s| - 1]] else rest
  }

  lemma {:induction false} FilterMembers<T>(s: seq<T>, keep: set<T>)
    ensures Elements(Filter(s, keep)) == Elements(s) * keep
    ensures NoDup(s) ==> NoDup(Filter(s, keep))
  {
    if s != [] {
      var init := s[..|s| - 1];
      FilterMembers(init, keep);
      assert s == init + [s[|s| - 1]];
      assert Elements(s) == Elements(init) + {s[|s| - 1]};
      var rest := Filter(init, keep);
      assert Elements(rest + [s[|s| - 1]]) == Elements(rest) + {s[|s| - 1]};
      if NoDup(s) && s[|s| - 1] in keep {
        assert s[|s| - 1] !in Elements(Filter(init, keep));
      }
    }
  }

  lemma InFilter<T>(s: seq<T>, keep: set<T>, x: T)
    ensures x in Filter(s, keep) <==> x in s && x in keep
  {
    FilterMembers(s, keep);
    assert x in Filter(s, keep) <==> x in Elements(Filter(s, keep));
  }

  // Kept elements keep their order.
  lemma {:induction false} FilterOrder<T>(s: seq<T>, keep: set<T>, a: nat, b: nat) returns (i: nat, j: nat)
    requires a < b < |Filter(s, keep)|
    ensures i < j < |s| && s[i] == Filter(s, keep)[a] && s[j] == Filter(s, keep)[b]
  {
    var n := |s| - 1;
    if b < |Filter(s[..n], keep)| {
      i, j := FilterOrder(s[..n], keep, a, b);
    } else {
      j := n;
      var x := Filter(s[..n], keep)[a];
      InFilter(s[..n], keep, x);
      i :| 0 <= i < n && s[..n][i] == x;
    }
  }

  // The first position of x in s.
  function IndexOf<T(==)>(s: seq<T>, x: T): (i: nat)
    requires x in s
    ensures i < |s| && s[i] == x
    ensures forall m :: 0 <= m < i ==> s[m] != x
  {
    if s[0] == x then 0
    else
      assert s == [s[0]] + s[1..];
      IndexOf(s[1..], x) + 1
  }

  // s with every repeated element dropped, keeping first occurrences in order.
  function FirstOccurrences<T(==)>(s: seq<T>): seq<T> {
    if s == [] then []
    else
      var init := s[..|s| - 1];
      if s[|s| - 1] in init then FirstOccurrences(init) else FirstOccurrences(init) + [s[|s| - 1]]
  }

  lemma {:induction false} FirstOccurrencesMembers<T>(s: seq<T>)
    ensures Elements(FirstOccurrences(s)) == Elements(s)
    ensures NoDup(FirstOccurrences(s))
  {
    if s != [] {
      var init := s[..|s| - 1];
      FirstOccurrencesMembers(init);
      assert s == init + [s[|s| - 1]];
      assert s[|s| - 1] in FirstOccurrences(init) <==> s[|s| - 1] in Elements(FirstOccurrences(init));
      assert Elements(s) == Elements(init) + {s[|s| - 1]};
    }
  }

  // The kept elements stand in the order in which they first appear.
  lemma {:induction false} FirstOccurrencesOrder<T>(s: seq<T>, a: nat, b: nat)
    requires a < b < |FirstOccurrences(s)|
    ensures FirstOccurrences(s)[a] in s && FirstOccurrences(s)[b] in s
    ensures IndexOf(s, FirstOccurrences(s)[a]) < IndexOf(s, FirstOccurrences(s)[b])
  {
    FirstOccurrencesMembers(s);
    var init := s[..|s| - 1];
    FirstOccurrencesMembers(init);
    var x, y := FirstOccurrences(s)[a], FirstOccurrences(s)[b];
    assert x in Elements(FirstOccurrences(s)) && y in Elements(FirstOccurrences(s));
    assert s == init + [s[|s| - 1]];
    assert x == FirstOccurrences(init)[a];
    assert x in Elements(FirstOccurrences(init));
    IndexOfPrefix(s, |s| - 1, x);
    if b < |FirstOccurrences(init)| {
      FirstOccurrencesOrder(init, a, b);
      IndexOfPrefix(s, |s| - 1, y);
    } else {
      assert y == s[|s| - 1] && y !in init;
      assert IndexOf(s, y) == |s| - 1;
    }
  }

  lemma IndexOfPrefix<T>(s: seq<T>, n: nat, x: T)
    requires n <= |s| && x in s[..n]
    ensures IndexOf(s, x) == IndexOf(s[..n], x)
  {
    var init := s[..n];
    var i, k := IndexOf(init, x), IndexOf(s, x);
    assert s[i] == init[i];
    assert k < |init| ==> s[k] == init[k];
  }

  method OrderedUnique<T(==)>(values: seq<T>) returns (result: seq<T>)
    ensures result == FirstOccurrences(values)
  {
    var seen := {};
    result := [];
    for i := 0 to |values|
      invariant seen == Elements(values[..i])
      invariant result == FirstOccurrences(values[..i])
    {
      var value := values[i];
      assert values[..i + 1][..i] == values[..i];
      assert Elements(values[..i + 1]) == Elements(values[..i]) + {value};
      if value in seen {
        continue;
      }
      seen := seen + {value};
      result := result + [value];
    }
    assert values[..|values|] == values;
  }
}
