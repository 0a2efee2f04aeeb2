// Lexicographic order of text, and lists in strictly rising order.
module TextOrder {
  import opened Sequences

  // By code, a proper prefix first.
  predicate Below(a: seq<int>, b: seq<int>) {
    if b == [] then false
    else if a == [] then true
    else if a[0] != b[0] then a[0] < b[0]
    else Below(a[1..], b[1..])
  }

  lemma {:induction false} BelowTrichotomy(a: seq<int>, b: seq<int>)
    ensures Below(a, b) || a == b || Below(b, a)
    ensures Below(a, b) ==> a != b && !Below(b, a)
  {
    if a != [] && b != [] && a[0] == b[0] {
      BelowTrichotomy(a[1..], b[1..]);
      assert a == [a[0]] + a[1..] && b == [b[0]] + b[1..];
    }
  }

  lemma {:induction false} BelowTransitive(a: seq<int>, b: seq<int>, c: seq<int>)
    requires Below(a, b) && Below(b, c)
    ensures Below(a, c)
  {
    if a != [] && a[0] == b[0] == c[0] {
      BelowTransitive(a[1..], b[1..], c[1..]);
    }
  }

  // Where two texts first differ decides; a proper prefix comes first.
  ghost predicate DiffersBelow(a: seq<int>, b: seq<int>, k: nat) {
    k <= |a| && k < |b| && a[..k] == b[..k] && (k < |a| ==> a[k] < b[k])
  }

  ghost predicate StandsBelow(a: seq<int>, b: seq<int>) {
    exists k: nat :: DiffersBelow(a, b, k)
  }

  lemma {:induction false} BelowMeans(a: seq<int>, b: seq<int>)
    ensures Below(a, b) <==> StandsBelow(a, b)
  {
    if a == [] && b != [] {
      assert DiffersBelow(a, b, 0);
    } else if a != [] && b != [] {
      BelowMeans(a[1..], b[1..]);
      if a[0] < b[0] {
        assert DiffersBelow(a, b, 0);
      }
      if k: nat :| a[0] == b[0] && DiffersBelow(a[1..], b[1..], k) {
        assert a[..k + 1] == [a[0]] + a[1..][..k] && b[..k + 1] == [b[0]] + b[1..][..k];
        assert DiffersBelow(a, b, k + 1);
      }
      if k: nat :| DiffersBelow(a, b, k) && a[0] == b[0] {
        TailDiffers(a, b, k);
      }
    }
  }

  lemma TailDiffers(a: seq<int>, b: seq<int>, k: nat)
    requires a != [] && DiffersBelow(a, b, k) && a[0] == b[0]
    ensures k > 0 && DiffersBelow(a[1..], b[1..], k - 1)
  {
    assert a[1..][..k - 1] == a[..k][1..] && b[1..][..k - 1] == b[..k][1..];
  }

  function Codes(text: string): seq<int> {
    seq(|text|, i requires 0 <= i < |text| => text[i] as int)
  }

  lemma CodesInjective(a: string, b: string)
    requires Codes(a) == Codes(b)
    ensures a == b
  {
    assert |a| == |Codes(a)| == |b|;
    forall i | 0 <= i < |a| ensures a[i] == b[i] {
      assert Codes(a)[i] == Codes(b)[i];
    }
  }

  ghost predicate Rising<T(!new)>(less: (T, T) -> bool, s: seq<T>) {
    forall i, j :: 0 <= i < j < |s| ==> less(s[i], s[j])
  }

  ghost predicate Asymmetric<T(!new)>(less: (T, T) -> bool) {
    forall x, y :: less(x, y) ==> !less(y, x)
  }

  lemma RisingNoDup<T(!new)>(less: (T, T) -> bool, s: seq<T>)
    requires Asymmetric(less) && Rising(less, s)
    ensures NoDup(s)
  {
    forall i, j | 0 <= i < j < |s| ensures s[i] != s[j] {
      assert less(s[i], s[j]);
    }
  }

  lemma TailMembers<T(!new)>(less: (T, T) -> bool, s: seq<T>, x: T)
    requires Asymmetric(less) && Rising(less, s) && s != []
    ensures x in s[1..] <==> x in s && x != s[0]
  {
    assert s == [s[0]] + s[1..];
    if x in s[1..] {
      var i :| 0 <= i < |s[1..]| && s[1..][i] == x;
      assert s[i + 1] == x && less(s[0], s[i + 1]);
    }
  }

  lemma HeadIsLeast<T(!new)>(less: (T, T) -> bool, s: seq<T>, x: T)
    requires Rising(less, s) && x in s
    ensures x == s[0] || less(s[0], x)
  {
  }

  // A set has at most one rising listing.
  lemma {:induction false} RisingUnique<T(!new)>(less: (T, T) -> bool, a: seq<T>, b: seq<T>)
    requires Asymmetric(less) && Rising(less, a) && Rising(less, b) && Elements(a) == Elements(b)
    ensures a == b
  {
    RisingNoDup(less, a);
    RisingNoDup(less, b);
    NoDupSize(a);
    NoDupSize(b);
    if a != [] {
      assert a[0] in Elements(b) && b[0] in Elements(a);
      HeadIsLeast(less, a, b[0]);
      HeadIsLeast(less, b, a[0]);
      assert a == [a[0]] + a[1..] && b == [b[0]] + b[1..];
      forall x ensures x in Elements(a[1..]) <==> x in Elements(b[1..]) {
        TailMembers(less, a, x);
        TailMembers(less, b, x);
        assert x in Elements(a) <==> x in Elements(b);
      }
      RisingUnique(less, a[1..], b[1..]);
    }
  }
}
