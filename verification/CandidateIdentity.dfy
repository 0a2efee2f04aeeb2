// Canonical provider references and the release candidate's identity hash.
module CandidateIdentity {
  import opened Sequences
  import opened TextOrder
  import C = Checklist

  type Option<T> = C.Option<T>

  // ---- String order: by code unit, a proper prefix first ----

  // Strings as the language of the tool stores and compares them: sequences of 16-bit code units.
  type CodeUnit = u: int | 0 <= u < 0x1_0000
  type JsString = seq<CodeUnit>

  ghost predicate StrictlySorted(s: seq<JsString>) {
    forall i, j :: 0 <= i < j < |s| ==> Below(s[i], s[j])
  }

  // ---- Sorting ----

  function Insert(s: seq<JsString>, x: JsString): seq<JsString> {
    if s == [] || Below(x, s[0]) then [x] + s else [s[0]] + Insert(s[1..], x)
  }

  function Sort(s: seq<JsString>): seq<JsString> {
    if s == [] then [] else Insert(Sort(s[..|s| - 1]), s[|s| - 1])
  }

  lemma {:induction false} InsertMembers(s: seq<JsString>, x: JsString)
    ensures multiset(Insert(s, x)) == multiset(s) + multiset{x}
    ensures |Insert(s, x)| == |s| + 1
  {
    if s != [] {
      assert s == [s[0]] + s[1..];
      InsertMembers(s[1..], x);
    }
  }

  lemma {:induction false} InsertSorted(s: seq<JsString>, x: JsString)
    requires StrictlySorted(s) && x !in s
    ensures StrictlySorted(Insert(s, x))
  {
    if s == [] {
    } else if Below(x, s[0]) {
      forall i | 0 <= i < |s| ensures Below(x, s[i]) {
        if i > 0 {
          BelowTransitive(x, s[0], s[i]);
        }
      }
      SortedCons(x, s);
    } else {
      BelowTrichotomy(x, s[0]);
      assert s == [s[0]] + s[1..];
      InsertSorted(s[1..], x);
      InsertMembers(s[1..], x);
      var rest := Insert(s[1..], x);
      forall i | 0 <= i < |rest| ensures Below(s[0], rest[i]) {
        assert rest[i] in multiset(rest);
        assert rest[i] == x || rest[i] in s[1..];
      }
      SortedCons(s[0], rest);
    }
  }

  lemma SortedCons(x: JsString, s: seq<JsString>)
    requires StrictlySorted(s) && forall i :: 0 <= i < |s| ==> Below(x, s[i])
    ensures StrictlySorted([x] + s)
  {
    var r := [x] + s;
    assert forall i :: 0 < i < |r| ==> r[i] == s[i - 1];
  }

  lemma {:induction false} SortMembers(s: seq<JsString>)
    ensures multiset(Sort(s)) == multiset(s) && |Sort(s)| == |s|
  {
    if s != [] {
      var n := |s| - 1;
      SortMembers(s[..n]);
      InsertMembers(Sort(s[..n]), s[n]);
      assert s == s[..n] + [s[n]];
    }
  }

  lemma SameElements(a: seq<JsString>, b: seq<JsString>)
    requires multiset(a) == multiset(b)
    ensures Elements(a) == Elements(b)
  {
    forall x ensures x in Elements(a) <==> x in Elements(b) {
      assert x in a <==> x in multiset(a);
      assert x in b <==> x in multiset(b);
    }
  }

  lemma SortedNoDup(s: seq<JsString>)
    requires StrictlySorted(s)
    ensures NoDup(s)
  {
    forall i, j | 0 <= i < j < |s| ensures s[i] != s[j] {
      BelowTrichotomy(s[i], s[j]);
    }
  }

  lemma {:induction false} SortSorted(s: seq<JsString>)
    requires NoDup(s)
    ensures StrictlySorted(Sort(s))
  {
    if s != [] {
      var n := |s| - 1;
      SortSorted(s[..n]);
      SortMembers(s[..n]);
      SameElements(Sort(s[..n]), s[..n]);
      assert forall i :: 0 <= i < n ==> s[..n][i] != s[n];
      assert s[n] !in Elements(s[..n]);
      InsertSorted(Sort(s[..n]), s[n]);
    }
  }

  // A set of strings has one strictly sorted listing.
  lemma SortedUnique(a: seq<JsString>, b: seq<JsString>)
    requires StrictlySorted(a) && StrictlySorted(b) && Elements(a) == Elements(b)
    ensures a == b
  {
    var less := (x: JsString, y: JsString) => Below(x, y);
    forall x: JsString, y: JsString | less(x, y) ensures !less(y, x) {
      BelowTrichotomy(x, y);
    }
    RisingUnique(less, a, b);
  }

  // ---- Canonical provider references ----

  datatype RefError = InvalidRef | DuplicateRefs
  datatype Result<+T> = Ok(value: T) | Err(error: RefError)

  // A usable reference: non-empty, with no white space at either end.
  predicate ValidRef(ref: JsString, isSpace: CodeUnit -> bool) {
    ref != [] && !isSpace(ref[0]) && !isSpace(ref[|ref| - 1])
  }

  // There is something in it, and neither end is white space.
  ghost predicate Trimmed(ref: JsString, isSpace: CodeUnit -> bool) {
    |ref| > 0 && !isSpace(ref[0]) && !isSpace(ref[|ref| - 1])
  }

  lemma ValidMeansTrimmed(ref: JsString, isSpace: CodeUnit -> bool)
    ensures ValidRef(ref, isSpace) <==> Trimmed(ref, isSpace)
  {
    assert ref == [] <==> |ref| == 0;
  }

  function CanonicalProviderProfileRefs(values: seq<JsString>, isSpace: CodeUnit -> bool): Result<seq<JsString>> {
    if exists i :: 0 <= i < |values| && !ValidRef(values[i], isSpace) then Err(InvalidRef)
    else if exists i, j :: 0 <= i < j < |values| && values[i] == values[j] then Err(DuplicateRefs)
    else Ok(Sort(values))
  }

  // Each value is a proper prefix of any later one, or smaller than it at the first unit in which
  // the two differ.
  ghost predicate RisesByUnit(s: seq<JsString>) {
    forall i, j :: 0 <= i < j < |s| ==> StandsBelow(s[i], s[j])
  }

  lemma SortedRises(s: seq<JsString>)
    requires StrictlySorted(s)
    ensures RisesByUnit(s)
  {
    forall i, j | 0 <= i < j < |s| ensures StandsBelow(s[i], s[j]) {
      BelowMeans(s[i], s[j]);
    }
  }

  // It succeeds exactly on valid, pairwise distinct references, and then returns the one strictly
  // sorted listing of them.
  lemma CanonicalRefsExact(values: seq<JsString>, isSpace: CodeUnit -> bool)
    ensures CanonicalProviderProfileRefs(values, isSpace).Ok? <==>
            NoDup(values) && forall i :: 0 <= i < |values| ==> Trimmed(values[i], isSpace)
    ensures CanonicalProviderProfileRefs(values, isSpace) == Err(InvalidRef) <==>
            exists i :: 0 <= i < |values| && !Trimmed(values[i], isSpace)
    ensures CanonicalProviderProfileRefs(values, isSpace).Ok? ==>
              var r := CanonicalProviderProfileRefs(values, isSpace).value;
              && StrictlySorted(r) && multiset(r) == multiset(values) && Elements(r) == Elements(values)
              && RisesByUnit(r)
  {
    forall i | 0 <= i < |values| ensures ValidRef(values[i], isSpace) <==> Trimmed(values[i], isSpace) {
      ValidMeansTrimmed(values[i], isSpace);
    }
    if i :| 0 <= i < |values| && !ValidRef(values[i], isSpace) {
      assert !Trimmed(values[i], isSpace);
    } else if NoDup(values) {
      SortMembers(values);
      SortSorted(values);
      SameElements(Sort(values), values);
      SortedRises(Sort(values));
    }
  }

  // Canonicalising again changes nothing.
  lemma CanonicalRefsIdempotent(values: seq<JsString>, isSpace: CodeUnit -> bool)
    requires CanonicalProviderProfileRefs(values, isSpace).Ok?
    ensures CanonicalProviderProfileRefs(CanonicalProviderProfileRefs(values, isSpace).value, isSpace) ==
            CanonicalProviderProfileRefs(values, isSpace)
  {
    var r := CanonicalProviderProfileRefs(values, isSpace).value;
    CanonicalRefsExact(values, isSpace);
    SortedNoDup(r);
    forall i | 0 <= i < |r| ensures Trimmed(r[i], isSpace) {
      assert r[i] in Elements(values);
    }
    CanonicalRefsExact(r, isSpace);
    SortedUnique(CanonicalProviderProfileRefs(r, isSpace).value, r);
  }

  // The canonical form depends on the set of references alone, and determines it.
  lemma CanonicalRefsDecideSet(a: seq<JsString>, b: seq<JsString>, isSpace: CodeUnit -> bool)
    requires CanonicalProviderProfileRefs(a, isSpace).Ok? && CanonicalProviderProfileRefs(b, isSpace).Ok?
    ensures CanonicalProviderProfileRefs(a, isSpace) == CanonicalProviderProfileRefs(b, isSpace) <==> Elements(a) == Elements(b)
  {
    CanonicalRefsExact(a, isSpace);
    CanonicalRefsExact(b, isSpace);
    if Elements(a) == Elements(b) {
      SortedUnique(CanonicalProviderProfileRefs(a, isSpace).value, CanonicalProviderProfileRefs(b, isSpace).value);
    }
  }

  // Reordering the references changes neither success nor the result.
  lemma PermutationInvariant(a: seq<JsString>, b: seq<JsString>, isSpace: CodeUnit -> bool)
    requires multiset(a) == multiset(b)
    ensures CanonicalProviderProfileRefs(a, isSpace).Ok? <==> CanonicalProviderProfileRefs(b, isSpace).Ok?
    ensures CanonicalProviderProfileRefs(a, isSpace).Ok? ==>
              CanonicalProviderProfileRefs(a, isSpace) == CanonicalProviderProfileRefs(b, isSpace)
  {
    SameElements(a, b);
    assert |multiset(a)| == |a| && |multiset(b)| == |b|;
    SizeDetectsDuplicates(a);
    SizeDetectsDuplicates(b);
    CanonicalRefsExact(a, isSpace);
    CanonicalRefsExact(b, isSpace);
    forall i | 0 <= i < |a| ensures a[i] in b { assert a[i] in Elements(b); }
    forall i | 0 <= i < |b| ensures b[i] in a { assert b[i] in Elements(a); }
    if CanonicalProviderProfileRefs(a, isSpace).Ok? {
      CanonicalRefsDecideSet(a, b, isSpace);
    }
  }

  // ---- The candidate identity hash ----

  datatype Candidate = Candidate(
    artifactDigest: string,
    buildArtifactRef: string,
    candidateEnvironmentRef: string,
    configBundleHash: string,
    providerRefs: seq<JsString>,
    migrationPlanRef: Option<string>,
    schemaBundleHash: string,
    supportedClientWindowRef: Option<string>)

  // The value that is hashed: the candidate with its provider references made canonical. The hash
  // itself is any deterministic function of that value.
  function HashInput(candidate: Candidate, isSpace: CodeUnit -> bool): Result<Candidate> {
    match CanonicalProviderProfileRefs(candidate.providerRefs, isSpace)
    case Err(error) => Err(error)
    case Ok(refs) => Ok(candidate.(providerRefs := refs))
  }

  function DeriveHash<H>(candidate: Candidate, isSpace: CodeUnit -> bool, hash: Candidate -> H): Result<H> {
    match HashInput(candidate, isSpace)
    case Err(error) => Err(error)
    case Ok(value) => Ok(hash(value))
  }

  ghost predicate Injective<H(!new)>(hash: Candidate -> H) {
    forall a, b :: hash(a) == hash(b) ==> a == b
  }

  // Same candidate up to the order in which providers are listed.
  ghost predicate SameCandidate(a: Candidate, b: Candidate) {
    a.(providerRefs := []) == b.(providerRefs := []) && Elements(a.providerRefs) == Elements(b.providerRefs)
  }

  // Whatever the hash, the same candidate always gets the same identity; and if the hash does not
  // collide, two candidates share an identity only then.
  lemma IdentityDecidesCandidate<H(!new)>(a: Candidate, b: Candidate, isSpace: CodeUnit -> bool, hash: Candidate -> H)
    requires HashInput(a, isSpace).Ok? && HashInput(b, isSpace).Ok?
    ensures SameCandidate(a, b) ==> DeriveHash(a, isSpace, hash) == DeriveHash(b, isSpace, hash)
    ensures Injective(hash) && DeriveHash(a, isSpace, hash) == DeriveHash(b, isSpace, hash) ==> SameCandidate(a, b)
  {
    CanonicalRefsDecideSet(a.providerRefs, b.providerRefs, isSpace);
    var x, y := HashInput(a, isSpace).value, HashInput(b, isSpace).value;
    assert x.(providerRefs := []) == a.(providerRefs := []) && y.(providerRefs := []) == b.(providerRefs := []);
    if SameCandidate(a, b) {
      assert x == a.(providerRefs := []).(providerRefs := x.providerRefs);
      assert y == b.(providerRefs := []).(providerRefs := y.providerRefs);
    }
  }
}
