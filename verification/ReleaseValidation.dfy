// Validating the build artifacts of a release envelope against the rendered naming plan.
module ReleaseValidation {
  import opened Sequences
  import C = Checklist

  type Option<T> = C.Option<T>

  // A rendered primary artifact.
  datatype Artifact = Artifact(
    component: string,
    artifactClass: string,
    registryRef: string,
    discoveryTagRef: string,
    filename: string,
    sbomRef: string,
    provenanceRef: string,
    signatureRef: string,
    notarizationRef: Option<string>,
    hardenedRuntimeRef: Option<string>,
    desktop: bool)  // MACOS_DESKTOP is among the distribution targets

  // A build artifact as the envelope declares it.
  datatype Entry = Entry(
    component: string,
    artifactClass: string,
    buildId: string,
    vcsRef: string,
    channel: string,
    digest: string,
    registryRef: string,
    sbomRef: string,
    provenanceRef: string,
    signatureRef: string,
    notarizationRef: Option<string>,
    hardenedRuntimeRef: Option<string>)

  // The derived identity fields every entry must repeat.
  datatype Expected = Expected(buildId: string, branchRef: string, channel: string, digest: string)

  // The compared fields.
  datatype Field =
    | BuildId | VcsRef | ReleaseChannel | ArtifactDigest
    | RegistryRef | SbomRef | ProvenanceRef | SignatureRef
    | NotarizationRef | HardenedRuntimeRef

  datatype ArtifactError =
    | UnexpectedArtifact(component: string, artifactClass: string)
    | DuplicateRegistryRef(ref: string)
    | FieldMismatch(field: Field, component: string)
    | DesktopEvidenceRequired(component: string)
    | DesktopEvidenceForbidden(component: string)

  function Key(component: string, artifactClass: string): string {
    component + "|" + artifactClass
  }

  // The artifacts by their keys. When a key repeats, the last artifact with it wins.
  function MapExpectedArtifacts(artifacts: seq<Artifact>): (m: map<string, Artifact>)
    ensures forall k :: k in m ==> m[k] in artifacts && Key(m[k].component, m[k].artifactClass) == k
  {
    if artifacts == [] then map[]
    else
      var last := artifacts[|artifacts| - 1];
      MapExpectedArtifacts(artifacts[..|artifacts| - 1])[Key(last.component, last.artifactClass) := last]
  }

  // While component refs hold no bar, keys are equal exactly when both parts are.
  lemma KeysDecide(component: string, artifactClass: string, component': string, artifactClass': string)
    requires '|' !in component && '|' !in component'
    ensures Key(component, artifactClass) == Key(component', artifactClass') <==>
            component == component' && artifactClass == artifactClass'
  {
    var key, key' := Key(component, artifactClass), Key(component', artifactClass');
    if key == key' {
      assert key[|component|] == '|' && key'[|component'|] == '|';
      assert |component| == |component'|;
      assert key[..|component|] == component && key'[..|component'|] == component';
      assert key[|component| + 1..] == artifactClass && key'[|component'| + 1..] == artifactClass';
    }
  }

  // The last artifact with key k stands at i.
  ghost predicate LastWithKeyAt(artifacts: seq<Artifact>, k: string, i: nat) {
    && i < |artifacts| && Key(artifacts[i].component, artifacts[i].artifactClass) == k
    && forall j :: i < j < |artifacts| ==> Key(artifacts[j].component, artifacts[j].artifactClass) != k
  }

  // The map holds the key of every artifact, and under it the last artifact with that key.
  lemma MapHoldsLast(artifacts: seq<Artifact>, k: string)
    ensures k in MapExpectedArtifacts(artifacts) <==> exists i: nat :: LastWithKeyAt(artifacts, k, i)
    ensures forall i: nat :: LastWithKeyAt(artifacts, k, i) ==>
              k in MapExpectedArtifacts(artifacts) && MapExpectedArtifacts(artifacts)[k] == artifacts[i]
  {
    var last := LastWithKey(artifacts, k);
    forall i: nat | LastWithKeyAt(artifacts, k, i) ensures i == last {
      OneLast(artifacts, k, i, last);
    }
  }

  lemma OneLast(artifacts: seq<Artifact>, k: string, i: nat, last: int)
    requires LastWithKeyAt(artifacts, k, i)
    requires if last < 0 then NoneWithKey(artifacts, k) else LastWithKeyAt(artifacts, k, last)
    ensures i == last
  {
  }

  ghost predicate NoneWithKey(artifacts: seq<Artifact>, k: string) {
    forall j :: 0 <= j < |artifacts| ==> Key(artifacts[j].component, artifacts[j].artifactClass) != k
  }

  // The position of the last artifact with key k, or -1.
  lemma {:induction false} LastWithKey(artifacts: seq<Artifact>, k: string) returns (i: int)
    ensures i < 0 <==> k !in MapExpectedArtifacts(artifacts)
    ensures i < 0 ==> NoneWithKey(artifacts, k)
    ensures i >= 0 ==> LastWithKeyAt(artifacts, k, i) && MapExpectedArtifacts(artifacts)[k] == artifacts[i]
  {
    i := -1;
    if artifacts != [] {
      var n := |artifacts| - 1;
      if Key(artifacts[n].component, artifacts[n].artifactClass) == k {
        i := n;
      } else {
        i := LastWithKey(artifacts[..n], k);
        KeysOfPrefix(artifacts, k, i);
      }
    }
  }

  lemma KeysOfPrefix(artifacts: seq<Artifact>, k: string, i: int)
    requires artifacts != [] && Key(artifacts[|artifacts| - 1].component, artifacts[|artifacts| - 1].artifactClass) != k
    ensures NoneWithKey(artifacts[..|artifacts| - 1], k) ==> NoneWithKey(artifacts, k)
    ensures i >= 0 && LastWithKeyAt(artifacts[..|artifacts| - 1], k, i) ==> LastWithKeyAt(artifacts, k, i)
  {
    var n := |artifacts| - 1;
    forall j | 0 <= j < |artifacts| ensures j == n || artifacts[j] == artifacts[..n][j] {
    }
  }

  // A null and an empty reference are both falsy.
  predicate Present(ref: Option<string>) {
    ref.Some? && ref.value != ""
  }

  // Every field the validator compares agrees with the expected artifact.
  ghost predicate Agrees(entry: Entry, artifact: Artifact, expected: Expected) {
    && entry.buildId == expected.buildId && entry.vcsRef == expected.branchRef
    && entry.channel == expected.channel && entry.digest == expected.digest
    && entry.registryRef == artifact.registryRef && entry.sbomRef == artifact.sbomRef
    && entry.provenanceRef == artifact.provenanceRef && entry.signatureRef == artifact.signatureRef
    && entry.notarizationRef == artifact.notarizationRef && entry.hardenedRuntimeRef == artifact.hardenedRuntimeRef
    && (if artifact.desktop then
          entry.notarizationRef !in {C.None, C.Some("")} && entry.hardenedRuntimeRef !in {C.None, C.Some("")}
        else entry.notarizationRef.None? && entry.hardenedRuntimeRef.None?)
  }

  function Declared(entry: Entry, field: Field): Option<string> {
    match field
    case BuildId => C.Some(entry.buildId)
    case VcsRef => C.Some(entry.vcsRef)
    case ReleaseChannel => C.Some(entry.channel)
    case ArtifactDigest => C.Some(entry.digest)
    case RegistryRef => C.Some(entry.registryRef)
    case SbomRef => C.Some(entry.sbomRef)
    case ProvenanceRef => C.Some(entry.provenanceRef)
    case SignatureRef => C.Some(entry.signatureRef)
    case NotarizationRef => entry.notarizationRef
    case HardenedRuntimeRef => entry.hardenedRuntimeRef
  }

  function Wanted(artifact: Artifact, expected: Expected, field: Field): Option<string> {
    match field
    case BuildId => C.Some(expected.buildId)
    case VcsRef => C.Some(expected.branchRef)
    case ReleaseChannel => C.Some(expected.channel)
    case ArtifactDigest => C.Some(expected.digest)
    case RegistryRef => C.Some(artifact.registryRef)
    case SbomRef => C.Some(artifact.sbomRef)
    case ProvenanceRef => C.Some(artifact.provenanceRef)
    case SignatureRef => C.Some(artifact.signatureRef)
    case NotarizationRef => artifact.notarizationRef
    case HardenedRuntimeRef => artifact.hardenedRuntimeRef
  }

  // The errors the comparison of one entry with its expected artifact can report, and when.
  ghost predicate FieldError(entry: Entry, artifact: Artifact, expected: Expected, error: ArtifactError) {
    match error
    case FieldMismatch(field, component) => component == entry.component && Declared(entry, field) != Wanted(artifact, expected, field)
    case DesktopEvidenceRequired(component) =>
      && component == entry.component && artifact.desktop
      && (entry.notarizationRef in {C.None, C.Some("")} || entry.hardenedRuntimeRef in {C.None, C.Some("")})
    case DesktopEvidenceForbidden(component) =>
      component == entry.component && !artifact.desktop && !(entry.notarizationRef.None? && entry.hardenedRuntimeRef.None?)
    case UnexpectedArtifact(_, _) => false
    case DuplicateRegistryRef(_) => false
  }

  // A mismatch names the field in which the entry departs from the plan or from the derived identity.
  lemma MismatchNames(entry: Entry, artifact: Artifact, expected: Expected, field: Field)
    ensures FieldError(entry, artifact, expected, FieldMismatch(field, entry.component)) <==>
            match field
            case BuildId => entry.buildId != expected.buildId
            case VcsRef => entry.vcsRef != expected.branchRef
            case ReleaseChannel => entry.channel != expected.channel
            case ArtifactDigest => entry.digest != expected.digest
            case RegistryRef => entry.registryRef != artifact.registryRef
            case SbomRef => entry.sbomRef != artifact.sbomRef
            case ProvenanceRef => entry.provenanceRef != artifact.provenanceRef
            case SignatureRef => entry.signatureRef != artifact.signatureRef
            case NotarizationRef => entry.notarizationRef != artifact.notarizationRef
            case HardenedRuntimeRef => entry.hardenedRuntimeRef != artifact.hardenedRuntimeRef
  {
  }

  // errors reports exactly the mismatches among the named fields.
  ghost predicate ReportsFields(errors: seq<ArtifactError>, entry: Entry, artifact: Artifact, expected: Expected, fields: set<Field>) {
    forall error :: error in errors <==>
      error.FieldMismatch? && error.field in fields && FieldError(entry, artifact, expected, error)
  }

  // The error pushed when a field differs.
  function MismatchIf(differs: bool, field: Field, component: string): (errors: seq<ArtifactError>)
    ensures forall error :: error in errors <==> differs && error == FieldMismatch(field, component)
  {
    if differs then [FieldMismatch(field, component)] else []
  }

  method CompareIdentity(entry: Entry, artifact: Artifact, expected: Expected) returns (errors: seq<ArtifactError>)
    ensures ReportsFields(errors, entry, artifact, expected, {BuildId, VcsRef, ReleaseChannel, ArtifactDigest})
  {
    errors := MismatchIf(entry.buildId != expected.buildId, BuildId, entry.component);
    errors := errors + MismatchIf(entry.vcsRef != expected.branchRef, VcsRef, entry.component);
    errors := errors + MismatchIf(entry.channel != expected.channel, ReleaseChannel, entry.component);
    errors := errors + MismatchIf(entry.digest != expected.digest, ArtifactDigest, entry.component);
  }

  method CompareCompanions(entry: Entry, artifact: Artifact, expected: Expected) returns (errors: seq<ArtifactError>)
    ensures ReportsFields(errors, entry, artifact, expected, {RegistryRef, SbomRef, ProvenanceRef, SignatureRef})
  {
    errors := MismatchIf(entry.registryRef != artifact.registryRef, RegistryRef, entry.component);
    errors := errors + MismatchIf(entry.sbomRef != artifact.sbomRef, SbomRef, entry.component);
    errors := errors + MismatchIf(entry.provenanceRef != artifact.provenanceRef, ProvenanceRef, entry.component);
    errors := errors + MismatchIf(entry.signatureRef != artifact.signatureRef, SignatureRef, entry.component);
  }

  method CompareDesktop(entry: Entry, artifact: Artifact, expected: Expected) returns (errors: seq<ArtifactError>)
    ensures forall error :: error in errors <==>
              && FieldError(entry, artifact, expected, error)
              && (error.FieldMismatch? ==> error.field.NotarizationRef? || error.field.HardenedRuntimeRef?)
  {
    errors := MismatchIf(entry.notarizationRef != artifact.notarizationRef, NotarizationRef, entry.component);
    errors := errors + MismatchIf(entry.hardenedRuntimeRef != artifact.hardenedRuntimeRef, HardenedRuntimeRef, entry.component);
    if artifact.desktop && (!Present(entry.notarizationRef) || !Present(entry.hardenedRuntimeRef)) {
      errors := errors + [DesktopEvidenceRequired(entry.component)];
    }
    if !artifact.desktop && (entry.notarizationRef.Some? || entry.hardenedRuntimeRef.Some?) {
      errors := errors + [DesktopEvidenceForbidden(entry.component)];
    }
  }

  method CompareFields(entry: Entry, artifact: Artifact, expected: Expected) returns (errors: seq<ArtifactError>)
    ensures forall error :: error in errors <==> FieldError(entry, artifact, expected, error)
  {
    var identity := CompareIdentity(entry, artifact, expected);
    var companions := CompareCompanions(entry, artifact, expected);
    var desktop := CompareDesktop(entry, artifact, expected);
    errors := identity + companions + desktop;
  }

  // No error applies exactly when everything compared agrees.
  lemma NoFieldErrorIff(entry: Entry, artifact: Artifact, expected: Expected)
    ensures (forall error :: !FieldError(entry, artifact, expected, error)) <==> Agrees(entry, artifact, expected)
  {
    var c := entry.component;
    if forall error :: !FieldError(entry, artifact, expected, error) {
      forall field ensures Declared(entry, field) == Wanted(artifact, expected, field) {
        assert !FieldError(entry, artifact, expected, FieldMismatch(field, c));
      }
      AllFieldsAgree(entry, artifact, expected);
      assert !FieldError(entry, artifact, expected, DesktopEvidenceRequired(c));
      assert !FieldError(entry, artifact, expected, DesktopEvidenceForbidden(c));
    }
  }

  lemma AllFieldsAgree(entry: Entry, artifact: Artifact, expected: Expected)
    requires forall field :: Declared(entry, field) == Wanted(artifact, expected, field)
    ensures entry.buildId == expected.buildId && entry.vcsRef == expected.branchRef
    ensures entry.channel == expected.channel && entry.digest == expected.digest
    ensures entry.registryRef == artifact.registryRef && entry.sbomRef == artifact.sbomRef
    ensures entry.provenanceRef == artifact.provenanceRef && entry.signatureRef == artifact.signatureRef
    ensures entry.notarizationRef == artifact.notarizationRef && entry.hardenedRuntimeRef == artifact.hardenedRuntimeRef
  {
    assert Declared(entry, BuildId) == Wanted(artifact, expected, BuildId);
    assert Declared(entry, VcsRef) == Wanted(artifact, expected, VcsRef);
    assert Declared(entry, ReleaseChannel) == Wanted(artifact, expected, ReleaseChannel);
    assert Declared(entry, ArtifactDigest) == Wanted(artifact, expected, ArtifactDigest);
    assert Declared(entry, RegistryRef) == Wanted(artifact, expected, RegistryRef);
    assert Declared(entry, SbomRef) == Wanted(artifact, expected, SbomRef);
    assert Declared(entry, ProvenanceRef) == Wanted(artifact, expected, ProvenanceRef);
    assert Declared(entry, SignatureRef) == Wanted(artifact, expected, SignatureRef);
    assert Declared(entry, NotarizationRef) == Wanted(artifact, expected, NotarizationRef);
    assert Declared(entry, HardenedRuntimeRef) == Wanted(artifact, expected, HardenedRuntimeRef);
  }

  ghost predicate EntryMatches(entry: Entry, plan: map<string, Artifact>, expected: Expected) {
    var key := Key(entry.component, entry.artifactClass);
    key in plan && Agrees(entry, plan[key], expected)
  }

  // All entries match the plan and no registry ref is declared twice.
  ghost predicate ArtifactsMatch(entries: seq<Entry>, plan: map<string, Artifact>, expected: Expected) {
    && (forall i :: 0 <= i < |entries| ==> EntryMatches(entries[i], plan, expected))
    && RegistryRefsUnique(entries)
  }

  ghost predicate RegistryRefsUnique(entries: seq<Entry>) {
    forall i, j :: 0 <= i < j < |entries| ==> entries[i].registryRef != entries[j].registryRef
  }

  // Entry k declares the registry ref and names an expected artifact; entries that name none are
  // skipped before their registry ref is remembered.
  ghost predicate Registers(entries: seq<Entry>, k: nat, plan: map<string, Artifact>, ref: string) {
    k < |entries| && entries[k].registryRef == ref && Key(entries[k].component, entries[k].artifactClass) in plan
  }

  ghost predicate RegisteredBefore(entries: seq<Entry>, n: nat, plan: map<string, Artifact>, ref: string) {
    exists k :: 0 <= k < n && Registers(entries, k, plan, ref)
  }

  // What entry i is reported for.
  ghost predicate EntryError(entries: seq<Entry>, i: nat, plan: map<string, Artifact>, expected: Expected, error: ArtifactError)
    requires i < |entries|
  {
    var entry := entries[i];
    var key := Key(entry.component, entry.artifactClass);
    if key !in plan then error == UnexpectedArtifact(entry.component, entry.artifactClass)
    else
      || FieldError(entry, plan[key], expected, error)
      || (error == DuplicateRegistryRef(entry.registryRef) && RegisteredBefore(entries, i, plan, entry.registryRef))
  }

  // One of the first n entries is reported for this error.
  ghost predicate Reported(entries: seq<Entry>, n: nat, plan: map<string, Artifact>, expected: Expected, error: ArtifactError) {
    exists i :: 0 <= i < n && i < |entries| && EntryError(entries, i, plan, expected, error)
  }

  lemma NextEntry(entries: seq<Entry>, n: nat, plan: map<string, Artifact>, expected: Expected, error: ArtifactError)
    requires n < |entries|
    ensures Reported(entries, n + 1, plan, expected, error) <==>
            Reported(entries, n, plan, expected, error) || EntryError(entries, n, plan, expected, error)
  {
    if i :| 0 <= i < n + 1 && EntryError(entries, i, plan, expected, error) {
      assert i < n || i == n;
    }
    if i :| 0 <= i < n && EntryError(entries, i, plan, expected, error) {
      assert i < n + 1;
    }
  }

  lemma NextRegistered(entries: seq<Entry>, n: nat, plan: map<string, Artifact>, ref: string)
    ensures RegisteredBefore(entries, n + 1, plan, ref) <==> RegisteredBefore(entries, n, plan, ref) || Registers(entries, n, plan, ref)
  {
  }

  // The validator's loop: its error list holds what some entry is reported for, and nothing else.
  method ValidateArtifacts(entries: seq<Entry>, artifacts: seq<Artifact>, expected: Expected) returns (errors: seq<ArtifactError>)
    ensures forall error :: error in errors <==> Reported(entries, |entries|, MapExpectedArtifacts(artifacts), expected, error)
    ensures errors == [] <==> ArtifactsMatch(entries, MapExpectedArtifacts(artifacts), expected)
  {
    var plan := MapExpectedArtifacts(artifacts);
    var seen: set<string> := {};
    errors := [];
    for i := 0 to |entries|
      invariant forall error :: error in errors <==> Reported(entries, i, plan, expected, error)
      invariant forall ref :: ref in seen <==> RegisteredBefore(entries, i, plan, ref)
    {
      var entry := entries[i];
      var found := ValidateEntry(entries, i, plan, expected, seen);
      forall error ensures Reported(entries, i + 1, plan, expected, error) <==> error in errors || error in found {
        NextEntry(entries, i, plan, expected, error);
      }
      errors := errors + found;
      forall ref ensures RegisteredBefore(entries, i + 1, plan, ref) <==> ref in seen || Registers(entries, i, plan, ref) {
        NextRegistered(entries, i, plan, ref);
      }
      if Key(entry.component, entry.artifactClass) in plan {
        seen := seen + {entry.registryRef};
      }
    }
    NoErrorsIff(entries, plan, expected);
    assert errors != [] ==> errors[0] in errors;
  }

  // The body of the loop.
  method ValidateEntry(entries: seq<Entry>, i: nat, plan: map<string, Artifact>, expected: Expected, seen: set<string>)
    returns (errors: seq<ArtifactError>)
    requires i < |entries|
    requires forall ref :: ref in seen <==> RegisteredBefore(entries, i, plan, ref)
    ensures forall error :: error in errors <==> EntryError(entries, i, plan, expected, error)
  {
    var entry := entries[i];
    var key := Key(entry.component, entry.artifactClass);
    if key !in plan {
      return [UnexpectedArtifact(entry.component, entry.artifactClass)];
    }
    errors := [];
    if entry.registryRef in seen {
      errors := [DuplicateRegistryRef(entry.registryRef)];
    }
    var fieldErrors := CompareFields(entry, plan[key], expected);
    errors := errors + fieldErrors;
  }

  lemma EntryCleanIff(entries: seq<Entry>, i: nat, plan: map<string, Artifact>, expected: Expected)
    requires i < |entries|
    ensures (forall error :: !EntryError(entries, i, plan, expected, error)) <==>
            EntryMatches(entries[i], plan, expected) && !RegisteredBefore(entries, i, plan, entries[i].registryRef)
  {
    var entry := entries[i];
    var key := Key(entry.component, entry.artifactClass);
    if key !in plan {
      assert EntryError(entries, i, plan, expected, UnexpectedArtifact(entry.component, entry.artifactClass));
    } else {
      NoFieldErrorIff(entry, plan[key], expected);
      if forall error :: !EntryError(entries, i, plan, expected, error) {
        forall error ensures !FieldError(entry, plan[key], expected, error) {
          assert !EntryError(entries, i, plan, expected, error);
        }
        assert !EntryError(entries, i, plan, expected, DuplicateRegistryRef(entry.registryRef));
      }
    }
  }

  lemma NoErrorsIff(entries: seq<Entry>, plan: map<string, Artifact>, expected: Expected)
    ensures (forall error :: !Reported(entries, |entries|, plan, expected, error)) <==> ArtifactsMatch(entries, plan, expected)
  {
    forall i | 0 <= i < |entries|
      ensures (forall error :: !EntryError(entries, i, plan, expected, error)) <==>
              EntryMatches(entries[i], plan, expected) && !RegisteredBefore(entries, i, plan, entries[i].registryRef)
    {
      EntryCleanIff(entries, i, plan, expected);
    }
    if forall error :: !Reported(entries, |entries|, plan, expected, error) {
      forall i, error | 0 <= i < |entries| ensures !EntryError(entries, i, plan, expected, error) {
        assert !Reported(entries, |entries|, plan, expected, error);
      }
      forall i, j | 0 <= i < j < |entries| ensures entries[i].registryRef != entries[j].registryRef {
        assert EntryMatches(entries[i], plan, expected);
        assert Registers(entries, i, plan, entries[i].registryRef);
      }
    }
  }

  // ---- What acceptance means ----

  // Acceptance makes the entries an injection into the plan: two entries never stand for the same
  // expected artifact.
  lemma AcceptedEntriesAreDistinct(entries: seq<Entry>, plan: map<string, Artifact>, expected: Expected, i: nat, j: nat)
    requires ArtifactsMatch(entries, plan, expected) && i < j < |entries|
    ensures Key(entries[i].component, entries[i].artifactClass) != Key(entries[j].component, entries[j].artifactClass)
    ensures plan[Key(entries[i].component, entries[i].artifactClass)] != plan[Key(entries[j].component, entries[j].artifactClass)]
  {
    assert EntryMatches(entries[i], plan, expected) && EntryMatches(entries[j], plan, expected);
  }

  function EntryKeys(entries: seq<Entry>): seq<string> {
    seq(|entries|, i requires 0 <= i < |entries| => Key(entries[i].component, entries[i].artifactClass))
  }

  // The validator never asks whether an expected artifact is absent. An accepted envelope covers
  // the whole plan exactly when it has as many entries as the plan has keys.
  lemma AcceptedIsCompleteIff(entries: seq<Entry>, plan: map<string, Artifact>, expected: Expected)
    requires ArtifactsMatch(entries, plan, expected)
    ensures |entries| <= |plan|
    ensures (forall key :: key in plan ==> key in EntryKeys(entries)) <==> |entries| == |plan|
  {
    var keys := EntryKeys(entries);
    forall i, j | 0 <= i < j < |keys| ensures keys[i] != keys[j] {
      AcceptedEntriesAreDistinct(entries, plan, expected, i, j);
    }
    forall key | key in Elements(keys) ensures key in plan.Keys {
      var i :| 0 <= i < |keys| && keys[i] == key;
      assert EntryMatches(entries[i], plan, expected);
    }
    NoDupSize(keys);
    SubsetSize(Elements(keys), plan.Keys);
    assert |plan.Keys| == |plan|;
    if forall key :: key in plan ==> key in keys {
      assert Elements(keys) == plan.Keys;
    }
    if |entries| == |plan| {
      forall key | key in plan ensures key in keys {
        assert key in Elements(keys);
      }
    }
  }

  // In particular an envelope without any artifacts is accepted, and leaves out whatever was planned.
  lemma EmptyEnvelopeAccepted(artifacts: seq<Artifact>, expected: Expected)
    requires artifacts != []
    ensures var plan := MapExpectedArtifacts(artifacts);
            && ArtifactsMatch([], plan, expected) && plan != map[]
            && exists key :: key in plan && key !in EntryKeys([])
  {
    var plan, last := MapExpectedArtifacts(artifacts), artifacts[|artifacts| - 1];
    assert Key(last.component, last.artifactClass) in plan;
    AcceptedIsCompleteIff([], plan, expected);
  }

  // ---- The rendered plan ----

  // The six references of one artifact that must not collide.
  function RefsOf(artifact: Artifact): seq<string> {
    [artifact.registryRef, artifact.discoveryTagRef, artifact.filename,
     artifact.sbomRef, artifact.provenanceRef, artifact.signatureRef]
  }

  function AllRefs(artifacts: seq<Artifact>): seq<string> {
    if artifacts == [] then []
    else AllRefs(artifacts[..|artifacts| - 1]) + RefsOf(artifacts[|artifacts| - 1])
  }

  // The values that occur at two positions.
  ghost function Repeated(s: seq<string>): set<string> {
    set i, j | 0 <= i < j < |s| && s[i] == s[j] :: s[i]
  }

  lemma RepeatedExtend(s: seq<string>, x: string)
    ensures Repeated(s + [x]) == Repeated(s) + if x in s then {x} else {}
  {
    var longer := s + [x];
    forall y ensures y in Repeated(longer) <==> y in Repeated(s) || (x in s && y == x) {
      if y in Repeated(longer) {
        var i, j :| 0 <= i < j < |longer| && longer[i] == longer[j] == y;
        assert longer[i] == s[i];
      }
      if y in Repeated(s) {
        var i, j :| 0 <= i < j < |s| && s[i] == s[j] == y;
        assert longer[i] == longer[j] == y;
      }
      if x in s && y == x {
        var i :| 0 <= i < |s| && s[i] == x;
        assert longer[i] == longer[|s|] == x;
      }
    }
  }

  lemma RepeatedAt(s: seq<string>, i: nat, j: nat)
    requires i < |s| && j < |s| && i != j && s[i] == s[j]
    ensures s[i] in Repeated(s)
  {
    assert s[if i < j then i else j] == s[i];
  }

  // No value repeats exactly when all references are pairwise distinct.
  lemma NothingRepeatedIff(s: seq<string>)
    ensures Repeated(s) == {} <==> NoDup(s)
  {
    if i, j :| 0 <= i < j < |s| && s[i] == s[j] {
      assert s[i] in Repeated(s);
    }
  }

  // The reference of an artifact in one of its six places.
  ghost predicate HasRef(artifact: Artifact, place: nat, ref: string) {
    || (place == 0 && ref == artifact.registryRef)
    || (place == 1 && ref == artifact.discoveryTagRef)
    || (place == 2 && ref == artifact.filename)
    || (place == 3 && ref == artifact.sbomRef)
    || (place == 4 && ref == artifact.provenanceRef)
    || (place == 5 && ref == artifact.signatureRef)
  }

  // Two different places of the plan hold this reference.
  ghost predicate SharedRef(artifacts: seq<Artifact>, ref: string) {
    exists a, x: nat, b, y: nat :: 0 <= a < |artifacts| && 0 <= b < |artifacts| && (a, x) != (b, y)
      && HasRef(artifacts[a], x, ref) && HasRef(artifacts[b], y, ref)
  }

  lemma RefsInPlaces(artifact: Artifact, place: nat, ref: string)
    ensures |RefsOf(artifact)| == 6
    ensures HasRef(artifact, place, ref) <==> place < 6 && RefsOf(artifact)[place] == ref
  {
  }

  lemma {:induction false} RefAtPlace(artifacts: seq<Artifact>, a: nat, x: nat)
    requires a < |artifacts| && x < 6
    ensures |AllRefs(artifacts)| == 6 * |artifacts|
    ensures HasRef(artifacts[a], x, AllRefs(artifacts)[6 * a + x])
    decreases |artifacts|
  {
    var n := |artifacts| - 1;
    RefsSize(artifacts);
    RefsSize(artifacts[..n]);
    RefsInPlaces(artifacts[a], x, RefsOf(artifacts[a])[x]);
    if a < n {
      RefAtPlace(artifacts[..n], a, x);
    }
  }

  lemma {:induction false} RefsSize(artifacts: seq<Artifact>)
    ensures |AllRefs(artifacts)| == 6 * |artifacts|
  {
    if artifacts != [] {
      RefsSize(artifacts[..|artifacts| - 1]);
    }
  }

  // Where the reference of a place stands in the flat list.
  lemma PlaceHolds(artifacts: seq<Artifact>, a: nat, x: nat, ref: string) returns (i: nat)
    requires a < |artifacts| && HasRef(artifacts[a], x, ref)
    ensures x < 6 && i == 6 * a + x < |AllRefs(artifacts)| && AllRefs(artifacts)[i] == ref
  {
    i := 6 * a + x;
    RefAtPlace(artifacts, a, x);
    RefsInPlaces(artifacts[a], x, AllRefs(artifacts)[i]);
    RefsInPlaces(artifacts[a], x, ref);
  }

  lemma TwiceIsShared(artifacts: seq<Artifact>, i: nat, j: nat)
    requires i < j < |AllRefs(artifacts)| && AllRefs(artifacts)[i] == AllRefs(artifacts)[j]
    ensures SharedRef(artifacts, AllRefs(artifacts)[i])
  {
    var a, x, b, y := i / 6, i % 6, j / 6, j % 6;
    RefsSize(artifacts);
    RefAtPlace(artifacts, a, x);
    RefAtPlace(artifacts, b, y);
    assert i == 6 * a + x && j == 6 * b + y;
  }

  lemma SharedIsTwice(artifacts: seq<Artifact>, a: nat, x: nat, b: nat, y: nat, ref: string)
    requires a < |artifacts| && b < |artifacts| && (a, x) != (b, y)
    requires HasRef(artifacts[a], x, ref) && HasRef(artifacts[b], y, ref)
    ensures ref in Repeated(AllRefs(artifacts))
  {
    var i := PlaceHolds(artifacts, a, x, ref);
    var j := PlaceHolds(artifacts, b, y, ref);
    DifferentPlaces(a, x, b, y);
    RepeatedAt(AllRefs(artifacts), i, j);
  }

  lemma DifferentPlaces(a: nat, x: nat, b: nat, y: nat)
    requires (a, x) != (b, y) && x < 6 && y < 6
    ensures 6 * a + x != 6 * b + y
  {
  }

  lemma RepeatedIsShared(artifacts: seq<Artifact>, ref: string)
    ensures ref in Repeated(AllRefs(artifacts)) <==> SharedRef(artifacts, ref)
  {
    if ref in Repeated(AllRefs(artifacts)) {
      var i, j :| 0 <= i < j < |AllRefs(artifacts)| && AllRefs(artifacts)[i] == AllRefs(artifacts)[j] == ref;
      TwiceIsShared(artifacts, i, j);
    }
    if SharedRef(artifacts, ref) {
      var a, x: nat, b, y: nat :| 0 <= a < |artifacts| && 0 <= b < |artifacts| && (a, x) != (b, y)
                                  && HasRef(artifacts[a], x, ref) && HasRef(artifacts[b], y, ref);
      SharedIsTwice(artifacts, a, x, b, y, ref);
    }
  }

  // The collision check reports exactly the references that two places of the plan share.
  method FindCollisions(artifacts: seq<Artifact>) returns (duplicates: set<string>)
    ensures forall ref :: ref in duplicates <==> SharedRef(artifacts, ref)
    ensures duplicates == {} <==> NoDup(AllRefs(artifacts))
  {
    var seen: set<string> := {};
    duplicates := {};
    for i := 0 to |artifacts|
      invariant seen == Elements(AllRefs(artifacts[..i]))
      invariant duplicates == Repeated(AllRefs(artifacts[..i]))
    {
      var refs := RefsOf(artifacts[i]);
      ghost var before := AllRefs(artifacts[..i]);
      assert artifacts[..i + 1][..i] == artifacts[..i];
      assert before + refs[..0] == before;
      for j := 0 to |refs|
        invariant seen == Elements(before + refs[..j])
        invariant duplicates == Repeated(before + refs[..j])
      {
        assert before + refs[..j + 1] == (before + refs[..j]) + [refs[j]];
        RepeatedExtend(before + refs[..j], refs[j]);
        assert refs[j] in seen <==> refs[j] in before + refs[..j];
        if refs[j] in seen {
          duplicates := duplicates + {refs[j]};
        }
        seen := seen + {refs[j]};
      }
      assert refs[..|refs|] == refs;
    }
    assert artifacts[..|artifacts|] == artifacts;
    NothingRepeatedIff(AllRefs(artifacts));
    forall ref ensures ref in duplicates <==> SharedRef(artifacts, ref) {
      RepeatedIsShared(artifacts, ref);
    }
  }

  lemma {:induction false} RegistryRefListed(artifacts: seq<Artifact>, i: nat)
    requires i < |artifacts|
    ensures artifacts[i].registryRef in AllRefs(artifacts)
    decreases |artifacts|
  {
    var n := |artifacts| - 1;
    if i < n {
      RegistryRefListed(artifacts[..n], i);
    } else {
      assert RefsOf(artifacts[n])[0] == artifacts[n].registryRef;
    }
  }

  // The envelope entry a faithful publisher derives from a rendered artifact.
  function CopyOf(artifact: Artifact, expected: Expected): Entry {
    Entry(artifact.component, artifact.artifactClass, expected.buildId, expected.branchRef, expected.channel, expected.digest,
          artifact.registryRef, artifact.sbomRef, artifact.provenanceRef, artifact.signatureRef,
          artifact.notarizationRef, artifact.hardenedRuntimeRef)
  }

  function CopyAll(artifacts: seq<Artifact>, expected: Expected): seq<Entry> {
    seq(|artifacts|, i requires 0 <= i < |artifacts| => CopyOf(artifacts[i], expected))
  }

  // Desktop companions are rendered on desktop artifacts and on no others.
  ghost predicate DesktopConsistent(artifact: Artifact) {
    if artifact.desktop then artifact.notarizationRef !in {C.None, C.Some("")} && artifact.hardenedRuntimeRef !in {C.None, C.Some("")}
    else artifact.notarizationRef.None? && artifact.hardenedRuntimeRef.None?
  }

  function ArtifactKeys(artifacts: seq<Artifact>): seq<string> {
    seq(|artifacts|, i requires 0 <= i < |artifacts| => Key(artifacts[i].component, artifacts[i].artifactClass))
  }

  lemma {:induction false} MappedArtifact(artifacts: seq<Artifact>, i: nat)
    requires i < |artifacts| && forall j :: i < j < |artifacts| ==> ArtifactKeys(artifacts)[j] != ArtifactKeys(artifacts)[i]
    ensures var m := MapExpectedArtifacts(artifacts);
            ArtifactKeys(artifacts)[i] in m && m[ArtifactKeys(artifacts)[i]] == artifacts[i]
    decreases |artifacts|
  {
    var n := |artifacts| - 1;
    assert ArtifactKeys(artifacts)[n] == Key(artifacts[n].component, artifacts[n].artifactClass);
    if i < n {
      assert ArtifactKeys(artifacts[..n]) == ArtifactKeys(artifacts)[..n];
      MappedArtifact(artifacts[..n], i);
    }
  }

  lemma {:induction false} RegistryRefsDistinct(artifacts: seq<Artifact>, i: nat, j: nat)
    requires NoDup(AllRefs(artifacts)) && i < j < |artifacts|
    ensures artifacts[i].registryRef != artifacts[j].registryRef
    decreases |artifacts|
  {
    var n := |artifacts| - 1;
    NoDupParts(AllRefs(artifacts[..n]), RefsOf(artifacts[n]));
    if j < n {
      RegistryRefsDistinct(artifacts[..n], i, j);
    } else {
      RegistryRefListed(artifacts[..n], i);
      assert RefsOf(artifacts[n])[0] == artifacts[n].registryRef;
    }
  }

  lemma CopyAgreesIff(artifact: Artifact, expected: Expected)
    ensures Agrees(CopyOf(artifact, expected), artifact, expected) <==> DesktopConsistent(artifact)
  {
  }

  // When no later artifact takes over its key, a copied entry matches exactly when its desktop
  // companions are consistent.
  lemma CopyMatchesIff(artifacts: seq<Artifact>, expected: Expected, i: nat)
    requires i < |artifacts| && forall j :: i < j < |artifacts| ==> ArtifactKeys(artifacts)[j] != ArtifactKeys(artifacts)[i]
    ensures EntryMatches(CopyOf(artifacts[i], expected), MapExpectedArtifacts(artifacts), expected) <==> DesktopConsistent(artifacts[i])
  {
    MappedArtifact(artifacts, i);
    CopyAgreesIff(artifacts[i], expected);
    assert ArtifactKeys(artifacts)[i] == Key(artifacts[i].component, artifacts[i].artifactClass);
  }

  lemma {:induction false} CopiesMatchIff(artifacts: seq<Artifact>, expected: Expected)
    requires NoDup(ArtifactKeys(artifacts))
    ensures forall i :: 0 <= i < |artifacts| ==>
              (EntryMatches(CopyAll(artifacts, expected)[i], MapExpectedArtifacts(artifacts), expected) <==> DesktopConsistent(artifacts[i]))
  {
    forall i | 0 <= i < |artifacts|
      ensures EntryMatches(CopyAll(artifacts, expected)[i], MapExpectedArtifacts(artifacts), expected) <==> DesktopConsistent(artifacts[i])
    {
      CopyMatchesIff(artifacts, expected, i);
      assert CopyAll(artifacts, expected)[i] == CopyOf(artifacts[i], expected);
    }
  }

  lemma AcceptedCopyHasDistinctKeys(artifacts: seq<Artifact>, expected: Expected)
    requires ArtifactsMatch(CopyAll(artifacts, expected), MapExpectedArtifacts(artifacts), expected)
    ensures NoDup(ArtifactKeys(artifacts))
  {
    var entries, plan, keys := CopyAll(artifacts, expected), MapExpectedArtifacts(artifacts), ArtifactKeys(artifacts);
    forall i, j | 0 <= i < j < |keys| ensures keys[i] != keys[j] {
      AcceptedEntriesAreDistinct(entries, plan, expected, i, j);
    }
  }

  ghost predicate DesktopConsistentPlan(artifacts: seq<Artifact>) {
    forall i :: 0 <= i < |artifacts| ==> DesktopConsistent(artifacts[i])
  }

  lemma CopiesDistinct(artifacts: seq<Artifact>, expected: Expected)
    requires NoDup(AllRefs(artifacts))
    ensures RegistryRefsUnique(CopyAll(artifacts, expected))
  {
    var entries := CopyAll(artifacts, expected);
    forall i, j | 0 <= i < j < |entries| ensures entries[i].registryRef != entries[j].registryRef {
      RegistryRefsDistinct(artifacts, i, j);
    }
  }

  lemma CopyAcceptedIff(artifacts: seq<Artifact>, expected: Expected)
    requires RegistryRefsUnique(CopyAll(artifacts, expected))
    ensures ArtifactsMatch(CopyAll(artifacts, expected), MapExpectedArtifacts(artifacts), expected) <==>
            NoDup(ArtifactKeys(artifacts)) && DesktopConsistentPlan(artifacts)
  {
    if ArtifactsMatch(CopyAll(artifacts, expected), MapExpectedArtifacts(artifacts), expected) {
      AcceptedCopyHasDistinctKeys(artifacts, expected);
    }
    if NoDup(ArtifactKeys(artifacts)) {
      CopiesMatchIff(artifacts, expected);
    }
  }

  // A publisher that copies a collision-free plan is accepted exactly when the plan's keys are
  // distinct and its desktop companions sit on its desktop artifacts only.
  lemma FaithfulCopyAcceptedIff(artifacts: seq<Artifact>, expected: Expected)
    requires NoDup(AllRefs(artifacts))
    ensures ArtifactsMatch(CopyAll(artifacts, expected), MapExpectedArtifacts(artifacts), expected) <==>
            NoDup(ArtifactKeys(artifacts)) && DesktopConsistentPlan(artifacts)
  {
    CopiesDistinct(artifacts, expected);
    CopyAcceptedIff(artifacts, expected);
  }
}
