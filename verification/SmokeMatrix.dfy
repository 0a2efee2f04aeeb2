// The credential smoke matrix: one row per credential and environment, and the two ways its
// outcomes are counted.
module SmokeMatrix {
  import opened Sequences
  import C = Checklist

  datatype OutcomeCode =
    | Success
    | SoftFailAuthMismatch
    | SoftFailPrincipalMismatch
    | SoftFailScopeMismatch
    | SoftFailTransientProviderFailure
    | SoftFailProviderEnvironmentMismatch
    | BlockedProviderSelection
    | BlockedNotSelected
    | ManualCheckpointRequired
    | EnvironmentDisabled

  datatype OutcomeClass = ClassSuccess | ClassSoftFail | ClassBlocked | ClassManual | ClassDisabled

  datatype Posture =
    | InScopeDefault
    | ManualCheckpointGated
    | PostureBlockedProviderSelection
    | PostureBlockedNotSelected
    | PostureEnvironmentDisabled

  function OutcomeClassFor(code: OutcomeCode): OutcomeClass {
    if code == Success then ClassSuccess
    else if code in {SoftFailAuthMismatch, SoftFailPrincipalMismatch, SoftFailScopeMismatch,
                     SoftFailTransientProviderFailure, SoftFailProviderEnvironmentMismatch} then ClassSoftFail
    else if code == ManualCheckpointRequired then ClassManual
    else if code == EnvironmentDisabled then ClassDisabled
    else ClassBlocked
  }

  function DefaultOutcomeForPosture(posture: Posture): OutcomeCode {
    match posture
    case ManualCheckpointGated => ManualCheckpointRequired
    case PostureBlockedProviderSelection => BlockedProviderSelection
    case PostureBlockedNotSelected => BlockedNotSelected
    case PostureEnvironmentDisabled => EnvironmentDisabled
    case InScopeDefault => Success
  }

  datatype CredentialRecord = CredentialRecord(key: string, scope: set<string>)

  datatype Environment = Environment(ref: string, scopeKey: string)

  // The per-family hooks of the family definition table.
  datatype Definitions = Definitions(
    posture: (string, string) -> C.Option<Posture>,
    defaultOutcome: (string, string) -> C.Option<OutcomeCode>)

  // A row reference is the credential key and the environment reference, joined by dots.
  type RowRef = string

  function SmokeRowRef(key: string, env: string): RowRef {
    key + "." + env + ".smoke"
  }

  // While environment references hold no dot, a row reference names one credential in one
  // environment, whatever dots the credential keys hold.
  lemma RowRefInjective(key: string, env: string, key': string, env': string)
    requires '.' !in env && '.' !in env'
    requires SmokeRowRef(key, env) == SmokeRowRef(key', env')
    ensures key == key' && env == env'
  {
    var stem, stem' := key + "." + env, key' + "." + env';
    var ref, ref' := SmokeRowRef(key, env), SmokeRowRef(key', env');
    assert ref[..|stem|] == stem && ref'[..|stem'|] == stem';
    assert |ref| == |stem| + 6 && |ref'| == |stem'| + 6;
    assert stem == stem';
    assert stem[|key|] == '.' && stem[|key'|] == '.';
    assert |key| == |key'|;
    assert stem[..|key|] == key && stem'[..|key'|] == key';
    assert stem[|key| + 1..] == env && stem'[|key'| + 1..] == env';
  }

  datatype MatrixRow = MatrixRow(ref: RowRef, key: string, env: string, inScope: bool, posture: Posture, defaultCode: OutcomeCode)

  datatype ResultRow = ResultRow(ref: RowRef, key: string, env: string, code: OutcomeCode, kind: OutcomeClass)

  datatype Counts = Counts(success: nat, softFail: nat, blocked: nat, manual: nat, disabled: nat, total: nat)

  function RowFor(defs: Definitions, record: CredentialRecord, environment: Environment): MatrixRow {
    var inScope := environment.scopeKey in record.scope;
    var posture :=
      if !inScope then PostureEnvironmentDisabled
      else match defs.posture(record.key, environment.ref) case Some(p) => p case None => InScopeDefault;
    var code :=
      if !inScope then EnvironmentDisabled
      else match defs.defaultOutcome(record.key, environment.ref) case Some(c) => c case None => DefaultOutcomeForPosture(posture);
    MatrixRow(SmokeRowRef(record.key, environment.ref), record.key, environment.ref, inScope, posture, code)
  }

  function RowsFor(defs: Definitions, record: CredentialRecord, environments: seq<Environment>): seq<MatrixRow> {
    seq(|environments|, i requires 0 <= i < |environments| => RowFor(defs, record, environments[i]))
  }

  function AllRows(defs: Definitions, records: seq<CredentialRecord>, environments: seq<Environment>): seq<MatrixRow> {
    if records == [] then []
    else AllRows(defs, records[..|records| - 1], environments) + RowsFor(defs, records[|records| - 1], environments)
  }

  // The two nested loops that expand the matrix.
  method CreateSmokeRows(defs: Definitions, records: seq<CredentialRecord>, environments: seq<Environment>)
    returns (rows: seq<MatrixRow>)
    ensures rows == AllRows(defs, records, environments)
  {
    rows := [];
    for i := 0 to |records|
      invariant rows == AllRows(defs, records[..i], environments)
    {
      ghost var before := rows;
      for j := 0 to |environments|
        invariant rows == before + RowsFor(defs, records[i], environments[..j])
      {
        assert RowsFor(defs, records[i], environments[..j + 1]) ==
               RowsFor(defs, records[i], environments[..j]) + [RowFor(defs, records[i], environments[j])];
        rows := rows + [RowFor(defs, records[i], environments[j])];
      }
      assert environments[..|environments|] == environments;
      assert records[..i + 1][..i] == records[..i];
    }
    assert records[..|records|] == records;
  }

  // What stands in the row of one credential in one environment. A posture is the definition's, or
  // the default in scope; a default outcome is the definition's, or the posture's own.
  ghost predicate RowStates(defs: Definitions, record: CredentialRecord, environment: Environment, row: MatrixRow) {
    && row.ref == record.key + "." + environment.ref + ".smoke" && row.key == record.key && row.env == environment.ref
    && (row.inScope <==> environment.scopeKey in record.scope)
    && (!row.inScope ==> row.posture.PostureEnvironmentDisabled? && row.defaultCode.EnvironmentDisabled?)
    && (row.inScope ==>
          && (defs.posture(record.key, environment.ref).Some? ==> row.posture == defs.posture(record.key, environment.ref).value)
          && (defs.posture(record.key, environment.ref).None? ==> row.posture.InScopeDefault?)
          && (defs.defaultOutcome(record.key, environment.ref).Some? ==>
                row.defaultCode == defs.defaultOutcome(record.key, environment.ref).value)
          && (defs.defaultOutcome(record.key, environment.ref).None? ==>
                && (row.defaultCode.Success? <==> row.posture.InScopeDefault?)
                && (row.defaultCode.ManualCheckpointRequired? <==> row.posture.ManualCheckpointGated?)
                && (row.defaultCode.BlockedProviderSelection? <==> row.posture.PostureBlockedProviderSelection?)
                && (row.defaultCode.BlockedNotSelected? <==> row.posture.PostureBlockedNotSelected?)
                && (row.defaultCode.EnvironmentDisabled? <==> row.posture.PostureEnvironmentDisabled?)))
  }

  lemma RowStatesIt(defs: Definitions, record: CredentialRecord, environment: Environment)
    ensures RowStates(defs, record, environment, RowFor(defs, record, environment))
  {
  }

  // The matrix lists, record after record, the row of each environment.
  lemma {:induction false} MatrixPosition(defs: Definitions, records: seq<CredentialRecord>, environments: seq<Environment>, r: nat, e: nat)
    requires r < |records| && e < |environments|
    ensures |AllRows(defs, records, environments)| == |records| * |environments|
    ensures r * |environments| + e < |records| * |environments|
    ensures AllRows(defs, records, environments)[r * |environments| + e] == RowFor(defs, records[r], environments[e])
    ensures RowStates(defs, records[r], environments[e], AllRows(defs, records, environments)[r * |environments| + e])
    decreases |records|
  {
    var n := |records| - 1;
    MatrixSize(defs, records, environments);
    MatrixSize(defs, records[..n], environments);
    PositionBound(|records|, |environments|, r, e);
    if r < n {
      MatrixPosition(defs, records[..n], environments, r, e);
    } else {
      RowStatesIt(defs, records[n], environments[e]);
    }
  }

  lemma PositionBound(m: nat, n: nat, r: nat, e: nat)
    requires r < m && e < n
    ensures r * n + e < (r + 1) * n <= m * n
  {
    assert (m - r - 1) * n >= 0;
    assert m * n == (r + 1) * n + (m - r - 1) * n;
  }

  lemma {:induction false} MatrixSize(defs: Definitions, records: seq<CredentialRecord>, environments: seq<Environment>)
    ensures |AllRows(defs, records, environments)| == |records| * |environments|
  {
    if records != [] {
      var n := |records| - 1;
      MatrixSize(defs, records[..n], environments);
      assert |records| * |environments| == n * |environments| + |environments|;
    }
  }

  // An override's outcome replaces the default unchecked: it need not be an allowed outcome.
  function BuildResultRow(row: MatrixRow, overrides: map<RowRef, OutcomeCode>): ResultRow {
    var code := if row.ref in overrides then overrides[row.ref] else row.defaultCode;
    ResultRow(row.ref, row.key, row.env, code, OutcomeClassFor(code))
  }

  function BuildDefaultResultRows(rows: seq<MatrixRow>, overrides: map<RowRef, OutcomeCode>): seq<ResultRow> {
    seq(|rows|, i requires 0 <= i < |rows| => BuildResultRow(rows[i], overrides))
  }

  // What class a code is counted under.
  ghost predicate CountedUnder(code: OutcomeCode, kind: OutcomeClass) {
    && (kind.ClassSuccess? <==> code.Success?)
    && (kind.ClassSoftFail? <==>
          code.SoftFailAuthMismatch? || code.SoftFailPrincipalMismatch? || code.SoftFailScopeMismatch?
          || code.SoftFailTransientProviderFailure? || code.SoftFailProviderEnvironmentMismatch?)
    && (kind.ClassBlocked? <==> code.BlockedProviderSelection? || code.BlockedNotSelected?)
    && (kind.ClassManual? <==> code.ManualCheckpointRequired?)
    && (kind.ClassDisabled? <==> code.EnvironmentDisabled?)
  }

  lemma ClassOfCode(code: OutcomeCode)
    ensures CountedUnder(code, OutcomeClassFor(code))
  {
  }

  ghost predicate Classified(rows: seq<ResultRow>) {
    forall i :: 0 <= i < |rows| ==> CountedUnder(rows[i].code, rows[i].kind)
  }

  // A result row repeats its matrix row with the override's outcome, or the default's where there is none.
  lemma ResultRowsState(rows: seq<MatrixRow>, overrides: map<RowRef, OutcomeCode>)
    ensures var results := BuildDefaultResultRows(rows, overrides);
            && |results| == |rows| && Classified(results)
            && forall i :: 0 <= i < |rows| ==>
                 && results[i].ref == rows[i].ref && results[i].key == rows[i].key && results[i].env == rows[i].env
                 && (rows[i].ref in overrides ==> results[i].code == overrides[rows[i].ref])
                 && (rows[i].ref !in overrides ==> results[i].code == rows[i].defaultCode)
  {
    forall i | 0 <= i < |rows| ensures CountedUnder(BuildResultRow(rows[i], overrides).code, BuildResultRow(rows[i], overrides).kind) {
      ClassOfCode(BuildResultRow(rows[i], overrides).code);
    }
  }

  // ---- Counting ----

  function Tally(classes: seq<OutcomeClass>, kind: OutcomeClass): nat {
    if classes == [] then 0
    else Tally(classes[..|classes| - 1], kind) + if classes[|classes| - 1] == kind then 1 else 0
  }

  function CountsOf(classes: seq<OutcomeClass>): Counts {
    Counts(Tally(classes, ClassSuccess), Tally(classes, ClassSoftFail), Tally(classes, ClassBlocked),
           Tally(classes, ClassManual), Tally(classes, ClassDisabled), |classes|)
  }

  function ClassesOf(rows: seq<ResultRow>): seq<OutcomeClass> {
    seq(|rows|, i requires 0 <= i < |rows| => rows[i].kind)
  }

  // How many rows carry one of these codes.
  ghost function WithCode(rows: seq<ResultRow>, codes: set<OutcomeCode>): nat {
    |set i | 0 <= i < |rows| && rows[i].code in codes|
  }

  ghost predicate CountsCodes(rows: seq<ResultRow>, counts: Counts) {
    && counts.success == WithCode(rows, {Success})
    && counts.softFail == WithCode(rows, {SoftFailAuthMismatch, SoftFailPrincipalMismatch, SoftFailScopeMismatch,
                                          SoftFailTransientProviderFailure, SoftFailProviderEnvironmentMismatch})
    && counts.blocked == WithCode(rows, {BlockedProviderSelection, BlockedNotSelected})
    && counts.manual == WithCode(rows, {ManualCheckpointRequired})
    && counts.disabled == WithCode(rows, {EnvironmentDisabled})
    && counts.total == |rows|
  }

  ghost function PositionsOf(classes: seq<OutcomeClass>, kind: OutcomeClass): set<nat> {
    set i | 0 <= i < |classes| && classes[i] == kind
  }

  lemma PositionsStep(classes: seq<OutcomeClass>, kind: OutcomeClass)
    requires classes != []
    ensures var n := |classes| - 1;
            && n !in PositionsOf(classes[..n], kind)
            && PositionsOf(classes, kind) == PositionsOf(classes[..n], kind) + if classes[n] == kind then {n} else {}
  {
  }

  lemma {:induction false} TallyIsSize(classes: seq<OutcomeClass>, kind: OutcomeClass)
    ensures Tally(classes, kind) == |PositionsOf(classes, kind)|
  {
    if classes != [] {
      TallyIsSize(classes[..|classes| - 1], kind);
      PositionsStep(classes, kind);
    }
  }

  lemma TallyIsWithCode(rows: seq<ResultRow>, kind: OutcomeClass, codes: set<OutcomeCode>)
    requires Classified(rows) && forall code, k :: CountedUnder(code, k) ==> (k == kind <==> code in codes)
    ensures Tally(ClassesOf(rows), kind) == WithCode(rows, codes)
  {
    var classes := ClassesOf(rows);
    TallyIsSize(classes, kind);
    forall i | 0 <= i < |rows| ensures classes[i] == kind <==> rows[i].code in codes {
      assert CountedUnder(rows[i].code, rows[i].kind);
    }
    assert PositionsOf(classes, kind) == set i | 0 <= i < |rows| && rows[i].code in codes;
  }

  lemma CountsAreOfCodes(rows: seq<ResultRow>)
    requires Classified(rows)
    ensures CountsCodes(rows, CountsOf(ClassesOf(rows)))
  {
    TallyIsWithCode(rows, ClassSuccess, {Success});
    TallyIsWithCode(rows, ClassSoftFail, {SoftFailAuthMismatch, SoftFailPrincipalMismatch, SoftFailScopeMismatch,
                                          SoftFailTransientProviderFailure, SoftFailProviderEnvironmentMismatch});
    TallyIsWithCode(rows, ClassBlocked, {BlockedProviderSelection, BlockedNotSelected});
    TallyIsWithCode(rows, ClassManual, {ManualCheckpointRequired});
    TallyIsWithCode(rows, ClassDisabled, {EnvironmentDisabled});
  }

  // On rows built from the matrix the counters are those of the outcome codes.
  method CalculateOutcomeCounts(rows: seq<ResultRow>) returns (counts: Counts)
    ensures counts == CountsOf(ClassesOf(rows))
    ensures Classified(rows) ==> CountsCodes(rows, counts)
  {
    var success, softFail, blocked, manual, disabled := 0, 0, 0, 0, 0;
    ghost var classes := ClassesOf(rows);
    for i := 0 to |rows|
      invariant Counts(success, softFail, blocked, manual, disabled, i) == CountsOf(classes[..i])
    {
      assert classes[..i + 1][..i] == classes[..i];
      match rows[i].kind {
        case ClassSuccess => success := success + 1;
        case ClassSoftFail => softFail := softFail + 1;
        case ClassBlocked => blocked := blocked + 1;
        case ClassManual => manual := manual + 1;
        case ClassDisabled => disabled := disabled + 1;
      }
    }
    assert classes[..|rows|] == classes;
    counts := Counts(success, softFail, blocked, manual, disabled, |rows|);
    if Classified(rows) {
      CountsAreOfCodes(rows);
    }
  }

  lemma {:induction false} ClassesSumToTotal(classes: seq<OutcomeClass>)
    ensures var c := CountsOf(classes); c.success + c.softFail + c.blocked + c.manual + c.disabled == c.total
  {
    if classes != [] {
      ClassesSumToTotal(classes[..|classes| - 1]);
    }
  }

  lemma {:induction false} TallyConcat(a: seq<OutcomeClass>, b: seq<OutcomeClass>, kind: OutcomeClass)
    ensures Tally(a + b, kind) == Tally(a, kind) + Tally(b, kind)
  {
    if b == [] {
      assert a + b == a;
    } else {
      assert (a + b)[..|a + b| - 1] == a + b[..|b| - 1];
      TallyConcat(a, b[..|b| - 1], kind);
    }
  }

  lemma {:induction false} TallyAll(classes: seq<OutcomeClass>, kind: OutcomeClass)
    ensures Tally(classes, kind) <= |classes|
    ensures Tally(classes, kind) == |classes| <==> forall i :: 0 <= i < |classes| ==> classes[i] == kind
    ensures Tally(classes, kind) == 0 <==> forall i :: 0 <= i < |classes| ==> classes[i] != kind
  {
    if classes != [] {
      var init := classes[..|classes| - 1];
      TallyAll(init, kind);
      assert forall i :: 0 <= i < |init| ==> init[i] == classes[i];
    }
  }

  datatype Status = Passed | Mixed | BlockedOnly

  function OverallStatus(counts: Counts): Status {
    if counts.success == counts.total then Passed
    else if counts.success == 0 && counts.softFail == 0 && counts.manual == 0 then BlockedOnly
    else Mixed
  }

  // PASSED means every row succeeded; BLOCKED_ONLY means there are rows and every one of them is
  // blocked or disabled in its environment.
  lemma OverallStatusMeaning(classes: seq<OutcomeClass>)
    ensures OverallStatus(CountsOf(classes)).Passed? <==> forall i :: 0 <= i < |classes| ==> classes[i].ClassSuccess?
    ensures OverallStatus(CountsOf(classes)).BlockedOnly? <==>
            classes != [] && forall i :: 0 <= i < |classes| ==> classes[i].ClassBlocked? || classes[i].ClassDisabled?
  {
    TallyAll(classes, ClassSuccess);
    TallyAll(classes, ClassSoftFail);
    TallyAll(classes, ClassManual);
    if classes != [] && forall i :: 0 <= i < |classes| ==> classes[i].ClassBlocked? || classes[i].ClassDisabled? {
      assert !classes[0].ClassSuccess?;
    }
  }

  // The same, by outcome code.
  lemma StatusByCode(rows: seq<MatrixRow>, overrides: map<RowRef, OutcomeCode>)
    ensures var results := BuildDefaultResultRows(rows, overrides);
            var status := OverallStatus(CountsOf(ClassesOf(results)));
            && (status.Passed? <==> forall i :: 0 <= i < |results| ==> results[i].code.Success?)
            && (status.BlockedOnly? <==>
                  results != [] && forall i :: 0 <= i < |results| ==>
                    results[i].code in {BlockedProviderSelection, BlockedNotSelected, EnvironmentDisabled})
  {
    var results := BuildDefaultResultRows(rows, overrides);
    ResultRowsState(rows, overrides);
    OverallStatusMeaning(ClassesOf(results));
    forall i | 0 <= i < |results|
      ensures ClassesOf(results)[i].ClassSuccess? <==> results[i].code.Success?
      ensures ClassesOf(results)[i].ClassBlocked? || ClassesOf(results)[i].ClassDisabled? <==>
              results[i].code in {BlockedProviderSelection, BlockedNotSelected, EnvironmentDisabled}
    {
      assert CountedUnder(results[i].code, results[i].kind);
    }
  }

  // ---- The ledger and its per-environment rollups ----

  datatype Family = Family(key: string, slices: seq<ResultRow>)

  // The result rows by their references. When a reference repeats, the last row with it wins.
  function ResultsByRef(results: seq<ResultRow>): map<RowRef, ResultRow> {
    if results == [] then map[]
    else ResultsByRef(results[..|results| - 1])[results[|results| - 1].ref := results[|results| - 1]]
  }

  // The matrix rows of one credential, in matrix order.
  function RowsOfKey(rows: seq<MatrixRow>, key: string): seq<MatrixRow> {
    if rows == [] then []
    else RowsOfKey(rows[..|rows| - 1], key) + if rows[|rows| - 1].key == key then [rows[|rows| - 1]] else []
  }

  // None stands for the "Missing smoke result" error.
  function SlicesFor(rows: seq<MatrixRow>, results: map<RowRef, ResultRow>): C.Option<seq<ResultRow>> {
    if forall i :: 0 <= i < |rows| ==> rows[i].ref in results then
      C.Some(seq(|rows|, i requires 0 <= i < |rows| => results[rows[i].ref]))
    else C.None
  }

  // The first slice of a family in this environment.
  function FindSlice(slices: seq<ResultRow>, env: string): C.Option<ResultRow> {
    if slices == [] then C.None
    else if slices[0].env == env then C.Some(slices[0])
    else FindSlice(slices[1..], env)
  }

  // The outcome classes a rollup counts for one environment: one per family that has a slice.
  function RollupClasses(families: seq<Family>, env: string): seq<OutcomeClass> {
    if families == [] then []
    else
      var found := FindSlice(families[|families| - 1].slices, env);
      RollupClasses(families[..|families| - 1], env) + if found.Some? then [OutcomeClassFor(found.value.code)] else []
  }

  function Rollup(families: seq<Family>, env: string): Counts {
    CountsOf(RollupClasses(families, env))
  }

  function Add(a: Counts, b: Counts): Counts {
    Counts(a.success + b.success, a.softFail + b.softFail, a.blocked + b.blocked,
           a.manual + b.manual, a.disabled + b.disabled, a.total + b.total)
  }

  // The rollups of all environments, added field by field.
  function RollupSum(families: seq<Family>, environments: seq<Environment>): Counts {
    if environments == [] then Counts(0, 0, 0, 0, 0, 0)
    else Add(RollupSum(families, environments[..|environments| - 1]), Rollup(families, environments[|environments| - 1].ref))
  }

  // The families the ledger builds: one per credential record, with its slices. None stands for a
  // missing result.
  function LedgerFamilies(rows: seq<MatrixRow>, results: seq<ResultRow>, records: seq<CredentialRecord>): C.Option<seq<Family>> {
    var byRef := ResultsByRef(results);
    if forall i :: 0 <= i < |records| ==> SlicesFor(RowsOfKey(rows, records[i].key), byRef).Some? then
      C.Some(seq(|records|, i requires 0 <= i < |records| =>
        Family(records[i].key, SlicesFor(RowsOfKey(rows, records[i].key), byRef).value)))
    else C.None
  }

  function RecordKeys(records: seq<CredentialRecord>): seq<string> {
    seq(|records|, i requires 0 <= i < |records| => records[i].key)
  }

  lemma {:induction false} RowsOfKeyConcat(a: seq<MatrixRow>, b: seq<MatrixRow>, key: string)
    ensures RowsOfKey(a + b, key) == RowsOfKey(a, key) + RowsOfKey(b, key)
  {
    if b == [] {
      assert a + b == a;
    } else {
      assert (a + b)[..|a + b| - 1] == a + b[..|b| - 1];
      RowsOfKeyConcat(a, b[..|b| - 1], key);
    }
  }

  lemma {:induction false} RowsOfKeyUniform(rows: seq<MatrixRow>, own: string, key: string)
    requires forall i :: 0 <= i < |rows| ==> rows[i].key == own
    ensures RowsOfKey(rows, key) == if key == own then rows else []
  {
    if rows != [] {
      RowsOfKeyUniform(rows[..|rows| - 1], own, key);
      assert rows == rows[..|rows| - 1] + [rows[|rows| - 1]];
    }
  }

  lemma AllRowsOfKeyStep(defs: Definitions, records: seq<CredentialRecord>, environments: seq<Environment>, key: string)
    requires records != []
    ensures var n := |records| - 1;
            RowsOfKey(AllRows(defs, records, environments), key) ==
            RowsOfKey(AllRows(defs, records[..n], environments), key)
            + if key == records[n].key then RowsFor(defs, records[n], environments) else []
  {
    var n := |records| - 1;
    RowsOfKeyConcat(AllRows(defs, records[..n], environments), RowsFor(defs, records[n], environments), key);
    RowsOfKeyUniform(RowsFor(defs, records[n], environments), records[n].key, key);
  }

  lemma {:induction false} NoRowsOfKey(defs: Definitions, records: seq<CredentialRecord>, environments: seq<Environment>, key: string)
    requires forall i :: 0 <= i < |records| ==> records[i].key != key
    ensures RowsOfKey(AllRows(defs, records, environments), key) == []
  {
    if records != [] {
      NoRowsOfKey(defs, records[..|records| - 1], environments, key);
      AllRowsOfKeyStep(defs, records, environments, key);
    }
  }

  // With distinct keys a credential's rows are the ones its own expansion produced.
  lemma {:induction false} RowsOfRecord(defs: Definitions, records: seq<CredentialRecord>, environments: seq<Environment>, i: nat)
    requires i < |records| && forall a, b :: 0 <= a < b < |records| ==> records[a].key != records[b].key
    ensures RowsOfKey(AllRows(defs, records, environments), records[i].key) == RowsFor(defs, records[i], environments)
    decreases |records|
  {
    var n := |records| - 1;
    AllRowsOfKeyStep(defs, records, environments, records[i].key);
    if i < n {
      RowsOfRecord(defs, records[..n], environments, i);
    } else {
      NoRowsOfKey(defs, records[..n], environments, records[n].key);
    }
  }

  // Equal refs mean equal rows, so a lookup finds each row's own result.
  ghost predicate RefsDecideRows(rows: seq<MatrixRow>) {
    forall i, j :: 0 <= i < |rows| && 0 <= j < |rows| && rows[i].ref == rows[j].ref ==> rows[i] == rows[j]
  }

  lemma {:induction false} LookupFindsOwn(rows: seq<MatrixRow>, overrides: map<RowRef, OutcomeCode>, i: nat)
    requires RefsDecideRows(rows) && i < |rows|
    ensures var byRef := ResultsByRef(BuildDefaultResultRows(rows, overrides));
            rows[i].ref in byRef && byRef[rows[i].ref] == BuildResultRow(rows[i], overrides)
  {
    var n := |rows| - 1;
    var results := BuildDefaultResultRows(rows, overrides);
    assert results[..n] == BuildDefaultResultRows(rows[..n], overrides);
    if i < n {
      assert RefsDecideRows(rows[..n]);
      LookupFindsOwn(rows[..n], overrides, i);
    }
  }

  lemma {:induction false} RowOrigin(defs: Definitions, records: seq<CredentialRecord>, environments: seq<Environment>, i: nat)
    returns (r: nat, e: nat)
    requires i < |AllRows(defs, records, environments)|
    ensures r < |records| && e < |environments| && AllRows(defs, records, environments)[i] == RowFor(defs, records[r], environments[e])
  {
    var n := |records| - 1;
    var before := AllRows(defs, records[..n], environments);
    if i < |before| {
      r, e := RowOrigin(defs, records[..n], environments, i);
    } else {
      r, e := n, i - |before|;
    }
  }

  // What the fixed environment table provides: distinct references, none of them dotted.
  ghost predicate EnvironmentsDistinct(environments: seq<Environment>) {
    && (forall i, j :: 0 <= i < j < |environments| ==> environments[i].ref != environments[j].ref)
    && (forall i :: 0 <= i < |environments| ==> '.' !in environments[i].ref)
  }

  lemma MatrixRefsDecideRows(defs: Definitions, records: seq<CredentialRecord>, environments: seq<Environment>)
    requires NoDup(RecordKeys(records)) && EnvironmentsDistinct(environments)
    ensures RefsDecideRows(AllRows(defs, records, environments))
  {
    var rows := AllRows(defs, records, environments);
    forall i, j | 0 <= i < |rows| && 0 <= j < |rows| && rows[i].ref == rows[j].ref ensures rows[i] == rows[j] {
      var r, e := RowOrigin(defs, records, environments, i);
      var r', e' := RowOrigin(defs, records, environments, j);
      RowRefInjective(records[r].key, environments[e].ref, records[r'].key, environments[e'].ref);
      assert RecordKeys(records)[r] == records[r].key && RecordKeys(records)[r'] == records[r'].key;
      assert r == r' && e == e';
    }
  }

  // The outcome class of one credential in one environment.
  function ClassAt(defs: Definitions, overrides: map<RowRef, OutcomeCode>, record: CredentialRecord, environment: Environment): OutcomeClass {
    BuildResultRow(RowFor(defs, record, environment), overrides).kind
  }

  lemma {:induction false} FindInOwnSlices(defs: Definitions, overrides: map<RowRef, OutcomeCode>, record: CredentialRecord,
                        environments: seq<Environment>, e: nat)
    requires EnvironmentsDistinct(environments) && e < |environments|
    ensures FindSlice(BuildDefaultResultRows(RowsFor(defs, record, environments), overrides), environments[e].ref) ==
            C.Some(BuildResultRow(RowFor(defs, record, environments[e]), overrides))
  {
    var slices := BuildDefaultResultRows(RowsFor(defs, record, environments), overrides);
    if e > 0 {
      assert slices[1..] == BuildDefaultResultRows(RowsFor(defs, record, environments[1..]), overrides);
      FindInOwnSlices(defs, overrides, record, environments[1..], e - 1);
    }
  }

  // Each family's slices are its own expansion's results.
  lemma FamilySlices(defs: Definitions, overrides: map<RowRef, OutcomeCode>, records: seq<CredentialRecord>,
                     environments: seq<Environment>, i: nat)
    requires NoDup(RecordKeys(records)) && EnvironmentsDistinct(environments) && i < |records|
    ensures var rows := AllRows(defs, records, environments);
            SlicesFor(RowsOfKey(rows, records[i].key), ResultsByRef(BuildDefaultResultRows(rows, overrides))) ==
            C.Some(BuildDefaultResultRows(RowsFor(defs, records[i], environments), overrides))
  {
    var rows := AllRows(defs, records, environments);
    var own := RowsFor(defs, records[i], environments);
    var byRef := ResultsByRef(BuildDefaultResultRows(rows, overrides));
    forall a, b | 0 <= a < b < |records| ensures records[a].key != records[b].key {
      assert RecordKeys(records)[a] != RecordKeys(records)[b];
    }
    RowsOfRecord(defs, records, environments, i);
    MatrixRefsDecideRows(defs, records, environments);
    forall k | 0 <= k < |own| ensures own[k].ref in byRef && byRef[own[k].ref] == BuildResultRow(own[k], overrides) {
      var m := OwnRowPosition(defs, records, environments, i, k);
      LookupFindsOwn(rows, overrides, m);
    }
    assert SlicesFor(own, byRef).value == BuildDefaultResultRows(own, overrides);
  }

  lemma {:induction false} OwnRowPosition(defs: Definitions, records: seq<CredentialRecord>, environments: seq<Environment>, i: nat, k: nat)
    returns (m: nat)
    requires i < |records| && k < |environments|
    ensures m < |AllRows(defs, records, environments)|
    ensures AllRows(defs, records, environments)[m] == RowFor(defs, records[i], environments[k])
    decreases |records|
  {
    var n := |records| - 1;
    if i < n {
      m := OwnRowPosition(defs, records[..n], environments, i, k);
    } else {
      m := |AllRows(defs, records[..n], environments)| + k;
    }
  }

  // ---- Conservation ----

  function Column(defs: Definitions, overrides: map<RowRef, OutcomeCode>, records: seq<CredentialRecord>,
                  environment: Environment): seq<OutcomeClass> {
    seq(|records|, i requires 0 <= i < |records| => ClassAt(defs, overrides, records[i], environment))
  }

  lemma {:induction false} RollupIsColumn(defs: Definitions, overrides: map<RowRef, OutcomeCode>, records: seq<CredentialRecord>,
                                          environments: seq<Environment>, families: seq<Family>, e: nat)
    requires EnvironmentsDistinct(environments) && e < |environments| && |families| == |records|
    requires forall i :: 0 <= i < |records| ==>
               families[i].slices == BuildDefaultResultRows(RowsFor(defs, records[i], environments), overrides)
    ensures RollupClasses(families, environments[e].ref) == Column(defs, overrides, records, environments[e])
  {
    if families != [] {
      var n := |records| - 1;
      RollupIsColumn(defs, overrides, records[..n], environments, families[..n], e);
      FindInOwnSlices(defs, overrides, records[n], environments, e);
      assert Column(defs, overrides, records, environments[e]) ==
             Column(defs, overrides, records[..n], environments[e]) + [ClassAt(defs, overrides, records[n], environments[e])];
    }
  }

  // All classes, record by record.
  function FlatClasses(defs: Definitions, overrides: map<RowRef, OutcomeCode>, records: seq<CredentialRecord>,
                       environments: seq<Environment>): seq<OutcomeClass> {
    ClassesOf(BuildDefaultResultRows(AllRows(defs, records, environments), overrides))
  }

  // One credential's classes across the environments.
  function OwnClasses(defs: Definitions, overrides: map<RowRef, OutcomeCode>, record: CredentialRecord,
                      environments: seq<Environment>): seq<OutcomeClass> {
    seq(|environments|, e requires 0 <= e < |environments| => ClassAt(defs, overrides, record, environments[e]))
  }

  lemma FlatStep(defs: Definitions, overrides: map<RowRef, OutcomeCode>, records: seq<CredentialRecord>, environments: seq<Environment>)
    requires records != []
    ensures FlatClasses(defs, overrides, records, environments) ==
            FlatClasses(defs, overrides, records[..|records| - 1], environments)
            + OwnClasses(defs, overrides, records[|records| - 1], environments)
  {
  }

  lemma ColumnStep(defs: Definitions, overrides: map<RowRef, OutcomeCode>, records: seq<CredentialRecord>, environment: Environment)
    requires records != []
    ensures Column(defs, overrides, records, environment) ==
            Column(defs, overrides, records[..|records| - 1], environment)
            + [ClassAt(defs, overrides, records[|records| - 1], environment)]
  {
  }

  lemma {:induction false} AddEnvironment(defs: Definitions, overrides: map<RowRef, OutcomeCode>, records: seq<CredentialRecord>,
                                          environments: seq<Environment>, environment: Environment, kind: OutcomeClass)
    ensures Tally(FlatClasses(defs, overrides, records, environments + [environment]), kind) ==
            Tally(FlatClasses(defs, overrides, records, environments), kind) +
            Tally(Column(defs, overrides, records, environment), kind)
    ensures |FlatClasses(defs, overrides, records, environments + [environment])| ==
            |FlatClasses(defs, overrides, records, environments)| + |records|
  {
    if records != [] {
      var n := |records| - 1;
      var init, record := records[..n], records[n];
      var own, at := OwnClasses(defs, overrides, record, environments), [ClassAt(defs, overrides, record, environment)];
      AddEnvironment(defs, overrides, init, environments, environment, kind);
      FlatStep(defs, overrides, records, environments);
      FlatStep(defs, overrides, records, environments + [environment]);
      ColumnStep(defs, overrides, records, environment);
      assert OwnClasses(defs, overrides, record, environments + [environment]) == own + at;
      TallyConcat(FlatClasses(defs, overrides, init, environments), own, kind);
      TallyConcat(FlatClasses(defs, overrides, init, environments + [environment]), own + at, kind);
      TallyConcat(own, at, kind);
      TallyConcat(Column(defs, overrides, init, environment), at, kind);
    }
  }

  lemma AddEnvironmentCounts(defs: Definitions, overrides: map<RowRef, OutcomeCode>, records: seq<CredentialRecord>,
                             environments: seq<Environment>, environment: Environment)
    ensures CountsOf(FlatClasses(defs, overrides, records, environments + [environment])) ==
            Add(CountsOf(FlatClasses(defs, overrides, records, environments)),
                CountsOf(Column(defs, overrides, records, environment)))
  {
    AddEnvironment(defs, overrides, records, environments, environment, ClassSuccess);
    AddEnvironment(defs, overrides, records, environments, environment, ClassSoftFail);
    AddEnvironment(defs, overrides, records, environments, environment, ClassBlocked);
    AddEnvironment(defs, overrides, records, environments, environment, ClassManual);
    AddEnvironment(defs, overrides, records, environments, environment, ClassDisabled);
  }

  lemma {:induction false} NoEnvironments(defs: Definitions, overrides: map<RowRef, OutcomeCode>, records: seq<CredentialRecord>)
    ensures FlatClasses(defs, overrides, records, []) == []
  {
    if records != [] {
      NoEnvironments(defs, overrides, records[..|records| - 1]);
      assert AllRows(defs, records[..|records| - 1], []) == [] by {
        assert |FlatClasses(defs, overrides, records[..|records| - 1], [])| == |AllRows(defs, records[..|records| - 1], [])|;
      }
    }
  }

  // The first m environments' rollups add up to the counts of the matrix restricted to them.
  lemma {:induction false} RollupsAddUp(defs: Definitions, overrides: map<RowRef, OutcomeCode>, records: seq<CredentialRecord>,
                                        environments: seq<Environment>, families: seq<Family>, m: nat)
    requires EnvironmentsDistinct(environments) && m <= |environments| && |families| == |records|
    requires forall i :: 0 <= i < |records| ==>
               families[i].slices == BuildDefaultResultRows(RowsFor(defs, records[i], environments), overrides)
    ensures RollupSum(families, environments[..m]) == CountsOf(FlatClasses(defs, overrides, records, environments[..m]))
  {
    if m == 0 {
      NoEnvironments(defs, overrides, records);
      assert environments[..0] == [];
    } else {
      RollupsAddUp(defs, overrides, records, environments, families, m - 1);
      RollupIsColumn(defs, overrides, records, environments, families, m - 1);
      var before, environment := environments[..m - 1], environments[m - 1];
      assert environments[..m] == before + [environment];
      assert environments[..m][..m - 1] == before;
      AddEnvironmentCounts(defs, overrides, records, before, environment);
    }
  }

  // No slice is missing, and each family holds its own results.
  lemma FamiliesAreOwn(defs: Definitions, overrides: map<RowRef, OutcomeCode>, records: seq<CredentialRecord>,
                       environments: seq<Environment>)
    requires NoDup(RecordKeys(records)) && EnvironmentsDistinct(environments)
    ensures var rows := AllRows(defs, records, environments);
            var families := LedgerFamilies(rows, BuildDefaultResultRows(rows, overrides), records);
            && families.Some? && |families.value| == |records|
            && forall i :: 0 <= i < |records| ==>
                 families.value[i] == Family(records[i].key, BuildDefaultResultRows(RowsFor(defs, records[i], environments), overrides))
  {
    var rows := AllRows(defs, records, environments);
    var byRef := ResultsByRef(BuildDefaultResultRows(rows, overrides));
    forall i | 0 <= i < |records|
      ensures SlicesFor(RowsOfKey(rows, records[i].key), byRef) ==
              C.Some(BuildDefaultResultRows(RowsFor(defs, records[i], environments), overrides))
    {
      FamilySlices(defs, overrides, records, environments, i);
    }
  }

  // Conservation: whatever the definitions and overrides, no slice is missing and the ledger's
  // per-environment rollups add up, field by field, to the inventory's counts over all result rows.
  lemma RollupsConserveOutcomes(defs: Definitions, overrides: map<RowRef, OutcomeCode>, records: seq<CredentialRecord>,
                                environments: seq<Environment>)
    requires NoDup(RecordKeys(records)) && EnvironmentsDistinct(environments)
    ensures var rows := AllRows(defs, records, environments);
            var results := BuildDefaultResultRows(rows, overrides);
            var families := LedgerFamilies(rows, results, records);
            families.Some? && RollupSum(families.value, environments) == CountsOf(ClassesOf(results))
  {
    var rows := AllRows(defs, records, environments);
    FamiliesAreOwn(defs, overrides, records, environments);
    var families := LedgerFamilies(rows, BuildDefaultResultRows(rows, overrides), records).value;
    RollupsAddUp(defs, overrides, records, environments, families, |environments|);
    assert environments[..|environments|] == environments;
  }

  // The result rows of the e-th environment, one per credential.
  ghost function EnvironmentRows(results: seq<ResultRow>, records: nat, environments: nat, e: nat): seq<ResultRow>
    requires e < environments && |results| == records * environments
  {
    seq(records, r requires 0 <= r < records => PositionBound(records, environments, r, e); results[r * environments + e])
  }

  lemma EnvironmentCounts(results: seq<ResultRow>, records: nat, environments: nat, e: nat)
    requires e < environments && |results| == records * environments && Classified(results)
    ensures var own := EnvironmentRows(results, records, environments, e); CountsCodes(own, CountsOf(ClassesOf(own)))
  {
    var own := EnvironmentRows(results, records, environments, e);
    forall r | 0 <= r < records ensures CountedUnder(own[r].code, own[r].kind) {
      PositionBound(records, environments, r, e);
      assert own[r] == results[r * environments + e];
    }
    CountsAreOfCodes(own);
  }

  lemma ColumnIsEnvironmentRows(defs: Definitions, overrides: map<RowRef, OutcomeCode>, records: seq<CredentialRecord>,
                                environments: seq<Environment>, e: nat)
    requires e < |environments|
    ensures |AllRows(defs, records, environments)| == |records| * |environments|
    ensures var results := BuildDefaultResultRows(AllRows(defs, records, environments), overrides);
            Column(defs, overrides, records, environments[e]) ==
            ClassesOf(EnvironmentRows(results, |records|, |environments|, e))
  {
    MatrixSize(defs, records, environments);
    forall r | 0 <= r < |records|
      ensures 0 <= r * |environments| + e < |records| * |environments|
      ensures AllRows(defs, records, environments)[r * |environments| + e] == RowFor(defs, records[r], environments[e])
    {
      MatrixPosition(defs, records, environments, r, e);
    }
  }

  // Each environment's rollup counts the outcome codes of that environment's own result rows.
  lemma RollupCountsCodes(defs: Definitions, overrides: map<RowRef, OutcomeCode>, records: seq<CredentialRecord>,
                          environments: seq<Environment>, e: nat)
    requires NoDup(RecordKeys(records)) && EnvironmentsDistinct(environments) && e < |environments|
    ensures var rows := AllRows(defs, records, environments);
            var results := BuildDefaultResultRows(rows, overrides);
            var families := LedgerFamilies(rows, results, records);
            && families.Some? && |results| == |records| * |environments|
            && CountsCodes(EnvironmentRows(results, |records|, |environments|, e), Rollup(families.value, environments[e].ref))
  {
    var rows := AllRows(defs, records, environments);
    var results := BuildDefaultResultRows(rows, overrides);
    FamiliesAreOwn(defs, overrides, records, environments);
    var families := LedgerFamilies(rows, results, records).value;
    RollupIsColumn(defs, overrides, records, environments, families, e);
    ColumnIsEnvironmentRows(defs, overrides, records, environments, e);
    ResultRowsState(rows, overrides);
    EnvironmentCounts(results, |records|, |environments|, e);
  }
}
