// Aggregating health checks of the local stack into per-service and overall readiness.
module Readiness {
  import opened Sequences
  import C = Checklist

  datatype Requirement =
    | ComposeRunningHealthy(service: string)
    | ComposeExitedZero(service: string)
    | StateMarkerEquals(marker: string, expected: C.Option<string>)
    | StateMarkerNonEmpty(marker: string)
    | StateMarkerIncludesAll(marker: string, expectedValues: seq<string>)
    | UnknownRequirement

  datatype ReadinessClass = Base | Semantic

  datatype Check = Check(service: string, checkClass: ReadinessClass, requirement: Requirement, readinessCode: string, failureCode: string)

  datatype ComposeState = ComposeState(state: string, health: string, exitCode: int)

  // A recorded marker: absent, text, or a list of values.
  datatype Marker = Absent | Text(text: string) | Values(values: seq<string>)

  datatype ServiceCodes = ServiceCodes(readiness: seq<string>, failure: seq<string>)

  datatype ServiceStatus = ServiceStatus(ok: bool, readinessCodes: set<string>, failureCodes: set<string>)

  datatype Report = Report(ok: bool, readinessCodes: set<string>, failureCodes: set<string>, services: map<string, ServiceStatus>)

  // The outside facts the checks are evaluated against.
  datatype Observed = Observed(compose: map<string, ComposeState>, markers: map<string, Marker>)

  predicate EvaluateCheck(check: Check, observed: Observed) {
    var compose, markers := observed.compose, observed.markers;
    match check.requirement
    case ComposeRunningHealthy(s) => s in compose && compose[s].state == "running" && compose[s].health == "healthy"
    case ComposeExitedZero(s) => s in compose && compose[s].state == "exited" && compose[s].exitCode == 0
    case StateMarkerEquals(m, expected) =>
      MarkerOf(markers, m) == (match expected case Some(text) => Text(text) case None => Absent)
    case StateMarkerNonEmpty(m) =>
      (match MarkerOf(markers, m) case Values(vs) => vs != [] case Text(t) => t != "" case Absent => false)
    case StateMarkerIncludesAll(m, wanted) =>
      var marker := MarkerOf(markers, m);
      marker.Values? && forall w :: w in wanted ==> w in marker.values
    case UnknownRequirement => false
  }

  function MarkerOf(markers: map<string, Marker>, m: string): Marker {
    if m in markers then markers[m] else Absent
  }

  // SEMANTIC targets every check, BASE only the base ones.
  predicate Targeted(check: Check, readiness: ReadinessClass) {
    readiness == Semantic || check.checkClass == Base
  }

  // ---- What a check asks, and of which class ----

  // The observed facts that a requirement asks for.
  ghost predicate Met(requirement: Requirement, observed: Observed) {
    var compose, markers := observed.compose, observed.markers;
    match requirement
    case ComposeRunningHealthy(s) => exists c :: s in compose && compose[s] == ComposeState("running", "healthy", c)
    case ComposeExitedZero(s) => exists h :: s in compose && compose[s] == ComposeState("exited", h, 0)
    case StateMarkerEquals(m, Some(text)) => m in markers && markers[m] == Text(text)
    case StateMarkerEquals(m, None) => m !in markers || markers[m] == Absent
    case StateMarkerNonEmpty(m) => m in markers && markers[m] !in {Absent, Text(""), Values([])}
    case StateMarkerIncludesAll(m, wanted) => exists vs :: m in markers && markers[m] == Values(vs) && Elements(wanted) <= Elements(vs)
    case UnknownRequirement => false
  }

  ghost predicate Concerns(check: Check, readiness: ReadinessClass) {
    readiness.Semantic? || check.checkClass.Base?
  }

  lemma EvaluationIsMet(check: Check, observed: Observed)
    ensures EvaluateCheck(check, observed) <==> Met(check.requirement, observed)
  {
    var compose, markers := observed.compose, observed.markers;
    match check.requirement
    case ComposeRunningHealthy(s) =>
      assert s in compose ==> compose[s] == ComposeState(compose[s].state, compose[s].health, compose[s].exitCode);
    case ComposeExitedZero(s) =>
      assert s in compose ==> compose[s] == ComposeState(compose[s].state, compose[s].health, compose[s].exitCode);
    case StateMarkerIncludesAll(m, wanted) =>
      assert m in markers && markers[m].Values? ==> markers[m] == Values(markers[m].values);
      if EvaluateCheck(check, observed) {
        assert Elements(wanted) <= Elements(markers[m].values);
      }
      if vs :| m in markers && markers[m] == Values(vs) && Elements(wanted) <= Elements(vs) {
        assert forall w :: w in wanted ==> w in Elements(wanted);
      }
    case _ =>
  }

  // ---- The two passes of the evaluation ----

  // A check contributes its readiness code if it passes and its failure code if it does not.
  function AddOutcome(codes: ServiceCodes, check: Check, pass: bool): ServiceCodes {
    if pass then codes.(readiness := codes.readiness + [check.readinessCode])
    else codes.(failure := codes.failure + [check.failureCode])
  }

  // The codes one service collects, in check order.
  function CodesFor(checks: seq<Check>, readiness: ReadinessClass, observed: Observed, service: string): ServiceCodes {
    if checks == [] then ServiceCodes([], [])
    else
      var before, last := CodesFor(checks[..|checks| - 1], readiness, observed, service), checks[|checks| - 1];
      if Targeted(last, readiness) && last.service == service then AddOutcome(before, last, EvaluateCheck(last, observed)) else before
  }

  ghost predicate Serves(checks: seq<Check>, readiness: ReadinessClass, service: string) {
    exists c :: c in checks && Concerns(c, readiness) && c.service == service
  }

  ghost predicate Grouped(checks: seq<Check>, readiness: ReadinessClass, observed: Observed, services: map<string, ServiceCodes>) {
    && (forall s :: s in services <==> Serves(checks, readiness, s))
    && (forall s :: s in services ==> services[s] == CodesFor(checks, readiness, observed, s))
    && (forall s :: s !in services ==> CodesFor(checks, readiness, observed, s) == ServiceCodes([], []))
  }

  lemma ServesStep(checks: seq<Check>, i: nat, readiness: ReadinessClass, service: string)
    requires i < |checks|
    ensures Serves(checks[..i + 1], readiness, service) <==>
            Serves(checks[..i], readiness, service) || (Targeted(checks[i], readiness) && checks[i].service == service)
  {
    var longer := checks[..i + 1];
    assert longer == checks[..i] + [checks[i]];
    assert checks[i] in longer;
    assert forall c :: c in longer <==> c in checks[..i] || c == checks[i];
  }

  function WithCheck(services: map<string, ServiceCodes>, check: Check, pass: bool): map<string, ServiceCodes> {
    services[check.service := AddOutcome(if check.service in services then services[check.service] else ServiceCodes([], []), check, pass)]
  }

  lemma CodesStep(checks: seq<Check>, i: nat, readiness: ReadinessClass, observed: Observed, service: string, pass: bool)
    requires i < |checks| && pass == EvaluateCheck(checks[i], observed)
    ensures CodesFor(checks[..i + 1], readiness, observed, service) ==
            var before := CodesFor(checks[..i], readiness, observed, service);
            if Targeted(checks[i], readiness) && checks[i].service == service then AddOutcome(before, checks[i], pass) else before
  {
    assert checks[..i + 1][..i] == checks[..i];
  }

  lemma GroupedStep(checks: seq<Check>, i: nat, readiness: ReadinessClass, observed: Observed, services: map<string, ServiceCodes>, pass: bool)
    requires i < |checks| && Grouped(checks[..i], readiness, observed, services)
    requires forall s :: CodesFor(checks[..i + 1], readiness, observed, s) ==
                         var before := CodesFor(checks[..i], readiness, observed, s);
                         if Targeted(checks[i], readiness) && checks[i].service == s then AddOutcome(before, checks[i], pass) else before
    ensures Grouped(checks[..i + 1], readiness, observed,
                    if Targeted(checks[i], readiness) then WithCheck(services, checks[i], pass) else services)
  {
    forall s ensures Serves(checks[..i + 1], readiness, s) <==>
                     Serves(checks[..i], readiness, s) || (Targeted(checks[i], readiness) && checks[i].service == s) {
      ServesStep(checks, i, readiness, s);
    }
  }

  method GroupChecks(checks: seq<Check>, readiness: ReadinessClass, observed: Observed) returns (services: map<string, ServiceCodes>)
    ensures Grouped(checks, readiness, observed, services)
  {
    services := map[];
    for i := 0 to |checks|
      invariant Grouped(checks[..i], readiness, observed, services)
    {
      var pass := EvaluateCheck(checks[i], observed);
      forall s
        ensures CodesFor(checks[..i + 1], readiness, observed, s) ==
                var before := CodesFor(checks[..i], readiness, observed, s);
                if Targeted(checks[i], readiness) && checks[i].service == s then AddOutcome(before, checks[i], pass) else before
      {
        CodesStep(checks, i, readiness, observed, s, pass);
      }
      GroupedStep(checks, i, readiness, observed, services, pass);
      if Targeted(checks[i], readiness) {
        services := WithCheck(services, checks[i], pass);
      }
    }
    assert checks[..|checks|] == checks;
  }

  function StatusOf(codes: ServiceCodes): ServiceStatus {
    ServiceStatus(codes.failure == [], Elements(codes.readiness), Elements(codes.failure))
  }

  // The codes the named services collected.
  ghost function ReadinessUnion(services: map<string, ServiceCodes>, names: set<string>): set<string> {
    set s, code | s in names && s in services && code in services[s].readiness :: code
  }

  ghost function FailureUnion(services: map<string, ServiceCodes>, names: set<string>): set<string> {
    set s, code | s in names && s in services && code in services[s].failure :: code
  }

  lemma UnionStep(services: map<string, ServiceCodes>, names: set<string>, s: string)
    requires s in services
    ensures ReadinessUnion(services, names + {s}) == ReadinessUnion(services, names) + Elements(services[s].readiness)
    ensures FailureUnion(services, names + {s}) == FailureUnion(services, names) + Elements(services[s].failure)
  {
  }

  // What the report must say, service by service and overall.
  ghost predicate ReportOf(services: map<string, ServiceCodes>, report: Report) {
    && report.services.Keys == services.Keys
    && (forall s :: s in services ==> report.services[s] == StatusOf(services[s]))
    && (report.ok <==> report.failureCodes == {})
    && report.readinessCodes == ReadinessUnion(services, services.Keys)
    && report.failureCodes == FailureUnion(services, services.Keys)
  }

  method Summarise(services: map<string, ServiceCodes>) returns (report: Report)
    ensures ReportOf(services, report)
  {
    var statuses: map<string, ServiceStatus> := map[];
    var readiness, failure: set<string> := {}, {};
    var rest := services.Keys;
    while rest != {}
      invariant Summarised(services, rest, statuses, readiness, failure)
      decreases |rest|
    {
      var s :| s in rest;
      SummariseStep(services, rest, statuses, readiness, failure, s);
      statuses := statuses[s := StatusOf(services[s])];
      readiness := readiness + Elements(services[s].readiness);
      failure := failure + Elements(services[s].failure);
      rest := rest - {s};
    }
    assert statuses.Keys == services.Keys;
    report := Report(failure == {}, readiness, failure, statuses);
  }

  ghost predicate Summarised(services: map<string, ServiceCodes>, rest: set<string>, statuses: map<string, ServiceStatus>,
                             readiness: set<string>, failure: set<string>) {
    && rest <= services.Keys && statuses.Keys == services.Keys - rest
    && (forall s :: s in statuses ==> statuses[s] == StatusOf(services[s]))
    && readiness == ReadinessUnion(services, statuses.Keys) && failure == FailureUnion(services, statuses.Keys)
  }

  lemma SummariseStep(services: map<string, ServiceCodes>, rest: set<string>, statuses: map<string, ServiceStatus>,
                      readiness: set<string>, failure: set<string>, s: string)
    requires Summarised(services, rest, statuses, readiness, failure) && s in rest
    ensures Summarised(services, rest - {s}, statuses[s := StatusOf(services[s])],
                       readiness + Elements(services[s].readiness), failure + Elements(services[s].failure))
  {
    UnionStep(services, statuses.Keys, s);
    var more := statuses[s := StatusOf(services[s])];
    assert more.Keys == statuses.Keys + {s};
  }

  ghost predicate AllPass(checks: seq<Check>, readiness: ReadinessClass, observed: Observed) {
    forall c :: c in checks && Concerns(c, readiness) ==> Met(c.requirement, observed)
  }

  lemma {:induction false} NoFailuresIff(checks: seq<Check>, readiness: ReadinessClass, observed: Observed, service: string)
    ensures CodesFor(checks, readiness, observed, service).failure == [] <==>
            forall c :: c in checks && Concerns(c, readiness) && c.service == service ==> Met(c.requirement, observed)
  {
    if checks != [] {
      EvaluationIsMet(checks[|checks| - 1], observed);
      NoFailuresIff(checks[..|checks| - 1], readiness, observed, service);
      assert checks == checks[..|checks| - 1] + [checks[|checks| - 1]];
    }
  }

  // Ready exactly when every targeted check passes, and exactly when every service is ready.
  lemma ReadyIff(checks: seq<Check>, readiness: ReadinessClass, observed: Observed, services: map<string, ServiceCodes>, report: Report)
    requires Grouped(checks, readiness, observed, services) && ReportOf(services, report)
    ensures report.ok <==> AllPass(checks, readiness, observed)
    ensures report.ok <==> forall s :: s in report.services ==> report.services[s].ok
  {
    forall s | s in services
      ensures services[s].failure == [] <==>
              forall c :: c in checks && Concerns(c, readiness) && c.service == s ==> Met(c.requirement, observed)
    {
      NoFailuresIff(checks, readiness, observed, s);
    }
    forall c | c in checks && Concerns(c, readiness) ensures c.service in services {
      assert Serves(checks, readiness, c.service);
    }
    if s :| s in services && services[s].failure != [] {
      assert services[s].failure[0] in services[s].failure;
      assert services[s].failure[0] in report.failureCodes;
    }
  }

  // Semantic readiness includes base readiness.
  lemma SemanticImpliesBase(checks: seq<Check>, observed: Observed, semanticServices: map<string, ServiceCodes>, semantic: Report,
                            baseServices: map<string, ServiceCodes>, base: Report)
    requires Grouped(checks, Semantic, observed, semanticServices) && ReportOf(semanticServices, semantic)
    requires Grouped(checks, Base, observed, baseServices) && ReportOf(baseServices, base)
    ensures semantic.ok ==> base.ok
  {
    ReadyIff(checks, Semantic, observed, semanticServices, semantic);
    ReadyIff(checks, Base, observed, baseServices, base);
  }

  // ---- The report, read off the checks directly ----

  // The readiness codes of the targeted checks that pass, and the failure codes of those that do
  // not, among the checks of the named services.
  ghost function PassedCodes(checks: seq<Check>, readiness: ReadinessClass, observed: Observed, names: set<string>): set<string> {
    set c | c in checks && Concerns(c, readiness) && c.service in names && Met(c.requirement, observed) :: c.readinessCode
  }

  ghost function FailedCodes(checks: seq<Check>, readiness: ReadinessClass, observed: Observed, names: set<string>): set<string> {
    set c | c in checks && Concerns(c, readiness) && c.service in names && !Met(c.requirement, observed) :: c.failureCode
  }

  lemma NextCodes(checks: seq<Check>, readiness: ReadinessClass, observed: Observed, service: string)
    requires checks != []
    ensures var init, last := checks[..|checks| - 1], checks[|checks| - 1];
            var concerned := Concerns(last, readiness) && last.service == service;
            && PassedCodes(checks, readiness, observed, {service}) ==
               PassedCodes(init, readiness, observed, {service})
               + (if concerned && Met(last.requirement, observed) then {last.readinessCode} else {})
            && FailedCodes(checks, readiness, observed, {service}) ==
               FailedCodes(init, readiness, observed, {service})
               + (if concerned && !Met(last.requirement, observed) then {last.failureCode} else {})
  {
    assert checks == checks[..|checks| - 1] + [checks[|checks| - 1]];
  }

  lemma {:induction false} CodesExact(checks: seq<Check>, readiness: ReadinessClass, observed: Observed, service: string)
    ensures Elements(CodesFor(checks, readiness, observed, service).readiness) == PassedCodes(checks, readiness, observed, {service})
    ensures Elements(CodesFor(checks, readiness, observed, service).failure) == FailedCodes(checks, readiness, observed, {service})
  {
    if checks != [] {
      var init, last := checks[..|checks| - 1], checks[|checks| - 1];
      CodesExact(init, readiness, observed, service);
      EvaluationIsMet(last, observed);
      NextCodes(checks, readiness, observed, service);
      var before := CodesFor(init, readiness, observed, service);
      assert Elements(before.readiness + [last.readinessCode]) == Elements(before.readiness) + {last.readinessCode};
      assert Elements(before.failure + [last.failureCode]) == Elements(before.failure) + {last.failureCode};
    }
  }

  lemma OverallCodesExact(checks: seq<Check>, readiness: ReadinessClass, observed: Observed, services: map<string, ServiceCodes>)
    requires Grouped(checks, readiness, observed, services)
    ensures ReadinessUnion(services, services.Keys) == PassedCodes(checks, readiness, observed, services.Keys)
    ensures FailureUnion(services, services.Keys) == FailedCodes(checks, readiness, observed, services.Keys)
  {
    forall s | s in services
      ensures Elements(services[s].readiness) == PassedCodes(checks, readiness, observed, {s})
      ensures Elements(services[s].failure) == FailedCodes(checks, readiness, observed, {s})
    {
      CodesExact(checks, readiness, observed, s);
    }
    forall code ensures code in ReadinessUnion(services, services.Keys) <==> code in PassedCodes(checks, readiness, observed, services.Keys) {
      if s :| s in services && code in services[s].readiness {
        assert code in Elements(services[s].readiness);
      }
      if c :| c in checks && Concerns(c, readiness) && c.service in services && Met(c.requirement, observed) && c.readinessCode == code {
        assert code in PassedCodes(checks, readiness, observed, {c.service});
        assert code in Elements(services[c.service].readiness);
      }
    }
    forall code ensures code in FailureUnion(services, services.Keys) <==> code in FailedCodes(checks, readiness, observed, services.Keys) {
      if s :| s in services && code in services[s].failure {
        assert code in Elements(services[s].failure);
      }
      if c :| c in checks && Concerns(c, readiness) && c.service in services && !Met(c.requirement, observed) && c.failureCode == code {
        assert code in FailedCodes(checks, readiness, observed, {c.service});
        assert code in Elements(services[c.service].failure);
      }
    }
  }

  // Whole evaluation: ready exactly when every targeted check passes; one status per targeted
  // service, ready exactly when its own checks pass; and codes that are exactly those of the
  // passing and failing checks, per service and overall.
  method Evaluate(checks: seq<Check>, readiness: ReadinessClass, observed: Observed) returns (report: Report)
    ensures report.ok <==> AllPass(checks, readiness, observed)
    ensures report.ok <==> forall s :: s in report.services ==> report.services[s].ok
    ensures forall s :: s in report.services <==> Serves(checks, readiness, s)
    ensures forall s :: s in report.services ==>
              report.services[s] == ServiceStatus(FailedCodes(checks, readiness, observed, {s}) == {},
                                                  PassedCodes(checks, readiness, observed, {s}),
                                                  FailedCodes(checks, readiness, observed, {s}))
    ensures report.readinessCodes == PassedCodes(checks, readiness, observed, report.services.Keys)
    ensures report.failureCodes == FailedCodes(checks, readiness, observed, report.services.Keys)
  {
    var services := GroupChecks(checks, readiness, observed);
    report := Summarise(services);
    ReadyIff(checks, readiness, observed, services, report);
    OverallCodesExact(checks, readiness, observed, services);
    forall s | s in report.services
      ensures report.services[s] == ServiceStatus(FailedCodes(checks, readiness, observed, {s}) == {},
                                                  PassedCodes(checks, readiness, observed, {s}),
                                                  FailedCodes(checks, readiness, observed, {s}))
    {
      CodesExact(checks, readiness, observed, s);
      assert services[s].failure == [] <==> Elements(services[s].failure) == {} by {
        if services[s].failure != [] {
          assert services[s].failure[0] in Elements(services[s].failure);
        }
      }
    }
  }
}
