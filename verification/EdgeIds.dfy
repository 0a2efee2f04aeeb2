// Edges, the text of their ids, and the order in which the edge dictionaries are presented.
module EdgeIds {
  import opened Sequences
  import opened Checklist
  import opened TextOrder

  datatype EdgeClass = ProtocolHard | ArtifactHard | PolicyHard | ResourceHard | ConcurrencyHard | SoftContext

  datatype EdgeId = EdgeId(source: string, target: string, edgeClass: EdgeClass, ruleId: string)

  datatype Edge = Edge(id: EdgeId, rationale: string)

  function ClassName(edgeClass: EdgeClass): string {
    match edgeClass
    case ProtocolHard => "PROTOCOL_HARD"
    case ArtifactHard => "ARTIFACT_HARD"
    case PolicyHard => "POLICY_HARD"
    case ResourceHard => "RESOURCE_HARD"
    case ConcurrencyHard => "CONCURRENCY_HARD"
    case SoftContext => "SOFT_CONTEXT"
  }

  // ---- The text of an id ----

  // Text in which every underscore is followed by something else, as in all task ids and class names.
  ghost predicate Plain(text: string) {
    forall i :: 0 <= i < |text| && text[i] == '_' ==> i + 1 < |text| && text[i + 1] != '_'
  }

  lemma CutAt(a: string, rest: string, b: string, rest': string)
    requires Plain(a) && Plain(b) && a + "__" + rest == b + "__" + rest'
    ensures a == b && rest == rest'
  {
    var text := a + "__" + rest;
    if |a| < |b| {
      NoEarlierCut(a, rest, b, rest');
    } else if |b| < |a| {
      NoEarlierCut(b, rest', a, rest);
    }
    assert text[..|a|] == a && (b + "__" + rest')[..|b|] == b;
    assert text[|a| + 2..] == rest && (b + "__" + rest')[|b| + 2..] == rest';
  }

  lemma NoEarlierCut(a: string, rest: string, b: string, rest': string)
    requires Plain(b) && a + "__" + rest == b + "__" + rest'
    ensures |a| >= |b|
  {
    var text := a + "__" + rest;
    assert text[|a|] == '_' && text[|a| + 1] == '_';
    assert text[..|b|] == b;
  }

  lemma ClassNameIsPlain(edgeClass: EdgeClass)
    ensures Plain(ClassName(edgeClass))
  {
  }

  // Two letters tell the classes apart.
  lemma ClassNameStarts(edgeClass: EdgeClass)
    ensures |ClassName(edgeClass)| > 2
    ensures (ClassName(edgeClass)[0], ClassName(edgeClass)[1]) ==
            match edgeClass
            case ProtocolHard => ('P', 'R')
            case ArtifactHard => ('A', 'R')
            case PolicyHard => ('P', 'O')
            case ResourceHard => ('R', 'E')
            case ConcurrencyHard => ('C', 'O')
            case SoftContext => ('S', 'O')
  {
  }

  lemma ClassNamesDiffer(a: EdgeClass, b: EdgeClass)
    requires ClassName(a) == ClassName(b)
    ensures a == b
  {
    ClassNameStarts(a);
    ClassNameStarts(b);
  }

  // Ids that read the same are the same, so a dictionary keyed by the text is one keyed by the four
  // parts.
  lemma IdTextInjective(a: EdgeId, b: EdgeId)
    requires Plain(a.source) && Plain(a.target) && Plain(b.source) && Plain(b.target)
    ensures (a.source + "__" + a.target + "__" + ClassName(a.edgeClass) + "__" + a.ruleId ==
             b.source + "__" + b.target + "__" + ClassName(b.edgeClass) + "__" + b.ruleId) <==> a == b
  {
    var tailA, tailB := ClassName(a.edgeClass) + "__" + a.ruleId, ClassName(b.edgeClass) + "__" + b.ruleId;
    var textA := a.source + "__" + a.target + "__" + ClassName(a.edgeClass) + "__" + a.ruleId;
    var textB := b.source + "__" + b.target + "__" + ClassName(b.edgeClass) + "__" + b.ruleId;
    assert textA == a.source + "__" + (a.target + "__" + tailA);
    assert textB == b.source + "__" + (b.target + "__" + tailB);
    if textA == textB {
      ClassNameIsPlain(a.edgeClass);
      ClassNameIsPlain(b.edgeClass);
      CutAt(a.source, a.target + "__" + tailA, b.source, b.target + "__" + tailB);
      CutAt(a.target, tailA, b.target, tailB);
      CutAt(ClassName(a.edgeClass), a.ruleId, ClassName(b.edgeClass), b.ruleId);
      ClassNamesDiffer(a.edgeClass, b.edgeClass);
    }
  }

  // ---- The order of presentation ----

  function Position(lookup: map<string, Task>, taskId: string): int {
    if taskId in lookup then lookup[taskId].orderIndex else -1
  }

  // By target position, source position, class name and rule id.
  predicate Precedes(lookup: map<string, Task>, a: EdgeId, b: EdgeId) {
    if Position(lookup, a.target) != Position(lookup, b.target) then Position(lookup, a.target) < Position(lookup, b.target)
    else if Position(lookup, a.source) != Position(lookup, b.source) then Position(lookup, a.source) < Position(lookup, b.source)
    else if a.edgeClass != b.edgeClass then Below(Codes(ClassName(a.edgeClass)), Codes(ClassName(b.edgeClass)))
    else Below(Codes(a.ruleId), Codes(b.ruleId))
  }

  lemma TextTrichotomy(a: string, b: string)
    ensures Below(Codes(a), Codes(b)) || a == b || Below(Codes(b), Codes(a))
    ensures !(Below(Codes(a), Codes(b)) && Below(Codes(b), Codes(a)))
  {
    BelowTrichotomy(Codes(a), Codes(b));
    if Codes(a) == Codes(b) {
      CodesInjective(a, b);
    }
  }

  lemma PrecedesAsymmetric(lookup: map<string, Task>)
    ensures Asymmetric((a, b) => Precedes(lookup, a, b))
  {
    forall a: EdgeId, b: EdgeId | Precedes(lookup, a, b) ensures !Precedes(lookup, b, a) {
      TextTrichotomy(ClassName(a.edgeClass), ClassName(b.edgeClass));
      TextTrichotomy(a.ruleId, b.ruleId);
    }
  }

  // Each task has its own position, and the edges join known tasks.
  ghost predicate Positioned(lookup: map<string, Task>, edges: set<EdgeId>) {
    && (forall s, t :: s in lookup && t in lookup && lookup[s].orderIndex == lookup[t].orderIndex ==> s == t)
    && (forall id :: id in edges ==> id.source in lookup && id.target in lookup)
  }

  lemma PrecedesTotal(lookup: map<string, Task>, edges: set<EdgeId>, a: EdgeId, b: EdgeId)
    requires Positioned(lookup, edges) && a in edges && b in edges
    ensures Precedes(lookup, a, b) || a == b || Precedes(lookup, b, a)
  {
    if ClassName(a.edgeClass) == ClassName(b.edgeClass) {
      ClassNamesDiffer(a.edgeClass, b.edgeClass);
    }
    TextTrichotomy(ClassName(a.edgeClass), ClassName(b.edgeClass));
    TextTrichotomy(a.ruleId, b.ruleId);
  }

  lemma PrecedesTransitive(lookup: map<string, Task>, a: EdgeId, b: EdgeId, c: EdgeId)
    requires Precedes(lookup, a, b) && Precedes(lookup, b, c)
    ensures Precedes(lookup, a, c)
  {
    var x, y, z := Codes(ClassName(a.edgeClass)), Codes(ClassName(b.edgeClass)), Codes(ClassName(c.edgeClass));
    if Below(x, y) && Below(y, z) {
      BelowTransitive(x, y, z);
      BelowTrichotomy(x, z);
    }
    BelowTrichotomy(x, y);
    if Below(Codes(a.ruleId), Codes(b.ruleId)) && Below(Codes(b.ruleId), Codes(c.ruleId)) {
      BelowTransitive(Codes(a.ruleId), Codes(b.ruleId), Codes(c.ruleId));
    }
  }

  // Every edge once, in strictly rising order.
  ghost predicate Presents(listed: seq<EdgeId>, edges: set<EdgeId>, lookup: map<string, Task>) {
    Elements(listed) == edges && Rising((a, b) => Precedes(lookup, a, b), listed)
  }

  // There is one such list, in whatever order the edges were stored.
  lemma PresentationUnique(a: seq<EdgeId>, b: seq<EdgeId>, edges: set<EdgeId>, lookup: map<string, Task>)
    requires Presents(a, edges, lookup) && Presents(b, edges, lookup)
    ensures a == b && NoDup(a)
  {
    PrecedesAsymmetric(lookup);
    RisingUnique((x, y) => Precedes(lookup, x, y), a, b);
    RisingNoDup((x, y) => Precedes(lookup, x, y), a);
  }

  // The alphabetical order of the class names.
  ghost function ClassRank(edgeClass: EdgeClass): nat {
    match edgeClass
    case ArtifactHard => 0
    case ConcurrencyHard => 1
    case PolicyHard => 2
    case ProtocolHard => 3
    case ResourceHard => 4
    case SoftContext => 5
  }

  lemma LowerClassBelow(a: EdgeClass, b: EdgeClass)
    requires ClassRank(a) < ClassRank(b)
    ensures Below(Codes(ClassName(a)), Codes(ClassName(b)))
  {
    var x, y := Codes(ClassName(a)), Codes(ClassName(b));
    ClassNameStarts(a);
    ClassNameStarts(b);
    BelowMeans(x, y);
    if ClassName(a)[0] == ClassName(b)[0] {
      assert x[..1] == [x[0]] && y[..1] == [y[0]];
      assert DiffersBelow(x, y, 1);
    } else {
      assert DiffersBelow(x, y, 0);
    }
  }

  lemma ClassOrder(a: EdgeClass, b: EdgeClass)
    ensures Below(Codes(ClassName(a)), Codes(ClassName(b))) <==> ClassRank(a) < ClassRank(b)
  {
    BelowTrichotomy(Codes(ClassName(a)), Codes(ClassName(b)));
    if ClassRank(a) < ClassRank(b) {
      LowerClassBelow(a, b);
    } else if ClassRank(b) < ClassRank(a) {
      LowerClassBelow(b, a);
    }
  }

  // By the position of the target, then of the source, then by class, then by the text of the rule id.
  ghost predicate ComesFirst(tasks: seq<Task>, a: EdgeId, b: EdgeId, sa: nat, ta: nat, sb: nat, tb: nat)
    requires sa < |tasks| && ta < |tasks| && sb < |tasks| && tb < |tasks|
    requires tasks[sa].taskId == a.source && tasks[ta].taskId == a.target
    requires tasks[sb].taskId == b.source && tasks[tb].taskId == b.target
  {
    || ta < tb
    || (ta == tb && sa < sb)
    || (ta == tb && sa == sb && ClassRank(a.edgeClass) < ClassRank(b.edgeClass))
    || (ta == tb && sa == sb && a.edgeClass == b.edgeClass && StandsBelow(Codes(a.ruleId), Codes(b.ruleId)))
  }

  // What comes earlier in the list comes first in that order.
  lemma ListedByPosition(tasks: seq<Task>, lookup: map<string, Task>, listed: seq<EdgeId>, edges: set<EdgeId>, i: nat, j: nat,
                         si: nat, ti: nat, sj: nat, tj: nat)
    requires Presents(listed, edges, lookup) && i < j < |listed|
    requires forall k :: 0 <= k < |tasks| ==> tasks[k].taskId in lookup && lookup[tasks[k].taskId].orderIndex == k
    requires si < |tasks| && ti < |tasks| && sj < |tasks| && tj < |tasks|
    requires tasks[si].taskId == listed[i].source && tasks[ti].taskId == listed[i].target
    requires tasks[sj].taskId == listed[j].source && tasks[tj].taskId == listed[j].target
    ensures ComesFirst(tasks, listed[i], listed[j], si, ti, sj, tj)
  {
    var a, b := listed[i], listed[j];
    assert ((x, y) => Precedes(lookup, x, y))(a, b);
    ClassOrder(a.edgeClass, b.edgeClass);
    BelowMeans(Codes(a.ruleId), Codes(b.ruleId));
  }

  method FirstEdge(edges: set<EdgeId>, lookup: map<string, Task>) returns (first: EdgeId)
    requires edges != {} && Positioned(lookup, edges)
    ensures first in edges && forall id :: id in edges && id != first ==> Precedes(lookup, first, id)
  {
    first :| first in edges;
    var rest := edges - {first};
    while rest != {}
      invariant first in edges && rest <= edges && first !in rest
      invariant forall id :: id in edges && id !in rest && id != first ==> Precedes(lookup, first, id)
      decreases |rest|
    {
      var id :| id in rest;
      rest := rest - {id};
      if Precedes(lookup, id, first) {
        forall other | other in edges && other !in rest && other != id ensures Precedes(lookup, id, other) {
          if other != first {
            PrecedesTransitive(lookup, id, first, other);
          }
        }
        first := id;
      } else {
        PrecedesTotal(lookup, edges, first, id);
      }
    }
  }

  ghost predicate AllPrecede(lookup: map<string, Task>, listed: seq<EdgeId>, rest: set<EdgeId>) {
    forall i, id :: 0 <= i < |listed| && id in rest ==> Precedes(lookup, listed[i], id)
  }

  lemma ListNext(lookup: map<string, Task>, listed: seq<EdgeId>, rest: set<EdgeId>, first: EdgeId)
    requires Rising((a, b) => Precedes(lookup, a, b), listed) && AllPrecede(lookup, listed, rest)
    requires first in rest && forall id :: id in rest && id != first ==> Precedes(lookup, first, id)
    ensures Rising((a, b) => Precedes(lookup, a, b), listed + [first])
    ensures AllPrecede(lookup, listed + [first], rest - {first})
    ensures Elements(listed + [first]) + (rest - {first}) == Elements(listed) + rest
  {
    var longer := listed + [first];
    assert Elements(longer) == Elements(listed) + {first};
    forall i, j | 0 <= i < j < |longer| ensures Precedes(lookup, longer[i], longer[j]) {
      if j < |listed| {
        assert longer[i] == listed[i] && longer[j] == listed[j];
        assert ((a, b) => Precedes(lookup, a, b))(listed[i], listed[j]);
      } else {
        assert longer[i] == listed[i];
      }
    }
    forall i, id | 0 <= i < |longer| && id in rest - {first} ensures Precedes(lookup, longer[i], id) {
      if i < |listed| {
        assert longer[i] == listed[i];
      }
    }
  }

  // The sort by the four-part key.
  method ListEdges(edges: set<EdgeId>, lookup: map<string, Task>) returns (listed: seq<EdgeId>)
    requires Positioned(lookup, edges)
    ensures Presents(listed, edges, lookup)
  {
    listed := [];
    var rest := edges;
    while rest != {}
      invariant rest <= edges && Elements(listed) + rest == edges
      invariant Rising((a, b) => Precedes(lookup, a, b), listed) && AllPrecede(lookup, listed, rest)
      decreases |rest|
    {
      var first := FirstEdge(rest, lookup);
      ListNext(lookup, listed, rest, first);
      listed := listed + [first];
      rest := rest - {first};
    }
  }
}
