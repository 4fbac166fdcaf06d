// What an evaluator built from a document decides, said of the document alone: rules
// are sorted, conditions interpreted and nodes counted without compiling anything.
module DocumentDecisions {
  import opened Ordering
  import opened Decisions
  import opened Conditions
  import opened ConditionDocuments
  import Abac

  // ---- Nodes visited ----

  function AllEffort(p: Parsers, ds: seq<ConditionDocument>, request: Request, maxSetSize: nat): nat
    decreases ds, 0
  {
    if ds == [] then 0
    else
      Effort(p, ds[0], request, maxSetSize) +
      if Interpret(p, ds[0], request, maxSetSize) == Done(StatusMatch)
      then AllEffort(p, ds[1..], request, maxSetSize) else 0
  }

  function AnyEffort(p: Parsers, ds: seq<ConditionDocument>, request: Request, maxSetSize: nat): nat
    decreases ds, 0
  {
    if ds == [] then 0
    else
      var head := Interpret(p, ds[0], request, maxSetSize);
      Effort(p, ds[0], request, maxSetSize) +
      if head.Done? && head.status != StatusMatch then AnyEffort(p, ds[1..], request, maxSetSize) else 0
  }

  /** How many nodes of the document a short-circuit interpretation enters. */
  function Effort(p: Parsers, d: ConditionDocument, request: Request, maxSetSize: nat): nat
    decreases d, 1
  {
    if d.operator == "all" then 1 + AllEffort(p, d.conditions, request, maxSetSize)
    else if d.operator == "any" then 1 + AnyEffort(p, d.conditions, request, maxSetSize)
    else if d.operator == "not" && d.condition.Some? then 1 + Effort(p, d.condition.value, request, maxSetSize)
    else 1
  }

  /** Compilation preserves the nodes visited, hence the cost. */
  lemma {:induction false} BuildPreservesVisits(p: Parsers, d: ConditionDocument, request: Request, maxSetSize: nat)
    requires Build(p, d).Ok?
    ensures Visits(Build(p, d).value, request, maxSetSize) == Effort(p, d, request, maxSetSize)
    decreases d, 1
  {
    if Branches(d) {
      BuildListPreservesVisits(p, d.conditions, request, maxSetSize);
    } else if d.operator == "not" {
      BuildPreservesVisits(p, d.condition.value, request, maxSetSize);
    }
  }

  lemma {:induction false} BuildListPreservesVisits(
    p: Parsers, ds: seq<ConditionDocument>, request: Request, maxSetSize: nat)
    requires BuildList(p, ds).Ok?
    ensures AllVisits(BuildList(p, ds).value, request, maxSetSize) == AllEffort(p, ds, request, maxSetSize)
    ensures AnyVisits(BuildList(p, ds).value, request, maxSetSize) == AnyEffort(p, ds, request, maxSetSize)
    decreases ds, 0
  {
    if ds != [] {
      BuildPreservesMeaning(p, ds[0], request, maxSetSize);
      BuildPreservesVisits(p, ds[0], request, maxSetSize);
      BuildListPreservesVisits(p, ds[1..], request, maxSetSize);
      HeadAndTail(Build(p, ds[0]).value, BuildList(p, ds[1..]).value);
    }
  }

  // ---- The condition of a rule ----

  function FindNamed(named: seq<NamedDocument>, name: string, version: nat): Option<ConditionDocument> {
    if named == [] then None
    else
      var last := named[|named| - 1];
      if last.name == name && last.version == version then Some(last.condition)
      else FindNamed(named[..|named| - 1], name, version)
  }

  /** The condition document that a rule names or carries. */
  function ConditionOf(d: Document, r: RuleDocument): Option<ConditionDocument> {
    if r.conditionName != "" then FindNamed(d.named, r.conditionName, r.conditionVersion) else r.condition
  }

  function MeaningIn(p: Parsers, d: Document, r: RuleDocument, request: Request): Meaning {
    var c := ConditionOf(d, r);
    if c.None? then Stuck else Interpret(p, c.value, request, d.limits.maxSetSize)
  }

  function EffortIn(p: Parsers, d: Document, r: RuleDocument, request: Request): nat {
    var c := ConditionOf(d, r);
    if c.None? then 0 else Effort(p, c.value, request, d.limits.maxSetSize)
  }

  lemma {:induction false} NamedAgrees(
    p: Parsers, docs: seq<NamedDocument>, named: seq<Abac.NamedCondition>, name: string, version: nat)
    requires |docs| == |named| && forall i :: 0 <= i < |named| ==> CompileNamed(p, docs[i]) == Ok(named[i])
    ensures var key, found := Abac.NamedKey(name, version), FindNamed(docs, name, version);
            && (key in Abac.NamedMap(named) <==> found.Some?)
            && (found.Some? ==> Build(p, found.value) == Ok(Abac.NamedMap(named)[key]))
  {
    if docs != [] {
      var last := |docs| - 1;
      assert CompileNamed(p, docs[last]) == Ok(named[last]);
      NamedAgrees(p, docs[..last], named[..last], name, version);
    }
  }

  // ---- Rule documents and bound rules ----

  const NO_RULE := Abac.Rule("", 0, "", "", "", "", Deny, Absent, "", 0)

  /** The rule in force that a document becomes. */
  function RuleOf(p: Parsers, named: seq<Abac.NamedCondition>, r: RuleDocument): Abac.Rule {
    var c := CompileRule(p, r);
    if c.Ok? then Abac.BoundRule(c.value, Abac.NamedMap(named)) else NO_RULE
  }

  function RulesOf(p: Parsers, named: seq<Abac.NamedCondition>, docs: seq<RuleDocument>): seq<Abac.Rule> {
    seq(|docs|, i requires 0 <= i < |docs| => RuleOf(p, named, docs[i]))
  }

  function DocumentRank(r: RuleDocument): Rank { Rank(r.priority, r.id) }

  predicate InScope(r: RuleDocument, request: Request) {
    r.tenant == request.tenant && r.action == request.action && r.resourceType == request.resource.kind &&
    (r.resourceID == "" || r.resourceID == request.resource.id)
  }

  ghost function Scoped(request: Request): RuleDocument -> bool { (r: RuleDocument) => InScope(r, request) }

  /** The rule documents in scope, by priority and then identifier. */
  ghost function Ranked(d: Document, request: Request): seq<RuleDocument> {
    Sort(Filter(d.rules, Scoped(request)), DocumentRank)
  }

  function MatchOf(r: RuleDocument): Match { Match(r.id, if r.effect == "allow" then Allow else Deny) }

  /** A rule document and the rule it becomes have the same place, scope, effect, meaning and cost. */
  ghost predicate Agree(p: Parsers, d: Document, r: RuleDocument, x: Abac.Rule, request: Request) {
    && Abac.RuleRank(x) == DocumentRank(r) && Abac.AsMatch(x) == MatchOf(r)
    && (Abac.InScope(x, request) <==> InScope(r, request))
    && Abac.MeaningFor(x, request, d.limits) == MeaningIn(p, d, r, request)
    && Abac.VisitsFor(x, request, d.limits) == EffortIn(p, d, r, request)
  }

  lemma RuleAgrees(
    p: Parsers, d: Document, rules: seq<Abac.Rule>, named: seq<Abac.NamedCondition>, i: nat, request: Request)
    requires CompiledTo(p, d, rules, named) && Abac.WellFormed(rules, named, d.limits) && i < |d.rules|
    ensures Agree(p, d, d.rules[i], RuleOf(p, named, d.rules[i]), request)
  {
    var r := d.rules[i];
    assert CompileRule(p, r) == Ok(rules[i]);
    assert Abac.RuleFine(rules[i], Abac.NamedMap(named), d.limits);
    NamedAgrees(p, d.named, named, r.conditionName, r.conditionVersion);
    var c := ConditionOf(d, r).value;
    BuildPreservesMeaning(p, c, request, d.limits.maxSetSize);
    BuildPreservesVisits(p, c, request, d.limits.maxSetSize);
  }

  ghost predicate AllAgree(
    p: Parsers, d: Document, named: seq<Abac.NamedCondition>, docs: seq<RuleDocument>, request: Request)
  {
    forall r :: r in docs ==> Agree(p, d, r, RuleOf(p, named, r), request)
  }

  // ---- The decision ----

  function TotalEffort(p: Parsers, d: Document, docs: seq<RuleDocument>, request: Request): nat {
    if docs == [] then 0 else EffortIn(p, d, docs[0], request) + TotalEffort(p, d, docs[1..], request)
  }

  /** The rule documents whose condition interprets to a match. */
  function MatchesIn(p: Parsers, d: Document, docs: seq<RuleDocument>, request: Request): seq<Match> {
    if docs == [] then []
    else
      (if MeaningIn(p, d, docs[0], request) == Done(StatusMatch) then [MatchOf(docs[0])] else []) +
      MatchesIn(p, d, docs[1..], request)
  }

  ghost predicate AllDecided(p: Parsers, d: Document, docs: seq<RuleDocument>, request: Request) {
    forall i :: 0 <= i < |docs| ==> MeaningIn(p, d, docs[i], request).Done?
  }

  lemma {:induction false} TablesAgree(
    p: Parsers, d: Document, named: seq<Abac.NamedCondition>, docs: seq<RuleDocument>, request: Request)
    requires AllAgree(p, d, named, docs, request)
    ensures var xs := RulesOf(p, named, docs);
            && Abac.MatchesOf(xs, request, d.limits) == MatchesIn(p, d, docs, request)
            && Abac.TotalVisits(xs, request, d.limits) == TotalEffort(p, d, docs, request)
            && (Abac.AllDone(xs, request, d.limits) <==> AllDecided(p, d, docs, request))
  {
    if docs != [] {
      assert docs[0] in docs;
      TablesAgree(p, d, named, docs[1..], request);
      assert RulesOf(p, named, docs)[1..] == RulesOf(p, named, docs[1..]);
    }
    forall i | 0 <= i < |docs|
      ensures Abac.MeaningFor(RuleOf(p, named, docs[i]), request, d.limits) == MeaningIn(p, d, docs[i], request)
    {
      assert docs[i] in docs;
    }
  }

  lemma RankedElements(d: Document, request: Request)
    requires DistinctRanks(d.rules, DocumentRank)
    ensures StrictlySorted(Ranked(d, request), DocumentRank)
    ensures forall r :: r in Ranked(d, request) <==> r in d.rules && InScope(r, request)
  {
    var scoped := Filter(d.rules, Scoped(request));
    FilterDistinct(d.rules, Scoped(request), DocumentRank);
    FilterElements(d.rules, Scoped(request));
    SortSorted(scoped, DocumentRank);
    SortedDistinct(scoped, Sort(scoped, DocumentRank), DocumentRank);
    SameElements(scoped, Sort(scoped, DocumentRank));
  }

  lemma DocumentsDistinct(p: Parsers, d: Document, rules: seq<Abac.Rule>, named: seq<Abac.NamedCondition>)
    requires CompiledTo(p, d, rules, named) && Abac.DistinctIDs(rules)
    ensures DistinctRanks(d.rules, DocumentRank)
  {
    forall i, j | 0 <= i < j < |d.rules| ensures DocumentRank(d.rules[i]) != DocumentRank(d.rules[j]) {
      assert CompileRule(p, d.rules[i]) == Ok(rules[i]) && CompileRule(p, d.rules[j]) == Ok(rules[j]);
    }
  }

  lemma RulesOfSorted(
    p: Parsers, d: Document, named: seq<Abac.NamedCondition>, docs: seq<RuleDocument>, request: Request)
    requires StrictlySorted(docs, DocumentRank) && AllAgree(p, d, named, docs, request)
    ensures StrictlySorted(RulesOf(p, named, docs), Abac.RuleRank)
  {
    var xs := RulesOf(p, named, docs);
    forall i, j | 0 <= i < j < |xs| ensures Before(Abac.RuleRank(xs[i]), Abac.RuleRank(xs[j])) {
      assert docs[i] in docs && docs[j] in docs;
    }
  }

  lemma {:induction false} RulesOfElements(
    p: Parsers, named: seq<Abac.NamedCondition>, docs: seq<RuleDocument>, x: Abac.Rule)
    ensures x in RulesOf(p, named, docs) <==> exists r :: r in docs && x == RuleOf(p, named, r)
  {
    var xs := RulesOf(p, named, docs);
    if x in xs {
      var k :| 0 <= k < |xs| && xs[k] == x;
      assert docs[k] in docs;
    }
    if r :| r in docs && x == RuleOf(p, named, r) {
      var k :| 0 <= k < |docs| && docs[k] == r;
      assert xs[k] == x;
    }
  }

  lemma Becomes(p: Parsers, named: seq<Abac.NamedCondition>, r: RuleDocument, q: Abac.Rule, request: Request)
    requires CompileRule(p, r) == Ok(q)
    ensures RuleOf(p, named, r) == Abac.BoundRule(q, Abac.NamedMap(named))
    ensures Abac.InScope(RuleOf(p, named, r), request) <==> InScope(r, request)
  {
  }

  lemma {:induction false} SourceOf(
    p: Parsers, d: Document, rules: seq<Abac.Rule>, named: seq<Abac.NamedCondition>, x: Abac.Rule)
    returns (r: RuleDocument)
    requires CompiledTo(p, d, rules, named) && Abac.DistinctIDs(rules) && x in Abac.InForce(rules, named)
    ensures r in d.rules && x == RuleOf(p, named, r)
  {
    Abac.InForceElements(rules, named);
    var q :| q in rules && x == Abac.BoundRule(q, Abac.NamedMap(named));
    var i :| 0 <= i < |rules| && rules[i] == q;
    r := d.rules[i];
  }

  lemma {:induction false} TakesForce(
    p: Parsers, d: Document, rules: seq<Abac.Rule>, named: seq<Abac.NamedCondition>, r: RuleDocument)
    requires CompiledTo(p, d, rules, named) && Abac.DistinctIDs(rules) && r in d.rules
    ensures CompileRule(p, r).Ok? && RuleOf(p, named, r) in Abac.InForce(rules, named)
  {
    Abac.InForceElements(rules, named);
    var i :| 0 <= i < |d.rules| && d.rules[i] == r;
    assert rules[i] in rules;
  }

  lemma {:induction false} InForceBecomes(
    p: Parsers, d: Document, rules: seq<Abac.Rule>, named: seq<Abac.NamedCondition>, request: Request, x: Abac.Rule)
    requires CompiledTo(p, d, rules, named) && Abac.DistinctIDs(rules)
    ensures x in Abac.InForce(rules, named) && Abac.InScope(x, request) <==>
            exists r :: r in d.rules && InScope(r, request) && x == RuleOf(p, named, r)
  {
    if x in Abac.InForce(rules, named) {
      var r := SourceOf(p, d, rules, named, x);
      TakesForce(p, d, rules, named, r);
      Becomes(p, named, r, CompileRule(p, r).value, request);
    }
    if r :| r in d.rules && InScope(r, request) && x == RuleOf(p, named, r) {
      TakesForce(p, d, rules, named, r);
      Becomes(p, named, r, CompileRule(p, r).value, request);
    }
  }

  lemma {:induction false} SameRules(
    p: Parsers, d: Document, rules: seq<Abac.Rule>, named: seq<Abac.NamedCondition>, request: Request, x: Abac.Rule)
    requires CompiledTo(p, d, rules, named) && Abac.WellFormed(rules, named, d.limits)
    ensures x in Filter(Abac.InForce(rules, named), Abac.Scoped(request)) <==>
            x in RulesOf(p, named, Ranked(d, request))
  {
    DocumentsDistinct(p, d, rules, named);
    RankedElements(d, request);
    FilterElements(Abac.InForce(rules, named), Abac.Scoped(request));
    InForceBecomes(p, d, rules, named, request, x);
    RulesOfElements(p, named, Ranked(d, request), x);
  }

  /** The rules in scope are what the ranked documents become. */
  lemma {:induction false} ScopeAgrees(
    p: Parsers, d: Document, rules: seq<Abac.Rule>, named: seq<Abac.NamedCondition>, request: Request)
    requires CompiledTo(p, d, rules, named) && Abac.WellFormed(rules, named, d.limits)
    ensures AllAgree(p, d, named, Ranked(d, request), request)
    ensures Filter(Abac.InForce(rules, named), Abac.Scoped(request)) == RulesOf(p, named, Ranked(d, request))
  {
    var docs := Ranked(d, request);
    DocumentsDistinct(p, d, rules, named);
    RankedElements(d, request);
    forall r | r in docs ensures Agree(p, d, r, RuleOf(p, named, r), request) {
      var i :| 0 <= i < |d.rules| && d.rules[i] == r;
      RuleAgrees(p, d, rules, named, i, request);
    }
    RulesOfSorted(p, d, named, docs, request);
    Abac.InForceElements(rules, named);
    FilterStrictlySorted(Abac.InForce(rules, named), Abac.Scoped(request), Abac.RuleRank);
    forall x ensures x in Filter(Abac.InForce(rules, named), Abac.Scoped(request)) <==> x in RulesOf(p, named, docs) {
      SameRules(p, d, rules, named, request, x);
    }
    StrictlySortedUnique(
      Filter(Abac.InForce(rules, named), Abac.Scoped(request)), RulesOf(p, named, docs), Abac.RuleRank);
  }

  /** The evaluator built from a document decides by the table over the rule documents that interpret to a
      match, within the limits counted on the documents, and otherwise denies with an error. */
  lemma {:induction false} BuiltDecides(p: Parsers, d: Document, ev: Abac.Evaluator, request: Request)
    requires Builds(p, d, ev)
    ensures var docs := Ranked(d, request);
            var matches := MatchesIn(p, d, docs, request);
            var r := Abac.Decide(ev.rules, ev.limits, request);
            if AllDecided(p, d, docs, request) && TotalEffort(p, d, docs, request) <= d.limits.maxCost &&
               |matches| <= d.limits.maxMatches
            then r == Evaluation(Summarize(matches, Abac.ALLOW_REASON, Abac.DENY_REASON), None)
            else r.error.Some? && r.decision == Abac.LIMITED
  {
    var rules, named :|
      && CompiledTo(p, d, rules, named) && Abac.WellFormed(rules, named, d.limits)
      && ev == Abac.Evaluator(Abac.InForce(rules, named), d.limits);
    ScopeAgrees(p, d, rules, named, request);
    TablesAgree(p, d, named, Ranked(d, request), request);
    Abac.DecideWithinLimits(ev.rules, ev.limits, request);
  }
}
