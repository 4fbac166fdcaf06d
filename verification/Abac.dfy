// The attribute-based model (abac/abac.go): named-condition binding and sorting in
// New, and the rule loop with one cost counter shared by all rules in scope.
module Abac {
  import opened Ordering
  import opened Indexing
  import opened Decisions
  import opened Conditions
  import opened ConditionValidation

  datatype Rule = Rule(
    id: string, priority: int, tenant: string, action: string, resourceType: string, resourceID: string,
    effect: Outcome, condition: Condition, conditionName: string, conditionVersion: nat)

  datatype NamedCondition = NamedCondition(name: string, version: nat, condition: Condition)

  datatype Error =
    | RuleLimitExceeded | InvalidRule | DuplicateNamedCondition | UnknownNamedCondition
    | BadCondition(validation: ValidationError)
    | Failure(evaluation: EvaluationError) | MatchLimitExceeded

  datatype Evaluator = Evaluator(rules: seq<Rule>, limits: Limits)

  const ALLOW_REASON := "abac-allow"
  const DENY_REASON := "abac-explicit-deny"
  const LIMITED := Plain(Deny, "abac-limit-exceeded")

  function RuleRank(r: Rule): Rank { Rank(r.priority, r.id) }

  function RuleID(r: Rule): string { r.id }

  // ---- Named conditions ----

  datatype NamedKey = NamedKey(name: string, version: nat)

  function KeyOf(n: NamedCondition): NamedKey { NamedKey(n.name, n.version) }

  /** Why a condition is not admitted, if it is not. */
  function ConditionFault(c: Condition, limits: Limits): Option<ValidationError> {
    FirstFault(Nodes(c, 1), limits, 0)
  }

  ghost function NamedFault(named: seq<NamedCondition>, limits: Limits, i: nat): Option<Error>
    requires i < |named|
  {
    var n := named[i];
    if n.name == "" || n.version == 0 || n.condition.Absent? then Some(BadCondition(InvalidCondition))
    else if exists j :: 0 <= j < i && KeyOf(named[j]) == KeyOf(n) then Some(DuplicateNamedCondition)
    else if ConditionFault(n.condition, limits).Some? then Some(BadCondition(ConditionFault(n.condition, limits).value))
    else None
  }

  /** The map that resolves references. */
  function NamedMap(named: seq<NamedCondition>): map<NamedKey, Condition> {
    if named == [] then map[]
    else var last := named[|named| - 1]; NamedMap(named[..|named| - 1])[KeyOf(last) := last.condition]
  }

  lemma {:induction false} NamedMapKeys(named: seq<NamedCondition>, key: NamedKey)
    ensures key in NamedMap(named) <==> exists j :: 0 <= j < |named| && KeyOf(named[j]) == key
    ensures key in NamedMap(named) ==>
      exists j :: 0 <= j < |named| && KeyOf(named[j]) == key && NamedMap(named)[key] == named[j].condition
  {
    if named != [] {
      var init := named[..|named| - 1];
      NamedMapKeys(init, key);
      if KeyOf(named[|named| - 1]) != key && key in NamedMap(init) {
        var j :| 0 <= j < |init| && KeyOf(init[j]) == key && NamedMap(init)[key] == init[j].condition;
        assert named[j] == init[j];
      }
    }
  }

  method BindNamed(named: seq<NamedCondition>, limits: Limits) returns (r: Result<map<NamedKey, Condition>, Error>)
    ensures r.Ok? <==> forall i :: 0 <= i < |named| ==> NamedFault(named, limits, i) == None
    ensures r.Ok? ==> r.value == NamedMap(named)
    ensures r.Err? ==> FirstNamedFault(named, limits, r.error)
  {
    var bound: map<NamedKey, Condition> := map[];
    for i := 0 to |named|
      invariant bound == NamedMap(named[..i])
      invariant forall j :: 0 <= j < i ==> NamedFault(named, limits, j) == None
    {
      var n := named[i];
      ghost var fault := NamedFault(named, limits, i);
      if n.name == "" || n.version == 0 || n.condition.Absent? {
        assert fault == Some(BadCondition(InvalidCondition));
        return Err(BadCondition(InvalidCondition));
      }
      NamedMapKeys(named[..i], KeyOf(n));
      if KeyOf(n) in bound {
        assert fault == Some(DuplicateNamedCondition);
        return Err(DuplicateNamedCondition);
      }
      var err := ValidateConditionLimits(n.condition, limits);
      if err.Some? {
        assert fault == Some(BadCondition(err.value));
        return Err(BadCondition(err.value));
      }
      assert fault == None;
      assert named[..i + 1][..i] == named[..i];
      bound := bound[KeyOf(n) := n.condition];
    }
    assert named[..|named|] == named;
    return Ok(bound);
  }

  ghost predicate FirstNamedFault(named: seq<NamedCondition>, limits: Limits, e: Error) {
    exists i :: 0 <= i < |named| && NamedFault(named, limits, i) == Some(e) &&
                (forall j :: 0 <= j < i ==> NamedFault(named, limits, j) == None)
  }

  // ---- Rules ----

  /** Resolves a reference to a named condition; a rule has an inline condition or a reference, never both. */
  function Bind(r: Rule, named: map<NamedKey, Condition>): Result<Rule, Error> {
    if r.conditionName != "" then
      if !r.condition.Absent? || r.conditionVersion == 0 then Err(InvalidRule)
      else if NamedKey(r.conditionName, r.conditionVersion) !in named then Err(UnknownNamedCondition)
      else Ok(r.(condition := named[NamedKey(r.conditionName, r.conditionVersion)]))
    else if r.conditionVersion != 0 then Err(InvalidRule)
    else Ok(r)
  }

  predicate ValidRule(r: Rule) {
    r.id != "" && r.action != "" && r.resourceType != "" && (r.effect == Allow || r.effect == Deny) &&
    !r.condition.Absent?
  }

  ghost function RuleFault(rules: seq<Rule>, named: map<NamedKey, Condition>, limits: Limits, i: nat): Option<Error>
    requires i < |rules|
  {
    var bound := Bind(rules[i], named);
    if bound.Err? then Some(bound.error)
    else if !ValidRule(bound.value) then Some(InvalidRule)
    else if exists j :: 0 <= j < i && rules[j].id == rules[i].id then Some(InvalidRule)
    else if ConditionFault(bound.value.condition, limits).Some? then
      Some(BadCondition(ConditionFault(bound.value.condition, limits).value))
    else None
  }

  ghost predicate FirstRuleFault(rules: seq<Rule>, named: map<NamedKey, Condition>, limits: Limits, e: Error) {
    exists i :: 0 <= i < |rules| && RuleFault(rules, named, limits, i) == Some(e) &&
                (forall j :: 0 <= j < i ==> RuleFault(rules, named, limits, j) == None)
  }

  /** A rule that is fine on its own. */
  ghost predicate RuleFine(r: Rule, named: map<NamedKey, Condition>, limits: Limits) {
    var bound := Bind(r, named);
    bound.Ok? && ValidRule(bound.value) && ConditionFault(bound.value.condition, limits) == None
  }

  ghost predicate DistinctIDs(rules: seq<Rule>) {
    forall i, j :: 0 <= i < j < |rules| ==> rules[i].id != rules[j].id
  }

  ghost predicate RulesFine(rules: seq<Rule>, named: map<NamedKey, Condition>, limits: Limits) {
    (forall i :: 0 <= i < |rules| ==> RuleFine(rules[i], named, limits)) && DistinctIDs(rules)
  }

  ghost predicate WellFormed(rules: seq<Rule>, named: seq<NamedCondition>, limits: Limits) {
    && |rules| <= limits.maxRules && |named| <= limits.maxNamedConditions
    && (forall i :: 0 <= i < |named| ==> NamedFault(named, limits, i) == None)
    && RulesFine(rules, NamedMap(named), limits)
  }

  function BoundRule(r: Rule, named: map<NamedKey, Condition>): Rule {
    var bound := Bind(r, named);
    if bound.Ok? then bound.value else r
  }

  function Bound(rules: seq<Rule>, named: map<NamedKey, Condition>): seq<Rule> {
    seq(|rules|, i requires 0 <= i < |rules| => BoundRule(rules[i], named))
  }

  /** The rules in force: bound and sorted by priority, then identifier. */
  function InForce(rules: seq<Rule>, named: seq<NamedCondition>): seq<Rule> {
    Sort(Bound(rules, NamedMap(named)), RuleRank)
  }

  lemma NoRuleFault(rules: seq<Rule>, named: map<NamedKey, Condition>, limits: Limits)
    ensures RulesFine(rules, named, limits) <==>
            forall i :: 0 <= i < |rules| ==> RuleFault(rules, named, limits, i) == None
  {
    if forall i :: 0 <= i < |rules| ==> RuleFault(rules, named, limits, i) == None {
      forall i | 0 <= i < |rules| ensures RuleFine(rules[i], named, limits) {
        assert RuleFault(rules, named, limits, i) == None;
      }
      forall i, j | 0 <= i < j < |rules| ensures rules[i].id != rules[j].id {
        assert RuleFault(rules, named, limits, j) == None;
      }
    }
    if RulesFine(rules, named, limits) {
      forall i | 0 <= i < |rules| ensures RuleFault(rules, named, limits, i) == None {
        assert RuleFine(rules[i], named, limits);
      }
    }
  }

  /** One rule of the binding loop. */
  method CheckRule(rules: seq<Rule>, named: map<NamedKey, Condition>, limits: Limits, i: nat, ids: set<string>)
    returns (r: Result<Rule, Error>)
    requires i < |rules| && ids == IDs(rules[..i], RuleID)
    ensures r.Ok? ==> RuleFault(rules, named, limits, i) == None && r.value == BoundRule(rules[i], named)
    ensures r.Err? ==> RuleFault(rules, named, limits, i) == Some(r.error)
  {
    IDsSnoc(rules, RuleID, i);
    var rule := rules[i];
    if rule.conditionName != "" {
      if !rule.condition.Absent? || rule.conditionVersion == 0 {
        return Err(InvalidRule);
      }
      var key := NamedKey(rule.conditionName, rule.conditionVersion);
      if key !in named {
        return Err(UnknownNamedCondition);
      }
      rule := rule.(condition := named[key]);
    } else if rule.conditionVersion != 0 {
      return Err(InvalidRule);
    }
    if !ValidRule(rule) {
      return Err(InvalidRule);
    }
    if rule.id in ids {
      return Err(InvalidRule);
    }
    var err := ValidateConditionLimits(rule.condition, limits);
    if err.Some? {
      return Err(BadCondition(err.value));
    }
    return Ok(rule);
  }

  method BindRules(rules: seq<Rule>, named: map<NamedKey, Condition>, limits: Limits)
    returns (r: Result<seq<Rule>, Error>)
    ensures r.Ok? <==> RulesFine(rules, named, limits)
    ensures r.Ok? ==> r.value == Bound(rules, named)
    ensures r.Err? ==> FirstRuleFault(rules, named, limits, r.error)
  {
    NoRuleFault(rules, named, limits);
    var bound := rules;
    var ids: set<string> := {};
    for i := 0 to |rules|
      invariant |bound| == |rules| && ids == IDs(rules[..i], RuleID)
      invariant forall j :: 0 <= j < i ==>
        RuleFault(rules, named, limits, j) == None && bound[j] == BoundRule(rules[j], named)
    {
      var checked := CheckRule(rules, named, limits, i, ids);
      if checked.Err? {
        return Err(checked.error);
      }
      IDsSnoc(rules, RuleID, i);
      ids := ids + {rules[i].id};
      bound := bound[i := checked.value];
    }
    return Ok(bound);
  }

  lemma BoundKeepsRanks(rules: seq<Rule>, named: map<NamedKey, Condition>)
    requires DistinctIDs(rules)
    ensures DistinctRanks(Bound(rules, named), RuleRank)
  {
  }

  lemma RanksIdentifyDistinct(rules: seq<Rule>)
    requires DistinctRanks(rules, RuleRank)
    ensures RanksIdentify(rules, RuleRank)
  {
    forall i, j | 0 <= i < |rules| && 0 <= j < |rules| && RuleRank(rules[i]) == RuleRank(rules[j])
      ensures rules[i] == rules[j]
    {
      assert !(i < j) && !(j < i);
    }
  }

  /** New publishes the bound rules in their one possible order, or the first fault. */
  method New(rules: seq<Rule>, named: seq<NamedCondition>, limits: Limits) returns (r: Result<Evaluator, Error>)
    ensures r.Ok? <==> WellFormed(rules, named, limits)
    ensures r.Ok? ==> r.value == Evaluator(InForce(rules, named), limits)
    ensures r.Err? ==>
            if |rules| > limits.maxRules || |named| > limits.maxNamedConditions then r.error == RuleLimitExceeded
            else if exists i :: 0 <= i < |named| && NamedFault(named, limits, i) != None then
              FirstNamedFault(named, limits, r.error)
            else FirstRuleFault(rules, NamedMap(named), limits, r.error)
  {
    if |rules| > limits.maxRules {
      return Err(RuleLimitExceeded);
    }
    if |named| > limits.maxNamedConditions {
      return Err(RuleLimitExceeded);
    }
    var resolved := BindNamed(named, limits);
    if resolved.Err? {
      return Err(resolved.error);
    }
    var bound := BindRules(rules, resolved.value, limits);
    if bound.Err? {
      return Err(bound.error);
    }
    var sorted := SortFunc(bound.value, RuleRank);
    BoundKeepsRanks(rules, resolved.value);
    SameElements(sorted, bound.value);
    SortedDistinct(bound.value, sorted, RuleRank);
    StrictHasNoTies(sorted);
    RanksIdentifyDistinct(sorted);
    SortSorted(bound.value, RuleRank);
    SortedPermutationUnique(sorted, Sort(bound.value, RuleRank), RuleRank);
    return Ok(Evaluator(sorted, limits));
  }

  lemma StrictHasNoTies(rules: seq<Rule>)
    requires StrictlySorted(rules, RuleRank)
    ensures DistinctRanks(rules, RuleRank)
  {
    forall i, j | 0 <= i < j < |rules| ensures RuleRank(rules[i]) != RuleRank(rules[j]) {
      BeforeIsStrictOrder(RuleRank(rules[i]), RuleRank(rules[j]));
    }
  }

  // ---- Evaluate ----

  predicate InScope(r: Rule, request: Request) {
    r.tenant == request.tenant && r.action == request.action && r.resourceType == request.resource.kind &&
    (r.resourceID == "" || r.resourceID == request.resource.id)
  }

  ghost function Scoped(request: Request): Rule -> bool { (r: Rule) => InScope(r, request) }

  function AsMatch(r: Rule): Match { Match(r.id, r.effect) }

  function MeaningFor(r: Rule, request: Request, limits: Limits): Meaning {
    MeaningOf(r.condition, request, limits.maxSetSize)
  }

  function VisitsFor(r: Rule, request: Request, limits: Limits): nat {
    Visits(r.condition, request, limits.maxSetSize)
  }

  function Rejection(e: Error): Evaluation<Error> { Evaluation(LIMITED, Some(e)) }

  /** Judges rules in order with `cost` already spent and `found` already matched. */
  function Judge(rules: seq<Rule>, request: Request, limits: Limits, cost: nat, found: seq<Match>): Evaluation<Error> {
    if rules == [] then Evaluation(Summarize(found, ALLOW_REASON, DENY_REASON), None)
    else
      var meaning, spent := MeaningFor(rules[0], request, limits), cost + VisitsFor(rules[0], request, limits);
      if spent > limits.maxCost then Rejection(Failure(CostExceeded))
      else if meaning == Oversize then Rejection(Failure(SetLimitExceeded))
      else if meaning == Stuck then Rejection(Failure(Panic))
      else if meaning != Done(StatusMatch) then Judge(rules[1..], request, limits, spent, found)
      else if |found| >= limits.maxMatches then Rejection(MatchLimitExceeded)
      else Judge(rules[1..], request, limits, spent, found + [AsMatch(rules[0])])
  }

  /** The decision of sorted rules on a request. */
  ghost function Decide(rules: seq<Rule>, limits: Limits, request: Request): Evaluation<Error> {
    Judge(Filter(rules, Scoped(request)), request, limits, 0, [])
  }

  lemma JudgeNext(rule: Rule, rest: seq<Rule>, request: Request, limits: Limits, cost: nat, found: seq<Match>)
    ensures Judge([rule] + rest, request, limits, cost, found) ==
            var meaning, spent := MeaningFor(rule, request, limits), cost + VisitsFor(rule, request, limits);
            if spent > limits.maxCost then Rejection(Failure(CostExceeded))
            else if meaning == Oversize then Rejection(Failure(SetLimitExceeded))
            else if meaning == Stuck then Rejection(Failure(Panic))
            else if meaning != Done(StatusMatch) then Judge(rest, request, limits, spent, found)
            else if |found| >= limits.maxMatches then Rejection(MatchLimitExceeded)
            else Judge(rest, request, limits, spent, found + [AsMatch(rule)])
  {
    HeadAndTail(rule, rest);
  }

  /** One rule in scope: its error, or the decision and counter to go on with. */
  method ApplyRule(
    state: EvaluationState, rule: Rule, limits: Limits, decision: Decision, ghost found: seq<Match>,
    ghost rest: seq<Rule>)
    returns (err: Option<Error>, next: Decision, ghost found': seq<Match>)
    requires state.maxCost == limits.maxCost && state.maxSetSize == limits.maxSetSize && state.cost <= limits.maxCost
    requires decision == Summarize(found, ALLOW_REASON, DENY_REASON) && |decision.matched| == |found|
    modifies state
    ensures state.cost <= limits.maxCost
    ensures err.Some? ==> Judge([rule] + rest, state.request, limits, old(state.cost), found) == Rejection(err.value)
    ensures err == None ==>
      && Judge([rule] + rest, state.request, limits, old(state.cost), found) ==
         Judge(rest, state.request, limits, state.cost, found')
      && next == Summarize(found', ALLOW_REASON, DENY_REASON) && |next.matched| == |found'|
  {
    JudgeNext(rule, rest, state.request, limits, state.cost, found);
    next, found' := decision, found;
    var answer := state.Evaluate(rule.condition);
    if answer.error.Some? {
      return Some(Failure(answer.error.value)), next, found';
    }
    if answer.verdict.matched {
      if |decision.matched| >= limits.maxMatches {
        return Some(MatchLimitExceeded), next, found';
      }
      AddMatchSummarizes(found, AsMatch(rule), ALLOW_REASON, DENY_REASON);
      next := AddMatch(decision, AsMatch(rule), ALLOW_REASON, DENY_REASON);
      found' := found + [AsMatch(rule)];
    }
    err := None;
  }

  /** Evaluate agrees with judging the rules in scope one after the other. */
  method Evaluate(ev: Evaluator, request: Request) returns (r: Evaluation<Error>)
    ensures r == Decide(ev.rules, ev.limits, request)
  {
    var limits := ev.limits;
    var state := new EvaluationState(request, limits.maxCost, limits.maxSetSize);
    var decision := NO_MATCH;
    ghost var found: seq<Match> := [];
    ghost var rest := Filter(ev.rules, Scoped(request));
    assert ev.rules[0..] == ev.rules;
    for i := 0 to |ev.rules|
      invariant state.request == request && state.maxCost == limits.maxCost && state.maxSetSize == limits.maxSetSize
      invariant state.cost <= limits.maxCost
      invariant decision == Summarize(found, ALLOW_REASON, DENY_REASON) && |decision.matched| == |found|
      invariant rest == Filter(ev.rules[i..], Scoped(request))
      invariant Judge(rest, request, limits, state.cost, found) == Decide(ev.rules, limits, request)
    {
      FilterFrom(ev.rules, i, Scoped(request));
      if InScope(ev.rules[i], request) {
        rest := Filter(ev.rules[i + 1..], Scoped(request));
        var err;
        err, decision, found := ApplyRule(state, ev.rules[i], limits, decision, found, rest);
        if err.Some? {
          return Rejection(err.value);
        }
      }
    }
    return Evaluation(decision, None);
  }

  lemma FilterFrom<T>(s: seq<T>, i: nat, keep: T -> bool)
    requires i < |s|
    ensures Filter(s[i..], keep) == (if keep(s[i]) then [s[i]] else []) + Filter(s[i + 1..], keep)
  {
    assert s[i..][1..] == s[i + 1..];
  }

  // ---- What the decision is ----

  function TotalVisits(rules: seq<Rule>, request: Request, limits: Limits): nat {
    if rules == [] then 0 else VisitsFor(rules[0], request, limits) + TotalVisits(rules[1..], request, limits)
  }

  function MatchesOf(rules: seq<Rule>, request: Request, limits: Limits): seq<Match> {
    if rules == [] then []
    else
      (if MeaningFor(rules[0], request, limits) == Done(StatusMatch) then [AsMatch(rules[0])] else []) +
      MatchesOf(rules[1..], request, limits)
  }

  ghost predicate AllDone(rules: seq<Rule>, request: Request, limits: Limits) {
    forall i :: 0 <= i < |rules| ==> MeaningFor(rules[i], request, limits).Done?
  }

  /** Judging succeeds exactly within the limits, and then follows the decision table; otherwise it denies. */
  lemma {:induction false} JudgeWithinLimits(
    rules: seq<Rule>, request: Request, limits: Limits, cost: nat, found: seq<Match>)
    requires cost <= limits.maxCost && |found| <= limits.maxMatches
    ensures var r := Judge(rules, request, limits, cost, found);
            var matches := found + MatchesOf(rules, request, limits);
            if AllDone(rules, request, limits) && cost + TotalVisits(rules, request, limits) <= limits.maxCost &&
               |matches| <= limits.maxMatches
            then r == Evaluation(Summarize(matches, ALLOW_REASON, DENY_REASON), None)
            else r.error.Some? && r.decision == LIMITED
    decreases |rules|
  {
    if rules == [] {
      assert found + [] == found;
    } else {
      var rest, spent := rules[1..], cost + VisitsFor(rules[0], request, limits);
      var found' :=
        if MeaningFor(rules[0], request, limits) == Done(StatusMatch) then found + [AsMatch(rules[0])] else found;
      assert found' + MatchesOf(rest, request, limits) == found + MatchesOf(rules, request, limits);
      assert AllDone(rules, request, limits) <==>
             MeaningFor(rules[0], request, limits).Done? && AllDone(rest, request, limits) by {
        if AllDone(rules, request, limits) {
          assert forall i :: 0 <= i < |rest| ==> rest[i] == rules[i + 1];
        }
        if MeaningFor(rules[0], request, limits).Done? && AllDone(rest, request, limits) {
          assert forall i :: 1 <= i < |rules| ==> rules[i] == rest[i - 1];
        }
      }
      if spent <= limits.maxCost && |found'| <= limits.maxMatches {
        JudgeWithinLimits(rest, request, limits, spent, found');
      }
    }
  }

  /** The whole decision of an accepted rule list. */
  lemma DecideWithinLimits(rules: seq<Rule>, limits: Limits, request: Request)
    ensures var scoped := Filter(rules, Scoped(request));
            var matches := MatchesOf(scoped, request, limits);
            if AllDone(scoped, request, limits) && TotalVisits(scoped, request, limits) <= limits.maxCost &&
               |matches| <= limits.maxMatches
            then Decide(rules, limits, request) == Evaluation(Summarize(matches, ALLOW_REASON, DENY_REASON), None)
            else Decide(rules, limits, request).error.Some? && Decide(rules, limits, request).decision == LIMITED
  {
    var scoped := Filter(rules, Scoped(request));
    JudgeWithinLimits(scoped, request, limits, 0, []);
    assert [] + MatchesOf(scoped, request, limits) == MatchesOf(scoped, request, limits);
  }

  lemma {:induction false} JudgeNeverPanics(
    rules: seq<Rule>, request: Request, limits: Limits, cost: nat, found: seq<Match>)
    requires forall r :: r in rules ==> ConditionFault(r.condition, limits) == None
    ensures Judge(rules, request, limits, cost, found).error != Some(Failure(Panic))
    decreases |rules|
  {
    if rules != [] {
      var spent := cost + VisitsFor(rules[0], request, limits);
      assert ConditionFault(rules[0].condition, limits) == None;
      AcceptsExactly(rules[0].condition, limits);
      ValidNeverStuck(rules[0].condition, request, limits.maxSetSize);
      JudgeNeverPanics(rules[1..], request, limits, spent, found);
      JudgeNeverPanics(rules[1..], request, limits, spent, found + [AsMatch(rules[0])]);
    }
  }

  /** Rules that New accepts never dereference a nil condition. */
  lemma AcceptedNeverPanics(rules: seq<Rule>, named: seq<NamedCondition>, limits: Limits, request: Request)
    requires WellFormed(rules, named, limits)
    ensures Decide(InForce(rules, named), limits, request).error != Some(Failure(Panic))
  {
    var sorted := InForce(rules, named);
    InForceElements(rules, named);
    FilterElements(sorted, Scoped(request));
    forall x | x in Filter(sorted, Scoped(request)) ensures ConditionFault(x.condition, limits) == None {
      var r :| r in rules && x == BoundRule(r, NamedMap(named));
      var i :| 0 <= i < |rules| && rules[i] == r;
      assert RuleFine(rules[i], NamedMap(named), limits);
    }
    JudgeNeverPanics(Filter(sorted, Scoped(request)), request, limits, 0, []);
  }

  // ---- Order of definitions ----

  lemma {:induction false} InForceElements(rules: seq<Rule>, named: seq<NamedCondition>)
    requires DistinctIDs(rules)
    ensures StrictlySorted(InForce(rules, named), RuleRank)
    ensures forall x :: x in InForce(rules, named) <==> exists r :: r in rules && x == BoundRule(r, NamedMap(named))
  {
    var bound := Bound(rules, NamedMap(named));
    BoundKeepsRanks(rules, NamedMap(named));
    SortSorted(bound, RuleRank);
    SortedDistinct(bound, Sort(bound, RuleRank), RuleRank);
    SameElements(bound, Sort(bound, RuleRank));
    forall x ensures x in bound <==> exists r :: r in rules && x == BoundRule(r, NamedMap(named)) {
      if x in bound {
        var i :| 0 <= i < |bound| && bound[i] == x;
        assert rules[i] in rules;
      }
      if exists r :: r in rules && x == BoundRule(r, NamedMap(named)) {
        var r :| r in rules && x == BoundRule(r, NamedMap(named));
        var i :| 0 <= i < |rules| && rules[i] == r;
        assert bound[i] == x;
      }
    }
  }

  function IDRank(r: Rule): Rank { Rank(0, r.id) }

  lemma DistinctIDsPermuted(a: seq<Rule>, b: seq<Rule>)
    requires multiset(a) == multiset(b) && DistinctIDs(a)
    ensures DistinctIDs(b)
  {
    assert DistinctRanks(a, IDRank);
    DistinctPermuted(a, b, IDRank);
    forall i, j | 0 <= i < j < |b| ensures b[i].id != b[j].id {
      assert IDRank(b[i]) != IDRank(b[j]);
    }
  }

  /** Permuting rule definitions changes neither acceptance nor any decision. */
  lemma RuleOrderIrrelevant(a: seq<Rule>, b: seq<Rule>, named: seq<NamedCondition>, limits: Limits)
    requires multiset(a) == multiset(b) && WellFormed(a, named, limits)
    ensures WellFormed(b, named, limits)
    ensures InForce(a, named) == InForce(b, named)
    ensures forall request :: Decide(InForce(a, named), limits, request) == Decide(InForce(b, named), limits, request)
  {
    SameElements(a, b);
    DistinctIDsPermuted(a, b);
    forall i | 0 <= i < |b| ensures RuleFine(b[i], NamedMap(named), limits) {
      assert b[i] in b;
      var j :| 0 <= j < |a| && a[j] == b[i];
    }
    InForceElements(a, named);
    InForceElements(b, named);
    StrictlySortedUnique(InForce(a, named), InForce(b, named), RuleRank);
  }

  // ---- Named and inline conditions ----

  /** Drops the reference that led to a condition. */
  function Erase(r: Rule): Rule { r.(conditionName := "", conditionVersion := 0) }

  function EraseAll(rules: seq<Rule>): seq<Rule> {
    seq(|rules|, i requires 0 <= i < |rules| => Erase(rules[i]))
  }

  /** The same rules with every named condition written inline. */
  function Inlined(rules: seq<Rule>, named: seq<NamedCondition>): seq<Rule> { EraseAll(Bound(rules, NamedMap(named))) }

  lemma {:induction false} FilterErase(rules: seq<Rule>, request: Request)
    ensures Filter(EraseAll(rules), Scoped(request)) == EraseAll(Filter(rules, Scoped(request)))
  {
    if rules != [] {
      assert EraseAll(rules)[1..] == EraseAll(rules[1..]);
      FilterErase(rules[1..], request);
    }
  }

  lemma {:induction false} JudgeErase(rules: seq<Rule>, request: Request, limits: Limits, cost: nat, found: seq<Match>)
    ensures Judge(EraseAll(rules), request, limits, cost, found) == Judge(rules, request, limits, cost, found)
    decreases |rules|
  {
    if rules != [] {
      var spent := cost + VisitsFor(rules[0], request, limits);
      assert EraseAll(rules)[0] == Erase(rules[0]) && EraseAll(rules)[1..] == EraseAll(rules[1..]);
      JudgeErase(rules[1..], request, limits, spent, found);
      JudgeErase(rules[1..], request, limits, spent, found + [AsMatch(rules[0])]);
    }
  }

  lemma InlinedElements(rules: seq<Rule>, named: seq<NamedCondition>, x: Rule)
    ensures x in Inlined(rules, named) <==> exists r :: r in rules && x == Erase(BoundRule(r, NamedMap(named)))
    ensures x in Inlined(rules, named) ==> BoundRule(x, NamedMap([])) == x
  {
    var inlined := Inlined(rules, named);
    if x in inlined {
      var i :| 0 <= i < |inlined| && inlined[i] == x;
      assert rules[i] in rules;
    }
    if exists r :: r in rules && x == Erase(BoundRule(r, NamedMap(named))) {
      var r :| r in rules && x == Erase(BoundRule(r, NamedMap(named)));
      var i :| 0 <= i < |rules| && rules[i] == r;
      assert inlined[i] == x;
    }
  }

  lemma EraseAllElements(rules: seq<Rule>, x: Rule)
    ensures x in EraseAll(rules) <==> exists r :: r in rules && x == Erase(r)
  {
    var erased := EraseAll(rules);
    if x in erased {
      var i :| 0 <= i < |erased| && erased[i] == x;
      assert rules[i] in rules;
    }
    if exists r :: r in rules && x == Erase(r) {
      var r :| r in rules && x == Erase(r);
      var i :| 0 <= i < |rules| && rules[i] == r;
      assert erased[i] == x;
    }
  }

  lemma InlinedDistinct(rules: seq<Rule>, named: seq<NamedCondition>)
    requires DistinctIDs(rules)
    ensures DistinctIDs(Inlined(rules, named))
  {
  }

  lemma EraseAllSorted(rules: seq<Rule>)
    requires StrictlySorted(rules, RuleRank)
    ensures StrictlySorted(EraseAll(rules), RuleRank)
  {
  }

  lemma EraseCommutesWithSort(rules: seq<Rule>, named: seq<NamedCondition>)
    requires DistinctIDs(rules)
    ensures InForce(Inlined(rules, named), []) == EraseAll(InForce(rules, named))
  {
    var left, right := InForce(Inlined(rules, named), []), EraseAll(InForce(rules, named));
    InlinedDistinct(rules, named);
    InForceElements(rules, named);
    InForceElements(Inlined(rules, named), []);
    EraseAllSorted(InForce(rules, named));
    forall x ensures x in left <==> x in right {
      SameInForce(rules, named, x);
    }
    StrictlySortedUnique(left, right, RuleRank);
  }

  lemma SameInForce(rules: seq<Rule>, named: seq<NamedCondition>, x: Rule)
    requires DistinctIDs(rules)
    ensures x in InForce(Inlined(rules, named), []) <==> x in EraseAll(InForce(rules, named))
  {
    var bindings, inlined := NamedMap(named), Inlined(rules, named);
    InlinedDistinct(rules, named);
    InForceElements(rules, named);
    InForceElements(inlined, []);
    EraseAllElements(InForce(rules, named), x);
    InlinedElements(rules, named, x);
    if x in InForce(inlined, []) {
      var y :| y in inlined && x == BoundRule(y, NamedMap([]));
      InlinedElements(rules, named, y);
      var r :| r in rules && x == Erase(BoundRule(r, bindings));
      assert BoundRule(r, bindings) in InForce(rules, named);
    }
    if x in EraseAll(InForce(rules, named)) {
      var z :| z in InForce(rules, named) && x == Erase(z);
      var r :| r in rules && z == BoundRule(r, bindings);
      assert x in inlined;
    }
  }

  lemma InlinedFine(rules: seq<Rule>, named: seq<NamedCondition>, limits: Limits)
    requires WellFormed(rules, named, limits)
    ensures WellFormed(Inlined(rules, named), [], limits)
  {
    var inlined := Inlined(rules, named);
    InlinedDistinct(rules, named);
    forall i | 0 <= i < |inlined| ensures RuleFine(inlined[i], NamedMap([]), limits) {
      assert RuleFine(rules[i], NamedMap(named), limits);
      assert inlined[i] == Erase(BoundRule(rules[i], NamedMap(named)));
    }
  }

  lemma {:induction false} InlinedDecides(
    rules: seq<Rule>, named: seq<NamedCondition>, limits: Limits, request: Request)
    requires DistinctIDs(rules)
    ensures Decide(InForce(Inlined(rules, named), []), limits, request) ==
            Decide(InForce(rules, named), limits, request)
  {
    EraseCommutesWithSort(rules, named);
    FilterErase(InForce(rules, named), request);
    JudgeErase(Filter(InForce(rules, named), Scoped(request)), request, limits, 0, []);
  }

  /** Writing every named condition inline is accepted too, and decides every request alike. */
  lemma {:induction false} NamedConditionsInline(rules: seq<Rule>, named: seq<NamedCondition>, limits: Limits)
    requires WellFormed(rules, named, limits)
    ensures WellFormed(Inlined(rules, named), [], limits)
    ensures forall request ::
      Decide(InForce(Inlined(rules, named), []), limits, request) == Decide(InForce(rules, named), limits, request)
  {
    InlinedFine(rules, named, limits);
    forall request
      ensures Decide(InForce(Inlined(rules, named), []), limits, request) ==
              Decide(InForce(rules, named), limits, request)
    {
      InlinedDecides(rules, named, limits, request);
    }
  }
}
