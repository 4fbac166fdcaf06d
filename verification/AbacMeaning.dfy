// What the attribute-based model accepts and decides, said in the fields of rules,
// named conditions and requests and in the meaning of conditions.
module AbacMeaning {
  import opened Ordering
  import opened Attributes
  import opened Decisions
  import opened Conditions
  import opened ConditionValidation
  import opened Abac

  // ---- Rules about a request ----

  /** The rule's own condition, or that of the named condition it refers to. */
  ghost predicate Carries(named: seq<NamedCondition>, r: Rule, c: Condition) {
    if r.conditionName == "" then c == r.condition
    else exists n :: n in named && n.name == r.conditionName && n.version == r.conditionVersion && n.condition == c
  }

  /** A rule that is about the request. */
  predicate Fits(r: Rule, request: Request) {
    && r.tenant == request.tenant && r.action == request.action && r.resourceType == request.resource.kind
    && (r.resourceID == "" || r.resourceID == request.resource.id)
  }

  ghost predicate Ranked(rs: seq<Rule>) {
    forall i, j :: 0 <= i < j < |rs| ==>
      rs[i].priority > rs[j].priority || (rs[i].priority == rs[j].priority && StringLess(rs[i].id, rs[j].id))
  }

  /** The rules about the request in rank order, each with the condition it carries. */
  ghost predicate Lists(
    rules: seq<Rule>, named: seq<NamedCondition>, request: Request, rs: seq<Rule>, cs: seq<Condition>)
  {
    && |cs| == |rs| && Ranked(rs)
    && (forall r :: r in rs <==> r in rules && Fits(r, request))
    && (forall i :: 0 <= i < |rs| ==> Carries(named, rs[i], cs[i]))
  }

  lemma DistinctKeys(named: seq<NamedCondition>, limits: Limits, j: nat, k: nat)
    requires forall i :: 0 <= i < |named| ==> NamedFault(named, limits, i) == None
    requires j < |named| && k < |named|
    ensures KeyOf(named[j]) == KeyOf(named[k]) ==> j == k
  {
    assert NamedFault(named, limits, j) == None && NamedFault(named, limits, k) == None;
  }

  lemma {:induction false} NamedMapMeans(named: seq<NamedCondition>, n: NamedCondition, limits: Limits)
    requires n in named && forall i :: 0 <= i < |named| ==> NamedFault(named, limits, i) == None
    ensures KeyOf(n) in NamedMap(named) && NamedMap(named)[KeyOf(n)] == n.condition
  {
    var k :| 0 <= k < |named| && named[k] == n;
    NamedMapKeys(named, KeyOf(n));
    var j :| 0 <= j < |named| && KeyOf(named[j]) == KeyOf(n) && NamedMap(named)[KeyOf(n)] == named[j].condition;
    DistinctKeys(named, limits, j, k);
  }

  lemma CarriesMeans(rules: seq<Rule>, named: seq<NamedCondition>, limits: Limits, r: Rule, c: Condition)
    requires WellFormed(rules, named, limits) && r in rules
    ensures Carries(named, r, c) <==> BoundRule(r, NamedMap(named)).condition == c
  {
    var i :| 0 <= i < |rules| && rules[i] == r;
    assert RuleFine(rules[i], NamedMap(named), limits);
    if r.conditionName != "" {
      var key := NamedKey(r.conditionName, r.conditionVersion);
      NamedMapKeys(named, key);
      var j :| 0 <= j < |named| && KeyOf(named[j]) == key && NamedMap(named)[key] == named[j].condition;
      assert named[j] in named;
      forall n | n in named && n.name == r.conditionName && n.version == r.conditionVersion
        ensures n.condition == NamedMap(named)[key]
      {
        NamedMapMeans(named, n, limits);
      }
    }
  }

  /** The definition behind a rule in force. */
  ghost function DefinitionOf(rules: seq<Rule>, named: seq<NamedCondition>, x: Rule): (r: Rule)
    requires exists q :: q in rules && x == BoundRule(q, NamedMap(named))
    ensures r in rules && x == BoundRule(r, NamedMap(named))
  {
    var q :| q in rules && x == BoundRule(q, NamedMap(named)); q
  }

  lemma BoundFields(r: Rule, named: seq<NamedCondition>, request: Request)
    ensures var x := BoundRule(r, NamedMap(named));
            && x.id == r.id && x.priority == r.priority && x.effect == r.effect
            && (InScope(x, request) <==> Fits(r, request))
  {
  }

  lemma {:induction false} ScopedRules(rules: seq<Rule>, named: seq<NamedCondition>, limits: Limits, request: Request)
    returns (rs: seq<Rule>, cs: seq<Condition>)
    requires WellFormed(rules, named, limits)
    ensures Lists(rules, named, request, rs, cs)
    ensures Filter(InForce(rules, named), Scoped(request)) == Bound(rs, NamedMap(named))
    ensures forall i :: 0 <= i < |rs| ==> BoundRule(rs[i], NamedMap(named)).condition == cs[i]
  {
    var xs := Filter(InForce(rules, named), Scoped(request));
    InForceElements(rules, named);
    FilterElements(InForce(rules, named), Scoped(request));
    FilterStrictlySorted(InForce(rules, named), Scoped(request), RuleRank);
    forall i | 0 <= i < |xs| ensures exists q :: q in rules && xs[i] == BoundRule(q, NamedMap(named)) {
      assert xs[i] in xs;
    }
    rs := seq(|xs|, i requires 0 <= i < |xs| => DefinitionOf(rules, named, xs[i]));
    cs := seq(|xs|, i requires 0 <= i < |xs| => xs[i].condition);
    SameScope(rules, named, request, xs, rs);
    RankedRules(named, xs, rs);
    forall i | 0 <= i < |rs| ensures Carries(named, rs[i], cs[i]) {
      CarriesMeans(rules, named, limits, rs[i], cs[i]);
    }
  }

  lemma {:induction false} SameScope(
    rules: seq<Rule>, named: seq<NamedCondition>, request: Request, xs: seq<Rule>, rs: seq<Rule>)
    requires DistinctIDs(rules) && |rs| == |xs|
    requires forall i :: 0 <= i < |xs| ==> rs[i] in rules && xs[i] == BoundRule(rs[i], NamedMap(named))
    requires forall x :: x in xs <==>
      InScope(x, request) && exists q :: q in rules && x == BoundRule(q, NamedMap(named))
    ensures forall r :: r in rs <==> r in rules && Fits(r, request)
  {
    forall r ensures r in rs <==> r in rules && Fits(r, request) {
      BoundFields(r, named, request);
      if r in rs {
        var i :| 0 <= i < |rs| && rs[i] == r;
        assert xs[i] in xs;
      }
      if r in rules && Fits(r, request) {
        var x := BoundRule(r, NamedMap(named));
        assert x in xs;
        var i :| 0 <= i < |xs| && xs[i] == x;
        BoundFields(rs[i], named, request);
        SameIDSameRule(rules, r, rs[i]);
      }
    }
  }

  lemma SameIDSameRule(rules: seq<Rule>, r: Rule, q: Rule)
    requires DistinctIDs(rules) && r in rules && q in rules && r.id == q.id
    ensures r == q
  {
    var i :| 0 <= i < |rules| && rules[i] == r;
    var j :| 0 <= j < |rules| && rules[j] == q;
    assert i < j || j < i || i == j;
  }

  lemma RankedRules(named: seq<NamedCondition>, xs: seq<Rule>, rs: seq<Rule>)
    requires StrictlySorted(xs, RuleRank) && |rs| == |xs|
    requires forall i :: 0 <= i < |xs| ==> xs[i] == BoundRule(rs[i], NamedMap(named))
    ensures Ranked(rs)
  {
    forall i, j | 0 <= i < j < |rs|
      ensures rs[i].priority > rs[j].priority || (rs[i].priority == rs[j].priority && StringLess(rs[i].id, rs[j].id))
    {
      assert Before(RuleRank(xs[i]), RuleRank(xs[j]));
    }
  }

  // ---- Decisions ----

  function SumOfVisits(cs: seq<Condition>, request: Request, maxSetSize: nat): nat {
    if cs == [] then 0 else Visits(cs[0], request, maxSetSize) + SumOfVisits(cs[1..], request, maxSetSize)
  }

  /** The rules whose condition matches, in order. */
  function Matching(rs: seq<Rule>, cs: seq<Condition>, request: Request, maxSetSize: nat): seq<Rule>
    requires |rs| == |cs|
  {
    if rs == [] then []
    else
      (if MeaningOf(cs[0], request, maxSetSize) == Done(StatusMatch) then [rs[0]] else []) +
      Matching(rs[1..], cs[1..], request, maxSetSize)
  }

  ghost predicate AllComplete(cs: seq<Condition>, request: Request, maxSetSize: nat) {
    forall c :: c in cs ==> MeaningOf(c, request, maxSetSize).Done?
  }

  lemma {:induction false} MatchingMeans(rs: seq<Rule>, cs: seq<Condition>, request: Request, maxSetSize: nat, r: Rule)
    requires |rs| == |cs|
    ensures r in Matching(rs, cs, request, maxSetSize) <==>
            exists i :: 0 <= i < |rs| && rs[i] == r && MeaningOf(cs[i], request, maxSetSize) == Done(StatusMatch)
  {
    if rs != [] {
      MatchingMeans(rs[1..], cs[1..], request, maxSetSize, r);
      assert forall i :: 0 < i < |rs| ==> rs[i] == rs[1..][i - 1] && cs[i] == cs[1..][i - 1];
      if r in Matching(rs[1..], cs[1..], request, maxSetSize) {
        var i :|
          0 <= i < |rs| - 1 && rs[1..][i] == r && MeaningOf(cs[1..][i], request, maxSetSize) == Done(StatusMatch);
        assert rs[i + 1] == r && cs[i + 1] == cs[1..][i];
      }
    }
  }

  function MatchesFor(rs: seq<Rule>): seq<Match> {
    seq(|rs|, i requires 0 <= i < |rs| => Match(rs[i].id, rs[i].effect))
  }

  lemma {:induction false} BoundTables(
    rs: seq<Rule>, cs: seq<Condition>, named: seq<NamedCondition>, request: Request, limits: Limits)
    requires |rs| == |cs| && forall i :: 0 <= i < |rs| ==> BoundRule(rs[i], NamedMap(named)).condition == cs[i]
    ensures var xs := Bound(rs, NamedMap(named));
            && MatchesOf(xs, request, limits) == MatchesFor(Matching(rs, cs, request, limits.maxSetSize))
            && TotalVisits(xs, request, limits) == SumOfVisits(cs, request, limits.maxSetSize)
  {
    if rs != [] {
      var xs := Bound(rs, NamedMap(named));
      assert xs[1..] == Bound(rs[1..], NamedMap(named));
      BoundTables(rs[1..], cs[1..], named, request, limits);
      BoundFields(rs[0], named, request);
      var rest := Matching(rs[1..], cs[1..], request, limits.maxSetSize);
      assert MatchesFor([rs[0]] + rest) == [Match(rs[0].id, rs[0].effect)] + MatchesFor(rest);
    }
  }

  lemma BoundComplete(rs: seq<Rule>, cs: seq<Condition>, named: seq<NamedCondition>, request: Request, limits: Limits)
    requires |rs| == |cs| && forall i :: 0 <= i < |rs| ==> BoundRule(rs[i], NamedMap(named)).condition == cs[i]
    ensures AllDone(Bound(rs, NamedMap(named)), request, limits) <==> AllComplete(cs, request, limits.maxSetSize)
  {
    var xs := Bound(rs, NamedMap(named));
    assert forall i :: 0 <= i < |xs| ==>
      MeaningFor(xs[i], request, limits) == MeaningOf(cs[i], request, limits.maxSetSize);
    if AllComplete(cs, request, limits.maxSetSize) {
      forall i | 0 <= i < |xs| ensures MeaningFor(xs[i], request, limits).Done? { assert cs[i] in cs; }
    }
    if AllDone(xs, request, limits) {
      forall c | c in cs ensures MeaningOf(c, request, limits.maxSetSize).Done? {
        var i :| 0 <= i < |cs| && cs[i] == c;
        assert MeaningFor(xs[i], request, limits).Done?;
      }
    }
  }

  /** What a decision says when these rules, in order, match. */
  ghost predicate TableSays(d: Decision, rs: seq<Rule>) {
    var denied, allowed := exists r :: r in rs && r.effect == Deny, exists r :: r in rs && r.effect == Allow;
    && (d.outcome == Deny <==> denied)
    && (d.outcome == Allow <==> allowed && !denied)
    && (d.outcome == NotApplicable <==> !allowed && !denied)
    && d.reason == (if denied then "abac-explicit-deny" else if allowed then "abac-allow" else "")
    && |d.matched| == |rs| && (forall i :: 0 <= i < |rs| ==> d.matched[i] == rs[i].id)
  }

  lemma {:induction false} EffectsCarry(rs: seq<Rule>, effect: Outcome)
    ensures HasEffect(MatchesFor(rs), effect) <==> exists r :: r in rs && r.effect == effect
  {
    if HasEffect(MatchesFor(rs), effect) {
      var m :| m in MatchesFor(rs) && m.effect == effect;
      var i :| 0 <= i < |rs| && MatchesFor(rs)[i] == m;
      assert rs[i] in rs;
    }
    if r :| r in rs && r.effect == effect {
      var i :| 0 <= i < |rs| && rs[i] == r;
      assert MatchesFor(rs)[i] in MatchesFor(rs);
    }
  }

  lemma {:induction false} TableMeans(rs: seq<Rule>)
    requires forall r :: r in rs ==> r.effect == Allow || r.effect == Deny
    ensures TableSays(Summarize(MatchesFor(rs), ALLOW_REASON, DENY_REASON), rs)
  {
    var ms := MatchesFor(rs);
    EffectsCarry(rs, Deny);
    EffectsCarry(rs, Allow);
    forall m | m in ms ensures m.effect == Allow || m.effect == Deny {
      var i :| 0 <= i < |ms| && ms[i] == m;
      assert rs[i] in rs;
    }
    SummarizeMeans(ms, ALLOW_REASON, DENY_REASON);
    if rs != [] { assert rs[0] in rs; }
  }

  lemma EffectIsExplicit(rules: seq<Rule>, named: seq<NamedCondition>, limits: Limits, r: Rule)
    requires WellFormed(rules, named, limits) && r in rules
    ensures r.effect == Allow || r.effect == Deny
  {
    var i :| 0 <= i < |rules| && rules[i] == r;
    assert RuleFine(rules[i], NamedMap(named), limits);
  }

  /** Within the limits the decision follows the rules about the request that match; otherwise it denies. */
  lemma {:induction false} DecideMeans(rules: seq<Rule>, named: seq<NamedCondition>, limits: Limits, request: Request)
    returns (rs: seq<Rule>, cs: seq<Condition>)
    requires WellFormed(rules, named, limits)
    ensures Lists(rules, named, request, rs, cs)
    ensures var matching := Matching(rs, cs, request, limits.maxSetSize);
            var r := Decide(InForce(rules, named), limits, request);
            if AllComplete(cs, request, limits.maxSetSize) && |matching| <= limits.maxMatches &&
               SumOfVisits(cs, request, limits.maxSetSize) <= limits.maxCost
            then r.error == None && TableSays(r.decision, matching)
            else r.error.Some? && r.decision == Plain(Deny, "abac-limit-exceeded")
  {
    rs, cs := ScopedRules(rules, named, limits, request);
    BoundTables(rs, cs, named, request, limits);
    BoundComplete(rs, cs, named, request, limits);
    DecideWithinLimits(InForce(rules, named), limits, request);
    var matching := Matching(rs, cs, request, limits.maxSetSize);
    forall r | r in matching ensures r.effect == Allow || r.effect == Deny {
      MatchingMeans(rs, cs, request, limits.maxSetSize, r);
      assert r in rs;
      EffectIsExplicit(rules, named, limits, r);
    }
    TableMeans(matching);
  }

  /** Which limit a refusal names. */
  lemma {:induction false} JudgeErrors(rules: seq<Rule>, request: Request, limits: Limits, cost: nat, found: seq<Match>)
    requires cost <= limits.maxCost && |found| <= limits.maxMatches
    ensures var e := Judge(rules, request, limits, cost, found).error;
            && (e == Some(Failure(CostExceeded)) ==> cost + TotalVisits(rules, request, limits) > limits.maxCost)
            && (e == Some(Failure(SetLimitExceeded)) ==>
                  exists r :: r in rules && MeaningFor(r, request, limits) == Oversize)
            && (e == Some(Failure(Panic)) ==> exists r :: r in rules && MeaningFor(r, request, limits) == Stuck)
            && (e == Some(MatchLimitExceeded) ==> |found| + |MatchesOf(rules, request, limits)| > limits.maxMatches)
            && (e.Some? ==>
                  e.value in {Failure(CostExceeded), Failure(SetLimitExceeded), Failure(Panic), MatchLimitExceeded})
    decreases |rules|
  {
    if rules != [] {
      var meaning, spent := MeaningFor(rules[0], request, limits), cost + VisitsFor(rules[0], request, limits);
      assert rules[0] in rules;
      if spent <= limits.maxCost && meaning.Done? {
        var found' := if meaning == Done(StatusMatch) then found + [AsMatch(rules[0])] else found;
        if |found'| <= limits.maxMatches { JudgeErrors(rules[1..], request, limits, spent, found'); }
      }
    }
  }

  // ---- Definitions that New accepts ----

  predicate ReferenceFields(ref: Reference) {
    && (|| ref.source.SubjectSource? || ref.source.ResourceSource?
        || ref.source.RequestSource? || ref.source.EnvironmentSource?)
    && |ref.name| > 0
  }

  /** Values that have an order. */
  predicate Comparable(v: Value) { v.Text? || v.Integer? || v.Float? || v.Instant? }

  /** The nodes that are valid on their own. */
  lemma NodeMeans(c: Condition)
    ensures ValidNode(c) <==>
            match c
            case Absent => false
            case Equals(ref, want) => ReferenceFields(ref) && want != Missing
            case Exists(ref) => ReferenceFields(ref)
            case IsNull(ref) => ReferenceFields(ref)
            case All(cs) => |cs| > 0 && forall i :: 0 <= i < |cs| ==> cs[i] != Absent
            case Any(cs) => |cs| > 0 && forall i :: 0 <= i < |cs| ==> cs[i] != Absent
            case Not(child) => child != Absent
            case Compares(ref, want, _) => ReferenceFields(ref) && Comparable(want)
            case In(ref, values) =>
              && ReferenceFields(ref) && |values| > 0 && values[0] != Missing && values[0] != Null
              && forall i :: 0 <= i < |values| ==> KindOf(values[i]) == KindOf(values[0])
            case SetContains(ref, _) => ReferenceFields(ref)
            case StringTest(ref, _, _) => ReferenceFields(ref)
            case AddressIn(ref, prefix) => ReferenceFields(ref) && prefix.valid
  {
    match c
    case In(_, values) => assert forall i :: 0 <= i < |values| ==> values[i] in values;
    case All(cs) => assert forall i :: 0 <= i < |cs| ==> cs[i] in cs;
    case Any(cs) => assert forall i :: 0 <= i < |cs| ==> cs[i] in cs;
    case _ =>
  }

  /** Membership lists and set literals count their elements, and nothing else counts. */
  lemma CardinalityMeans(c: Condition)
    ensures c.In? ==> LocalCardinality(c) == |c.values|
    ensures c.Equals? && c.want.Strings? ==> LocalCardinality(c) == |c.want.items|
    ensures !c.In? && !(c.Equals? && c.want.Strings?) ==> LocalCardinality(c) == 0
  {
  }

  ghost predicate Admitted(c: Condition, limits: Limits) {
    Depth(c) <= limits.maxDepth && ValidTree(c) && Cardinality(c) <= limits.maxSetSize
  }

  ghost predicate NamedAcceptable(named: seq<NamedCondition>, limits: Limits) {
    && (forall n :: n in named ==>
          n.name != "" && n.version > 0 && n.condition != Absent && Admitted(n.condition, limits))
    && (forall i, j :: 0 <= i < j < |named| ==>
          named[i].name != named[j].name || named[i].version != named[j].version)
  }

  /** The rule is complete and has either a condition of its own or a reference to a defined one. */
  ghost predicate RuleAcceptable(r: Rule, named: seq<NamedCondition>, limits: Limits) {
    && r.id != "" && r.action != "" && r.resourceType != "" && (r.effect == Allow || r.effect == Deny)
    && (if r.conditionName == "" then r.conditionVersion == 0 && r.condition != Absent && Admitted(r.condition, limits)
        else r.conditionVersion > 0 && r.condition == Absent && Refers(r, named))
  }

  ghost predicate Refers(r: Rule, named: seq<NamedCondition>) {
    exists n :: n in named && n.name == r.conditionName && n.version == r.conditionVersion
  }

  lemma NamedMean(named: seq<NamedCondition>, limits: Limits)
    ensures (forall i :: 0 <= i < |named| ==> NamedFault(named, limits, i) == None) <==> NamedAcceptable(named, limits)
  {
    if forall i :: 0 <= i < |named| ==> NamedFault(named, limits, i) == None {
      forall n | n in named
        ensures n.name != "" && n.version > 0 && n.condition != Absent && Admitted(n.condition, limits)
      {
        var i :| 0 <= i < |named| && named[i] == n;
        assert NamedFault(named, limits, i) == None;
        AcceptsExactly(n.condition, limits);
      }
      forall i, j | 0 <= i < j < |named|
        ensures named[i].name != named[j].name || named[i].version != named[j].version
      {
        assert NamedFault(named, limits, j) == None;
      }
    }
    if NamedAcceptable(named, limits) {
      forall i | 0 <= i < |named| ensures NamedFault(named, limits, i) == None {
        assert named[i] in named;
        AcceptsExactly(named[i].condition, limits);
      }
    }
  }

  lemma RuleMeans(r: Rule, named: seq<NamedCondition>, limits: Limits)
    requires forall i :: 0 <= i < |named| ==> NamedFault(named, limits, i) == None
    ensures RuleFine(r, NamedMap(named), limits) <==> RuleAcceptable(r, named, limits)
  {
    NamedMean(named, limits);
    AcceptsExactly(r.condition, limits);
    if r.conditionName != "" {
      var key := NamedKey(r.conditionName, r.conditionVersion);
      NamedMapKeys(named, key);
      if j :| 0 <= j < |named| && KeyOf(named[j]) == key { assert named[j] in named; }
      if n :| n in named && n.name == r.conditionName && n.version == r.conditionVersion {
        NamedMapMeans(named, n, limits);
        AcceptsExactly(n.condition, limits);
        var i :| 0 <= i < |named| && named[i] == n;
      }
    }
  }

  /** New accepts exactly these rules and named conditions. */
  lemma {:induction false} AcceptsIff(rules: seq<Rule>, named: seq<NamedCondition>, limits: Limits)
    ensures WellFormed(rules, named, limits) <==>
            && |rules| <= limits.maxRules && |named| <= limits.maxNamedConditions
            && NamedAcceptable(named, limits)
            && (forall r :: r in rules ==> RuleAcceptable(r, named, limits))
            && (forall i, j :: 0 <= i < j < |rules| ==> rules[i].id != rules[j].id)
  {
    NamedMean(named, limits);
    if NamedAcceptable(named, limits) {
      forall r ensures RuleFine(r, NamedMap(named), limits) <==> RuleAcceptable(r, named, limits) {
        RuleMeans(r, named, limits);
      }
      assert forall i :: 0 <= i < |rules| ==> rules[i] in rules;
    }
  }

  // ---- Which error New reports ----

  /** A named condition is refused as invalid when incomplete, then as repeated, then for its tree. */
  lemma NamedErrors(named: seq<NamedCondition>, limits: Limits, i: nat)
    requires i < |named|
    ensures var n, fault := named[i], NamedFault(named, limits, i);
            var complete := n.name != "" && n.version > 0 && n.condition != Absent;
            var repeated := exists j :: 0 <= j < i && named[j].name == n.name && named[j].version == n.version;
            && (!complete ==> fault == Some(BadCondition(InvalidCondition)))
            && (fault == Some(DuplicateNamedCondition) <==> complete && repeated)
            && (fault.Some? && fault.value.BadCondition? <==>
                  !complete || (!repeated && !Admitted(n.condition, limits)))
  {
    AcceptsExactly(named[i].condition, limits);
    assert forall j :: 0 <= j < i && KeyOf(named[j]) == KeyOf(named[i]) ==>
      named[j].name == named[i].name && named[j].version == named[i].version;
    assert forall j :: 0 <= j < i && named[j].name == named[i].name && named[j].version == named[i].version ==>
      KeyOf(named[j]) == KeyOf(named[i]);
  }

  /** The reference is well formed: a name with a version and no condition beside it, or none of either. */
  predicate ReferenceShape(r: Rule) {
    if r.conditionName != "" then r.condition == Absent && r.conditionVersion > 0 else r.conditionVersion == 0
  }

  predicate RuleFields(r: Rule) {
    r.id != "" && r.action != "" && r.resourceType != "" && (r.effect == Allow || r.effect == Deny)
  }

  /** A rule is refused for an unknown reference only when that is well formed, and for its tree only when it is
      complete and new; every other fault is an invalid rule. */
  lemma {:induction false} RuleErrors(rules: seq<Rule>, named: seq<NamedCondition>, limits: Limits, i: nat)
    requires i < |rules| && forall j :: 0 <= j < |named| ==> NamedFault(named, limits, j) == None
    ensures var r, fault := rules[i], RuleFault(rules, NamedMap(named), limits, i);
            var repeated := exists j :: 0 <= j < i && rules[j].id == r.id;
            var known := r.conditionName == "" || Refers(r, named);
            && (fault == Some(UnknownNamedCondition) <==> ReferenceShape(r) && !known)
            && (fault == Some(InvalidRule) <==>
                  || !ReferenceShape(r)
                  || (known && (!RuleFields(r) || repeated || (r.conditionName == "" && r.condition == Absent))))
            && (fault.Some? && fault.value.BadCondition? <==>
                  && ReferenceShape(r) && r.conditionName == "" && RuleFields(r) && !repeated
                  && r.condition != Absent && !Admitted(r.condition, limits))
  {
    var r := rules[i];
    AcceptsExactly(r.condition, limits);
    if r.conditionName != "" { KnownReference(named, limits, r); }
  }

  lemma KnownReference(named: seq<NamedCondition>, limits: Limits, r: Rule)
    requires forall j :: 0 <= j < |named| ==> NamedFault(named, limits, j) == None
    ensures var key := NamedKey(r.conditionName, r.conditionVersion);
            && (key in NamedMap(named) <==> Refers(r, named))
            && (key in NamedMap(named) ==>
                  NamedMap(named)[key] != Absent && ConditionFault(NamedMap(named)[key], limits) == None)
  {
    var key := NamedKey(r.conditionName, r.conditionVersion);
    NamedMapKeys(named, key);
    if j :| 0 <= j < |named| && KeyOf(named[j]) == key {
      assert named[j] in named;
      NamedMapMeans(named, named[j], limits);
      assert NamedFault(named, limits, j) == None;
    }
    if n :| n in named && n.name == r.conditionName && n.version == r.conditionVersion {
      var j :| 0 <= j < |named| && named[j] == n;
    }
  }
}
