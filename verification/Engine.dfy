// The combining engine (decision.go, snapshot.go, engine.go): the plain Combine over
// all decisions, snapshot construction, and the early-exit evaluation loop with its
// capped diagnostics. A policy's evaluator is a handle; `behave` says what the
// collaborator behind a handle returns for a request, a panic being a failure.
module Engine {
  import opened Ordering
  import opened Indexing
  import opened Decisions

  datatype Algorithm = DenyOverrides | AllowOverrides | FirstApplicable | PriorityOrder | UnknownAlgorithm(code: nat)

  datatype Error =
    | InvalidCombiningAlgorithm | InvalidOutcome
    | InvalidRevision | InvalidPolicy | DuplicatePolicy | InvalidActivationWindow
    | InvalidRequest | PolicyEvaluation(policyID: string)
    | NilSnapshot | PolicyLimitExceeded | BatchLimitExceeded | RevisionConflict | RevisionNotMonotonic

  // ---- Combine ----

  predicate IsDecisive(algorithm: Algorithm, outcome: Outcome) {
    (algorithm == DenyOverrides && outcome == Deny) || (algorithm == AllowOverrides && outcome == Allow) ||
    ((algorithm == FirstApplicable || algorithm == PriorityOrder) && outcome != NotApplicable)
  }

  predicate Supported(outcome: Outcome) { !outcome.Unsupported? }

  /** The position of the first decisive decision, or the length. */
  function FirstDecisive(algorithm: Algorithm, ds: seq<Decision>): (k: nat)
    ensures k <= |ds|
    ensures forall i :: 0 <= i < k ==> !IsDecisive(algorithm, ds[i].outcome)
    ensures k < |ds| ==> IsDecisive(algorithm, ds[k].outcome)
  {
    if ds == [] || IsDecisive(algorithm, ds[0].outcome) then 0 else 1 + FirstDecisive(algorithm, ds[1..])
  }

  /** The last decision that applies, or no match. */
  function LastApplicable(ds: seq<Decision>): Decision {
    if ds == [] then NO_MATCH
    else if ds[|ds| - 1].outcome != NotApplicable then ds[|ds| - 1]
    else LastApplicable(ds[..|ds| - 1])
  }

  function Selected(algorithm: Algorithm, ds: seq<Decision>): Decision {
    var k := FirstDecisive(algorithm, ds);
    if k < |ds| then ds[k] else LastApplicable(ds)
  }

  ghost predicate AllSupported(ds: seq<Decision>) { forall i :: 0 <= i < |ds| ==> Supported(ds[i].outcome) }

  /** Combine selects the first decisive decision, else the last applicable one. */
  method Combine(algorithm: Algorithm, ds: seq<Decision>) returns (r: Result<Decision, Error>)
    ensures r == if algorithm.UnknownAlgorithm? then Err(InvalidCombiningAlgorithm)
                 else if !AllSupported(ds) then Err(InvalidOutcome)
                 else Ok(Selected(algorithm, ds))
  {
    if algorithm.UnknownAlgorithm? {
      return Err(InvalidCombiningAlgorithm);
    }
    for i := 0 to |ds|
      invariant forall j :: 0 <= j < i ==> Supported(ds[j].outcome)
    {
      if !Supported(ds[i].outcome) {
        return Err(InvalidOutcome);
      }
    }
    var result := NO_MATCH;
    for i := 0 to |ds|
      invariant forall j :: 0 <= j < i ==> !IsDecisive(algorithm, ds[j].outcome)
      invariant result == LastApplicable(ds[..i])
    {
      var decision := ds[i];
      if (algorithm == FirstApplicable || algorithm == PriorityOrder) && decision.outcome != NotApplicable {
        assert FirstDecisive(algorithm, ds) == i;
        return Ok(decision);
      }
      if algorithm == DenyOverrides && decision.outcome == Deny {
        assert FirstDecisive(algorithm, ds) == i;
        return Ok(decision);
      }
      if algorithm == AllowOverrides && decision.outcome == Allow {
        assert FirstDecisive(algorithm, ds) == i;
        return Ok(decision);
      }
      assert ds[..i + 1][..i] == ds[..i];
      if decision.outcome != NotApplicable {
        result := decision;
      }
    }
    assert ds[..|ds|] == ds;
    return Ok(result);
  }

  ghost predicate IsFirstApplicable(ds: seq<Decision>, k: int) {
    0 <= k < |ds| && ds[k].outcome != NotApplicable && forall j :: 0 <= j < k ==> ds[j].outcome == NotApplicable
  }

  ghost predicate Has(ds: seq<Decision>, outcome: Outcome) { exists i :: 0 <= i < |ds| && ds[i].outcome == outcome }

  lemma {:induction false} LastApplicableOutcome(ds: seq<Decision>)
    ensures LastApplicable(ds).outcome == NotApplicable <==>
            forall i :: 0 <= i < |ds| ==> ds[i].outcome == NotApplicable
    ensures LastApplicable(ds).outcome != NotApplicable ==> Has(ds, LastApplicable(ds).outcome)
  {
    if ds != [] {
      LastApplicableOutcome(ds[..|ds| - 1]);
    }
  }

  lemma UndecidedOutcomes(algorithm: Algorithm, ds: seq<Decision>, i: nat)
    requires !algorithm.UnknownAlgorithm? && AllSupported(ds) && FirstDecisive(algorithm, ds) == |ds| && i < |ds|
    ensures ds[i].outcome == NotApplicable || (algorithm == DenyOverrides && ds[i].outcome == Allow) ||
            (algorithm == AllowOverrides && ds[i].outcome == Deny)
  {
    assert Supported(ds[i].outcome) && !IsDecisive(algorithm, ds[i].outcome);
  }

  /** The documented precedence table. */
  lemma CombineTable(algorithm: Algorithm, ds: seq<Decision>)
    requires !algorithm.UnknownAlgorithm? && AllSupported(ds)
    ensures var outcome := Selected(algorithm, ds).outcome;
            && (outcome == NotApplicable <==> !Has(ds, Allow) && !Has(ds, Deny))
            && (algorithm == DenyOverrides ==> (outcome == Deny <==> Has(ds, Deny)))
            && (algorithm == AllowOverrides ==> (outcome == Allow <==> Has(ds, Allow)))
            && (outcome != NotApplicable ==> Has(ds, outcome))
  {
    var k := FirstDecisive(algorithm, ds);
    if k == |ds| {
      LastApplicableOutcome(ds);
      forall i | 0 <= i < |ds|
        ensures ds[i].outcome == NotApplicable || (algorithm == DenyOverrides && ds[i].outcome == Allow) ||
                (algorithm == AllowOverrides && ds[i].outcome == Deny)
      {
        UndecidedOutcomes(algorithm, ds, i);
      }
    }
  }

  /** The ordered algorithms take the first applicable decision. */
  lemma OrderedTakesFirst(algorithm: Algorithm, ds: seq<Decision>, k: nat)
    requires algorithm == FirstApplicable || algorithm == PriorityOrder
    requires IsFirstApplicable(ds, k)
    ensures Selected(algorithm, ds) == ds[k]
  {
    assert FirstDecisive(algorithm, ds) == k;
  }

  /** Decisions after the first decisive one do not matter. */
  lemma {:induction false} DecisivePrefix(algorithm: Algorithm, ds: seq<Decision>, k: nat)
    requires k < |ds| && IsDecisive(algorithm, ds[k].outcome)
    ensures Selected(algorithm, ds[..k + 1]) == Selected(algorithm, ds)
  {
    var f := FirstDecisive(algorithm, ds);
    var g := FirstDecisive(algorithm, ds[..k + 1]);
    assert ds[..k + 1][k] == ds[k];
    assert f <= k && g <= k;
    assert f == g;
  }

  // ---- Snapshots ----

  type Handle = nat

  datatype Policy = Policy(
    id: string, revision: nat, priority: int, activeFrom: int, activeUntil: int, evaluator: Handle)

  /** `evaluator` is None for Go's nil. */
  datatype Definition = Definition(
    id: string, revision: nat, priority: int, activeFrom: int, activeUntil: int, evaluator: Option<Handle>)

  datatype Snapshot = Snapshot(revision: nat, algorithm: Algorithm, policies: seq<Policy>)

  function PolicyRank(p: Policy): Rank { Rank(p.priority, p.id) }

  function DefinitionID(d: Definition): string { d.id }

  /** The half-open window; a zero end is open. */
  predicate ActiveAt(p: Policy, at: int) {
    (p.activeFrom == 0 || at >= p.activeFrom) && (p.activeUntil == 0 || at < p.activeUntil)
  }

  ghost function DefinitionFault(ds: seq<Definition>, i: nat): Option<Error>
    requires i < |ds|
  {
    if ds[i].id == "" || ds[i].evaluator.None? then Some(InvalidPolicy)
    else if exists j :: 0 <= j < i && ds[j].id == ds[i].id then Some(DuplicatePolicy)
    else if ds[i].activeFrom != 0 && ds[i].activeUntil != 0 && ds[i].activeUntil <= ds[i].activeFrom then
      Some(InvalidActivationWindow)
    else None
  }

  ghost predicate DefinitionsFine(ds: seq<Definition>) {
    forall i :: 0 <= i < |ds| ==> DefinitionFault(ds, i) == None
  }

  ghost predicate FirstDefinitionFault(ds: seq<Definition>, e: Error) {
    exists i :: 0 <= i < |ds| && DefinitionFault(ds, i) == Some(e) &&
                (forall j :: 0 <= j < i ==> DefinitionFault(ds, j) == None)
  }

  function Entry(d: Definition, revision: nat): Policy {
    Policy(d.id, if d.revision == 0 then revision else d.revision, d.priority, d.activeFrom, d.activeUntil,
           if d.evaluator.Some? then d.evaluator.value else 0)
  }

  function Entries(ds: seq<Definition>, revision: nat): seq<Policy> {
    seq(|ds|, i requires 0 <= i < |ds| => Entry(ds[i], revision))
  }

  /** The snapshot of a list of definitions. */
  function SnapshotOf(revision: nat, algorithm: Algorithm, ds: seq<Definition>): Snapshot {
    var policies := Entries(ds, revision);
    Snapshot(revision, algorithm, if algorithm == PriorityOrder then Sort(policies, PolicyRank) else policies)
  }

  lemma EntriesDistinct(ds: seq<Definition>, revision: nat)
    requires DefinitionsFine(ds)
    ensures DistinctRanks(Entries(ds, revision), PolicyRank)
  {
    forall i, j | 0 <= i < j < |ds| ensures PolicyRank(Entry(ds[i], revision)) != PolicyRank(Entry(ds[j], revision)) {
      assert DefinitionFault(ds, j) == None;
    }
  }

  method CollectEntries(ds: seq<Definition>, revision: nat) returns (r: Result<seq<Policy>, Error>)
    ensures r.Ok? <==> DefinitionsFine(ds)
    ensures r.Ok? ==> r.value == Entries(ds, revision)
    ensures r.Err? ==> FirstDefinitionFault(ds, r.error)
  {
    var policies: seq<Policy> := [];
    var ids: set<string> := {};
    for i := 0 to |ds|
      invariant ids == IDs(ds[..i], DefinitionID)
      invariant |policies| == i && forall j :: 0 <= j < i ==> policies[j] == Entry(ds[j], revision)
      invariant forall j :: 0 <= j < i ==> DefinitionFault(ds, j) == None
    {
      var d := ds[i];
      IDsSnoc(ds, DefinitionID, i);
      ghost var fault := DefinitionFault(ds, i);
      if d.id == "" || d.evaluator.None? {
        assert fault == Some(InvalidPolicy);
        return Err(InvalidPolicy);
      }
      if d.id in ids {
        assert fault == Some(DuplicatePolicy);
        return Err(DuplicatePolicy);
      }
      if d.activeFrom != 0 && d.activeUntil != 0 && d.activeUntil <= d.activeFrom {
        assert fault == Some(InvalidActivationWindow);
        return Err(InvalidActivationWindow);
      }
      assert fault == None;
      ids := ids + {d.id};
      policies := policies + [Entry(d, revision)];
    }
    return Ok(policies);
  }

  /** NewSnapshot accepts exactly well-formed definitions; under priority order it sorts them. */
  method NewSnapshot(revision: nat, algorithm: Algorithm, ds: seq<Definition>) returns (r: Result<Snapshot, Error>)
    ensures r.Ok? <==> revision != 0 && !algorithm.UnknownAlgorithm? && DefinitionsFine(ds)
    ensures r.Ok? ==> r.value == SnapshotOf(revision, algorithm, ds)
    ensures r.Err? ==> if revision == 0 then r.error == InvalidRevision
                       else if algorithm.UnknownAlgorithm? then r.error == InvalidCombiningAlgorithm
                       else FirstDefinitionFault(ds, r.error)
  {
    if revision == 0 {
      return Err(InvalidRevision);
    }
    var probe := Combine(algorithm, []);
    if probe.Err? {
      return Err(probe.error);
    }
    var collected := CollectEntries(ds, revision);
    if collected.Err? {
      return Err(collected.error);
    }
    var policies := collected.value;
    if algorithm == PriorityOrder {
      policies := SortFunc(collected.value, PolicyRank);
      EntriesDistinct(ds, revision);
      AnySortIsTheSort(collected.value, policies);
    }
    return Ok(Snapshot(revision, algorithm, policies));
  }

  lemma {:induction false} AnySortIsTheSort(policies: seq<Policy>, sorted: seq<Policy>)
    requires DistinctRanks(policies, PolicyRank) && Sorted(sorted, PolicyRank) && multiset(sorted) == multiset(policies)
    ensures sorted == Sort(policies, PolicyRank)
    ensures StrictlySorted(sorted, PolicyRank)
  {
    SortSorted(policies, PolicyRank);
    SortedDistinct(policies, sorted, PolicyRank);
    SortedDistinct(policies, Sort(policies, PolicyRank), PolicyRank);
    SameElements(sorted, Sort(policies, PolicyRank));
    StrictlySortedUnique(sorted, Sort(policies, PolicyRank), PolicyRank);
  }

  lemma EntriesElements(ds: seq<Definition>, revision: nat, p: Policy)
    ensures p in Entries(ds, revision) <==> exists d :: d in ds && p == Entry(d, revision)
  {
    if p in Entries(ds, revision) {
      var i :| 0 <= i < |ds| && Entries(ds, revision)[i] == p;
      assert ds[i] in ds;
    }
    if exists d :: d in ds && p == Entry(d, revision) {
      var d :| d in ds && p == Entry(d, revision);
      var i :| 0 <= i < |ds| && ds[i] == d;
      assert Entries(ds, revision)[i] == p;
    }
  }

  function DefinitionRank(d: Definition): Rank { Rank(0, d.id) }

  /** A definition that is fine on its own. */
  predicate DefinitionFine(d: Definition) {
    d.id != "" && d.evaluator.Some? && !(d.activeFrom != 0 && d.activeUntil != 0 && d.activeUntil <= d.activeFrom)
  }

  lemma NoDefinitionFault(ds: seq<Definition>)
    ensures DefinitionsFine(ds) <==> (forall d :: d in ds ==> DefinitionFine(d)) && DistinctRanks(ds, DefinitionRank)
  {
    if DefinitionsFine(ds) {
      forall i, j | 0 <= i < j < |ds| ensures DefinitionRank(ds[i]) != DefinitionRank(ds[j]) {
        assert DefinitionFault(ds, j) == None;
      }
      forall d | d in ds ensures DefinitionFine(d) {
        var i :| 0 <= i < |ds| && ds[i] == d;
        assert DefinitionFault(ds, i) == None;
      }
    } else if DistinctRanks(ds, DefinitionRank) {
      var i :| 0 <= i < |ds| && DefinitionFault(ds, i) != None;
      assert forall j :: 0 <= j < i ==> DefinitionRank(ds[j]) != DefinitionRank(ds[i]);
      assert ds[i] in ds && !DefinitionFine(ds[i]);
    }
  }

  lemma DefinitionsPermuted(a: seq<Definition>, b: seq<Definition>)
    requires multiset(a) == multiset(b) && DefinitionsFine(a)
    ensures DefinitionsFine(b)
  {
    NoDefinitionFault(a);
    NoDefinitionFault(b);
    SameElements(a, b);
    DistinctPermuted(a, b, DefinitionRank);
  }

  /** Under priority order, permuting definitions yields the same snapshot, hence the same decisions. */
  lemma {:induction false} PriorityOrderIgnoresDefinitionOrder(revision: nat, a: seq<Definition>, b: seq<Definition>)
    requires multiset(a) == multiset(b) && DefinitionsFine(a)
    ensures DefinitionsFine(b) && SnapshotOf(revision, PriorityOrder, a) == SnapshotOf(revision, PriorityOrder, b)
  {
    DefinitionsPermuted(a, b);
    var x, y := Entries(a, revision), Entries(b, revision);
    SameElements(a, b);
    EntriesDistinct(a, revision);
    EntriesDistinct(b, revision);
    SortSorted(x, PolicyRank);
    SortSorted(y, PolicyRank);
    AnySortIsTheSort(x, Sort(x, PolicyRank));
    AnySortIsTheSort(y, Sort(y, PolicyRank));
    SameElements(x, Sort(x, PolicyRank));
    SameElements(y, Sort(y, PolicyRank));
    forall p ensures p in Sort(x, PolicyRank) <==> p in Sort(y, PolicyRank) {
      EntriesElements(a, revision, p);
      EntriesElements(b, revision, p);
    }
    StrictlySortedUnique(Sort(x, PolicyRank), Sort(y, PolicyRank), PolicyRank);
  }

  // ---- Running the policies of a snapshot ----

  datatype PolicyResult = Returned(decision: Decision) | Failed

  type Behaviour = (Handle, Request) -> PolicyResult

  /** What one policy contributes when the loop reaches it. */
  datatype Step = Step(id: string, result: PolicyResult)

  function StepOf(p: Policy, request: Request, at: int, behave: Behaviour): Step {
    Step(p.id,
         if ActiveAt(p, at) then behave(p.evaluator, request) else Returned(Plain(NotApplicable, "policy-inactive")))
  }

  function Steps(policies: seq<Policy>, request: Request, at: int, behave: Behaviour): seq<Step> {
    seq(|policies|, i requires 0 <= i < |policies| => StepOf(policies[i], request, at, behave))
  }

  /** An evaluator error, or an outcome outside the supported three. */
  predicate Broken(s: Step) { s.result.Failed? || !Supported(s.result.decision.outcome) }

  predicate Stops(algorithm: Algorithm, s: Step) { Broken(s) || IsDecisive(algorithm, s.result.decision.outcome) }

  /** How many policies the loop evaluates. */
  function Reached(algorithm: Algorithm, steps: seq<Step>): (n: nat)
    ensures n <= |steps|
    ensures forall i :: 0 <= i < n - 1 ==> !Stops(algorithm, steps[i])
    ensures n < |steps| ==> n > 0 && Stops(algorithm, steps[n - 1])
    ensures steps != [] ==> n > 0
  {
    if steps == [] then 0
    else if Stops(algorithm, steps[0]) then 1
    else 1 + Reached(algorithm, steps[1..])
  }

  function DecisionOf(s: Step): Decision { if s.result.Returned? then s.result.decision else NO_MATCH }

  function DecisionsOf(steps: seq<Step>): seq<Decision> {
    seq(|steps|, i requires 0 <= i < |steps| => DecisionOf(steps[i]))
  }

  function TraceOf(steps: seq<Step>): seq<TraceEntry> {
    seq(|steps|, i requires 0 <= i < |steps| =>
      TraceEntry(steps[i].id, DecisionOf(steps[i]).outcome, DecisionOf(steps[i]).reason))
  }

  function MatchedBy(s: Step): seq<string> {
    var d := DecisionOf(s);
    if d.outcome == NotApplicable then [] else if d.matched == [] then [s.id] else d.matched
  }

  /** All identifiers that apply, before any cap. */
  function AllMatched(steps: seq<Step>): seq<string> {
    if steps == [] then [] else AllMatched(steps[..|steps| - 1]) + MatchedBy(steps[|steps| - 1])
  }

  predicate UpstreamTruncated(s: Step) { DecisionOf(s).outcome != NotApplicable && DecisionOf(s).matchedTruncated }

  predicate AnyTruncated(steps: seq<Step>) { exists s :: s in steps && UpstreamTruncated(s) }

  function Cap<T>(s: seq<T>, n: nat): seq<T> { if |s| <= n then s else s[..n] }

  // ---- decide ----

  datatype Limits = Limits(maxBatchSize: nat, maxPolicies: nat, maxTraceSize: nat, maxMatchedPolicyIDs: nat)

  /** A decision and possibly an error beside it. */
  datatype Ruling = Ruling(decision: Decision, error: Option<Error>)

  predicate ValidRequest(r: Request) {
    r.subject.kind != "" && r.subject.id != "" && r.action != "" && r.resource.kind != "" && "" !in r.subject.groups
  }

  function Denial(reason: string, revision: nat): Decision { Plain(Deny, reason).(revision := revision) }

  function DefaultDeny(d: Decision): Decision {
    if d.outcome == NotApplicable then d.(outcome := Deny, reason := "default-deny") else d
  }

  /** The decision over the steps that were reached, with diagnostics capped. */
  function Conclude(snapshot: Snapshot, limits: Limits, seen: seq<Step>): Decision {
    var base := DefaultDeny(Selected(snapshot.algorithm, DecisionsOf(seen)));
    Decision(
      base.outcome, base.reason,
      Cap(AllMatched(seen), limits.maxMatchedPolicyIDs),
      |AllMatched(seen)| > limits.maxMatchedPolicyIDs || AnyTruncated(seen),
      snapshot.revision,
      Cap(TraceOf(seen), limits.maxTraceSize),
      |seen| > limits.maxTraceSize)
  }

  function Failure(s: Step): Error { if s.result.Failed? then PolicyEvaluation(s.id) else InvalidOutcome }

  /** What the engine answers, from what its policies would do. */
  function RulingOver(snapshot: Snapshot, limits: Limits, steps: seq<Step>): Ruling {
    var n := Reached(snapshot.algorithm, steps);
    if n > 0 && Broken(steps[n - 1]) then
      Ruling(Denial("evaluation-error", snapshot.revision), Some(Failure(steps[n - 1])))
    else if snapshot.algorithm.UnknownAlgorithm? then
      Ruling(Denial("evaluation-error", snapshot.revision), Some(InvalidCombiningAlgorithm))
    else Ruling(Conclude(snapshot, limits, steps[..n]), None)
  }

  function EvaluationTime(request: Request, clock: int): int {
    if request.environment.time == 0 then clock else request.environment.time
  }

  function Rule(snapshot: Snapshot, limits: Limits, request: Request, clock: int, behave: Behaviour): Ruling {
    if !ValidRequest(request) then Ruling(Denial("invalid-request", snapshot.revision), Some(InvalidRequest))
    else RulingOver(snapshot, limits, Steps(snapshot.policies, request, EvaluationTime(request, clock), behave))
  }

  /** The accumulators of the loop. */
  datatype Progress = Progress(
    decisions: seq<Decision>, matched: seq<string>, matchedTruncated: bool,
    trace: seq<TraceEntry>, traceTruncated: bool)

  ghost predicate Recorded(p: Progress, seen: seq<Step>, limits: Limits) {
    && p.decisions == DecisionsOf(seen)
    && p.matched == Cap(AllMatched(seen), limits.maxMatchedPolicyIDs)
    && (p.matchedTruncated <==> |AllMatched(seen)| > limits.maxMatchedPolicyIDs || AnyTruncated(seen))
    && p.trace == Cap(TraceOf(seen), limits.maxTraceSize)
    && (p.traceTruncated <==> |seen| > limits.maxTraceSize)
  }

  lemma CapAppend<T>(s: seq<T>, more: seq<T>, n: nat)
    ensures var room := n - |Cap(s, n)|;
            Cap(s + more, n) == Cap(s, n) + if |more| > room then more[..room] else more
    ensures more != [] ==> (|s + more| > n <==> |s| > n || |more| > n - |Cap(s, n)|)
  {
  }

  lemma SnocSteps(seen: seq<Step>, s: Step)
    ensures DecisionsOf(seen + [s]) == DecisionsOf(seen) + [DecisionOf(s)]
    ensures TraceOf(seen + [s]) == TraceOf(seen) + [TraceEntry(s.id, DecisionOf(s).outcome, DecisionOf(s).reason)]
    ensures AllMatched(seen + [s]) == AllMatched(seen) + MatchedBy(s)
    ensures AnyTruncated(seen + [s]) <==> AnyTruncated(seen) || UpstreamTruncated(s)
  {
    assert (seen + [s])[..|seen|] == seen;
    assert forall x :: x in seen + [s] <==> x in seen || x == s;
  }

  /** Appends one evaluated policy to the diagnostics, within the caps. */
  method Record(p: Progress, step: Step, limits: Limits, ghost seen: seq<Step>) returns (next: Progress)
    requires Recorded(p, seen, limits) && step.result.Returned?
    ensures Recorded(next, seen + [step], limits)
  {
    var id, decision := step.id, step.result.decision;
    SnocSteps(seen, step);
    var entry := TraceEntry(id, decision.outcome, decision.reason);
    CapAppend(TraceOf(seen), [entry], limits.maxTraceSize);
    next := p.(decisions := p.decisions + [decision]);
    if |p.trace| < limits.maxTraceSize {
      next := next.(trace := p.trace + [entry]);
    } else {
      next := next.(traceTruncated := true);
    }
    if decision.outcome != NotApplicable {
      var matched := if decision.matched == [] then [id] else decision.matched;
      CapAppend(AllMatched(seen), matched, limits.maxMatchedPolicyIDs);
      var remaining := limits.maxMatchedPolicyIDs - |p.matched|;
      if |matched| > remaining {
        next := next.(matched := p.matched + matched[..remaining], matchedTruncated := true);
      } else {
        next := next.(matched := p.matched + matched);
      }
      next := next.(matchedTruncated := next.matchedTruncated || decision.matchedTruncated);
    }
  }

  /** evaluatePolicy behind the activation window. */
  method EvaluatePolicy(policy: Policy, request: Request, at: int, behave: Behaviour) returns (step: Step)
    ensures step == StepOf(policy, request, at, behave)
  {
    if ActiveAt(policy, at) {
      return Step(policy.id, behave(policy.evaluator, request));
    }
    return Step(policy.id, Returned(Plain(NotApplicable, "policy-inactive")));
  }

  /** The loop ends either with the first broken policy, or with the record of the policies evaluated. */
  ghost predicate Ran(
    algorithm: Algorithm, steps: seq<Step>, limits: Limits, failure: Option<Error>, progress: Progress)
  {
    var n := Reached(algorithm, steps);
    if n > 0 && Broken(steps[n - 1]) then failure == Some(Failure(steps[n - 1]))
    else failure == None && Recorded(progress, steps[..n], limits)
  }

  lemma RanUntil(
    algorithm: Algorithm, steps: seq<Step>, i: nat, limits: Limits, failure: Option<Error>, progress: Progress)
    requires i < |steps| && Stops(algorithm, steps[i]) && forall j :: 0 <= j < i ==> !Stops(algorithm, steps[j])
    requires if Broken(steps[i]) then failure == Some(Failure(steps[i]))
             else failure == None && Recorded(progress, steps[..i + 1], limits)
    ensures Ran(algorithm, steps, limits, failure, progress)
  {
    ReachedHere(algorithm, steps, i);
  }

  lemma {:induction false} RanThrough(algorithm: Algorithm, steps: seq<Step>, limits: Limits, progress: Progress)
    requires forall j :: 0 <= j < |steps| ==> !Stops(algorithm, steps[j])
    requires Recorded(progress, steps, limits)
    ensures Ran(algorithm, steps, limits, None, progress)
  {
    ReachedAll(algorithm, steps);
    assert steps[..|steps|] == steps;
  }

  /** The loop over the policies of a snapshot. */
  method RunPolicies(snapshot: Snapshot, limits: Limits, request: Request, at: int, behave: Behaviour)
    returns (failure: Option<Error>, progress: Progress)
    ensures Ran(snapshot.algorithm, Steps(snapshot.policies, request, at, behave), limits, failure, progress)
  {
    var policies, algorithm := snapshot.policies, snapshot.algorithm;
    ghost var steps := Steps(policies, request, at, behave);
    ghost var seen: seq<Step> := [];
    progress := Progress([], [], false, [], false);
    for i := 0 to |policies|
      invariant seen == steps[..i] && Recorded(progress, seen, limits)
      invariant forall j :: 0 <= j < i ==> !Stops(algorithm, steps[j])
    {
      var step := EvaluatePolicy(policies[i], request, at, behave);
      assert step == steps[i];
      if step.result.Failed? {
        failure := Some(PolicyEvaluation(step.id));
        RanUntil(algorithm, steps, i, limits, failure, progress);
        return;
      }
      if step.result.decision.outcome.Unsupported? {
        failure := Some(InvalidOutcome);
        RanUntil(algorithm, steps, i, limits, failure, progress);
        return;
      }
      TakeOneMore(steps, i);
      progress := Record(progress, step, limits, seen);
      seen := seen + [step];
      if IsDecisive(algorithm, step.result.decision.outcome) {
        failure := None;
        RanUntil(algorithm, steps, i, limits, failure, progress);
        return;
      }
    }
    assert seen == steps;
    RanThrough(algorithm, steps, limits, progress);
    failure := None;
  }

  lemma RanFine(algorithm: Algorithm, steps: seq<Step>, limits: Limits, progress: Progress)
    requires Ran(algorithm, steps, limits, None, progress)
    ensures var n := Reached(algorithm, steps);
            && (n > 0 ==> !Broken(steps[n - 1])) && Recorded(progress, steps[..n], limits)
            && forall i :: 0 <= i < n ==> !Broken(steps[i])
  {
    forall i | 0 <= i < Reached(algorithm, steps) ensures !Broken(steps[i]) {
      assert i < Reached(algorithm, steps) - 1 ==> !Stops(algorithm, steps[i]);
    }
  }

  /** The early-exit loop computes the ruling over all the policies would do. */
  method DecideRequest(snapshot: Snapshot, limits: Limits, request: Request, clock: int, behave: Behaviour)
    returns (r: Ruling)
    ensures r == Rule(snapshot, limits, request, clock, behave)
  {
    if !ValidRequest(request) {
      return Ruling(Denial("invalid-request", snapshot.revision), Some(InvalidRequest));
    }
    var at := EvaluationTime(request, clock);
    var failure, progress := RunPolicies(snapshot, limits, request, at, behave);
    if failure.Some? {
      return Ruling(Denial("evaluation-error", snapshot.revision), failure);
    }
    ghost var steps := Steps(snapshot.policies, request, at, behave);
    RanFine(snapshot.algorithm, steps, limits, progress);
    r := Finish(snapshot, limits, progress, steps[..Reached(snapshot.algorithm, steps)]);
  }

  lemma ReachedHere(algorithm: Algorithm, steps: seq<Step>, i: nat)
    requires i < |steps| && Stops(algorithm, steps[i]) && forall j :: 0 <= j < i ==> !Stops(algorithm, steps[j])
    ensures Reached(algorithm, steps) == i + 1
  {
  }

  lemma {:induction false} ReachedAll(algorithm: Algorithm, steps: seq<Step>)
    requires forall j :: 0 <= j < |steps| ==> !Stops(algorithm, steps[j])
    ensures Reached(algorithm, steps) == |steps|
  {
    if steps != [] {
      ReachedAll(algorithm, steps[1..]);
    }
  }

  /** Combine, default deny and the copied diagnostics. */
  method Finish(snapshot: Snapshot, limits: Limits, progress: Progress, ghost seen: seq<Step>) returns (r: Ruling)
    requires Recorded(progress, seen, limits) && forall i :: 0 <= i < |seen| ==> !Broken(seen[i])
    ensures r == if snapshot.algorithm.UnknownAlgorithm?
                 then Ruling(Denial("evaluation-error", snapshot.revision), Some(InvalidCombiningAlgorithm))
                 else Ruling(Conclude(snapshot, limits, seen), None)
  {
    assert AllSupported(progress.decisions);
    var combined := Combine(snapshot.algorithm, progress.decisions);
    if combined.Err? {
      return Ruling(Denial("evaluation-error", snapshot.revision), Some(combined.error));
    }
    var decision := combined.value;
    if decision.outcome == NotApplicable {
      decision := decision.(outcome := Deny, reason := "default-deny");
    }
    return Ruling(decision.(matched := progress.matched, matchedTruncated := progress.matchedTruncated,
                            revision := snapshot.revision, trace := progress.trace,
                            traceTruncated := progress.traceTruncated), None);
  }

  // ---- What the ruling is ----

  ghost predicate NoneBroken(steps: seq<Step>) { forall i :: 0 <= i < |steps| ==> !Broken(steps[i]) }

  /** Early exit is invisible: outcome and reason are those of Combine over every policy, plus default deny. */
  lemma EarlyExitAgrees(snapshot: Snapshot, limits: Limits, steps: seq<Step>)
    requires NoneBroken(steps) && !snapshot.algorithm.UnknownAlgorithm?
    ensures var full := DefaultDeny(Selected(snapshot.algorithm, DecisionsOf(steps)));
            var r := RulingOver(snapshot, limits, steps);
            r.error == None && r.decision.outcome == full.outcome && r.decision.reason == full.reason
  {
    var algorithm := snapshot.algorithm;
    var n := Reached(algorithm, steps);
    if n < |steps| {
      assert IsDecisive(algorithm, DecisionsOf(steps)[n - 1].outcome);
      DecisivePrefix(algorithm, DecisionsOf(steps), n - 1);
      assert DecisionsOf(steps[..n]) == DecisionsOf(steps)[..n];
    } else {
      assert steps[..n] == steps;
    }
  }

  ghost predicate SomeStep(steps: seq<Step>, outcome: Outcome) {
    exists s :: s in steps && !Broken(s) && DecisionOf(s).outcome == outcome
  }

  /** Only an explicit allow of an evaluated policy grants access, under every algorithm. */
  lemma AllowIsExplicit(snapshot: Snapshot, limits: Limits, steps: seq<Step>)
    ensures var outcome := RulingOver(snapshot, limits, steps).decision.outcome;
            (outcome == Allow || outcome == Deny) && (outcome == Allow ==> SomeStep(steps, Allow))
  {
    var n := Reached(snapshot.algorithm, steps);
    var r := RulingOver(snapshot, limits, steps);
    if r.error == None {
      var seen := steps[..n];
      assert forall i :: 0 <= i < |seen| ==> seen[i] == steps[i] && !Broken(seen[i]);
      var ds := DecisionsOf(seen);
      assert AllSupported(ds);
      LastApplicableOutcome(ds);
      if r.decision.outcome == Allow {
        assert Has(ds, Allow);
        var i :| 0 <= i < |ds| && ds[i].outcome == Allow;
        assert steps[i] in steps;
      }
    }
  }

  /** Under deny-overrides, failures included: allow exactly when some policy allows and none denies or breaks. */
  lemma DenyOverridesOutcome(snapshot: Snapshot, limits: Limits, steps: seq<Step>)
    requires snapshot.algorithm == DenyOverrides
    ensures RulingOver(snapshot, limits, steps).decision.outcome == Allow <==>
            NoneBroken(steps) && !SomeStep(steps, Deny) && SomeStep(steps, Allow)
  {
    var n := Reached(DenyOverrides, steps);
    AllowIsExplicit(snapshot, limits, steps);
    if NoneBroken(steps) {
      EarlyExitAgrees(snapshot, limits, steps);
      var ds := DecisionsOf(steps);
      assert AllSupported(ds);
      CombineTable(DenyOverrides, ds);
      HasStep(steps, Allow);
      HasStep(steps, Deny);
    } else if n < |steps| {
      StoppedMeansDenied(snapshot, limits, steps);
    }
  }

  lemma HasStep(steps: seq<Step>, outcome: Outcome)
    requires NoneBroken(steps)
    ensures Has(DecisionsOf(steps), outcome) <==> SomeStep(steps, outcome)
  {
    if Has(DecisionsOf(steps), outcome) {
      var i :| 0 <= i < |steps| && DecisionsOf(steps)[i].outcome == outcome;
      assert steps[i] in steps;
    }
    if SomeStep(steps, outcome) {
      var s :| s in steps && !Broken(s) && DecisionOf(s).outcome == outcome;
      var i :| 0 <= i < |steps| && steps[i] == s;
      assert DecisionsOf(steps)[i].outcome == outcome;
    }
  }

  lemma {:induction false} StoppedMeansDenied(snapshot: Snapshot, limits: Limits, steps: seq<Step>)
    requires snapshot.algorithm == DenyOverrides && Reached(DenyOverrides, steps) < |steps|
    ensures RulingOver(snapshot, limits, steps).decision.outcome == Deny
  {
    var n := Reached(DenyOverrides, steps);
    if !Broken(steps[n - 1]) {
      var ds := DecisionsOf(steps[..n]);
      assert ds[n - 1] == DecisionOf(steps[n - 1]);
      assert FirstDecisive(DenyOverrides, ds) <= n - 1;
    }
  }

  lemma StepsElements(policies: seq<Policy>, request: Request, at: int, behave: Behaviour, s: Step)
    ensures s in Steps(policies, request, at, behave) <==>
            exists p :: p in policies && s == StepOf(p, request, at, behave)
  {
    var steps := Steps(policies, request, at, behave);
    if s in steps {
      var i :| 0 <= i < |steps| && steps[i] == s;
      assert policies[i] in policies;
    }
    if exists p :: p in policies && s == StepOf(p, request, at, behave) {
      var p :| p in policies && s == StepOf(p, request, at, behave);
      var i :| 0 <= i < |policies| && policies[i] == p;
      assert steps[i] == s;
    }
  }

  lemma NoneBrokenMembers(steps: seq<Step>)
    ensures NoneBroken(steps) <==> forall s :: s in steps ==> !Broken(s)
  {
  }

  /** Deny-overrides outcomes do not depend on definition order, even with failing evaluators. */
  lemma DenyOverridesIgnoresOrder(
    a: Snapshot, b: Snapshot, limits: Limits, request: Request, clock: int, behave: Behaviour)
    requires a.algorithm == b.algorithm == DenyOverrides && multiset(a.policies) == multiset(b.policies)
    ensures Rule(a, limits, request, clock, behave).decision.outcome ==
            Rule(b, limits, request, clock, behave).decision.outcome
  {
    if ValidRequest(request) {
      var at := EvaluationTime(request, clock);
      var x, y := Steps(a.policies, request, at, behave), Steps(b.policies, request, at, behave);
      SameElements(a.policies, b.policies);
      forall s ensures s in x <==> s in y {
        StepsElements(a.policies, request, at, behave, s);
        StepsElements(b.policies, request, at, behave, s);
      }
      NoneBrokenMembers(x);
      NoneBrokenMembers(y);
      DenyOverridesOutcome(a, limits, x);
      DenyOverridesOutcome(b, limits, y);
      AllowIsExplicit(a, limits, x);
      AllowIsExplicit(b, limits, y);
    }
  }

  // ---- The engine object ----

  /** Why a replacement is refused, by the first check that fails. */
  function Refusal(current: Snapshot, next: Option<Snapshot>, expected: nat, limits: Limits): Option<Error> {
    if next.None? then Some(NilSnapshot)
    else if |next.value.policies| > limits.maxPolicies then Some(PolicyLimitExceeded)
    else if current.revision != expected then Some(RevisionConflict)
    else if next.value.revision <= current.revision then Some(RevisionNotMonotonic)
    else None
  }

  function Replaced(current: Snapshot, next: Option<Snapshot>, expected: nat, limits: Limits): Snapshot {
    if Refusal(current, next, expected, limits) == None then next.value else current
  }

  /** A call of ReplaceSnapshot by somebody else. */
  datatype Replacement = Replacement(next: Option<Snapshot>, expected: nat)

  function ReplacedBy(current: Snapshot, calls: seq<Replacement>, limits: Limits): Snapshot
    decreases |calls|
  {
    if calls == [] then current
    else ReplacedBy(Replaced(current, calls[0].next, calls[0].expected, limits), calls[1..], limits)
  }

  function ReplacedByAll(current: Snapshot, others: seq<seq<Replacement>>, limits: Limits): Snapshot
    decreases |others|
  {
    if others == [] then current else ReplacedByAll(ReplacedBy(current, others[0], limits), others[1..], limits)
  }

  class EngineState {
    const limits: Limits
    var snapshot: Snapshot

    constructor (snapshot: Snapshot, limits: Limits)
      ensures this.snapshot == snapshot && this.limits == limits
    {
      this.snapshot := snapshot;
      this.limits := limits;
    }

    /** Installs a newer snapshot only over the expected revision; a refusal changes nothing. */
    method ReplaceSnapshot(next: Option<Snapshot>, expected: nat) returns (err: Option<Error>)
      modifies this
      ensures err == Refusal(old(snapshot), next, expected, limits)
      ensures snapshot == Replaced(old(snapshot), next, expected, limits)
      ensures snapshot.revision >= old(snapshot.revision)
      ensures old(|snapshot.policies| <= limits.maxPolicies) ==> |snapshot.policies| <= limits.maxPolicies
    {
      if next.None? {
        return Some(NilSnapshot);
      }
      if |next.value.policies| > limits.maxPolicies {
        return Some(PolicyLimitExceeded);
      }
      if snapshot.revision != expected {
        return Some(RevisionConflict);
      }
      if next.value.revision <= snapshot.revision {
        return Some(RevisionNotMonotonic);
      }
      snapshot := next.value;
      return None;
    }

    /** What other goroutines do to the engine meanwhile. */
    method Interfere(calls: seq<Replacement>)
      modifies this
      ensures snapshot == ReplacedBy(old(snapshot), calls, limits)
    {
      ghost var start := snapshot;
      for i := 0 to |calls|
        invariant ReplacedBy(snapshot, calls[i..], limits) == ReplacedBy(start, calls, limits)
      {
        var _ := ReplaceSnapshot(calls[i].next, calls[i].expected);
      }
    }

    /** Whatever replacements land between its requests, a batch is ruled on over the snapshot captured at
        its start; each request has its own clock sample. */
    method DecideBatch(requests: seq<Request>, clocks: seq<int>, others: seq<seq<Replacement>>, behave: Behaviour)
      returns (r: Result<seq<Ruling>, Error>)
      requires |clocks| == |others| == |requests|
      modifies this
      ensures r.Err? <==> |requests| > limits.maxBatchSize
      ensures r.Err? ==> r.error == BatchLimitExceeded && snapshot == old(snapshot)
      ensures r.Ok? ==> snapshot == ReplacedByAll(old(snapshot), others, limits)
      ensures r.Ok? ==> |r.value| == |requests|
      ensures r.Ok? ==>
        forall i :: 0 <= i < |requests| ==> r.value[i] == Rule(old(snapshot), limits, requests[i], clocks[i], behave)
    {
      if |requests| > limits.maxBatchSize {
        return Err(BatchLimitExceeded);
      }
      var captured := snapshot;
      var rulings: seq<Ruling> := [];
      for i := 0 to |requests|
        invariant ReplacedByAll(snapshot, others[i..], limits) == ReplacedByAll(captured, others, limits)
        invariant |rulings| == i
        invariant forall j :: 0 <= j < i ==> rulings[j] == Rule(captured, limits, requests[j], clocks[j], behave)
      {
        Interfere(others[i]);
        var ruling := DecideRequest(captured, limits, requests[i], clocks[i], behave);
        rulings := rulings + [ruling];
      }
      return Ok(rulings);
    }
  }

  /** NewEngine checks the snapshot against the limits that its replacements will meet. */
  method NewEngine(snapshot: Option<Snapshot>, limits: Limits) returns (r: Result<EngineState, Error>)
    ensures r.Err? <==> snapshot.None? || |snapshot.value.policies| > limits.maxPolicies
    ensures r.Err? ==> r.error == if snapshot.None? then NilSnapshot else PolicyLimitExceeded
    ensures r.Ok? ==> fresh(r.value) && r.value.snapshot == snapshot.value && r.value.limits == limits
  {
    if snapshot.None? {
      return Err(NilSnapshot);
    }
    if |snapshot.value.policies| > limits.maxPolicies {
      return Err(PolicyLimitExceeded);
    }
    var engine := new EngineState(snapshot.value, limits);
    return Ok(engine);
  }
}
