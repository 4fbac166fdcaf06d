// What snapshots hold and what the engine rules, said in the fields of definitions,
// requests and evaluator results, without the ranks, windows and steps of the model.
module EngineMeaning {
  import opened Ordering
  import opened Decisions
  import opened Engine

  // ---- Combine ----

  /** An undecided combination is the last applicable decision. */
  lemma {:induction false} LastApplicableMeans(ds: seq<Decision>, k: nat)
    requires k < |ds| && ds[k].outcome != NotApplicable
    requires forall j :: k < j < |ds| ==> ds[j].outcome == NotApplicable
    ensures LastApplicable(ds) == ds[k]
  {
    if k < |ds| - 1 { LastApplicableMeans(ds[..|ds| - 1], k); }
  }

  /** Without a denial, deny-overrides answers with the last decision that applies, reason and matches included. */
  lemma {:induction false} NoDenialTakesLast(ds: seq<Decision>, k: nat)
    requires k < |ds| && ds[k].outcome != NotApplicable
    requires forall j :: k < j < |ds| ==> ds[j].outcome == NotApplicable
    requires forall j :: 0 <= j < |ds| ==> ds[j].outcome != Deny
    ensures Selected(DenyOverrides, ds) == ds[k]
  {
    LastApplicableMeans(ds, k);
  }

  lemma {:induction false} NoAllowanceTakesLast(ds: seq<Decision>, k: nat)
    requires k < |ds| && ds[k].outcome != NotApplicable
    requires forall j :: k < j < |ds| ==> ds[j].outcome == NotApplicable
    requires forall j :: 0 <= j < |ds| ==> ds[j].outcome != Allow
    ensures Selected(AllowOverrides, ds) == ds[k]
  {
    LastApplicableMeans(ds, k);
  }

  /** The first denial decides under deny-overrides, the first allowance under allow-overrides. */
  lemma {:induction false} FirstOverrides(algorithm: Algorithm, ds: seq<Decision>, k: nat)
    requires k < |ds|
    requires algorithm == DenyOverrides || algorithm == AllowOverrides
    requires var effect := if algorithm == DenyOverrides then Deny else Allow;
             ds[k].outcome == effect && forall j :: 0 <= j < k ==> ds[j].outcome != effect
    ensures Selected(algorithm, ds) == ds[k]
  {
    assert FirstDecisive(algorithm, ds) == k;
  }

  // ---- Snapshots ----

  /** The policy is the definition, with the snapshot's revision where it states none. */
  predicate Defines(d: Definition, revision: nat, p: Policy) {
    && p.id == d.id && p.priority == d.priority && p.activeFrom == d.activeFrom && p.activeUntil == d.activeUntil
    && d.evaluator == Some(p.evaluator) && p.revision == (if d.revision == 0 then revision else d.revision)
  }

  ghost predicate Ranked(ps: seq<Policy>) {
    forall i, j :: 0 <= i < j < |ps| ==>
      ps[i].priority > ps[j].priority || (ps[i].priority == ps[j].priority && StringLess(ps[i].id, ps[j].id))
  }

  /** Under priority order a snapshot holds the definitions, higher priority first and then by identifier. */
  lemma {:induction false} PriorityOrderMeans(revision: nat, ds: seq<Definition>)
    requires DefinitionsFine(ds)
    ensures var snapshot := SnapshotOf(revision, PriorityOrder, ds);
            && snapshot.revision == revision && snapshot.algorithm == PriorityOrder && Ranked(snapshot.policies)
            && forall p :: p in snapshot.policies <==> exists d :: d in ds && Defines(d, revision, p)
  {
    var entries := Entries(ds, revision);
    var ps := Sort(entries, PolicyRank);
    EntriesDistinct(ds, revision);
    SortSorted(entries, PolicyRank);
    AnySortIsTheSort(entries, ps);
    SameElements(entries, ps);
    forall i, j | 0 <= i < j < |ps|
      ensures ps[i].priority > ps[j].priority || (ps[i].priority == ps[j].priority && StringLess(ps[i].id, ps[j].id))
    {
      assert Before(PolicyRank(ps[i]), PolicyRank(ps[j]));
    }
    forall p ensures p in ps <==> exists d :: d in ds && Defines(d, revision, p) {
      EntriesElements(ds, revision, p);
      forall d | d in ds ensures Defines(d, revision, p) <==> p == Entry(d, revision) {
        DefinesEntry(ds, d, revision, p);
      }
    }
  }

  lemma DefinesEntry(ds: seq<Definition>, d: Definition, revision: nat, p: Policy)
    requires DefinitionsFine(ds) && d in ds
    ensures Defines(d, revision, p) <==> p == Entry(d, revision)
  {
    var i :| 0 <= i < |ds| && ds[i] == d;
    assert DefinitionFault(ds, i) == None;
  }

  /** Under every other algorithm the policies stay in the order of definition. */
  lemma OtherOrdersMean(revision: nat, algorithm: Algorithm, ds: seq<Definition>)
    requires DefinitionsFine(ds) && algorithm != PriorityOrder
    ensures var snapshot := SnapshotOf(revision, algorithm, ds);
            && snapshot.revision == revision && snapshot.algorithm == algorithm && |snapshot.policies| == |ds|
            && forall i :: 0 <= i < |ds| ==> Defines(ds[i], revision, snapshot.policies[i])
  {
    forall i | 0 <= i < |ds| ensures Defines(ds[i], revision, Entries(ds, revision)[i]) {
      DefinesEntry(ds, ds[i], revision, Entries(ds, revision)[i]);
    }
  }

  /** NewSnapshot accepts exactly these definitions. */
  lemma AcceptsIff(ds: seq<Definition>)
    ensures DefinitionsFine(ds) <==>
            && (forall i, j :: 0 <= i < j < |ds| ==> ds[i].id != ds[j].id)
            && (forall d :: d in ds ==> d.id != "" && d.evaluator.Some?)
            && (forall d :: d in ds ==> d.activeFrom == 0 || d.activeUntil == 0 || d.activeFrom < d.activeUntil)
  {
    NoDefinitionFault(ds);
    if DistinctRanks(ds, DefinitionRank) {
      forall i, j | 0 <= i < j < |ds| ensures ds[i].id != ds[j].id {
        assert DefinitionRank(ds[i]) != DefinitionRank(ds[j]);
      }
    }
  }

  /** Which fault of a definition is reported. */
  lemma DefinitionErrors(ds: seq<Definition>, i: nat)
    requires i < |ds|
    ensures var d, fault := ds[i], DefinitionFault(ds, i);
            var complete, repeated := d.id != "" && d.evaluator.Some?, exists j :: 0 <= j < i && ds[j].id == d.id;
            var sound := d.activeFrom == 0 || d.activeUntil == 0 || d.activeFrom < d.activeUntil;
            && (fault == Some(InvalidPolicy) <==> !complete)
            && (fault == Some(DuplicatePolicy) <==> complete && repeated)
            && (fault == Some(InvalidActivationWindow) <==> complete && !repeated && !sound)
  {
  }

  // ---- The result of one policy ----

  /** The instant lies in the half-open window; a zero bound is open. */
  predicate InWindow(p: Policy, at: int) {
    !(p.activeFrom != 0 && at < p.activeFrom) && !(p.activeUntil != 0 && p.activeUntil <= at)
  }

  /** The policy is in its window and its evaluator returned this decision. */
  predicate Answers(p: Policy, request: Request, at: int, behave: Behaviour, d: Decision) {
    InWindow(p, at) && behave(p.evaluator, request) == Returned(d)
  }

  /** In its window a policy contributes its evaluator's result under its identifier; outside it contributes nothing. */
  lemma StepMeans(p: Policy, request: Request, at: int, behave: Behaviour)
    ensures var s := StepOf(p, request, at, behave);
            && s.id == p.id
            && (InWindow(p, at) ==> s.result == behave(p.evaluator, request))
            && (!InWindow(p, at) ==>
                  !Broken(s) && DecisionOf(s).outcome == NotApplicable && DecisionOf(s).reason == "policy-inactive")
  {
  }

  /** The evaluator failed, or its outcome is none of the three. */
  predicate Breaks(p: Policy, request: Request, at: int, behave: Behaviour) {
    InWindow(p, at) &&
    match behave(p.evaluator, request)
    case Failed => true
    case Returned(d) => d.outcome !in {NotApplicable, Allow, Deny}
  }

  lemma BreaksMeans(p: Policy, request: Request, at: int, behave: Behaviour)
    ensures Broken(StepOf(p, request, at, behave)) <==> Breaks(p, request, at, behave)
  {
    StepMeans(p, request, at, behave);
  }

  /** The policy allows or denies the request. */
  predicate Applies(p: Policy, request: Request, at: int, behave: Behaviour) {
    InWindow(p, at) &&
    match behave(p.evaluator, request)
    case Failed => false
    case Returned(d) => d.outcome == Allow || d.outcome == Deny
  }

  // ---- Rulings ----

  predicate Complete(request: Request) {
    && request.subject.kind != "" && request.subject.id != "" && request.action != "" && request.resource.kind != ""
    && (forall g :: g in request.subject.groups ==> g != "")
  }

  /** An incomplete request is denied as such, and every ruling carries the snapshot's revision. */
  lemma RuleAdmits(snapshot: Snapshot, limits: Limits, request: Request, clock: int, behave: Behaviour)
    ensures !Complete(request) ==>
            Rule(snapshot, limits, request, clock, behave) ==
            Ruling(Decision(Deny, "invalid-request", [], false, snapshot.revision, [], false), Some(InvalidRequest))
    ensures Complete(request) ==> Rule(snapshot, limits, request, clock, behave).error != Some(InvalidRequest)
    ensures Rule(snapshot, limits, request, clock, behave).decision.revision == snapshot.revision
  {
    assert ValidRequest(request) <==> Complete(request);
  }

  /** A complete request is ruled on at its own time, or at the clock's when it states none. */
  lemma RuleTime(snapshot: Snapshot, limits: Limits, request: Request, clock: int, behave: Behaviour)
    requires Complete(request)
    ensures request.environment.time != 0 ==>
            Rule(snapshot, limits, request, clock, behave) ==
            RulingOver(snapshot, limits, Steps(snapshot.policies, request, request.environment.time, behave))
    ensures request.environment.time == 0 ==>
            Rule(snapshot, limits, request, clock, behave) ==
            RulingOver(snapshot, limits, Steps(snapshot.policies, request, clock, behave))
  {
  }

  /** The first policy that breaks or decides is the last one looked at: a broken one denies with an error. */
  lemma {:induction false} FirstStopRules(snapshot: Snapshot, limits: Limits, steps: seq<Step>, k: nat)
    requires k < |steps| && Stops(snapshot.algorithm, steps[k])
    requires forall j :: 0 <= j < k ==> !Stops(snapshot.algorithm, steps[j])
    requires !snapshot.algorithm.UnknownAlgorithm?
    ensures var r, d := RulingOver(snapshot, limits, steps), DecisionOf(steps[k]);
            if Broken(steps[k]) then
              && r.decision == Decision(Deny, "evaluation-error", [], false, snapshot.revision, [], false)
              && r.error == Some(Failure(steps[k]))
            else
              r.error == None && r.decision.outcome == d.outcome && r.decision.reason == d.reason
  {
    ReachedHere(snapshot.algorithm, steps, k);
    if !Broken(steps[k]) {
      var ds := DecisionsOf(steps[..k + 1]);
      assert ds[k] == DecisionOf(steps[k]);
      assert forall j :: 0 <= j < k ==> ds[j] == DecisionOf(steps[j]) && !Broken(steps[j]);
      assert FirstDecisive(snapshot.algorithm, ds) == k;
    }
  }

  /** An unknown algorithm denies with an error, whatever the policies say. */
  lemma UnknownAlgorithmDenies(snapshot: Snapshot, limits: Limits, steps: seq<Step>)
    requires snapshot.algorithm.UnknownAlgorithm?
    ensures var r := RulingOver(snapshot, limits, steps);
            && r.decision == Decision(Deny, "evaluation-error", [], false, snapshot.revision, [], false)
            && r.error.Some? && (NoneBroken(steps) ==> r.error == Some(InvalidCombiningAlgorithm))
  {
  }

  /** What a failure is called. */
  lemma FailureMeans(s: Step)
    ensures s.result.Failed? ==> Failure(s) == PolicyEvaluation(s.id)
    ensures s.result.Returned? ==> Failure(s) == InvalidOutcome
  {
  }

  // ---- Priority order ----

  ghost predicate NoneBreaks(snapshot: Snapshot, request: Request, at: int, behave: Behaviour) {
    forall p :: p in snapshot.policies ==> !Breaks(p, request, at, behave)
  }

  /** `p` applies, and no policy of higher priority does, nor one of equal priority with a smaller identifier. */
  ghost predicate Leads(snapshot: Snapshot, p: Policy, request: Request, at: int, behave: Behaviour) {
    && p in snapshot.policies && Applies(p, request, at, behave)
    && forall q :: q in snapshot.policies && Applies(q, request, at, behave) && q != p ==>
         p.priority > q.priority || (p.priority == q.priority && StringLess(p.id, q.id))
  }

  /** The applicable policy of highest priority rules. */
  lemma {:induction false} HighestPriorityRules(
    snapshot: Snapshot, limits: Limits, request: Request, at: int, behave: Behaviour, p: Policy, d: Decision)
    requires snapshot.algorithm == PriorityOrder && Ranked(snapshot.policies)
    requires NoneBreaks(snapshot, request, at, behave) && Leads(snapshot, p, request, at, behave)
    requires Answers(p, request, at, behave, d)
    ensures var r := RulingOver(snapshot, limits, Steps(snapshot.policies, request, at, behave));
            r.error == None && r.decision.outcome == d.outcome && r.decision.reason == d.reason
  {
    var ps := snapshot.policies;
    var steps := Steps(ps, request, at, behave);
    var k :| 0 <= k < |ps| && ps[k] == p;
    forall j | 0 <= j < |ps| ensures Stops(PriorityOrder, steps[j]) <==> Applies(ps[j], request, at, behave) {
      assert ps[j] in ps;
      StopsMeans(ps[j], request, at, behave);
    }
    forall j | 0 <= j < k ensures !Stops(PriorityOrder, steps[j]) {
      EarlierDoesNotApply(snapshot, p, request, at, behave, j, k);
    }
    BreaksMeans(p, request, at, behave);
    FirstStopRules(snapshot, limits, steps, k);
  }

  /** The same from the definitions: NewSnapshot ranks them, and the leading one rules at the request's time. */
  lemma {:induction false} PriorityOrderRules(
    revision: nat, ds: seq<Definition>, limits: Limits, request: Request, clock: int, behave: Behaviour, p: Policy,
    d: Decision)
    requires DefinitionsFine(ds) && Complete(request)
    requires var at := if request.environment.time == 0 then clock else request.environment.time;
             var snapshot := SnapshotOf(revision, PriorityOrder, ds);
             && NoneBreaks(snapshot, request, at, behave) && Leads(snapshot, p, request, at, behave)
             && Answers(p, request, at, behave, d)
    ensures var r := Rule(SnapshotOf(revision, PriorityOrder, ds), limits, request, clock, behave);
            r.error == None && r.decision.outcome == d.outcome && r.decision.reason == d.reason
  {
    var at := if request.environment.time == 0 then clock else request.environment.time;
    var snapshot := SnapshotOf(revision, PriorityOrder, ds);
    PriorityOrderMeans(revision, ds);
    HighestPriorityRules(snapshot, limits, request, at, behave, p, d);
    RuleTime(snapshot, limits, request, clock, behave);
  }

  lemma StopsMeans(p: Policy, request: Request, at: int, behave: Behaviour)
    requires !Breaks(p, request, at, behave)
    ensures Stops(PriorityOrder, StepOf(p, request, at, behave)) <==> Applies(p, request, at, behave)
  {
    BreaksMeans(p, request, at, behave);
  }

  lemma EarlierDoesNotApply(
    snapshot: Snapshot, p: Policy, request: Request, at: int, behave: Behaviour, j: nat, k: nat)
    requires Ranked(snapshot.policies) && Leads(snapshot, p, request, at, behave)
    requires j < k < |snapshot.policies| && snapshot.policies[k] == p
    ensures !Applies(snapshot.policies[j], request, at, behave)
  {
    var q := snapshot.policies[j];
    assert q in snapshot.policies;
    StringTrichotomy(p.id, q.id);
  }

  /** With no applicable policy, and none broken, the default is to deny, under every algorithm. */
  lemma {:induction false} NothingAppliesDenies(
    snapshot: Snapshot, limits: Limits, request: Request, at: int, behave: Behaviour)
    requires !snapshot.algorithm.UnknownAlgorithm? && NoneBreaks(snapshot, request, at, behave)
    requires forall p :: p in snapshot.policies ==> !Applies(p, request, at, behave)
    ensures var r := RulingOver(snapshot, limits, Steps(snapshot.policies, request, at, behave));
            r.error == None && r.decision.outcome == Deny && r.decision.reason == "default-deny"
  {
    var ps := snapshot.policies;
    var steps := Steps(ps, request, at, behave);
    forall i | 0 <= i < |steps| ensures !Broken(steps[i]) && DecisionsOf(steps)[i].outcome == NotApplicable {
      assert ps[i] in ps;
      BreaksMeans(ps[i], request, at, behave);
    }
    EarlyExitAgrees(snapshot, limits, steps);
    LastApplicableOutcome(DecisionsOf(steps));
  }

  // ---- Windows ----

  lemma {:induction false} LastApplicableInsert(a: seq<Decision>, x: Decision, b: seq<Decision>)
    requires x.outcome == NotApplicable
    ensures LastApplicable(a + [x] + b) == LastApplicable(a + b)
  {
    if b == [] {
      assert a + [x] + b == a + [x] && a + b == a;
      assert (a + [x])[..|a|] == a;
    } else {
      var init, last := b[..|b| - 1], b[|b| - 1];
      assert (a + [x] + b)[..|a| + |b|] == a + [x] + init && (a + b)[..|a| + |b| - 1] == a + init;
      assert (a + [x] + b)[|a| + |b|] == last && (a + b)[|a| + |b| - 1] == last;
      LastApplicableInsert(a, x, init);
    }
  }

  /** An idle step cannot stop the loop, so the first stop is the same step. */
  lemma {:induction false} IdleBeforeStop(
    snapshot: Snapshot, limits: Limits, a: seq<Step>, x: Step, b: seq<Step>, k: nat)
    requires !snapshot.algorithm.UnknownAlgorithm? && !Stops(snapshot.algorithm, x)
    requires k < |a + b| && Stops(snapshot.algorithm, (a + b)[k])
    requires forall j :: 0 <= j < k ==> !Stops(snapshot.algorithm, (a + b)[j])
    ensures SameRuling(RulingOver(snapshot, limits, a + [x] + b), RulingOver(snapshot, limits, a + b))
  {
    var algorithm, more, less := snapshot.algorithm, a + [x] + b, a + b;
    var l := if k < |a| then k else k + 1;
    assert more[l] == less[k];
    forall j | 0 <= j < l ensures !Stops(algorithm, more[j]) {
      if j != |a| { assert more[j] == less[if j < |a| then j else j - 1]; }
    }
    FirstStopRules(snapshot, limits, more, l);
    FirstStopRules(snapshot, limits, less, k);
  }

  predicate SameRuling(r: Ruling, s: Ruling) {
    r.error == s.error && r.decision.outcome == s.decision.outcome && r.decision.reason == s.decision.reason
  }

  lemma {:induction false} IdleThroughout(snapshot: Snapshot, limits: Limits, a: seq<Step>, x: Step, b: seq<Step>)
    requires !snapshot.algorithm.UnknownAlgorithm? && !Broken(x) && DecisionOf(x).outcome == NotApplicable
    requires forall j :: 0 <= j < |a + b| ==> !Stops(snapshot.algorithm, (a + b)[j])
    ensures SameRuling(RulingOver(snapshot, limits, a + [x] + b), RulingOver(snapshot, limits, a + b))
  {
    IdleNeverStops(snapshot.algorithm, a, x, b);
    NoStopRules(snapshot, limits, a + [x] + b);
    NoStopRules(snapshot, limits, a + b);
    DecisionsAppend(a, [x]);
    DecisionsAppend(a + [x], b);
    DecisionsAppend(a, b);
    assert DecisionsOf([x]) == [DecisionOf(x)];
    LastApplicableInsert(DecisionsOf(a), DecisionOf(x), DecisionsOf(b));
  }

  lemma IdleNeverStops(algorithm: Algorithm, a: seq<Step>, x: Step, b: seq<Step>)
    requires !Broken(x) && DecisionOf(x).outcome == NotApplicable
    requires forall j :: 0 <= j < |a + b| ==> !Stops(algorithm, (a + b)[j])
    ensures forall j :: 0 <= j < |a + [x] + b| ==> !Stops(algorithm, (a + [x] + b)[j])
  {
    var more, less := a + [x] + b, a + b;
    forall j | 0 <= j < |more| ensures !Stops(algorithm, more[j]) {
      if j != |a| { assert more[j] == less[if j < |a| then j else j - 1]; }
    }
  }

  lemma DecisionsAppend(a: seq<Step>, b: seq<Step>)
    ensures DecisionsOf(a + b) == DecisionsOf(a) + DecisionsOf(b)
  {
  }

  lemma {:induction false} FirstStop(algorithm: Algorithm, steps: seq<Step>) returns (k: nat)
    requires exists i :: 0 <= i < |steps| && Stops(algorithm, steps[i])
    ensures k < |steps| && Stops(algorithm, steps[k]) && forall j :: 0 <= j < k ==> !Stops(algorithm, steps[j])
  {
    if Stops(algorithm, steps[0]) {
      k := 0;
    } else {
      var i :| 0 <= i < |steps| && Stops(algorithm, steps[i]);
      assert steps[1..][i - 1] == steps[i];
      var l := FirstStop(algorithm, steps[1..]);
      k := l + 1;
      assert forall j :: 0 < j < k ==> steps[j] == steps[1..][j - 1];
    }
  }

  lemma {:induction false} NoStopRules(snapshot: Snapshot, limits: Limits, steps: seq<Step>)
    requires !snapshot.algorithm.UnknownAlgorithm?
    requires forall j :: 0 <= j < |steps| ==> !Stops(snapshot.algorithm, steps[j])
    ensures var r, last := RulingOver(snapshot, limits, steps), LastApplicable(DecisionsOf(steps));
            && r.error == None
            && r.decision.outcome == (if last.outcome == NotApplicable then Deny else last.outcome)
            && r.decision.reason == (if last.outcome == NotApplicable then "default-deny" else last.reason)
  {
    EarlyExitAgrees(snapshot, limits, steps);
    var ds := DecisionsOf(steps);
    forall i | 0 <= i < |ds| ensures !IsDecisive(snapshot.algorithm, ds[i].outcome) {
      assert !Stops(snapshot.algorithm, steps[i]);
    }
  }

  /** A policy outside its window changes no outcome, reason or error, wherever it stands and whatever else fails. */
  lemma {:induction false} OutsideContributesNothing(
    snapshot: Snapshot, a: seq<Policy>, p: Policy, b: seq<Policy>, limits: Limits, request: Request, at: int,
    behave: Behaviour)
    requires !snapshot.algorithm.UnknownAlgorithm? && !InWindow(p, at)
    ensures SameRuling(RulingOver(snapshot, limits, Steps(a + [p] + b, request, at, behave)),
                       RulingOver(snapshot, limits, Steps(a + b, request, at, behave)))
  {
    var x := StepOf(p, request, at, behave);
    StepMeans(p, request, at, behave);
    var s, t := Steps(a, request, at, behave), Steps(b, request, at, behave);
    assert Steps(a + [p] + b, request, at, behave) == s + [x] + t;
    assert Steps(a + b, request, at, behave) == s + t;
    if exists i :: 0 <= i < |s + t| && Stops(snapshot.algorithm, (s + t)[i]) {
      var k := FirstStop(snapshot.algorithm, s + t);
      IdleBeforeStop(snapshot, limits, s, x, t, k);
    } else {
      IdleThroughout(snapshot, limits, s, x, t);
    }
  }

  // ---- Diagnostics ----

  /** The trace names the policies evaluated, in order and up to the limit. */
  lemma {:induction false} TraceMeans(snapshot: Snapshot, limits: Limits, steps: seq<Step>)
    requires RulingOver(snapshot, limits, steps).error == None
    ensures var d, n := RulingOver(snapshot, limits, steps).decision, Reached(snapshot.algorithm, steps);
            && |d.trace| == (if n <= limits.maxTraceSize then n else limits.maxTraceSize)
            && (d.traceTruncated <==> n > limits.maxTraceSize)
            && forall i :: 0 <= i < |d.trace| ==>
                 && d.trace[i].policyID == steps[i].id && steps[i].result.Returned?
                 && d.trace[i].outcome == steps[i].result.decision.outcome
                 && d.trace[i].reason == steps[i].result.decision.reason
  {
    var n := Reached(snapshot.algorithm, steps);
    forall i | 0 <= i < n ensures !Broken(steps[i]) {
      if i < n - 1 { assert !Stops(snapshot.algorithm, steps[i]); }
    }
  }

  /** The identifiers matched so far are those of the policies that apply: their own matches, or else themselves. */
  lemma {:induction false} MatchedMeans(steps: seq<Step>, id: string)
    ensures id in AllMatched(steps) <==>
            exists s :: s in steps && s.result.Returned? && s.result.decision.outcome != NotApplicable &&
                        (id in s.result.decision.matched || (s.result.decision.matched == [] && id == s.id))
  {
    if steps != [] {
      var init, last := steps[..|steps| - 1], steps[|steps| - 1];
      assert steps == init + [last];
      MatchedMeans(init, id);
    }
  }

  /** The matched identifiers are cut at the limit, and the flag says whether that, or an evaluator, dropped any. */
  lemma {:induction false} MatchedCut(snapshot: Snapshot, limits: Limits, steps: seq<Step>)
    requires RulingOver(snapshot, limits, steps).error == None
    ensures var d, seen := RulingOver(snapshot, limits, steps).decision, steps[..Reached(snapshot.algorithm, steps)];
            var all := AllMatched(seen);
            && d.matched <= all
            && |d.matched| == (if |all| <= limits.maxMatchedPolicyIDs then |all| else limits.maxMatchedPolicyIDs)
            && (d.matchedTruncated <==>
                  || |all| > limits.maxMatchedPolicyIDs
                  || exists s :: s in seen && s.result.Returned? && s.result.decision.outcome != NotApplicable &&
                                 s.result.decision.matchedTruncated)
  {
    var seen := steps[..Reached(snapshot.algorithm, steps)];
    assert forall s :: UpstreamTruncated(s) <==>
      s.result.Returned? && s.result.decision.outcome != NotApplicable && s.result.decision.matchedTruncated;
  }

  // ---- Replacement ----

  /** A replacement is refused by the first of its checks that fails. */
  lemma RefusalMeans(current: Snapshot, next: Snapshot, expected: nat, limits: Limits)
    ensures Refusal(current, None, expected, limits) == Some(NilSnapshot)
    ensures var refusal := Refusal(current, Some(next), expected, limits);
            var fits, expectedNow := |next.policies| <= limits.maxPolicies, current.revision == expected;
            && (refusal == Some(PolicyLimitExceeded) <==> !fits)
            && (refusal == Some(RevisionConflict) <==> fits && !expectedNow)
            && (refusal == Some(RevisionNotMonotonic) <==> fits && expectedNow && next.revision <= expected)
            && (refusal == None <==> fits && expectedNow && next.revision > expected)
  {
  }
}
