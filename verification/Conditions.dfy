// ABAC expressions (abac/abac.go, abac/conditions.go): a budget-free meaning, the
// number of nodes an evaluation visits, and the budgeted evaluator with its shared
// mutable cost counter, proved to be the first restricted by the second.
module Conditions {
  import opened Attributes
  import opened Decisions

  /** One byte in the source: four maps and the rest. */
  datatype Source = SubjectSource | ResourceSource | RequestSource | EnvironmentSource | OtherSource(code: nat)

  datatype Reference = Reference(source: Source, name: string)

  /** An address prefix is the set of addresses it contains. */
  datatype Prefix = Prefix(valid: bool, members: set<string>)

  datatype Operator = HasPrefix | HasSuffix | Contains

  /** `Absent` is Go's nil Condition. */
  datatype Condition =
    | Absent
    | Equals(ref: Reference, want: Value)
    | Exists(ref: Reference)
    | IsNull(ref: Reference)
    | All(children: seq<Condition>)
    | Any(children: seq<Condition>)
    | Not(child: Condition)
    | Compares(ref: Reference, want: Value, greater: bool)
    | In(ref: Reference, values: seq<Value>)
    | SetContains(ref: Reference, text: string)
    | StringTest(ref: Reference, text: string, op: Operator)
    | AddressIn(ref: Reference, prefix: Prefix)

  datatype Status = StatusNoMatch | StatusMatch | StatusMissing | StatusNull | StatusTypeMismatch

  predicate Diagnostic(s: Status) { s != StatusMatch && s != StatusNoMatch }

  // ---- Facts ----

  function FactsOf(request: Request, source: Source): Facts {
    match source
    case SubjectSource => request.subject.attributes
    case ResourceSource => request.resource.attributes
    case RequestSource => request.attributes
    case EnvironmentSource => request.environment.attributes
    case OtherSource(_) => map[]
  }

  /** The referenced value; absent and explicitly missing facts look the same. */
  function Lookup(request: Request, ref: Reference): Value {
    var facts := FactsOf(request, ref.source);
    if ref.name in facts then facts[ref.name] else Missing
  }

  predicate TooLarge(v: Value, maxSetSize: nat) { v.Strings? && |v.items| > maxSetSize }

  // ---- Meaning without a budget ----

  /** A status, a collection over the admitted size, or a nil dereference. */
  datatype Meaning = Done(status: Status) | Oversize | Stuck

  function Truth(b: bool): Meaning { Done(if b then StatusMatch else StatusNoMatch) }

  predicate IsSuffix(s: string, t: string) { |s| <= |t| && t[|t| - |s|..] == s }

  predicate IsSubstring(s: string, t: string) {
    exists i :: 0 <= i <= |t| && s <= t[i..]
  }

  predicate StringHolds(op: Operator, text: string, value: string) {
    match op
    case HasPrefix => text <= value
    case HasSuffix => IsSuffix(text, value)
    case Contains => IsSubstring(text, value)
  }

  predicate Ordered(got: Value, want: Value, greater: bool) {
    var c := Compare(got, want);
    c.Ordered? && if greater then c.sign > 0 else c.sign < 0
  }

  /** What a leaf says about a present, non-null value of admitted size. */
  function PresentMeaning(c: Condition, got: Value): Meaning {
    match c
    case Compares(_, want, greater) =>
      if KindOf(got) != KindOf(want) then Done(StatusTypeMismatch) else Truth(Ordered(got, want, greater))
    case In(_, values) =>
      if values == [] then Stuck
      else if KindOf(got) != KindOf(values[0]) then Done(StatusTypeMismatch)
      else Truth(exists v :: v in values && Equal(got, v))
    case SetContains(_, text) =>
      if got.Strings? then Truth(text in got.items) else Done(StatusTypeMismatch)
    case StringTest(_, text, op) =>
      if got.Text? then Truth(StringHolds(op, text, got.text)) else Done(StatusTypeMismatch)
    case AddressIn(_, prefix) =>
      if got.Address? then Truth(got.address in prefix.members) else Done(StatusTypeMismatch)
    case Equals(_, want) =>
      if KindOf(got) != KindOf(want) then Done(StatusTypeMismatch) else Truth(Equal(got, want))
    case _ => Stuck
  }

  predicate IsLeaf(c: Condition) { !c.Absent? && !c.All? && !c.Any? && !c.Not? }

  function LeafMeaning(c: Condition, request: Request, maxSetSize: nat): Meaning
    requires IsLeaf(c)
  {
    var got := Lookup(request, c.ref);
    if c.Exists? then Truth(!got.Missing?)
    else if c.IsNull? then Truth(got.Null?)
    else if got.Missing? then Done(StatusMissing)
    else if TooLarge(got, maxSetSize) then Oversize
    else if got.Null? then if c.Equals? && c.want.Null? then Done(StatusMatch) else Done(StatusNull)
    else PresentMeaning(c, got)
  }

  function Negate(m: Meaning): Meaning {
    match m
    case Done(StatusMatch) => Done(StatusNoMatch)
    case Done(StatusNoMatch) => Done(StatusMatch)
    case _ => m
  }

  /** All: the first child that is not a match speaks for the conjunction. */
  function AllMeaning(cs: seq<Condition>, request: Request, maxSetSize: nat): Meaning
    decreases cs, 0
  {
    if cs == [] then Done(StatusMatch)
    else
      var head := MeaningOf(cs[0], request, maxSetSize);
      if head == Done(StatusMatch) then AllMeaning(cs[1..], request, maxSetSize) else head
  }

  /** Any: a match or failure ends it; otherwise the first diagnostic status remains. */
  function AnyMeaning(cs: seq<Condition>, request: Request, maxSetSize: nat): Meaning
    decreases cs, 0
  {
    if cs == [] then Done(StatusNoMatch)
    else
      var head := MeaningOf(cs[0], request, maxSetSize);
      if !head.Done? || head.status == StatusMatch then head
      else
        var rest := AnyMeaning(cs[1..], request, maxSetSize);
        if !rest.Done? || rest.status == StatusMatch || head.status == StatusNoMatch then rest else head
  }

  function MeaningOf(c: Condition, request: Request, maxSetSize: nat): Meaning
    decreases c, 1
  {
    match c
    case Absent => Stuck
    case All(cs) => AllMeaning(cs, request, maxSetSize)
    case Any(cs) => AnyMeaning(cs, request, maxSetSize)
    case Not(child) => Negate(MeaningOf(child, request, maxSetSize))
    case _ => LeafMeaning(c, request, maxSetSize)
  }

  /** A conjunction matches exactly when every child does. */
  lemma {:induction false} AllMatches(cs: seq<Condition>, request: Request, maxSetSize: nat)
    ensures AllMeaning(cs, request, maxSetSize) == Done(StatusMatch) <==>
            forall i :: 0 <= i < |cs| ==> MeaningOf(cs[i], request, maxSetSize) == Done(StatusMatch)
  {
    if cs != [] {
      AllMatches(cs[1..], request, maxSetSize);
      assert forall i :: 1 <= i < |cs| ==> cs[i] == cs[1..][i - 1];
    }
  }

  ghost predicate MatchesAt(cs: seq<Condition>, i: nat, request: Request, maxSetSize: nat)
    requires i < |cs|
  {
    && MeaningOf(cs[i], request, maxSetSize) == Done(StatusMatch)
    && (forall j :: 0 <= j < i ==> MeaningOf(cs[j], request, maxSetSize).Done?)
  }

  /** A disjunction matches exactly when some child does and nothing before it fails. */
  lemma {:induction false} AnyMatches(cs: seq<Condition>, request: Request, maxSetSize: nat)
    ensures AnyMeaning(cs, request, maxSetSize) == Done(StatusMatch) <==>
            exists i :: 0 <= i < |cs| && MatchesAt(cs, i, request, maxSetSize)
  {
    if cs != [] {
      var rest := cs[1..];
      AnyMatches(rest, request, maxSetSize);
      if MeaningOf(cs[0], request, maxSetSize) == Done(StatusMatch) {
        assert MatchesAt(cs, 0, request, maxSetSize);
      } else if MeaningOf(cs[0], request, maxSetSize).Done? {
        forall i | 1 <= i < |cs|
          ensures MatchesAt(cs, i, request, maxSetSize) <==> MatchesAt(rest, i - 1, request, maxSetSize)
        {
          assert forall j :: 1 <= j <= i ==> cs[j] == rest[j - 1];
          if MatchesAt(cs, i, request, maxSetSize) {
            forall j | 0 <= j < i - 1 ensures MeaningOf(rest[j], request, maxSetSize).Done? {
              assert rest[j] == cs[j + 1];
            }
          }
        }
        if exists i :: 0 <= i < |rest| && MatchesAt(rest, i, request, maxSetSize) {
          var i :| 0 <= i < |rest| && MatchesAt(rest, i, request, maxSetSize);
          assert MatchesAt(cs, i + 1, request, maxSetSize);
        }
      }
    }
  }

  // ---- Nodes visited ----

  function AllVisits(cs: seq<Condition>, request: Request, maxSetSize: nat): nat
    decreases cs, 0
  {
    if cs == [] then 0
    else
      Visits(cs[0], request, maxSetSize) +
      if MeaningOf(cs[0], request, maxSetSize) == Done(StatusMatch) then AllVisits(cs[1..], request, maxSetSize) else 0
  }

  function AnyVisits(cs: seq<Condition>, request: Request, maxSetSize: nat): nat
    decreases cs, 0
  {
    if cs == [] then 0
    else
      var head := MeaningOf(cs[0], request, maxSetSize);
      Visits(cs[0], request, maxSetSize) +
      if head.Done? && head.status != StatusMatch then AnyVisits(cs[1..], request, maxSetSize) else 0
  }

  /** How many nodes short-circuit evaluation enters. */
  function Visits(c: Condition, request: Request, maxSetSize: nat): nat
    decreases c, 1
  {
    match c
    case Absent => 0
    case All(cs) => 1 + AllVisits(cs, request, maxSetSize)
    case Any(cs) => 1 + AnyVisits(cs, request, maxSetSize)
    case Not(child) => 1 + Visits(child, request, maxSetSize)
    case _ => 1
  }

  // ---- Per-node validity ----

  predicate ValidReference(ref: Reference) { !ref.source.OtherSource? && ref.name != "" }

  predicate ValidChildren(cs: seq<Condition>) { cs != [] && Absent !in cs }

  /** The `validate` methods. */
  predicate ValidNode(c: Condition) {
    match c
    case Absent => false
    case Equals(ref, want) => ValidReference(ref) && !want.Missing?
    case Exists(ref) => ValidReference(ref)
    case IsNull(ref) => ValidReference(ref)
    case All(cs) => ValidChildren(cs)
    case Any(cs) => ValidChildren(cs)
    case Not(child) => !child.Absent?
    case Compares(ref, want, _) =>
      ValidReference(ref) && KindOf(want) in {TextKind, IntegerKind, FloatKind, InstantKind}
    case In(ref, values) =>
      && ValidReference(ref) && values != []
      && KindOf(values[0]) !in {MissingKind, NullKind}
      && (forall v :: v in values ==> KindOf(v) == KindOf(values[0]))
    case SetContains(ref, _) => ValidReference(ref)
    case StringTest(ref, _, _) => ValidReference(ref)
    case AddressIn(ref, prefix) => prefix.valid && ValidReference(ref)
  }

  predicate ValidTrees(cs: seq<Condition>)
    decreases cs, 0
  {
    cs == [] || (ValidTree(cs[0]) && ValidTrees(cs[1..]))
  }

  predicate ValidTree(c: Condition)
    decreases c, 1
  {
    ValidNode(c) &&
    match c
    case All(cs) => ValidTrees(cs)
    case Any(cs) => ValidTrees(cs)
    case Not(child) => ValidTree(child)
    case _ => true
  }

  /** Validated conditions never dereference nil. */
  lemma {:induction false} ValidNeverStuck(c: Condition, request: Request, maxSetSize: nat)
    requires ValidTree(c)
    ensures MeaningOf(c, request, maxSetSize) != Stuck
    decreases c, 1
  {
    match c
    case All(cs) => ValidListNeverStuck(cs, request, maxSetSize);
    case Any(cs) => ValidListNeverStuck(cs, request, maxSetSize);
    case Not(child) => ValidNeverStuck(child, request, maxSetSize);
    case _ =>
  }

  lemma {:induction false} ValidListNeverStuck(cs: seq<Condition>, request: Request, maxSetSize: nat)
    requires ValidTrees(cs)
    ensures AllMeaning(cs, request, maxSetSize) != Stuck
    ensures AnyMeaning(cs, request, maxSetSize) != Stuck
    decreases cs, 0
  {
    if cs != [] {
      ValidNeverStuck(cs[0], request, maxSetSize);
      ValidListNeverStuck(cs[1..], request, maxSetSize);
    }
  }

  // ---- Missing facts ----

  /** `less` knows no more than `more`: some attributes were deleted, none changed. */
  ghost predicate Forgets(less: Request, more: Request) {
    forall source, name :: name in FactsOf(less, source) ==>
      name in FactsOf(more, source) && FactsOf(less, source)[name] == FactsOf(more, source)[name]
  }

  /** An exists or is-null leaf about a source that can hold facts. */
  predicate PresenceTest(c: Condition) { (c.Exists? || c.IsNull?) && !c.ref.source.OtherSource? }

  predicate PresenceAgreesIn(cs: seq<Condition>, less: Request, more: Request)
    decreases cs, 0
  {
    cs == [] || (PresenceAgrees(cs[0], less, more) && PresenceAgreesIn(cs[1..], less, more))
  }

  /** Every presence test of the tree gives the same answer on both requests. */
  predicate PresenceAgrees(c: Condition, less: Request, more: Request)
    decreases c, 1
  {
    match c
    case Exists(_) => LeafMeaning(c, less, 0) == LeafMeaning(c, more, 0)
    case IsNull(_) => LeafMeaning(c, less, 0) == LeafMeaning(c, more, 0)
    case All(cs) => PresenceAgreesIn(cs, less, more)
    case Any(cs) => PresenceAgreesIn(cs, less, more)
    case Not(child) => PresenceAgrees(child, less, more)
    case _ => true
  }

  /** The same status as before, or a diagnostic one. */
  predicate Weakened(after: Meaning, before: Meaning) {
    after.Done? && before.Done? && (after == before || Diagnostic(after.status))
  }

  lemma LeafWeakens(c: Condition, less: Request, more: Request, maxSetSize: nat)
    requires IsLeaf(c) && PresenceAgrees(c, less, more) && Forgets(less, more)
    ensures LeafMeaning(c, less, maxSetSize) == LeafMeaning(c, more, maxSetSize)
         || LeafMeaning(c, less, maxSetSize) == Done(StatusMissing)
  {
    var source, name := c.ref.source, c.ref.name;
    assert name in FactsOf(less, source) ==> FactsOf(less, source)[name] == FactsOf(more, source)[name];
  }

  /** As long as its presence tests agree, deleting facts can only make a condition undecided, never flip it. */
  lemma {:induction false} MissingFactsNeverFlip(c: Condition, less: Request, more: Request, maxSetSize: nat)
    requires PresenceAgrees(c, less, more) && Forgets(less, more)
    requires MeaningOf(c, less, maxSetSize).Done? && MeaningOf(c, more, maxSetSize).Done?
    ensures Weakened(MeaningOf(c, less, maxSetSize), MeaningOf(c, more, maxSetSize))
    decreases c, 1
  {
    match c
    case All(cs) => MissingFactsAll(cs, less, more, maxSetSize);
    case Any(cs) => MissingFactsAny(cs, less, more, maxSetSize);
    case Not(child) => MissingFactsNeverFlip(child, less, more, maxSetSize);
    case _ => LeafWeakens(c, less, more, maxSetSize);
  }

  lemma {:induction false} MissingFactsAll(cs: seq<Condition>, less: Request, more: Request, maxSetSize: nat)
    requires PresenceAgreesIn(cs, less, more) && Forgets(less, more)
    requires AllMeaning(cs, less, maxSetSize).Done? && AllMeaning(cs, more, maxSetSize).Done?
    ensures Weakened(AllMeaning(cs, less, maxSetSize), AllMeaning(cs, more, maxSetSize))
    decreases cs, 0
  {
    if cs != [] {
      MissingFactsNeverFlip(cs[0], less, more, maxSetSize);
      if MeaningOf(cs[0], less, maxSetSize) == MeaningOf(cs[0], more, maxSetSize) == Done(StatusMatch) {
        MissingFactsAll(cs[1..], less, more, maxSetSize);
      }
    }
  }

  lemma {:induction false} MissingFactsAny(cs: seq<Condition>, less: Request, more: Request, maxSetSize: nat)
    requires PresenceAgreesIn(cs, less, more) && Forgets(less, more)
    requires AnyMeaning(cs, less, maxSetSize).Done? && AnyMeaning(cs, more, maxSetSize).Done?
    ensures Weakened(AnyMeaning(cs, less, maxSetSize), AnyMeaning(cs, more, maxSetSize))
    decreases cs, 0
  {
    if cs != [] {
      MissingFactsNeverFlip(cs[0], less, more, maxSetSize);
      if MeaningOf(cs[0], more, maxSetSize) != Done(StatusMatch) {
        MissingFactsAny(cs[1..], less, more, maxSetSize);
      }
    }
  }

  function Knowing(request: Request, source: Source, facts: Facts): Request {
    match source
    case SubjectSource => request.(subject := request.subject.(attributes := facts))
    case ResourceSource => request.(resource := request.resource.(attributes := facts))
    case RequestSource => request.(attributes := facts)
    case EnvironmentSource => request.(environment := request.environment.(attributes := facts))
    case OtherSource(_) => request
  }

  /** A match on one side and no match on the other. */
  predicate Flipped(a: Meaning, b: Meaning) {
    (a == Done(StatusMatch) && b == Done(StatusNoMatch)) || (a == Done(StatusNoMatch) && b == Done(StatusMatch))
  }

  /** No deletion of facts flips the condition. */
  ghost predicate NeverFlips(c: Condition, maxSetSize: nat) {
    forall less, more :: Forgets(less, more) ==>
      !Flipped(MeaningOf(c, less, maxSetSize), MeaningOf(c, more, maxSetSize))
  }

  /** A presence test flips when its fact, present and null, is deleted. */
  lemma PresenceTestsFlip(c: Condition, request: Request, maxSetSize: nat)
    requires PresenceTest(c)
    ensures var facts := FactsOf(request, c.ref.source);
            var more := Knowing(request, c.ref.source, facts[c.ref.name := Null]);
            var less := Knowing(request, c.ref.source, facts - {c.ref.name});
            && Forgets(less, more)
            && MeaningOf(c, more, maxSetSize) == Done(StatusMatch)
            && MeaningOf(c, less, maxSetSize) == Done(StatusNoMatch)
  {
  }

  predicate LeavesOf(cs: seq<Condition>, allowed: Condition -> bool)
    decreases cs, 0
  {
    cs == [] || (LeavesFrom(cs[0], allowed) && LeavesOf(cs[1..], allowed))
  }

  /** All leaves of the tree are allowed ones. */
  predicate LeavesFrom(c: Condition, allowed: Condition -> bool)
    decreases c, 1
  {
    match c
    case Absent => true
    case All(cs) => LeavesOf(cs, allowed)
    case Any(cs) => LeavesOf(cs, allowed)
    case Not(child) => LeavesFrom(child, allowed)
    case _ => allowed(c)
  }

  ghost predicate NoPresenceIn(allowed: Condition -> bool) { forall c :: PresenceTest(c) ==> !allowed(c) }

  lemma {:induction false} AllowedAgrees(c: Condition, allowed: Condition -> bool, less: Request, more: Request)
    requires NoPresenceIn(allowed) && LeavesFrom(c, allowed)
    ensures PresenceAgrees(c, less, more)
    decreases c, 1
  {
    match c
    case All(cs) => AllowedListAgrees(cs, allowed, less, more);
    case Any(cs) => AllowedListAgrees(cs, allowed, less, more);
    case Not(child) => AllowedAgrees(child, allowed, less, more);
    case Exists(_) => assert !PresenceTest(c);
    case IsNull(_) => assert !PresenceTest(c);
    case _ =>
  }

  lemma {:induction false} AllowedListAgrees(
    cs: seq<Condition>, allowed: Condition -> bool, less: Request, more: Request)
    requires NoPresenceIn(allowed) && LeavesOf(cs, allowed)
    ensures PresenceAgreesIn(cs, less, more)
    decreases cs, 0
  {
    if cs != [] {
      AllowedAgrees(cs[0], allowed, less, more);
      AllowedListAgrees(cs[1..], allowed, less, more);
    }
  }

  ghost predicate TreesNeverFlip(allowed: Condition -> bool, maxSetSize: nat) {
    forall c :: LeavesFrom(c, allowed) ==> NeverFlips(c, maxSetSize)
  }

  /** The exact condition: the trees over a vocabulary of leaves never flip if and
      only if the vocabulary has no presence test. */
  lemma {:induction false} NeverFlipsIff(allowed: Condition -> bool, maxSetSize: nat)
    ensures TreesNeverFlip(allowed, maxSetSize) <==> NoPresenceIn(allowed)
  {
    if NoPresenceIn(allowed) {
      forall c, less, more | LeavesFrom(c, allowed) && Forgets(less, more)
        ensures !Flipped(MeaningOf(c, less, maxSetSize), MeaningOf(c, more, maxSetSize))
      {
        AllowedAgrees(c, allowed, less, more);
        if MeaningOf(c, less, maxSetSize).Done? && MeaningOf(c, more, maxSetSize).Done? {
          MissingFactsNeverFlip(c, less, more, maxSetSize);
        }
      }
    } else {
      var c :| PresenceTest(c) && allowed(c);
      LeafFlips(c, maxSetSize);
      assert LeavesFrom(c, allowed);
    }
  }

  lemma LeafFlips(c: Condition, maxSetSize: nat)
    requires PresenceTest(c)
    ensures !NeverFlips(c, maxSetSize)
  {
    var request := Request(Subject("", "", [], map[]), "", Resource("", "", map[]), "", Environment(0, map[]), map[]);
    PresenceTestsFlip(c, request, maxSetSize);
  }

  /** In particular a single leaf never flips if and only if it is no presence test. */
  lemma {:induction false} LeafNeverFlipsIff(c: Condition, maxSetSize: nat)
    requires IsLeaf(c)
    ensures NeverFlips(c, maxSetSize) <==> !PresenceTest(c)
  {
    if PresenceTest(c) {
      LeafFlips(c, maxSetSize);
    } else {
      NeverFlipsIff(x => x == c, maxSetSize);
      assert LeavesFrom(c, x => x == c);
    }
  }

  lemma GuardDecides(ref: Reference, want: Value, request: Request, maxSetSize: nat)
    ensures MeaningOf(All([Equals(ref, want), Exists(ref)]), request, maxSetSize)
         == MeaningOf(Equals(ref, want), request, maxSetSize)
  {
    var cs := [Equals(ref, want), Exists(ref)];
    assert cs[1..] == [Exists(ref)] && cs[1..][1..] == [];
    assert AllMeaning(cs[1..], request, maxSetSize) == MeaningOf(Exists(ref), request, maxSetSize);
  }

  /** A tree that holds a presence test need not flip: here the test is reached only when its fact is there. */
  lemma GuardedPresenceNeverFlips(ref: Reference, want: Value, maxSetSize: nat)
    ensures NeverFlips(All([Equals(ref, want), Exists(ref)]), maxSetSize)
  {
    forall less, more | Forgets(less, more)
      ensures !Flipped(MeaningOf(All([Equals(ref, want), Exists(ref)]), less, maxSetSize),
                       MeaningOf(All([Equals(ref, want), Exists(ref)]), more, maxSetSize))
    {
      GuardDecides(ref, want, less, maxSetSize);
      GuardDecides(ref, want, more, maxSetSize);
      LeafWeakens(Equals(ref, want), less, more, maxSetSize);
    }
  }

  // ---- The budgeted evaluator ----

  datatype EvaluationError = CostExceeded | SetLimitExceeded | Panic

  /** abac.Result before its cost is filled in. */
  datatype Verdict = Verdict(matched: bool, status: Status)

  const NO_VERDICT := Verdict(false, StatusNoMatch)

  /** The pair that the `evaluate` methods return. */
  datatype Answer = Answer(verdict: Verdict, error: Option<EvaluationError>)

  function Says(status: Status): Answer { Answer(Verdict(status == StatusMatch, status), None) }

  function Fails(e: EvaluationError): Answer { Answer(NO_VERDICT, Some(e)) }

  /** A completed evaluation, as the source returns it. */
  function AnswerOf(m: Meaning): Answer {
    match m
    case Done(status) => Says(status)
    case Oversize => Fails(SetLimitExceeded)
    case Stuck => Fails(Panic)
  }

  /** The meaning cut off by a budget: `left` more nodes may be visited. */
  function Budgeted(m: Meaning, visits: nat, left: nat): Answer {
    if visits <= left then AnswerOf(m) else Fails(CostExceeded)
  }

  function Spent(cost: nat, visits: nat, maxCost: nat): nat
    requires cost <= maxCost
  {
    if visits <= maxCost - cost then cost + visits else maxCost
  }

  class EvaluationState {
    const request: Request
    const maxCost: nat
    const maxSetSize: nat
    var cost: nat

    constructor (request: Request, maxCost: nat, maxSetSize: nat)
      ensures this.request == request && this.maxCost == maxCost && this.maxSetSize == maxSetSize && cost == 0
    {
      this.request := request;
      this.maxCost := maxCost;
      this.maxSetSize := maxSetSize;
      cost := 0;
    }

    method Consume() returns (ok: bool)
      requires cost <= maxCost
      modifies this
      ensures ok <==> old(cost) < maxCost
      ensures cost == Spent(old(cost), 1, maxCost)
    {
      if cost >= maxCost {
        return false;
      }
      cost := cost + 1;
      return true;
    }

    /** Visits at most the remaining budget and otherwise answers exactly as the meaning does. */
    method Evaluate(c: Condition) returns (answer: Answer)
      requires cost <= maxCost
      modifies this
      ensures answer == Budgeted(MeaningOf(c, request, maxSetSize), Visits(c, request, maxSetSize), maxCost - old(cost))
      ensures cost == Spent(old(cost), Visits(c, request, maxSetSize), maxCost)
      ensures answer.verdict.matched <==> answer.verdict.status == StatusMatch
      decreases c, 1
    {
      if c.Absent? {
        return Fails(Panic);
      }
      var ok := Consume();
      if !ok {
        return Fails(CostExceeded);
      }
      match c
      case All(cs) => answer := EvaluateAll(cs);
      case Any(cs) => answer := EvaluateAny(cs);
      case Not(child) =>
        answer := Evaluate(child);
        if answer.error == None && !Diagnostic(answer.verdict.status) {
          answer := Says(if answer.verdict.matched then StatusNoMatch else StatusMatch);
        }
      case _ => answer := EvaluateLeaf(c);
    }

    /** The loop of allCondition. */
    method EvaluateAll(cs: seq<Condition>) returns (answer: Answer)
      requires cost <= maxCost
      modifies this
      ensures answer ==
        Budgeted(AllMeaning(cs, request, maxSetSize), AllVisits(cs, request, maxSetSize), maxCost - old(cost))
      ensures cost == Spent(old(cost), AllVisits(cs, request, maxSetSize), maxCost)
      decreases cs, 0
    {
      assert cs[0..] == cs;
      for i := 0 to |cs|
        invariant old(cost) <= cost <= maxCost
        invariant AllMeaning(cs[i..], request, maxSetSize) == AllMeaning(cs, request, maxSetSize)
        invariant cost - old(cost) + AllVisits(cs[i..], request, maxSetSize) == AllVisits(cs, request, maxSetSize)
      {
        assert cs[i..][0] == cs[i] && cs[i..][1..] == cs[i + 1..];
        answer := Evaluate(cs[i]);
        if answer.error.Some? || !answer.verdict.matched {
          return;
        }
      }
      return Says(StatusMatch);
    }

    /** The loop of anyCondition, with its remembered status. */
    method EvaluateAny(cs: seq<Condition>) returns (answer: Answer)
      requires cost <= maxCost
      modifies this
      ensures answer ==
        Budgeted(AnyMeaning(cs, request, maxSetSize), AnyVisits(cs, request, maxSetSize), maxCost - old(cost))
      ensures cost == Spent(old(cost), AnyVisits(cs, request, maxSetSize), maxCost)
      decreases cs, 0
    {
      var status := StatusNoMatch;
      assert cs[0..] == cs;
      for i := 0 to |cs|
        invariant old(cost) <= cost <= maxCost && status != StatusMatch
        invariant Resume(status, AnyMeaning(cs[i..], request, maxSetSize)) == AnyMeaning(cs, request, maxSetSize)
        invariant cost - old(cost) + AnyVisits(cs[i..], request, maxSetSize) == AnyVisits(cs, request, maxSetSize)
      {
        assert cs[i..][0] == cs[i] && cs[i..][1..] == cs[i + 1..];
        answer := Evaluate(cs[i]);
        if answer.error.Some? || answer.verdict.matched {
          return;
        }
        if status == StatusNoMatch && answer.verdict.status != StatusNoMatch {
          status := answer.verdict.status;
        }
      }
      return Says(status);
    }

    /** The leaves, after their visit has been paid for. */
    method EvaluateLeaf(c: Condition) returns (answer: Answer)
      requires IsLeaf(c)
      ensures answer == AnswerOf(LeafMeaning(c, request, maxSetSize))
    {
      var got := Lookup(request, c.ref);
      if c.Exists? {
        return Says(if got.Missing? then StatusNoMatch else StatusMatch);
      }
      if c.IsNull? {
        return Says(if got.Null? then StatusMatch else StatusNoMatch);
      }
      if got.Missing? {
        return Says(StatusMissing);
      }
      if TooLarge(got, maxSetSize) {
        return Fails(SetLimitExceeded);
      }
      if got.Null? {
        return Says(if c.Equals? && c.want.Null? then StatusMatch else StatusNull);
      }
      var matched := false;
      match c {
        case Equals(_, want) =>
          if KindOf(got) != KindOf(want) {
            return Says(StatusTypeMismatch);
          }
          matched := Equal(got, want);
        case Compares(_, want, greater) =>
          if KindOf(got) != KindOf(want) {
            return Says(StatusTypeMismatch);
          }
          var comparison := Compare(got, want);
          var sign := if comparison.Ordered? then comparison.sign else 0;
          matched := (greater && sign > 0) || (!greater && sign < 0);
        case In(_, values) =>
          answer := EvaluateIn(values, got);
          return;
        case SetContains(_, text) =>
          if !got.Strings? {
            return Says(StatusTypeMismatch);
          }
          matched := Attributes.Contains(got.items, text);
        case StringTest(_, text, op) =>
          if !got.Text? {
            return Says(StatusTypeMismatch);
          }
          matched := StringHolds(op, text, got.text);
        case AddressIn(_, prefix) =>
          if !got.Address? {
            return Says(StatusTypeMismatch);
          }
          matched := got.address in prefix.members;
      }
      return Says(if matched then StatusMatch else StatusNoMatch);
    }

    method EvaluateIn(values: seq<Value>, got: Value) returns (answer: Answer)
      ensures answer == if values == [] then Fails(Panic)
                        else if KindOf(got) != KindOf(values[0]) then Says(StatusTypeMismatch)
                        else AnswerOf(Truth(exists v :: v in values && Equal(got, v)))
    {
      if values == [] {
        return Fails(Panic);
      }
      if KindOf(got) != KindOf(values[0]) {
        return Says(StatusTypeMismatch);
      }
      for i := 0 to |values|
        invariant forall j :: 0 <= j < i ==> !Equal(got, values[j])
      {
        if Equal(got, values[i]) {
          return Says(StatusMatch);
        }
      }
      return Says(StatusNoMatch);
    }
  }

  /** The any-loop's answer if the remaining children mean `rest`. */
  function Resume(status: Status, rest: Meaning): Meaning {
    if !rest.Done? || rest.status == StatusMatch || status == StatusNoMatch then rest else Done(status)
  }

  /** A success is the same under any larger budget and any larger admitted set size. */
  lemma {:induction false} LargerSetsKeepMeaning(c: Condition, request: Request, small: nat, large: nat)
    requires small <= large && MeaningOf(c, request, small) != Oversize
    ensures MeaningOf(c, request, large) == MeaningOf(c, request, small)
    ensures Visits(c, request, large) == Visits(c, request, small)
    decreases c, 1
  {
    match c
    case All(cs) => LargerSetsKeepAll(cs, request, small, large);
    case Any(cs) => LargerSetsKeepAny(cs, request, small, large);
    case Not(child) => LargerSetsKeepMeaning(child, request, small, large);
    case _ =>
  }

  lemma {:induction false} LargerSetsKeepAll(cs: seq<Condition>, request: Request, small: nat, large: nat)
    requires small <= large && AllMeaning(cs, request, small) != Oversize
    ensures AllMeaning(cs, request, large) == AllMeaning(cs, request, small)
    ensures AllVisits(cs, request, large) == AllVisits(cs, request, small)
    decreases cs, 0
  {
    if cs != [] {
      LargerSetsKeepMeaning(cs[0], request, small, large);
      if MeaningOf(cs[0], request, small) == Done(StatusMatch) { LargerSetsKeepAll(cs[1..], request, small, large); }
    }
  }

  lemma {:induction false} LargerSetsKeepAny(cs: seq<Condition>, request: Request, small: nat, large: nat)
    requires small <= large && AnyMeaning(cs, request, small) != Oversize
    ensures AnyMeaning(cs, request, large) == AnyMeaning(cs, request, small)
    ensures AnyVisits(cs, request, large) == AnyVisits(cs, request, small)
    decreases cs, 0
  {
    if cs != [] {
      LargerSetsKeepMeaning(cs[0], request, small, large);
      var head := MeaningOf(cs[0], request, small);
      if head.Done? && head.status != StatusMatch { LargerSetsKeepAny(cs[1..], request, small, large); }
    }
  }

  /** Raising limits never changes a successful answer. */
  lemma RaisingLimitsKeepsSuccess(c: Condition, request: Request, cost: nat, cost': nat, size: nat, size': nat)
    requires cost <= cost' && size <= size'
    requires Budgeted(MeaningOf(c, request, size), Visits(c, request, size), cost).error == None
    ensures Budgeted(MeaningOf(c, request, size'), Visits(c, request, size'), cost')
         == Budgeted(MeaningOf(c, request, size), Visits(c, request, size), cost)
  {
    LargerSetsKeepMeaning(c, request, size, size');
  }
}
