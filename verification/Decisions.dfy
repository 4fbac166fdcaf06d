// Requests, decisions and the matching rules that every policy model shares
// (request.go, decision.go).
module Decisions {
  import opened Attributes

  datatype Option<+T> = None | Some(value: T)

  datatype Result<+T, +E> = Ok(value: T) | Err(error: E)

  type Facts = map<string, Value>

  datatype Subject = Subject(kind: string, id: string, groups: seq<string>, attributes: Facts)

  datatype Resource = Resource(kind: string, id: string, attributes: Facts)

  /** `time` is an instant; zero lets the engine sample its clock. */
  datatype Environment = Environment(time: int, attributes: Facts)

  datatype Request = Request(
    subject: Subject, action: string, resource: Resource, tenant: string, environment: Environment, attributes: Facts)

  const SUBJECT_GROUP := "group"

  /** One byte in the source: three supported values and the rest. */
  datatype Outcome = NotApplicable | Allow | Deny | Unsupported(code: nat)

  datatype TraceEntry = TraceEntry(policyID: string, outcome: Outcome, reason: string)

  datatype Decision = Decision(
    outcome: Outcome, reason: string,
    matched: seq<string>, matchedTruncated: bool,
    revision: nat,
    trace: seq<TraceEntry>, traceTruncated: bool)

  function Plain(outcome: Outcome, reason: string): Decision {
    Decision(outcome, reason, [], false, 0, [], false)
  }

  const NO_MATCH := Plain(NotApplicable, "")

  /** What a model evaluator returns: a decision and possibly an error beside it. */
  datatype Evaluation<+E> = Evaluation(decision: Decision, error: Option<E>)

  datatype Principal = Principal(kind: string, id: string)

  /** The subject itself, then its groups, in request order. */
  function Principals(subject: Subject): (ps: seq<Principal>)
    ensures |ps| == |subject.groups| + 1
    ensures forall p :: p in ps <==>
      p == Principal(subject.kind, subject.id) || (p.kind == SUBJECT_GROUP && p.id in subject.groups)
  {
    var groups := seq(
      |subject.groups|, i requires 0 <= i < |subject.groups| => Principal(SUBJECT_GROUP, subject.groups[i]));
    assert forall p :: p in groups <==> p.kind == SUBJECT_GROUP && p.id in subject.groups by {
      forall p: Principal | p.kind == SUBJECT_GROUP && p.id in subject.groups ensures p in groups {
        var i :| 0 <= i < |subject.groups| && subject.groups[i] == p.id;
        assert groups[i] == p;
      }
    }
    [Principal(subject.kind, subject.id)] + groups
  }

  /** Scopes match exactly; a global one also covers tenants when inheritance is on. */
  predicate MatchesTenant(inheritGlobal: bool, policyTenant: string, requestTenant: string) {
    policyTenant == requestTenant || (inheritGlobal && policyTenant == "" && requestTenant != "")
  }

  /** A matching permission, rule or entry. */
  datatype Match = Match(id: string, effect: Outcome)

  predicate Denies(matches: seq<Match>) { exists m :: m in matches && m.effect == Deny }

  function MatchIDs(matches: seq<Match>): seq<string> {
    seq(|matches|, i requires 0 <= i < |matches| => matches[i].id)
  }

  /** The decision table of each model: any deny denies, otherwise any match allows. */
  function Summarize(matches: seq<Match>, allowReason: string, denyReason: string): Decision {
    if matches == [] then NO_MATCH
    else if Denies(matches) then Plain(Deny, denyReason).(matched := MatchIDs(matches))
    else Plain(Allow, allowReason).(matched := MatchIDs(matches))
  }

  /** The step each model's loop applies to its growing decision. */
  function AddMatch(d: Decision, m: Match, allowReason: string, denyReason: string): Decision {
    var d' := d.(matched := d.matched + [m.id]);
    if m.effect == Deny then d'.(outcome := Deny, reason := denyReason)
    else if d.outcome == NotApplicable then d'.(outcome := Allow, reason := allowReason)
    else d'
  }

  /** The incremental loop keeps the decision equal to the table's verdict. */
  lemma AddMatchSummarizes(matches: seq<Match>, m: Match, allowReason: string, denyReason: string)
    ensures AddMatch(Summarize(matches, allowReason, denyReason), m, allowReason, denyReason)
         == Summarize(matches + [m], allowReason, denyReason)
  {
    assert MatchIDs(matches + [m]) == MatchIDs(matches) + [m.id];
    assert m in matches + [m];
    assert Denies(matches + [m]) <==> Denies(matches) || m.effect == Deny by {
      forall x ensures x in matches + [m] <==> x in matches || x == m {}
    }
  }

  ghost predicate HasEffect(matches: seq<Match>, effect: Outcome) { exists m :: m in matches && m.effect == effect }

  /** The table, row by row: explicit denials win, then any match allows, and the matches are listed in order. */
  lemma SummarizeMeans(matches: seq<Match>, allowReason: string, denyReason: string)
    requires forall m :: m in matches ==> m.effect == Allow || m.effect == Deny
    ensures var d := Summarize(matches, allowReason, denyReason);
            && (d.outcome == Deny <==> HasEffect(matches, Deny))
            && (d.outcome == Allow <==> HasEffect(matches, Allow) && !HasEffect(matches, Deny))
            && (d.outcome == NotApplicable <==> matches == [])
            && d.reason == (if d.outcome == Deny then denyReason else if d.outcome == Allow then allowReason else "")
            && |d.matched| == |matches| && (forall i :: 0 <= i < |matches| ==> d.matched[i] == matches[i].id)
            && !d.matchedTruncated && d.revision == 0 && d.trace == [] && !d.traceTruncated
  {
    if matches != [] { assert matches[0] in matches; }
  }
}
