// In-memory assignment administration (rbac/manager.go) as a state machine over
// New. Assignments are a slice that revocation shifts in place while published
// evaluators are in use; the revision counter is a 64-bit machine word.
module RbacManager {
  import opened Ordering
  import opened Slices
  import opened Decisions
  import opened RoleGraph
  import opened Rbac

  const TWO_64 := 0x1_0000_0000_0000_0000

  /** The counter after a number of accepted operations, wrapping like a uint64. */
  function RevisionAfter(mutations: nat): nat { (1 + mutations) % TWO_64 }

  function Increment(revision: nat): nat { (revision + 1) % TWO_64 }

  lemma IncrementCounts(mutations: nat)
    ensures Increment(RevisionAfter(mutations)) == RevisionAfter(mutations + 1)
  {
  }

  datatype Operation = Assign(assignment: Assignment) | Revoke(id: string)

  /** The first position of an identifier, or the length when there is none. */
  function Find(s: seq<Assignment>, id: string): (k: nat)
    ensures k <= |s|
    ensures k < |s| ==> s[k].id == id
    ensures forall j :: 0 <= j < k ==> s[j].id != id
  {
    if s == [] || s[0].id == id then 0 else 1 + Find(s[1..], id)
  }

  function RemoveAt(s: seq<Assignment>, k: nat): seq<Assignment>
    requires k < |s|
  {
    s[..k] + s[k + 1..]
  }

  function Remove(s: seq<Assignment>, id: string): seq<Assignment> {
    var k := Find(s, id);
    if k < |s| then RemoveAt(s, k) else s
  }

  ghost predicate Accepted(v: View, op: Operation) {
    match op
    case Assign(a) => WellFormed(WithAssignments(v, v.assignments + [a]))
    case Revoke(id) => Find(v.assignments, id) < |v.assignments|
  }

  /** What one operation does to the stored definitions. */
  ghost function Apply(v: View, op: Operation): View {
    match op
    case Assign(a) =>
      if Accepted(v, op) then WithAssignments(v, v.assignments + [a]) else v
    case Revoke(id) => WithAssignments(v, Remove(v.assignments, id))
  }

  ghost function Run(v: View, ops: seq<Operation>): View
    decreases |ops|
  {
    if ops == [] then v else Run(Apply(v, ops[0]), ops[1..])
  }

  // ---- Runs keep the view well formed ----

  lemma RemoveAtFaultFree(v: View, k: nat)
    requires AssignmentsFine(v) && k < |v.assignments|
    ensures AssignmentsFine(WithAssignments(v, RemoveAt(v.assignments, k)))
  {
    var roles, s := RoleMap(v.roles), v.assignments;
    var t := RemoveAt(s, k);
    forall i | 0 <= i < |t| ensures AssignmentFault(roles, t, i) == None {
      var at := if i < k then i else i + 1;
      assert AssignmentFault(roles, s, at) == None;
      forall j | 0 <= j < i ensures t[j].id != t[i].id {
        assert t[j] == s[if j < k then j else j + 1];
      }
    }
  }

  /** Revocation keeps the definitions well formed. */
  lemma RevokeKeepsWellFormed(v: View, id: string)
    requires WellFormed(v)
    ensures WellFormed(Apply(v, Revoke(id)))
  {
    var k := Find(v.assignments, id);
    if k < |v.assignments| {
      RemoveAtFaultFree(v, k);
    }
  }

  lemma RevokeContents(base: View, assignments: seq<Assignment>, id: string)
    requires WellFormed(WithAssignments(base, assignments))
    ensures WellFormed(WithAssignments(base, Remove(assignments, id)))
    ensures WithAssignments(base, Remove(assignments, id)) == Apply(WithAssignments(base, assignments), Revoke(id))
  {
    RevokeKeepsWellFormed(WithAssignments(base, assignments), id);
  }

  /** Assignments with another identifier, in order. */
  function Others(s: seq<Assignment>, id: string): seq<Assignment> {
    if s == [] then [] else (if s[0].id == id then [] else [s[0]]) + Others(s[1..], id)
  }

  lemma {:induction false} OthersElements(s: seq<Assignment>, id: string, a: Assignment)
    ensures a in Others(s, id) <==> a in s && a.id != id
  {
    if s != [] {
      OthersElements(s[1..], id, a);
      assert s == [s[0]] + s[1..];
    }
  }

  lemma {:induction false} RemoveLater(s: seq<Assignment>, id: string)
    requires s != [] && s[0].id != id
    ensures Remove(s, id) == [s[0]] + Remove(s[1..], id)
  {
    var k := Find(s[1..], id);
    assert Find(s, id) == k + 1;
    assert s == [s[0]] + s[1..];
    if k < |s| - 1 { assert RemoveAt(s, k + 1) == [s[0]] + RemoveAt(s[1..], k); }
  }

  /** Revoking removes the assignment with that identifier and keeps all others, in order. */
  lemma {:induction false} RemoveKeepsOthers(s: seq<Assignment>, id: string)
    requires forall i, j :: 0 <= i < j < |s| ==> s[i].id != s[j].id
    ensures Remove(s, id) == Others(s, id)
  {
    if s != [] {
      if s[0].id == id {
        assert RemoveAt(s, 0) == s[1..];
        NoneToRemove(s[1..], id);
      } else {
        RemoveLater(s, id);
        RemoveKeepsOthers(s[1..], id);
      }
    }
  }

  lemma {:induction false} NoneToRemove(s: seq<Assignment>, id: string)
    requires forall i :: 0 <= i < |s| ==> s[i].id != id
    ensures Others(s, id) == s
  {
    if s != [] { NoneToRemove(s[1..], id); }
  }

  /** So the definitions after a revocation differ in that assignment only. */
  lemma RevokeKeepsOthers(v: View, id: string)
    requires WellFormed(v)
    ensures Apply(v, Revoke(id)) == v.(assignments := Others(v.assignments, id))
    ensures forall a :: a in Apply(v, Revoke(id)).assignments <==> a in v.assignments && a.id != id
  {
    forall i, j | 0 <= i < j < |v.assignments| ensures v.assignments[i].id != v.assignments[j].id {
      assert AssignmentFault(RoleMap(v.roles), v.assignments, j) == None;
    }
    RemoveKeepsOthers(v.assignments, id);
    forall a ensures a in Others(v.assignments, id) <==> a in v.assignments && a.id != id {
      OthersElements(v.assignments, id, a);
    }
  }

  /** Over every run the stored definitions pass New. */
  lemma {:induction false} RunKeepsWellFormed(v: View, ops: seq<Operation>)
    requires WellFormed(v)
    ensures WellFormed(Run(v, ops))
    decreases |ops|
  {
    if ops != [] {
      if ops[0].Revoke? { RevokeKeepsWellFormed(v, ops[0].id); }
      RunKeepsWellFormed(Apply(v, ops[0]), ops[1..]);
    }
  }

  // ---- What an operation can do to decisions ----

  /** An accepted assignment followed by its revocation restores the definitions, hence every decision. */
  lemma AssignThenRevoke(v: View, a: Assignment)
    requires Accepted(v, Assign(a))
    ensures Apply(Apply(v, Assign(a)), Revoke(a.id)) == v
    ensures forall request :: Decide(Apply(Apply(v, Assign(a)), Revoke(a.id)), request) == Decide(v, request)
  {
    var s := v.assignments + [a];
    var w := WithAssignments(v, s);
    var k := Find(s, a.id);
    assert s[|s| - 1].id == a.id;
    assert AssignmentFault(RoleMap(w.roles), w.assignments, |s| - 1) == None;
    assert k == |s| - 1;
    assert RemoveAt(s, k) == v.assignments;
  }

  /** More assignments never remove a deciding permission. */
  lemma MoreAssignmentsGrantMore(v: View, w: View, request: Request)
    requires w == WithAssignments(v, w.assignments) && forall a :: a in v.assignments ==> a in w.assignments
    ensures forall p :: p in Filter(v.permissions, Granting(v, request)) ==>
      p in Filter(w.permissions, Granting(w, request))
    ensures |Deciding(v, request)| <= |Deciding(w, request)|
    ensures forall p :: p in Deciding(v, request) ==> p in Deciding(w, request)
  {
    forall p: Permission | Granting(v, request)(p) ensures Granting(w, request)(p) {
      var a :| a in v.assignments && AppliesTo(v, request.subject, request.tenant, a) &&
               Reaches(RoleMap(v.roles), a.roleID, p.roleID);
      assert a in w.assignments && AppliesTo(w, request.subject, request.tenant, a);
    }
    FilterElements(v.permissions, Granting(v, request));
    FilterElements(w.permissions, Granting(w, request));
    FilterCountBelow(v.permissions, Granting(v, request), Granting(w, request));
    SameElements(Deciding(v, request), Filter(v.permissions, Granting(v, request)));
    SameElements(Deciding(w, request), Filter(w.permissions, Granting(w, request)));
  }

  lemma AsMatchesDeny(ps: seq<Permission>)
    ensures Denies(AsMatches(ps)) <==> exists p :: p in ps && p.effect == Deny
  {
    if Denies(AsMatches(ps)) {
      var m :| m in AsMatches(ps) && m.effect == Deny;
      var i :| 0 <= i < |ps| && AsMatches(ps)[i] == m;
      assert ps[i] in ps;
    }
    if exists p :: p in ps && p.effect == Deny {
      var p :| p in ps && p.effect == Deny;
      var i :| 0 <= i < |ps| && ps[i] == p;
      assert AsMatches(ps)[i].effect == Deny;
    }
  }

  /** The outcome of the decision table, said on its own. */
  lemma {:induction false} DecideOutcome(v: View, request: Request)
    ensures Decide(v, request).decision.outcome == Deny <==>
            |request.subject.groups| > v.limits.maxGroups || |Deciding(v, request)| > v.limits.maxMatches ||
            exists p :: p in Deciding(v, request) && p.effect == Deny
    ensures Decide(v, request).decision.outcome == NotApplicable <==>
            |request.subject.groups| <= v.limits.maxGroups && Deciding(v, request) == []
  {
    AsMatchesDeny(Deciding(v, request));
  }

  /** Adding an assignment never turns a denial, explicit or by limit, into a grant. */
  lemma {:induction false} AssignNeverLiftsDeny(v: View, a: Assignment, request: Request)
    requires Decide(v, request).decision.outcome == Deny
    ensures Decide(Apply(v, Assign(a)), request).decision.outcome == Deny
  {
    var w := Apply(v, Assign(a));
    MoreAssignmentsGrantMore(v, w, request);
    DecideOutcome(v, request);
    DecideOutcome(w, request);
  }

  /** Revoking never makes an inapplicable request applicable. */
  lemma {:induction false} RevokeNeverGrants(v: View, id: string, request: Request)
    requires Decide(v, request).decision.outcome == NotApplicable
    ensures Decide(Apply(v, Revoke(id)), request).decision.outcome == NotApplicable
  {
    var w := Apply(v, Revoke(id));
    MoreAssignmentsGrantMore(w, v, request);
    DecideOutcome(v, request);
    DecideOutcome(w, request);
  }

  // ---- The manager ----

  class Manager {
    const base: View        // roles, permissions, limits and options; its assignments are unused
    var assignments: Slice<Assignment>
    var revision: nat
    ghost var mutations: nat // accepted operations so far

    ghost function Current(): View
      requires InRange(assignments)
      reads this, assignments.cells
    {
      WithAssignments(base, Contents(assignments))
    }

    /** The stored definitions pass New, and the revision counts the accepted operations. */
    ghost predicate Valid()
      reads this, assignments.cells
    {
      InRange(assignments) && WellFormed(Current()) && revision == RevisionAfter(mutations)
    }

    constructor (base: View, assignments: Slice<Assignment>)
      requires InRange(assignments) && WellFormed(WithAssignments(base, Contents(assignments)))
      ensures Valid() && this.base == base && this.assignments == assignments
      ensures revision == 1 && mutations == 0
    {
      this.base := base;
      this.assignments := assignments;
      revision := 1;
      mutations := 0;
    }

    /** Accepts exactly when the extended definitions pass New; otherwise nothing changes. */
    method AssignRole(a: Assignment) returns (err: Option<Error>)
      requires Valid()
      modifies this
      ensures Valid()
      ensures err == None <==> Accepted(old(Current()), Assign(a))
      ensures Current() == Apply(old(Current()), Assign(a))
      ensures mutations == old(mutations) + if err == None then 1 else 0
      ensures revision == if err == None then (old(revision) + 1) % 0x1_0000_0000_0000_0000 else old(revision)
      ensures err == None ==> fresh(assignments.cells)
      ensures err.Some? ==> Rejects(WithAssignments(base, old(Contents(assignments)) + [a]), err.value)
      ensures err.Some? ==> assignments == old(assignments) && revision == old(revision)
    {
      var candidate := Extended(base, assignments, a);
      if candidate.Err? {
        return Some(candidate.error);
      }
      assignments := candidate.value;
      Count();
      return None;
    }

    /** Shifts the tail down over the revoked assignment, inside the same array. */
    method RevokeAssignment(id: string) returns (revoked: bool)
      requires Valid()
      modifies this, assignments.cells
      ensures Valid()
      ensures revoked <==> Accepted(old(Current()), Revoke(id))
      ensures Current() == Apply(old(Current()), Revoke(id))
      ensures mutations == old(mutations) + if revoked then 1 else 0
      ensures revision == if revoked then (old(revision) + 1) % 0x1_0000_0000_0000_0000 else old(revision)
      ensures assignments.cells == old(assignments.cells)
      ensures !revoked ==> assignments == old(assignments) && revision == old(revision)
    {
      RevokeContents(base, Contents(assignments), id);
      var rest: Slice<Assignment>;
      revoked, rest := RemoveInPlace(assignments, id);
      assignments := rest;
      if revoked {
        Count();
      }
    }

    /** One more accepted operation. */
    method Count()
      modifies this`revision, this`mutations
      ensures mutations == old(mutations) + 1 && revision == (old(revision) + 1) % 0x1_0000_0000_0000_0000
      ensures old(revision == RevisionAfter(mutations)) ==> revision == RevisionAfter(mutations)
    {
      IncrementCounts(mutations);
      revision := Increment(revision);
      mutations := mutations + 1;
    }

    /** Building an evaluator cannot fail, and every array it reads is its own. */
    method Publish() returns (r: Result<Evaluator, Error>)
      requires Valid()
      ensures r.Ok? && fresh(r.value) && fresh(r.value.Footprint()) && r.value.Represents(Current())
    {
      r := New(base, assignments);
    }
  }

  /** A copy of the assignments with one more, if New accepts it. */
  method Extended(base: View, assignments: Slice<Assignment>, a: Assignment)
    returns (r: Result<Slice<Assignment>, Error>)
    requires InRange(assignments)
    ensures var v := WithAssignments(base, Contents(assignments) + [a]);
            && (r.Ok? <==> WellFormed(v))
            && (r.Ok? ==> InRange(r.value) && fresh(r.value.cells) && WithAssignments(base, Contents(r.value)) == v)
            && (r.Err? ==> Rejects(v, r.error))
  {
    var copy := Clone(assignments);
    var candidate := AppendTo(copy, a);
    var built := New(base, candidate);
    if built.Err? {
      return Err(built.error);
    }
    return Ok(candidate);
  }

  /** NewManager reports the fault that New finds, or keeps a private copy of the caller's assignments. */
  method NewManager(base: View, assignments: Slice<Assignment>) returns (r: Result<Manager, Error>)
    requires InRange(assignments)
    ensures var v := WithAssignments(base, Contents(assignments));
            && (r.Ok? <==> WellFormed(v))
            && (r.Err? ==> Rejects(v, r.error))
            && (r.Ok? ==> r.value.Valid() && r.value.Current() == v)
    ensures r.Ok? ==> fresh(r.value) && fresh(r.value.assignments.cells)
    ensures r.Ok? ==> r.value.revision == 1 && r.value.mutations == 0
  {
    var built := New(base, assignments);
    if built.Err? {
      return Err(built.error);
    }
    var copy := Clone(assignments);
    var manager := new Manager(base, copy);
    return Ok(manager);
  }

  method Search(s: Slice<Assignment>, id: string) returns (index: nat)
    requires InRange(s)
    ensures index == Find(Contents(s), id)
  {
    index := 0;
    while index < s.length && s.cells[index].id != id
      invariant index <= s.length
      invariant forall j :: 0 <= j < index ==> s.cells[j].id != id
    {
      index := index + 1;
    }
    assert index < s.length ==> Contents(s)[index].id == id;
  }

  /** The copy half of `append(s[:k], s[k+1:]...)`. */
  method ShiftDown(a: array<Assignment>, k: nat, n: nat)
    requires k < n <= a.Length
    modifies a
    ensures a[..n - 1] == old(a[..k]) + old(a[k + 1..n])
  {
    for i := k to n - 1
      invariant forall j :: 0 <= j < k ==> a[j] == old(a[j])
      invariant forall j :: k <= j < i ==> a[j] == old(a[j + 1])
      invariant forall j :: i < j < n ==> a[j] == old(a[j])
    {
      a[i] := a[i + 1];
    }
    ghost var closed := old(a[..k]) + old(a[k + 1..n]);
    assert |closed| == n - 1;
    assert forall j :: 0 <= j < n - 1 ==> closed[j] == if j < k then old(a[j]) else old(a[j + 1]);
    assert forall j :: 0 <= j < n - 1 ==> a[j] == closed[j];
  }

  method RemoveInPlace(s: Slice<Assignment>, id: string) returns (found: bool, rest: Slice<Assignment>)
    requires InRange(s)
    modifies s.cells
    ensures InRange(rest) && rest.cells == s.cells && Contents(rest) == Remove(old(Contents(s)), id)
    ensures found <==> Find(old(Contents(s)), id) < s.length
    ensures !found ==> rest == s
  {
    var index := Search(s, id);
    if index == s.length {
      return false, s;
    }
    ghost var before := Contents(s);
    ShiftDown(s.cells, index, s.length);
    assert before[index + 1..] == old(s.cells[index + 1..s.length]);
    assert before[..index] == old(s.cells[..index]);
    return true, Slice(s.cells, s.length - 1);
  }

  // ---- Published evaluators over runs ----

  /** Every operation writes the manager's current array or replaces it by a new one, and nothing else. */
  method Perform(manager: Manager, op: Operation)
    requires manager.Valid()
    modifies manager, manager.assignments.cells
    ensures manager.Valid() && manager.Current() == Apply(old(manager.Current()), op)
    ensures manager.assignments.cells == old(manager.assignments.cells) || fresh(manager.assignments.cells)
  {
    match op
    case Assign(a) => var _ := manager.AssignRole(a);
    case Revoke(id) => var _ := manager.RevokeAssignment(id);
  }

  /** An operation beside an evaluator that reads none of the manager's cells. */
  method PerformBeside(manager: Manager, op: Operation, ghost ev: Evaluator, ghost v: View)
    requires manager.Valid() && manager.assignments.cells !in ev.Footprint() && ev.Represents(v)
    modifies manager, manager.assignments.cells
    ensures manager.Valid() && manager.Current() == Apply(old(manager.Current()), op)
    ensures manager.assignments.cells == old(manager.assignments.cells) || fresh(manager.assignments.cells)
    ensures manager.assignments.cells !in ev.Footprint() && ev.Represents(v)
  {
    Perform(manager, op);
  }

  method PerformAll(manager: Manager, ops: seq<Operation>, ghost ev: Evaluator, ghost v: View)
    requires manager.Valid() && manager.assignments.cells !in ev.Footprint() && ev.Represents(v)
    modifies manager, manager.assignments.cells
    ensures manager.Valid() && manager.Current() == Run(old(manager.Current()), ops) && ev.Represents(v)
  {
    ghost var start := manager.Current();
    for i := 0 to |ops|
      invariant manager.Valid() && Run(manager.Current(), ops[i..]) == Run(start, ops)
      invariant manager.assignments.cells == old(manager.assignments.cells) || fresh(manager.assignments.cells)
      invariant manager.assignments.cells !in ev.Footprint() && ev.Represents(v)
    {
      PerformBeside(manager, ops[i], ev, v);
    }
  }

  /** Whatever is assigned and revoked after it was published, an evaluator decides by the definitions of
      that moment, because no array it reads is one that the operations write; a new one decides by the
      definitions of now. */
  method DecideAcrossRun(manager: Manager, ops: seq<Operation>, request: Request)
    returns (before: Evaluation<Error>, after: Evaluation<Error>)
    requires manager.Valid()
    modifies manager, manager.assignments.cells
    ensures before == Decide(old(manager.Current()), request)
    ensures after == Decide(Run(old(manager.Current()), ops), request)
  {
    ghost var v := manager.Current();
    var earlier := manager.Publish();
    PerformAll(manager, ops, earlier.value, v);
    before := Evaluate(earlier.value, v, request);
    var later := manager.Publish();
    after := Evaluate(later.value, manager.Current(), request);
  }

  /** In particular the shift of a revocation is invisible to an evaluator published before it. */
  method DecideAcrossRevoke(manager: Manager, id: string, request: Request)
    returns (before: Evaluation<Error>, after: Evaluation<Error>)
    requires manager.Valid()
    modifies manager, manager.assignments.cells
    ensures before == Decide(old(manager.Current()), request)
    ensures after == Decide(Apply(old(manager.Current()), Revoke(id)), request)
  {
    before, after := DecideAcrossRun(manager, [Revoke(id)], request);
  }
}
