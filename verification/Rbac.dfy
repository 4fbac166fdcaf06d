// The role-based model (rbac/rbac.go): construction of the indexed view, the
// effective permissions of a subject and the decision for a request. Limits are
// the values in force after options have been applied; contexts stay live.
module Rbac {
  import opened Ordering
  import opened Indexing
  import opened Slices
  import opened Decisions
  import opened RoleGraph

  datatype Permission = Permission(
    id: string, roleID: RoleID, tenant: string, action: string,
    resourceType: string, resourceID: string, effect: Outcome, priority: int)

  datatype Assignment = Assignment(id: string, subject: Subject, roleID: RoleID, tenant: string)

  datatype Limits = Limits(
    maxInheritanceDepth: nat, maxRoles: nat, maxPermissions: nat, maxAssignments: nat, maxGroups: nat, maxMatches: nat)

  datatype Error =
    | RoleLimitExceeded | PermissionLimitExceeded | AssignmentLimitExceeded
    | InvalidRole | DuplicateRole | Graph(graph: GraphError)
    | InvalidPermission | DuplicatePermission | InvalidAssignment | DuplicateAssignment
    | UnknownRole | RoleTenantMismatch
    | GroupLimitExceeded | MatchLimitExceeded

  const ALLOW_REASON := "rbac-allow"
  const DENY_REASON := "rbac-explicit-deny"
  const LIMIT_REASON := "rbac-limit-exceeded"

  /** The definitions a caller supplies. */
  datatype View = View(
    roles: seq<Role>, permissions: seq<Permission>, assignments: seq<Assignment>, limits: Limits, inheritGlobal: bool)

  function WithAssignments(v: View, assignments: seq<Assignment>): View { v.(assignments := assignments) }

  function PermissionRank(p: Permission): Rank { Rank(p.priority, p.id) }

  function SubjectKey(a: Assignment): Principal { Principal(a.subject.kind, a.subject.id) }

  function PermissionRole(p: Permission): RoleID { p.roleID }

  function PermissionID(p: Permission): string { p.id }

  function AssignmentID(a: Assignment): string { a.id }

  // ---- Well-formed definitions ----

  predicate ValidPermission(p: Permission) {
    p.id != "" && p.roleID != "" && p.action != "" && p.resourceType != "" && (p.effect == Allow || p.effect == Deny)
  }

  predicate ValidAssignment(a: Assignment) {
    a.id != "" && a.subject.kind != "" && a.subject.id != "" && a.roleID != ""
  }

  function RoleMap(roles: seq<Role>): Roles {
    if roles == [] then map[]
    else var last := roles[|roles| - 1]; RoleMap(roles[..|roles| - 1])[last.id := last]
  }

  ghost function RoleFault(roles: seq<Role>, i: nat): Option<Error>
    requires i < |roles|
  {
    if roles[i].id == "" then Some(InvalidRole)
    else if exists j :: 0 <= j < i && roles[j].id == roles[i].id then Some(DuplicateRole)
    else None
  }

  ghost function PermissionFault(roles: Roles, ps: seq<Permission>, i: nat): Option<Error>
    requires i < |ps|
  {
    var p := ps[i];
    if !ValidPermission(p) then Some(InvalidPermission)
    else if exists j :: 0 <= j < i && ps[j].id == p.id then Some(DuplicatePermission)
    else if p.roleID !in roles then Some(UnknownRole)
    else if roles[p.roleID].tenant != p.tenant then Some(RoleTenantMismatch)
    else None
  }

  ghost function AssignmentFault(roles: Roles, assignments: seq<Assignment>, i: nat): Option<Error>
    requires i < |assignments|
  {
    var a := assignments[i];
    if !ValidAssignment(a) then Some(InvalidAssignment)
    else if exists j :: 0 <= j < i && assignments[j].id == a.id then Some(DuplicateAssignment)
    else if a.roleID !in roles then Some(UnknownRole)
    else if roles[a.roleID].tenant != a.tenant then Some(RoleTenantMismatch)
    else None
  }

  ghost predicate PermissionsFineTo(roles: Roles, ps: seq<Permission>, n: nat)
    requires n <= |ps|
  {
    forall i :: 0 <= i < n ==> PermissionFault(roles, ps, i) == None
  }

  ghost predicate AssignmentsFineTo(roles: Roles, assignments: seq<Assignment>, n: nat)
    requires n <= |assignments|
  {
    forall i :: 0 <= i < n ==> AssignmentFault(roles, assignments, i) == None
  }

  ghost predicate WithinCounts(v: View) {
    |v.roles| <= v.limits.maxRoles && |v.permissions| <= v.limits.maxPermissions &&
    |v.assignments| <= v.limits.maxAssignments
  }

  ghost predicate RolesFine(v: View) { forall i :: 0 <= i < |v.roles| ==> RoleFault(v.roles, i) == None }

  ghost predicate GraphFine(v: View) {
    var roles := RoleMap(v.roles);
    ParentsResolve(roles) && !HasCycle(roles) && ChainsWithin(roles, v.limits.maxInheritanceDepth)
  }

  ghost predicate PermissionsFine(v: View) {
    forall i :: 0 <= i < |v.permissions| ==> PermissionFault(RoleMap(v.roles), v.permissions, i) == None
  }

  ghost predicate AssignmentsFine(v: View) {
    forall i :: 0 <= i < |v.assignments| ==> AssignmentFault(RoleMap(v.roles), v.assignments, i) == None
  }

  ghost predicate WellFormed(v: View) {
    WithinCounts(v) && RolesFine(v) && GraphFine(v) && PermissionsFine(v) && AssignmentsFine(v)
  }

  ghost predicate FirstRoleFault(v: View, e: Error) {
    exists i :: 0 <= i < |v.roles| && RoleFault(v.roles, i) == Some(e) &&
                (forall j :: 0 <= j < i ==> RoleFault(v.roles, j) == None)
  }

  ghost predicate FirstPermissionFault(v: View, e: Error) {
    var roles := RoleMap(v.roles);
    exists i :: 0 <= i < |v.permissions| && PermissionFault(roles, v.permissions, i) == Some(e) &&
                (forall j :: 0 <= j < i ==> PermissionFault(roles, v.permissions, j) == None)
  }

  ghost predicate FirstAssignmentFault(v: View, e: Error) {
    var roles := RoleMap(v.roles);
    exists i :: 0 <= i < |v.assignments| && AssignmentFault(roles, v.assignments, i) == Some(e) &&
                (forall j :: 0 <= j < i ==> AssignmentFault(roles, v.assignments, j) == None)
  }

  /** `e` belongs to the first phase that fails, and there to the first faulty definition. */
  ghost predicate Rejects(v: View, e: Error) {
    if |v.roles| > v.limits.maxRoles then e == RoleLimitExceeded
    else if |v.permissions| > v.limits.maxPermissions then e == PermissionLimitExceeded
    else if |v.assignments| > v.limits.maxAssignments then e == AssignmentLimitExceeded
    else if !RolesFine(v) then FirstRoleFault(v, e)
    else if !GraphFine(v) then
      && e.Graph?
      && (e.graph == RoleCycle <==> ParentsResolve(RoleMap(v.roles)) && HasCycle(RoleMap(v.roles)))
      && (e.graph == InheritanceDepthExceeded <==> ParentsResolve(RoleMap(v.roles)) && !HasCycle(RoleMap(v.roles)))
    else if !PermissionsFine(v) then FirstPermissionFault(v, e)
    else FirstAssignmentFault(v, e)
  }

  lemma {:induction false} RoleMapKeys(roles: seq<Role>, id: RoleID)
    ensures id in RoleMap(roles) <==> exists j :: 0 <= j < |roles| && roles[j].id == id
  {
    if roles != [] {
      var init := roles[..|roles| - 1];
      RoleMapKeys(init, id);
      if exists j :: 0 <= j < |init| && init[j].id == id {
        var j :| 0 <= j < |init| && init[j].id == id;
        assert roles[j].id == id;
      }
    }
  }

  // ---- New ----

  /** The three maps that New publishes; the buckets live on the heap. */
  class Evaluator {
    const roles: Roles
    const permissions: map<RoleID, Slice<Permission>>
    const assignments: map<Principal, Slice<Assignment>>
    const limits: Limits
    const inheritGlobal: bool

    /** Every array the evaluator reads. */
    ghost function Footprint(): set<object> {
      (set c | c in Cells(permissions) :: c as object) + (set c | c in Cells(assignments) :: c as object)
    }

    /** The published maps index exactly the definitions, keeping definition order. */
    ghost predicate Represents(v: View)
      reads Footprint()
    {
      && WellFormed(v)
      && roles == RoleMap(v.roles)
      && Holds(permissions, Index(v.permissions, PermissionRole))
      && Holds(assignments, Index(v.assignments, SubjectKey))
      && limits == v.limits && inheritGlobal == v.inheritGlobal
    }

    constructor (
      roles: Roles, permissions: map<RoleID, Slice<Permission>>, assignments: map<Principal, Slice<Assignment>>,
      limits: Limits, inheritGlobal: bool)
      ensures this.roles == roles && this.permissions == permissions && this.assignments == assignments
      ensures this.limits == limits && this.inheritGlobal == inheritGlobal
    {
      this.roles := roles;
      this.permissions := permissions;
      this.assignments := assignments;
      this.limits := limits;
      this.inheritGlobal := inheritGlobal;
    }
  }

  method IndexRoles(v: View) returns (r: Result<Roles, Error>)
    ensures r.Ok? <==> RolesFine(v)
    ensures r.Ok? ==> r.value == RoleMap(v.roles)
    ensures r.Err? ==> FirstRoleFault(v, r.error)
  {
    var roles: Roles := map[];
    for i := 0 to |v.roles|
      invariant roles == RoleMap(v.roles[..i])
      invariant forall j :: 0 <= j < i ==> RoleFault(v.roles, j) == None
    {
      var role := v.roles[i];
      if role.id == "" {
        assert RoleFault(v.roles, i) == Some(InvalidRole);
        return Err(InvalidRole);
      }
      RoleMapKeys(v.roles[..i], role.id);
      if role.id in roles {
        assert RoleFault(v.roles, i) == Some(DuplicateRole);
        return Err(DuplicateRole);
      }
      assert RoleFault(v.roles, i) == None;
      assert v.roles[..i + 1][..i] == v.roles[..i];
      roles := roles[role.id := role];
    }
    assert v.roles[..|v.roles|] == v.roles;
    return Ok(roles);
  }

  method CheckPermission(roles: Roles, ps: seq<Permission>, i: nat, ids: set<string>) returns (fault: Option<Error>)
    requires i < |ps| && ids == IDs(ps[..i], PermissionID)
    ensures fault == PermissionFault(roles, ps, i)
  {
    var p := ps[i];
    IDsSnoc(ps, PermissionID, i);
    if !ValidPermission(p) {
      return Some(InvalidPermission);
    }
    if p.id in ids {
      return Some(DuplicatePermission);
    }
    if p.roleID !in roles {
      return Some(UnknownRole);
    }
    if roles[p.roleID].tenant != p.tenant {
      return Some(RoleTenantMismatch);
    }
    return None;
  }

  /** One round of the loop: the fault of the next permission, or the sets that include it. */
  method FilePermission(
    roles: Roles, ps: seq<Permission>, i: nat, ids: set<string>, index: map<RoleID, Slice<Permission>>)
    returns (fault: Option<Error>, ids': set<string>, index': map<RoleID, Slice<Permission>>)
    requires i < |ps| && ids == IDs(ps[..i], PermissionID) && Holds(index, Index(ps[..i], PermissionRole))
    modifies Cells(index)
    ensures fault == PermissionFault(roles, ps, i)
    ensures fault == None ==> ids' == IDs(ps[..i + 1], PermissionID)
    ensures fault == None ==> Holds(index', Index(ps[..i + 1], PermissionRole))
    ensures fresh(Cells(index') - Cells(index))
  {
    fault := CheckPermission(roles, ps, i, ids);
    if fault.Some? {
      return fault, ids, index;
    }
    IDsSnoc(ps, PermissionID, i);
    ids' := ids + {ps[i].id};
    index' := PushNext(index, ps[i], PermissionRole, ps, i);
  }

  method IndexPermissions(v: View, roles: Roles) returns (r: Result<map<RoleID, Slice<Permission>>, Error>)
    requires roles == RoleMap(v.roles)
    ensures r.Ok? <==> PermissionsFine(v)
    ensures r.Ok? ==> Holds(r.value, Index(v.permissions, PermissionRole)) && fresh(Cells(r.value))
    ensures r.Err? ==> FirstPermissionFault(v, r.error)
  {
    var ps := v.permissions;
    var ids: set<string> := {};
    var index: map<RoleID, Slice<Permission>> := map[];
    for i := 0 to |ps|
      invariant ids == IDs(ps[..i], PermissionID)
      invariant Holds(index, Index(ps[..i], PermissionRole)) && fresh(Cells(index))
      invariant PermissionsFineTo(roles, ps, i)
    {
      var fault: Option<Error>;
      fault, ids, index := FilePermission(roles, ps, i, ids, index);
      if fault.Some? {
        assert PermissionFault(RoleMap(v.roles), v.permissions, i) == Some(fault.value);
        return Err(fault.value);
      }
    }
    assert ps[..|ps|] == ps && PermissionsFineTo(RoleMap(v.roles), v.permissions, |ps|);
    return Ok(index);
  }

  method CheckAssignment(
    roles: Roles, a: Assignment, ids: set<string>, ghost assignments: seq<Assignment>, ghost i: nat)
    returns (fault: Option<Error>)
    requires i < |assignments| && a == assignments[i] && ids == IDs(assignments[..i], AssignmentID)
    ensures fault == AssignmentFault(roles, assignments, i)
  {
    IDsSnoc(assignments, AssignmentID, i);
    if !ValidAssignment(a) {
      return Some(InvalidAssignment);
    }
    if a.id in ids {
      return Some(DuplicateAssignment);
    }
    if a.roleID !in roles {
      return Some(UnknownRole);
    }
    if roles[a.roleID].tenant != a.tenant {
      return Some(RoleTenantMismatch);
    }
    return None;
  }

  method FileAssignment(
    roles: Roles, a: Assignment, ids: set<string>, index: map<Principal, Slice<Assignment>>,
    ghost all: seq<Assignment>, ghost i: nat)
    returns (fault: Option<Error>, ids': set<string>, index': map<Principal, Slice<Assignment>>)
    requires i < |all| && a == all[i]
    requires ids == IDs(all[..i], AssignmentID) && Holds(index, Index(all[..i], SubjectKey))
    modifies Cells(index)
    ensures fault == AssignmentFault(roles, all, i)
    ensures fault == None ==> ids' == IDs(all[..i + 1], AssignmentID)
    ensures fault == None ==> Holds(index', Index(all[..i + 1], SubjectKey))
    ensures fresh(Cells(index') - Cells(index))
  {
    fault := CheckAssignment(roles, a, ids, all, i);
    if fault.Some? {
      return fault, ids, index;
    }
    IDsSnoc(all, AssignmentID, i);
    ids' := ids + {a.id};
    index' := PushNext(index, a, SubjectKey, all, i);
  }

  /** Ranges over the caller's slice and keeps copies of its elements, never the slice. */
  method IndexAssignments(assignments: Slice<Assignment>, roles: Roles, ghost v: View)
    returns (r: Result<map<Principal, Slice<Assignment>>, Error>)
    requires InRange(assignments) && v.assignments == Contents(assignments) && roles == RoleMap(v.roles)
    ensures r.Ok? <==> AssignmentsFine(v)
    ensures r.Ok? ==> Holds(r.value, Index(v.assignments, SubjectKey)) && fresh(Cells(r.value))
    ensures r.Err? ==> FirstAssignmentFault(v, r.error)
  {
    ghost var all := v.assignments;
    var ids: set<string> := {};
    var index: map<Principal, Slice<Assignment>> := map[];
    for i := 0 to assignments.length
      invariant Contents(assignments) == all
      invariant ids == IDs(all[..i], AssignmentID)
      invariant Holds(index, Index(all[..i], SubjectKey)) && fresh(Cells(index))
      invariant AssignmentsFineTo(roles, all, i)
    {
      var a := assignments.cells[i];
      assert a == all[i];
      var fault: Option<Error>;
      fault, ids, index := FileAssignment(roles, a, ids, index, all, i);
      if fault.Some? {
        return Err(fault.value);
      }
    }
    assert all[..|all|] == all;
    return Ok(index);
  }

  /** New accepts exactly the well-formed definitions and reports the first fault otherwise. The
      assignments are a slice that the caller goes on using, so the evaluator shares no array with it. */
  method New(base: View, assignments: Slice<Assignment>) returns (r: Result<Evaluator, Error>)
    requires InRange(assignments)
    ensures var v := WithAssignments(base, Contents(assignments));
            && (r.Ok? <==> WellFormed(v))
            && (r.Ok? ==> r.value.Represents(v))
            && (r.Err? ==> Rejects(v, r.error))
    ensures r.Ok? ==> fresh(r.value) && fresh(r.value.Footprint())
  {
    if |base.roles| > base.limits.maxRoles {
      return Err(RoleLimitExceeded);
    }
    if |base.permissions| > base.limits.maxPermissions {
      return Err(PermissionLimitExceeded);
    }
    if assignments.length > base.limits.maxAssignments {
      return Err(AssignmentLimitExceeded);
    }
    var roles := IndexRoles(base);
    if roles.Err? {
      return Err(roles.error);
    }
    var graph := ValidateInheritance(roles.value, base.limits.maxInheritanceDepth);
    if graph.Some? {
      return Err(Graph(graph.value));
    }
    var permissions := IndexPermissions(base, roles.value);
    if permissions.Err? {
      return Err(permissions.error);
    }
    var indexed := IndexAssignments(assignments, roles.value, WithAssignments(base, Contents(assignments)));
    if indexed.Err? {
      return Err(indexed.error);
    }
    var ev := new Evaluator(roles.value, permissions.value, indexed.value, base.limits, base.inheritGlobal);
    return Ok(ev);
  }

  // ---- Effective permissions ----

  predicate AppliesTo(v: View, subject: Subject, tenant: string, a: Assignment) {
    SubjectKey(a) in Principals(subject) && MatchesTenant(v.inheritGlobal, a.tenant, tenant)
  }

  /** The subject holds a role it reaches from an assignment in scope. */
  ghost predicate HoldsRole(v: View, subject: Subject, tenant: string, roleID: RoleID) {
    exists a :: a in v.assignments && AppliesTo(v, subject, tenant, a) && Reaches(RoleMap(v.roles), a.roleID, roleID)
  }

  ghost function Holding(v: View, subject: Subject, tenant: string): Permission -> bool {
    (p: Permission) => HoldsRole(v, subject, tenant, p.roleID)
  }

  /** The effective permissions: a scan of the definitions, sorted by priority then identifier. */
  ghost function Effective(v: View, subject: Subject, tenant: string): seq<Permission> {
    Sort(Filter(v.permissions, Holding(v, subject, tenant)), PermissionRank)
  }

  /** Identifiers are unique, so no two permissions tie. */
  lemma PermissionsDistinct(v: View)
    requires PermissionsFine(v)
    ensures DistinctRanks(v.permissions, PermissionRank)
  {
    forall i, j | 0 <= i < j < |v.permissions|
      ensures PermissionRank(v.permissions[i]) != PermissionRank(v.permissions[j])
    {
      assert PermissionFault(RoleMap(v.roles), v.permissions, j) == None;
    }
  }

  lemma AssignedRoleExists(v: View, a: Assignment)
    requires AssignmentsFine(v) && a in v.assignments
    ensures a.roleID in RoleMap(v.roles) && RoleMap(v.roles)[a.roleID].tenant == a.tenant
  {
    var i :| 0 <= i < |v.assignments| && v.assignments[i] == a;
    assert AssignmentFault(RoleMap(v.roles), v.assignments, i) == None;
  }

  /** What the visited set satisfies between closures: closed, and only roles the subject holds. */
  ghost predicate Collected(v: View, subject: Subject, tenant: string, seen: set<RoleID>) {
    && seen <= RoleMap(v.roles).Keys
    && ClosedExcept(RoleMap(v.roles), seen, {})
    && (forall x :: x in seen ==> HoldsRole(v, subject, tenant, x))
  }

  /** Every role assigned in scope to one of the principals is in the set. */
  ghost predicate Covers(v: View, ps: seq<Principal>, tenant: string, seen: set<RoleID>) {
    forall a :: (a in v.assignments && SubjectKey(a) in ps && MatchesTenant(v.inheritGlobal, a.tenant, tenant)) ==>
      a.roleID in seen
  }

  /** Adds the closures of one principal's assignments in scope. */
  method CollectFrom(
    closure: RoleClosure, mine: seq<Assignment>, ghost v: View, inheritGlobal: bool, subject: Subject, tenant: string)
    requires closure.roles == RoleMap(v.roles) && ParentsResolve(closure.roles) && AssignmentsFine(v)
    requires inheritGlobal == v.inheritGlobal
    requires forall a :: a in mine ==> a in v.assignments && SubjectKey(a) in Principals(subject)
    requires Collected(v, subject, tenant, closure.seen)
    modifies closure
    ensures old(closure.seen) <= closure.seen && Collected(v, subject, tenant, closure.seen)
    ensures forall a :: a in mine && MatchesTenant(inheritGlobal, a.tenant, tenant) ==> a.roleID in closure.seen
  {
    for j := 0 to |mine|
      invariant old(closure.seen) <= closure.seen && Collected(v, subject, tenant, closure.seen)
      invariant forall k :: 0 <= k < j && MatchesTenant(inheritGlobal, mine[k].tenant, tenant) ==>
        mine[k].roleID in closure.seen
    {
      var a := mine[j];
      assert a in mine;
      if MatchesTenant(inheritGlobal, a.tenant, tenant) {
        AssignedRoleExists(v, a);
        closure.AddRoleClosure(a.roleID, {});
        assert AppliesTo(v, subject, tenant, a);
      }
    }
  }

  /** Reads one principal's bucket and collects from it. */
  method CollectPrincipal(closure: RoleClosure, buckets: map<Principal, Slice<Assignment>>, p: Principal, ghost v: View,
                          inheritGlobal: bool, subject: Subject, tenant: string)
    requires closure.roles == RoleMap(v.roles) && ParentsResolve(closure.roles) && AssignmentsFine(v)
    requires Holds(buckets, Index(v.assignments, SubjectKey)) && inheritGlobal == v.inheritGlobal
    requires p in Principals(subject) && Collected(v, subject, tenant, closure.seen)
    modifies closure
    ensures old(closure.seen) <= closure.seen && Collected(v, subject, tenant, closure.seen)
    ensures Covers(v, [p], tenant, closure.seen)
  {
    var mine := Lookup(buckets, p);
    LookupIsGet(buckets, Index(v.assignments, SubjectKey), p);
    BucketOfPrincipal(v, p);
    CollectFrom(closure, mine, v, inheritGlobal, subject, tenant);
  }

  /** The shared visited set ends as the union of the closures, whatever the visiting order. */
  method CollectRoles(ev: Evaluator, ghost v: View, subject: Subject, tenant: string) returns (roleIDs: set<RoleID>)
    requires ev.roles == RoleMap(v.roles) && ParentsResolve(ev.roles) && AssignmentsFine(v)
    requires Holds(ev.assignments, Index(v.assignments, SubjectKey)) && ev.inheritGlobal == v.inheritGlobal
    ensures forall x :: x in roleIDs <==> HoldsRole(v, subject, tenant, x)
  {
    var closure := new RoleClosure(ev.roles);
    var principals := Principals(subject);
    for i := 0 to |principals|
      invariant closure.roles == ev.roles && Collected(v, subject, tenant, closure.seen)
      invariant Covers(v, principals[..i], tenant, closure.seen)
    {
      ghost var before := closure.seen;
      CollectPrincipal(closure, ev.assignments, principals[i], v, ev.inheritGlobal, subject, tenant);
      CoversOneMore(v, principals, i, tenant, before, closure.seen);
    }
    assert principals[..|principals|] == principals;
    roleIDs := closure.seen;
    ClosedSetIsComplete(v, subject, tenant, roleIDs);
  }

  lemma {:induction false} BucketOfPrincipal(v: View, p: Principal)
    ensures forall a :: a in Get(Index(v.assignments, SubjectKey), p) <==> a in v.assignments && SubjectKey(a) == p
  {
    IndexIsScan(v.assignments, SubjectKey, p);
    FilterElements(v.assignments, Keyed(SubjectKey, p));
  }

  lemma CoversOneMore(v: View, ps: seq<Principal>, i: nat, tenant: string, before: set<RoleID>, after: set<RoleID>)
    requires i < |ps| && before <= after && Covers(v, ps[..i], tenant, before) && Covers(v, [ps[i]], tenant, after)
    ensures Covers(v, ps[..i + 1], tenant, after)
  {
    assert ps[..i + 1] == ps[..i] + [ps[i]];
  }

  lemma ClosedSetIsComplete(v: View, subject: Subject, tenant: string, seen: set<RoleID>)
    requires ClosedExcept(RoleMap(v.roles), seen, {})
    requires forall a :: a in v.assignments && AppliesTo(v, subject, tenant, a) ==> a.roleID in seen
    ensures forall x :: HoldsRole(v, subject, tenant, x) ==> x in seen
  {
    var roles := RoleMap(v.roles);
    forall x | HoldsRole(v, subject, tenant, x) ensures x in seen {
      var a :| a in v.assignments && AppliesTo(v, subject, tenant, a) && Reaches(roles, a.roleID, x);
      var c :| IsChain(roles, c) && c[0] == a.roleID && c[|c| - 1] == x;
      ClosedHoldsChain(roles, seen, c);
    }
  }

  /** Ranging over the role set in any order gathers each of its permissions once. */
  method GatherPermissions(index: map<RoleID, Slice<Permission>>, ghost v: View, roleIDs: set<RoleID>)
    returns (gathered: seq<Permission>)
    requires Holds(index, Index(v.permissions, PermissionRole)) && DistinctRanks(v.permissions, PermissionRank)
    ensures forall p :: p in gathered <==> p in v.permissions && p.roleID in roleIDs
    ensures DistinctRanks(gathered, PermissionRank)
  {
    gathered := [];
    var todo := roleIDs;
    while todo != {}
      invariant todo <= roleIDs
      invariant forall p :: p in gathered <==> p in v.permissions && p.roleID in roleIDs - todo
      invariant DistinctRanks(gathered, PermissionRank)
    {
      var roleID :| roleID in todo;
      var mine := Lookup(index, roleID);
      LookupIsGet(index, Index(v.permissions, PermissionRole), roleID);
      BucketOfRole(v, roleID);
      GatherDistinct(v, gathered, mine, roleID);
      gathered := gathered + mine;
      todo := todo - {roleID};
    }
  }

  lemma BucketOfRole(v: View, roleID: RoleID)
    requires DistinctRanks(v.permissions, PermissionRank)
    ensures var mine := Get(Index(v.permissions, PermissionRole), roleID);
            DistinctRanks(mine, PermissionRank) && forall p :: p in mine <==> p in v.permissions && p.roleID == roleID
  {
    var keep := Keyed(PermissionRole, roleID);
    IndexIsScan(v.permissions, PermissionRole, roleID);
    FilterElements(v.permissions, keep);
    FilterDistinct(v.permissions, keep, PermissionRank);
    assert forall p :: PermissionRole(p) == p.roleID;
  }

  /** EffectivePermissions returns exactly the reference scan, in its one possible order. */
  method EffectivePermissions(ev: Evaluator, ghost v: View, subject: Subject, tenant: string)
    returns (r: Result<seq<Permission>, Error>)
    requires ev.Represents(v)
    ensures r == if |subject.groups| > v.limits.maxGroups then Err(GroupLimitExceeded)
                 else Ok(Effective(v, subject, tenant))
  {
    if |subject.groups| > ev.limits.maxGroups {
      return Err(GroupLimitExceeded);
    }
    var roleIDs := CollectRoles(ev, v, subject, tenant);
    PermissionsDistinct(v);
    var gathered := GatherPermissions(ev.permissions, v, roleIDs);
    var sorted := SortFunc(gathered, PermissionRank);
    SortIsEffective(v, subject, tenant, gathered, sorted);
    return Ok(sorted);
  }

  lemma SortIsEffective(v: View, subject: Subject, tenant: string, gathered: seq<Permission>, sorted: seq<Permission>)
    requires PermissionsFine(v) && DistinctRanks(gathered, PermissionRank)
    requires forall p :: p in gathered <==> p in v.permissions && HoldsRole(v, subject, tenant, p.roleID)
    requires multiset(sorted) == multiset(gathered) && Sorted(sorted, PermissionRank)
    ensures sorted == Effective(v, subject, tenant)
  {
    SortedDistinct(gathered, sorted, PermissionRank);
    SameElements(gathered, sorted);
    EffectiveElements(v, subject, tenant);
    StrictlySortedUnique(sorted, Effective(v, subject, tenant), PermissionRank);
  }

  lemma GatherDistinct(v: View, gathered: seq<Permission>, mine: seq<Permission>, roleID: RoleID)
    requires DistinctRanks(v.permissions, PermissionRank)
    requires DistinctRanks(gathered, PermissionRank) && DistinctRanks(mine, PermissionRank)
    requires forall p :: p in gathered ==> p in v.permissions && p.roleID != roleID
    requires forall p :: p in mine ==> p in v.permissions && p.roleID == roleID
    ensures DistinctRanks(gathered + mine, PermissionRank)
  {
    forall i, j | 0 <= i < |gathered| && 0 <= j < |mine|
      ensures PermissionRank(gathered[i]) != PermissionRank(mine[j])
    {
      var p, q := gathered[i], mine[j];
      assert p in gathered && q in mine;
      var a :| 0 <= a < |v.permissions| && v.permissions[a] == p;
      var b :| 0 <= b < |v.permissions| && v.permissions[b] == q;
      assert a < b || b < a;
    }
  }

  /** Each effective permission occurs once, and the list holds exactly those of the roles held. */
  lemma {:induction false} EffectiveElements(v: View, subject: Subject, tenant: string)
    requires PermissionsFine(v)
    ensures StrictlySorted(Effective(v, subject, tenant), PermissionRank)
    ensures forall p :: p in Effective(v, subject, tenant) <==>
      p in v.permissions && HoldsRole(v, subject, tenant, p.roleID)
  {
    var held := Filter(v.permissions, Holding(v, subject, tenant));
    PermissionsDistinct(v);
    FilterDistinct(v.permissions, Holding(v, subject, tenant), PermissionRank);
    FilterElements(v.permissions, Holding(v, subject, tenant));
    SortSorted(held, PermissionRank);
    SortedDistinct(held, Sort(held, PermissionRank), PermissionRank);
    SameElements(held, Sort(held, PermissionRank));
  }

  lemma HeldRoleTenant(v: View, subject: Subject, tenant: string, roleID: RoleID)
    requires ParentsResolve(RoleMap(v.roles)) && AssignmentsFine(v) && HoldsRole(v, subject, tenant, roleID)
    ensures roleID in RoleMap(v.roles) && MatchesTenant(v.inheritGlobal, RoleMap(v.roles)[roleID].tenant, tenant)
  {
    var roles := RoleMap(v.roles);
    var a :| a in v.assignments && AppliesTo(v, subject, tenant, a) && Reaches(roles, a.roleID, roleID);
    var c :| IsChain(roles, c) && c[0] == a.roleID && c[|c| - 1] == roleID;
    AssignedRoleExists(v, a);
    ChainKeepsTenant(roles, c);
  }

  lemma PermissionTenant(v: View, p: Permission)
    requires PermissionsFine(v) && p in v.permissions
    ensures p.roleID in RoleMap(v.roles) && RoleMap(v.roles)[p.roleID].tenant == p.tenant
  {
    var i :| 0 <= i < |v.permissions| && v.permissions[i] == p;
    assert PermissionFault(RoleMap(v.roles), v.permissions, i) == None;
  }

  /** Tenant isolation: inheritance cannot import a permission from another tenant. */
  lemma EffectiveTenant(v: View, subject: Subject, tenant: string, p: Permission)
    requires WellFormed(v) && p in Effective(v, subject, tenant)
    ensures p.tenant == tenant || (v.inheritGlobal && p.tenant == "" && tenant != "")
  {
    EffectiveElements(v, subject, tenant);
    HeldRoleTenant(v, subject, tenant, p.roleID);
    PermissionTenant(v, p);
  }

  // ---- Evaluate ----

  predicate MatchesRequest(p: Permission, request: Request) {
    p.action == request.action && p.resourceType == request.resource.kind &&
    (p.resourceID == "" || p.resourceID == request.resource.id)
  }

  function AsMatches(ps: seq<Permission>): seq<Match> {
    seq(|ps|, i requires 0 <= i < |ps| => Match(ps[i].id, ps[i].effect))
  }

  ghost function Granting(v: View, request: Request): Permission -> bool {
    (p: Permission) => HoldsRole(v, request.subject, request.tenant, p.roleID) && MatchesRequest(p, request)
  }

  /** The permissions that decide a request, straight from the definitions. */
  ghost function Deciding(v: View, request: Request): seq<Permission> {
    Sort(Filter(v.permissions, Granting(v, request)), PermissionRank)
  }

  const LIMITED := Plain(Deny, LIMIT_REASON)

  /** The decision table over the deciding permissions. */
  ghost function Decide(v: View, request: Request): Evaluation<Error> {
    if |request.subject.groups| > v.limits.maxGroups then Evaluation(LIMITED, Some(GroupLimitExceeded))
    else if |Deciding(v, request)| > v.limits.maxMatches then Evaluation(LIMITED, Some(MatchLimitExceeded))
    else Evaluation(Summarize(AsMatches(Deciding(v, request)), ALLOW_REASON, DENY_REASON), None)
  }

  ghost function Matching(request: Request): Permission -> bool { p => MatchesRequest(p, request) }

  lemma DecidingElements(v: View, request: Request)
    requires PermissionsFine(v)
    ensures StrictlySorted(Deciding(v, request), PermissionRank)
    ensures forall p :: p in Deciding(v, request) <==> p in v.permissions && Granting(v, request)(p)
  {
    var granted := Filter(v.permissions, Granting(v, request));
    PermissionsDistinct(v);
    FilterDistinct(v.permissions, Granting(v, request), PermissionRank);
    FilterElements(v.permissions, Granting(v, request));
    SortSorted(granted, PermissionRank);
    SortedDistinct(granted, Sort(granted, PermissionRank), PermissionRank);
    SameElements(granted, Sort(granted, PermissionRank));
  }

  /** Matching after sorting keeps the same permissions in the same order. */
  lemma MatchEffective(v: View, request: Request)
    requires PermissionsFine(v)
    ensures Filter(Effective(v, request.subject, request.tenant), Matching(request)) == Deciding(v, request)
  {
    var effective := Effective(v, request.subject, request.tenant);
    EffectiveElements(v, request.subject, request.tenant);
    DecidingElements(v, request);
    FilterElements(effective, Matching(request));
    FilterStrictlySorted(effective, Matching(request), PermissionRank);
    StrictlySortedUnique(Filter(effective, Matching(request)), Deciding(v, request), PermissionRank);
  }

  /** The matching loop: stops at the first match beyond the limit. */
  method Settle(ps: seq<Permission>, request: Request, maxMatches: nat) returns (r: Evaluation<Error>)
    ensures r == var found := Filter(ps, Matching(request));
                 if |found| > maxMatches then Evaluation(LIMITED, Some(MatchLimitExceeded))
                 else Evaluation(Summarize(AsMatches(found), ALLOW_REASON, DENY_REASON), None)
  {
    var decision := NO_MATCH;
    ghost var keep := Matching(request);
    ghost var found: seq<Permission> := [];
    for i := 0 to |ps|
      invariant found == Filter(ps[..i], keep) && |found| <= maxMatches
      invariant decision == Summarize(AsMatches(found), ALLOW_REASON, DENY_REASON)
      invariant |decision.matched| == |found|
    {
      assert ps[..i + 1] == ps[..i] + [ps[i]];
      FilterAppend(ps[..i], [ps[i]], keep);
      if MatchesRequest(ps[i], request) {
        if |decision.matched| >= maxMatches {
          assert ps == ps[..i + 1] + ps[i + 1..];
          FilterAppend(ps[..i + 1], ps[i + 1..], keep);
          return Evaluation(LIMITED, Some(MatchLimitExceeded));
        }
        AddMatchSummarizes(AsMatches(found), Match(ps[i].id, ps[i].effect), ALLOW_REASON, DENY_REASON);
        assert AsMatches(found + [ps[i]]) == AsMatches(found) + [Match(ps[i].id, ps[i].effect)];
        decision := AddMatch(decision, Match(ps[i].id, ps[i].effect), ALLOW_REASON, DENY_REASON);
        found := found + [ps[i]];
      }
    }
    assert ps[..|ps|] == ps;
    return Evaluation(decision, None);
  }

  /** Evaluate refines the decision table, including both limit denials. */
  method Evaluate(ev: Evaluator, ghost v: View, request: Request) returns (r: Evaluation<Error>)
    requires ev.Represents(v)
    ensures r == Decide(v, request)
  {
    var permissions := EffectivePermissions(ev, v, request.subject, request.tenant);
    if permissions.Err? {
      return Evaluation(LIMITED, Some(permissions.error));
    }
    MatchEffective(v, request);
    r := Settle(permissions.value, request, ev.limits.maxMatches);
  }
}
