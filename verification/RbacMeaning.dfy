// What the role-based model accepts and decides, said in the fields of the caller's
// definitions and of the request: lists of roles, permissions and assignments, and
// no index, sort, filter or matching predicate of the model.
module RbacMeaning {
  import opened Ordering
  import opened Decisions
  import opened RoleGraph
  import opened Rbac
  import RbacManager

  // ---- Paths of roles ----

  /** Roles as defined, each naming the next among its parents. */
  ghost predicate IsPath(roles: seq<Role>, path: seq<Role>) {
    && path != []
    && (forall i :: 0 <= i < |path| ==> path[i] in roles)
    && (forall i :: 0 <= i < |path| - 1 ==> path[i + 1].id in path[i].parents)
  }

  function IDsOf(path: seq<Role>): seq<RoleID> { seq(|path|, i requires 0 <= i < |path| => path[i].id) }

  ghost predicate DistinctRoles(roles: seq<Role>) { forall i, j :: 0 <= i < j < |roles| ==> roles[i].id != roles[j].id }

  lemma {:induction false} RoleMapMeans(roles: seq<Role>, role: Role)
    requires DistinctRoles(roles)
    ensures role in roles <==> role.id in RoleMap(roles) && RoleMap(roles)[role.id] == role
  {
    if roles != [] {
      var init, last := roles[..|roles| - 1], roles[|roles| - 1];
      assert roles == init + [last];
      RoleMapMeans(init, role);
      forall i | 0 <= i < |init| ensures init[i].id != last.id {
        assert init[i] == roles[i];
      }
    }
  }

  lemma {:induction false} RoleMapSelf(roles: seq<Role>, id: RoleID)
    requires id in RoleMap(roles)
    ensures RoleMap(roles)[id].id == id && RoleMap(roles)[id] in roles
  {
    var init, last := roles[..|roles| - 1], roles[|roles| - 1];
    assert roles == init + [last];
    if id != last.id { RoleMapSelf(init, id); }
  }

  lemma PathIsChain(roles: seq<Role>, path: seq<Role>)
    requires DistinctRoles(roles) && IsPath(roles, path)
    ensures IsChain(RoleMap(roles), IDsOf(path))
  {
    var c := IDsOf(path);
    forall i | 0 <= i < |c| ensures c[i] in RoleMap(roles) && RoleMap(roles)[c[i]] == path[i] {
      RoleMapMeans(roles, path[i]);
    }
  }

  lemma ChainIsPath(roles: seq<Role>, c: seq<RoleID>) returns (path: seq<Role>)
    requires IsChain(RoleMap(roles), c)
    ensures IsPath(roles, path) && IDsOf(path) == c
  {
    path := seq(|c|, i requires 0 <= i < |c| => RoleMap(roles)[c[i]]);
    forall i | 0 <= i < |c| ensures path[i] in roles && path[i].id == c[i] {
      RoleMapSelf(roles, c[i]);
    }
  }

  // ---- Roles held ----

  /** The assignment names the subject or one of its groups, in a tenant that the request may use. */
  predicate Assigned(a: Assignment, subject: Subject, tenant: string, inheritGlobal: bool) {
    && (|| (a.subject.kind == subject.kind && a.subject.id == subject.id)
        || (a.subject.kind == "group" && a.subject.id in subject.groups))
    && (a.tenant == tenant || (inheritGlobal && a.tenant == "" && tenant != ""))
  }

  ghost predicate LeadsTo(roles: seq<Role>, from: RoleID, to: RoleID) {
    exists path: seq<Role> :: IsPath(roles, path) && path[0].id == from && path[|path| - 1].id == to
  }

  /** Some assignment in scope leads to the role. */
  ghost predicate Held(v: View, subject: Subject, tenant: string, roleID: RoleID) {
    exists a ::
      a in v.assignments && Assigned(a, subject, tenant, v.inheritGlobal) && LeadsTo(v.roles, a.roleID, roleID)
  }

  lemma LeadsToMeans(roles: seq<Role>, from: RoleID, to: RoleID)
    requires DistinctRoles(roles)
    ensures Reaches(RoleMap(roles), from, to) <==> LeadsTo(roles, from, to)
  {
    if Reaches(RoleMap(roles), from, to) {
      var c :| IsChain(RoleMap(roles), c) && c[0] == from && c[|c| - 1] == to;
      var path := ChainIsPath(roles, c);
      assert IDsOf(path)[0] == path[0].id && IDsOf(path)[|path| - 1] == path[|path| - 1].id;
    }
    if path: seq<Role> :| IsPath(roles, path) && path[0].id == from && path[|path| - 1].id == to {
      PathIsChain(roles, path);
      assert IDsOf(path)[0] == from && IDsOf(path)[|path| - 1] == to;
    }
  }

  lemma AssignedMeans(v: View, a: Assignment, subject: Subject, tenant: string)
    ensures AppliesTo(v, subject, tenant, a) <==> Assigned(a, subject, tenant, v.inheritGlobal)
  {
  }

  lemma HeldMeans(v: View, subject: Subject, tenant: string, roleID: RoleID)
    requires DistinctRoles(v.roles)
    ensures HoldsRole(v, subject, tenant, roleID) <==> Held(v, subject, tenant, roleID)
  {
    forall a | a in v.assignments
      ensures AppliesTo(v, subject, tenant, a) && Reaches(RoleMap(v.roles), a.roleID, roleID) <==>
              Assigned(a, subject, tenant, v.inheritGlobal) && LeadsTo(v.roles, a.roleID, roleID)
    {
      AssignedMeans(v, a, subject, tenant);
      LeadsToMeans(v.roles, a.roleID, roleID);
    }
    if HoldsRole(v, subject, tenant, roleID) {
      var a :| a in v.assignments && AppliesTo(v, subject, tenant, a) && Reaches(RoleMap(v.roles), a.roleID, roleID);
      assert Assigned(a, subject, tenant, v.inheritGlobal) && LeadsTo(v.roles, a.roleID, roleID);
    }
    if Held(v, subject, tenant, roleID) {
      var a :|
        a in v.assignments && Assigned(a, subject, tenant, v.inheritGlobal) && LeadsTo(v.roles, a.roleID, roleID);
      assert AppliesTo(v, subject, tenant, a) && Reaches(RoleMap(v.roles), a.roleID, roleID);
    }
  }

  // ---- Decisions ----

  /** A permission of a held role that is about the request. */
  ghost predicate Fits(v: View, request: Request, p: Permission) {
    && p in v.permissions && Held(v, request.subject, request.tenant, p.roleID)
    && p.action == request.action && p.resourceType == request.resource.kind
    && (p.resourceID == "" || p.resourceID == request.resource.id)
  }

  ghost predicate SomeFit(v: View, request: Request, effect: Outcome) {
    exists p :: Fits(v, request, p) && p.effect == effect
  }

  /** Higher priority first, and among equals the smaller identifier. */
  ghost predicate Ranked(ps: seq<Permission>) {
    forall i, j :: 0 <= i < j < |ps| ==>
      ps[i].priority > ps[j].priority || (ps[i].priority == ps[j].priority && StringLess(ps[i].id, ps[j].id))
  }

  /** The fitting permissions, in rank order; the order is unique. */
  ghost predicate Lists(v: View, request: Request, ps: seq<Permission>) {
    Ranked(ps) && forall p :: p in ps <==> Fits(v, request, p)
  }

  lemma RolesAreDistinct(v: View)
    requires RolesFine(v)
    ensures DistinctRoles(v.roles)
  {
    forall i, j | 0 <= i < j < |v.roles| ensures v.roles[i].id != v.roles[j].id {
      assert RoleFault(v.roles, j) == None;
    }
  }

  lemma DecidingMeans(v: View, request: Request)
    requires WellFormed(v)
    ensures Lists(v, request, Deciding(v, request))
  {
    var ps := Deciding(v, request);
    RolesAreDistinct(v);
    DecidingElements(v, request);
    forall p ensures p in ps <==> Fits(v, request, p) {
      HeldMeans(v, request.subject, request.tenant, p.roleID);
    }
    forall i, j | 0 <= i < j < |ps|
      ensures ps[i].priority > ps[j].priority || (ps[i].priority == ps[j].priority && StringLess(ps[i].id, ps[j].id))
    {
      assert Before(PermissionRank(ps[i]), PermissionRank(ps[j]));
    }
  }

  lemma ListsUnique(v: View, request: Request, ps: seq<Permission>, qs: seq<Permission>)
    requires Lists(v, request, ps) && Lists(v, request, qs)
    ensures ps == qs
  {
    assert StrictlySorted(ps, FieldRank) && StrictlySorted(qs, FieldRank);
    StrictlySortedUnique(ps, qs, FieldRank);
  }

  function FieldRank(p: Permission): Rank { Rank(p.priority, p.id) }

  /** What a decision says when these permissions, in rank order, are the ones that fit. */
  ghost predicate TableSays(d: Decision, ps: seq<Permission>, denied: bool, allowed: bool) {
    && (d.outcome == Deny <==> denied)
    && (d.outcome == Allow <==> allowed && !denied)
    && (d.outcome == NotApplicable <==> !allowed && !denied)
    && d.reason == (if denied then "rbac-explicit-deny" else if allowed then "rbac-allow" else "")
    && |d.matched| == |ps| && (forall i :: 0 <= i < |ps| ==> d.matched[i] == ps[i].id)
  }

  lemma {:induction false} TableMeans(ps: seq<Permission>)
    requires forall p :: p in ps ==> p.effect == Allow || p.effect == Deny
    ensures TableSays(Summarize(AsMatches(ps), ALLOW_REASON, DENY_REASON), ps,
                      exists p :: p in ps && p.effect == Deny, exists p :: p in ps && p.effect == Allow)
  {
    var ms := AsMatches(ps);
    EffectsCarry(ps, Deny);
    EffectsCarry(ps, Allow);
    forall m | m in ms ensures m.effect == Allow || m.effect == Deny {
      var i :| 0 <= i < |ms| && ms[i] == m;
      assert ps[i] in ps;
    }
    SummarizeMeans(ms, ALLOW_REASON, DENY_REASON);
    if ps != [] { assert ps[0] in ps; }
  }

  lemma {:induction false} EffectsCarry(ps: seq<Permission>, effect: Outcome)
    ensures HasEffect(AsMatches(ps), effect) <==> exists p :: p in ps && p.effect == effect
  {
    if HasEffect(AsMatches(ps), effect) {
      var m :| m in AsMatches(ps) && m.effect == effect;
      var i :| 0 <= i < |ps| && AsMatches(ps)[i] == m;
      assert ps[i] in ps;
    }
    if p :| p in ps && p.effect == effect {
      var i :| 0 <= i < |ps| && ps[i] == p;
      assert AsMatches(ps)[i] in AsMatches(ps);
    }
  }

  /** The whole decision on a request, given the fitting permissions in rank order. */
  lemma {:induction false} DecideMeans(v: View, request: Request, ps: seq<Permission>)
    requires WellFormed(v) && Lists(v, request, ps)
    ensures var r := Decide(v, request);
            if |request.subject.groups| > v.limits.maxGroups then
              r == Evaluation(Plain(Deny, "rbac-limit-exceeded"), Some(GroupLimitExceeded))
            else if |ps| > v.limits.maxMatches then
              r == Evaluation(Plain(Deny, "rbac-limit-exceeded"), Some(MatchLimitExceeded))
            else
              r.error == None && TableSays(r.decision, ps, SomeFit(v, request, Deny), SomeFit(v, request, Allow))
  {
    DecidingMeans(v, request);
    ListsUnique(v, request, ps, Deciding(v, request));
    forall p | p in ps ensures p.effect == Allow || p.effect == Deny { EffectIsExplicit(v, p); }
    TableMeans(ps);
    forall effect ensures SomeFit(v, request, effect) <==> exists p :: p in ps && p.effect == effect {
    }
  }

  lemma EffectIsExplicit(v: View, p: Permission)
    requires PermissionsFine(v) && p in v.permissions
    ensures p.effect == Allow || p.effect == Deny
  {
    var i :| 0 <= i < |v.permissions| && v.permissions[i] == p;
    assert PermissionFault(RoleMap(v.roles), v.permissions, i) == None;
  }

  /** An evaluator allows exactly when, within the limits, some permission of a held role that is about the request
      allows and none denies. */
  lemma {:induction false} AllowsIff(v: View, request: Request)
    requires WellFormed(v)
    ensures Decide(v, request).decision.outcome == Allow <==>
            && |request.subject.groups| <= v.limits.maxGroups
            && (exists ps :: Lists(v, request, ps) && |ps| <= v.limits.maxMatches)
            && SomeFit(v, request, Allow) && !SomeFit(v, request, Deny)
  {
    var ps := Deciding(v, request);
    DecidingMeans(v, request);
    DecideMeans(v, request, ps);
    if qs :| Lists(v, request, qs) && |qs| <= v.limits.maxMatches { ListsUnique(v, request, ps, qs); }
  }

  /** With inheritance on, a global assignment is in force in every tenant; with it off, only globally. */
  lemma GlobalAssignment(v: View, a: Assignment, subject: Subject, tenant: string)
    requires RolesFine(v) && ParentsResolve(RoleMap(v.roles)) && AssignmentsFine(v) && a in v.assignments
    requires a.tenant == "" && a.subject.kind == subject.kind && a.subject.id == subject.id
    requires v.inheritGlobal || tenant == ""
    ensures HoldsRole(v, subject, tenant, a.roleID)
  {
    AssignedRoleExists(v, a);
    ReachesSelf(RoleMap(v.roles), a.roleID);
    AssignedMeans(v, a, subject, tenant);
  }

  // ---- Definitions that New accepts ----

  ghost predicate RolesAcceptable(v: View) {
    && DistinctRoles(v.roles)
    && (forall r :: r in v.roles ==> r.id != "")
    && (forall r, id :: r in v.roles && id in r.parents ==> ParentDefined(v.roles, r, id))
    && (forall path :: !BadPath(v, path))
  }

  /** The parent is a defined role of the child's tenant. */
  ghost predicate ParentDefined(roles: seq<Role>, r: Role, id: RoleID) {
    exists q :: q in roles && q.id == id && q.tenant == r.tenant
  }

  ghost predicate RoleDefined(roles: seq<Role>, id: RoleID, tenant: string) {
    exists q :: q in roles && q.id == id && q.tenant == tenant
  }

  ghost predicate PermissionsAcceptable(v: View) {
    && (forall i, j :: 0 <= i < j < |v.permissions| ==> v.permissions[i].id != v.permissions[j].id)
    && (forall p :: p in v.permissions ==>
          && p.id != "" && p.roleID != "" && p.action != "" && p.resourceType != ""
          && (p.effect == Allow || p.effect == Deny) && RoleDefined(v.roles, p.roleID, p.tenant))
  }

  ghost predicate AssignmentsAcceptable(v: View) {
    && (forall i, j :: 0 <= i < j < |v.assignments| ==> v.assignments[i].id != v.assignments[j].id)
    && (forall a :: a in v.assignments ==>
          && a.id != "" && a.subject.kind != "" && a.subject.id != "" && a.roleID != ""
          && RoleDefined(v.roles, a.roleID, a.tenant))
  }

  ghost predicate Acceptable(v: View) {
    && |v.roles| <= v.limits.maxRoles && |v.permissions| <= v.limits.maxPermissions
    && |v.assignments| <= v.limits.maxAssignments
    && RolesAcceptable(v) && PermissionsAcceptable(v) && AssignmentsAcceptable(v)
  }

  lemma DistinctMeansNoFault(v: View)
    ensures RolesFine(v) <==> DistinctRoles(v.roles) && forall r :: r in v.roles ==> r.id != ""
  {
    if RolesFine(v) {
      RolesAreDistinct(v);
      forall r | r in v.roles ensures r.id != "" {
        var i :| 0 <= i < |v.roles| && v.roles[i] == r;
        assert RoleFault(v.roles, i) == None;
      }
    } else {
      var i :| 0 <= i < |v.roles| && RoleFault(v.roles, i) != None;
      assert v.roles[i] in v.roles;
    }
  }

  lemma RoleDefinedMeans(roles: seq<Role>, id: RoleID, tenant: string)
    requires DistinctRoles(roles)
    ensures RoleDefined(roles, id, tenant) <==> id in RoleMap(roles) && RoleMap(roles)[id].tenant == tenant
  {
    if id in RoleMap(roles) { RoleMapSelf(roles, id); }
    if q :| q in roles && q.id == id && q.tenant == tenant { RoleMapMeans(roles, q); }
  }

  lemma ParentsMean(v: View)
    requires DistinctRoles(v.roles)
    ensures ParentsResolve(RoleMap(v.roles)) <==>
            forall r, id :: r in v.roles && id in r.parents ==> ParentDefined(v.roles, r, id)
  {
    var roles := RoleMap(v.roles);
    if ParentsResolve(roles) {
      forall r, id | r in v.roles && id in r.parents ensures ParentDefined(v.roles, r, id) {
        RoleMapMeans(v.roles, r);
        RoleMapSelf(v.roles, id);
      }
    }
    if forall r, id :: r in v.roles && id in r.parents ==> ParentDefined(v.roles, r, id) {
      forall r, id | r in roles && id in roles[r].parents ensures id in roles && roles[id].tenant == roles[r].tenant {
        RoleMapSelf(v.roles, r);
        assert ParentDefined(v.roles, roles[r], id);
        RoleDefinedMeans(v.roles, id, roles[r].tenant);
      }
    }
  }

  /** A path that returns to its start, or is too long. */
  ghost predicate BadPath(v: View, path: seq<Role>) {
    IsPath(v.roles, path) && ((|path| > 1 && path[0] == path[|path| - 1]) || |path| - 1 > v.limits.maxInheritanceDepth)
  }

  lemma PathsMean(v: View)
    requires DistinctRoles(v.roles)
    ensures !HasCycle(RoleMap(v.roles)) && ChainsWithin(RoleMap(v.roles), v.limits.maxInheritanceDepth) <==>
            forall path :: !BadPath(v, path)
  {
    var roles := RoleMap(v.roles);
    if path :| BadPath(v, path) {
      PathIsChain(v.roles, path);
      var c := IDsOf(path);
      assert |c| > 1 && path[0] == path[|path| - 1] ==> IsCycle(roles, c);
    }
    if HasCycle(roles) {
      var c :| IsCycle(roles, c);
      ChainIsBad(v, c);
    }
    if c :| IsChain(roles, c) && |c| - 1 > v.limits.maxInheritanceDepth {
      ChainIsBad(v, c);
    }
  }

  lemma ChainIsBad(v: View, c: seq<RoleID>)
    requires DistinctRoles(v.roles) && IsChain(RoleMap(v.roles), c)
    requires IsCycle(RoleMap(v.roles), c) || |c| - 1 > v.limits.maxInheritanceDepth
    ensures exists path :: BadPath(v, path)
  {
    var path := ChainIsPath(v.roles, c);
    var last := |c| - 1;
    assert IDsOf(path)[0] == c[0] && IDsOf(path)[last] == c[last];
    RoleMapMeans(v.roles, path[0]);
    RoleMapMeans(v.roles, path[last]);
    assert BadPath(v, path);
  }

  lemma PermissionsMean(v: View)
    requires DistinctRoles(v.roles)
    ensures PermissionsFine(v) <==> PermissionsAcceptable(v)
  {
    var roles, ps := RoleMap(v.roles), v.permissions;
    if PermissionsFine(v) {
      forall i, j | 0 <= i < j < |ps| ensures ps[i].id != ps[j].id {
        assert PermissionFault(roles, ps, j) == None;
      }
      forall p | p in ps
        ensures && p.id != "" && p.roleID != "" && p.action != "" && p.resourceType != ""
                && (p.effect == Allow || p.effect == Deny) && RoleDefined(v.roles, p.roleID, p.tenant)
      {
        var i :| 0 <= i < |ps| && ps[i] == p;
        assert PermissionFault(roles, ps, i) == None;
        RoleDefinedMeans(v.roles, p.roleID, p.tenant);
      }
    }
    if PermissionsAcceptable(v) {
      forall i | 0 <= i < |ps| ensures PermissionFault(roles, ps, i) == None {
        assert ps[i] in ps;
        RoleDefinedMeans(v.roles, ps[i].roleID, ps[i].tenant);
      }
    }
  }

  lemma AssignmentsMean(v: View)
    requires DistinctRoles(v.roles)
    ensures AssignmentsFine(v) <==> AssignmentsAcceptable(v)
  {
    var roles, all := RoleMap(v.roles), v.assignments;
    if AssignmentsFine(v) {
      forall i, j | 0 <= i < j < |all| ensures all[i].id != all[j].id {
        assert AssignmentFault(roles, all, j) == None;
      }
      forall a | a in all
        ensures && a.id != "" && a.subject.kind != "" && a.subject.id != "" && a.roleID != ""
                && RoleDefined(v.roles, a.roleID, a.tenant)
      {
        var i :| 0 <= i < |all| && all[i] == a;
        assert AssignmentFault(roles, all, i) == None;
        RoleDefinedMeans(v.roles, a.roleID, a.tenant);
      }
    }
    if AssignmentsAcceptable(v) {
      forall i | 0 <= i < |all| ensures AssignmentFault(roles, all, i) == None {
        assert all[i] in all;
        RoleDefinedMeans(v.roles, all[i].roleID, all[i].tenant);
      }
    }
  }

  /** New accepts exactly these definitions. */
  lemma {:induction false} AcceptsIff(v: View)
    ensures WellFormed(v) <==> Acceptable(v)
  {
    DistinctMeansNoFault(v);
    if DistinctRoles(v.roles) {
      ParentsMean(v);
      PathsMean(v);
      PermissionsMean(v);
      AssignmentsMean(v);
    }
  }

  // ---- Which error New reports ----

  ghost predicate PermissionFields(p: Permission) {
    p.id != "" && p.roleID != "" && p.action != "" && p.resourceType != "" && p.effect in {Allow, Deny}
  }

  ghost predicate AssignmentFields(a: Assignment) {
    a.id != "" && a.subject.kind != "" && a.subject.id != "" && a.roleID != ""
  }

  /** A repeated identifier is reported only for complete definitions, an unknown role only for new identifiers, and a
      tenant mismatch only for a role that is known. */
  lemma PermissionErrors(v: View, i: nat)
    requires DistinctRoles(v.roles) && i < |v.permissions|
    ensures var p, fault := v.permissions[i], PermissionFault(RoleMap(v.roles), v.permissions, i);
            var repeated := exists j :: 0 <= j < i && v.permissions[j].id == p.id;
            var known := exists q :: q in v.roles && q.id == p.roleID;
            && (fault == Some(InvalidPermission) <==> !PermissionFields(p))
            && (fault == Some(DuplicatePermission) <==> PermissionFields(p) && repeated)
            && (fault == Some(UnknownRole) <==> PermissionFields(p) && !repeated && !known)
            && (fault == Some(RoleTenantMismatch) <==>
                  PermissionFields(p) && !repeated && known && !RoleDefined(v.roles, p.roleID, p.tenant))
  {
    var p := v.permissions[i];
    KnownMeans(v.roles, p.roleID);
    RoleDefinedMeans(v.roles, p.roleID, p.tenant);
  }

  lemma AssignmentErrors(v: View, i: nat)
    requires DistinctRoles(v.roles) && i < |v.assignments|
    ensures var a, fault := v.assignments[i], AssignmentFault(RoleMap(v.roles), v.assignments, i);
            var repeated := exists j :: 0 <= j < i && v.assignments[j].id == a.id;
            var known := exists q :: q in v.roles && q.id == a.roleID;
            && (fault == Some(InvalidAssignment) <==> !AssignmentFields(a))
            && (fault == Some(DuplicateAssignment) <==> AssignmentFields(a) && repeated)
            && (fault == Some(UnknownRole) <==> AssignmentFields(a) && !repeated && !known)
            && (fault == Some(RoleTenantMismatch) <==>
                  AssignmentFields(a) && !repeated && known && !RoleDefined(v.roles, a.roleID, a.tenant))
  {
    var a := v.assignments[i];
    KnownMeans(v.roles, a.roleID);
    RoleDefinedMeans(v.roles, a.roleID, a.tenant);
  }

  lemma KnownMeans(roles: seq<Role>, id: RoleID)
    ensures id in RoleMap(roles) <==> exists q :: q in roles && q.id == id
  {
    RoleMapKeys(roles, id);
    if id in RoleMap(roles) { RoleMapSelf(roles, id); }
    if q :| q in roles && q.id == id {
      var j :| 0 <= j < |roles| && roles[j] == q;
    }
  }

  lemma RoleErrors(v: View, i: nat)
    requires i < |v.roles|
    ensures RoleFault(v.roles, i) == Some(InvalidRole) <==> v.roles[i].id == ""
    ensures RoleFault(v.roles, i) == Some(DuplicateRole) <==>
            v.roles[i].id != "" && exists j :: 0 <= j < i && v.roles[j].id == v.roles[i].id
  {
  }

  /** Limits are checked first. */
  lemma LimitErrors(v: View, e: Error)
    requires Rejects(v, e)
    ensures |v.roles| > v.limits.maxRoles ==> e == RoleLimitExceeded
    ensures |v.roles| <= v.limits.maxRoles && |v.permissions| > v.limits.maxPermissions ==> e == PermissionLimitExceeded
    ensures (|v.roles| <= v.limits.maxRoles && |v.permissions| <= v.limits.maxPermissions &&
             |v.assignments| > v.limits.maxAssignments) ==> e == AssignmentLimitExceeded
  {
  }

  lemma PhaseFaults(v: View, e: Error)
    ensures FirstRoleFault(v, e) ==> e in {InvalidRole, DuplicateRole}
    ensures FirstPermissionFault(v, e) ==>
            e in {InvalidPermission, DuplicatePermission, UnknownRole, RoleTenantMismatch}
    ensures FirstAssignmentFault(v, e) ==>
            e in {InvalidAssignment, DuplicateAssignment, UnknownRole, RoleTenantMismatch}
  {
  }

  /** Then roles, their graph, permissions and assignments, in this order. */
  lemma PhaseErrors(v: View, e: Error)
    requires WithinCounts(v) && Rejects(v, e)
    ensures !RolesFine(v) ==> e in {InvalidRole, DuplicateRole}
    ensures RolesFine(v) && !GraphFine(v) ==> e.Graph?
    ensures RolesFine(v) && GraphFine(v) && !PermissionsFine(v) ==>
            e in {InvalidPermission, DuplicatePermission, UnknownRole, RoleTenantMismatch}
    ensures RolesFine(v) && GraphFine(v) && PermissionsFine(v) ==>
            e in {InvalidAssignment, DuplicateAssignment, UnknownRole, RoleTenantMismatch}
  {
    PhaseFaults(v, e);
  }
}
