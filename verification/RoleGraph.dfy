// The role inheritance graph (rbac/rbac.go): the three-colour cycle search, the
// memoised longest-path depth and the shared-visited-set closure. Iteration over
// a Go map is an arbitrary choice of the next key.
module RoleGraph {
  import opened Decisions

  type RoleID = string

  datatype Role = Role(id: RoleID, tenant: string, parents: seq<RoleID>)

  type Roles = map<RoleID, Role>

  datatype GraphError = UnknownParentRole | CrossTenantInheritance | RoleCycle | InheritanceDepthExceeded

  // ---- What the graph is required to be ----

  /** Every parent edge stays inside the graph and inside the child's tenant. */
  ghost predicate ParentsResolve(roles: Roles) {
    forall r, p :: r in roles && p in roles[r].parents ==> p in roles && roles[p].tenant == roles[r].tenant
  }

  /** A walk along parent edges. */
  ghost predicate IsChain(roles: Roles, c: seq<RoleID>) {
    && c != []
    && (forall i :: 0 <= i < |c| ==> c[i] in roles)
    && (forall i :: 0 <= i < |c| - 1 ==> c[i + 1] in roles[c[i]].parents)
  }

  ghost predicate IsCycle(roles: Roles, c: seq<RoleID>) {
    IsChain(roles, c) && |c| > 1 && c[0] == c[|c| - 1]
  }

  ghost predicate HasCycle(roles: Roles) { exists c :: IsCycle(roles, c) }

  /** No chain has more than `limit` edges. */
  ghost predicate ChainsWithin(roles: Roles, limit: int) {
    forall c :: IsChain(roles, c) ==> |c| - 1 <= limit
  }

  ghost predicate Reaches(roles: Roles, from: RoleID, to: RoleID) {
    exists c :: IsChain(roles, c) && c[0] == from && c[|c| - 1] == to
  }

  lemma ReachesSelf(roles: Roles, r: RoleID)
    requires r in roles
    ensures Reaches(roles, r, r)
  {
    assert IsChain(roles, [r]);
  }

  lemma ReachesThroughParent(roles: Roles, r: RoleID, p: RoleID, x: RoleID)
    requires r in roles && p in roles[r].parents && Reaches(roles, p, x)
    ensures Reaches(roles, r, x)
  {
    var c :| IsChain(roles, c) && c[0] == p && c[|c| - 1] == x;
    assert IsChain(roles, [r] + c);
  }

  /** Inheritance never leaves a tenant, however long the chain. */
  lemma {:induction false} ChainKeepsTenant(roles: Roles, c: seq<RoleID>)
    requires ParentsResolve(roles) && IsChain(roles, c)
    ensures roles[c[|c| - 1]].tenant == roles[c[0]].tenant
  {
    if |c| > 1 {
      var shorter := c[..|c| - 1];
      assert IsChain(roles, shorter);
      ChainKeepsTenant(roles, shorter);
    }
  }

  /** A set closed under parents that holds a role holds everything it reaches. */
  lemma {:induction false} ClosedHoldsChain(roles: Roles, closed: set<RoleID>, c: seq<RoleID>)
    requires IsChain(roles, c) && c[0] in closed
    requires forall r, p :: r in closed && r in roles && p in roles[r].parents ==> p in closed
    ensures c[|c| - 1] in closed
  {
    if |c| > 1 {
      assert c[1] in roles[c[0]].parents;
      assert IsChain(roles, c[1..]);
      ClosedHoldsChain(roles, closed, c[1..]);
    }
  }

  // ---- Cycle detection ----

  /** Each role of `order` has all its parents strictly earlier. */
  ghost predicate Topological(roles: Roles, order: seq<RoleID>) {
    && (forall i :: 0 <= i < |order| ==> order[i] in roles)
    && (forall i, p :: 0 <= i < |order| && p in roles[order[i]].parents ==> p in order[..i])
  }

  ghost function Position(order: seq<RoleID>, r: RoleID): (i: nat)
    requires r in order
    ensures i < |order| && order[i] == r
    ensures forall j :: 0 <= j < i ==> order[j] != r
  {
    if order[0] == r then 0 else 1 + Position(order[1..], r)
  }

  lemma ParentIsEarlier(roles: Roles, order: seq<RoleID>, r: RoleID, p: RoleID)
    requires Topological(roles, order) && r in order && r in roles && p in roles[r].parents
    ensures p in order && Position(order, p) < Position(order, r)
  {
    var i := Position(order, r);
    assert p in order[..i];
    var j :| 0 <= j < i && order[j] == p;
    assert p in order;
  }

  /** Positions strictly fall along a chain, so a topological order excludes cycles. */
  lemma {:induction false} ChainDescends(roles: Roles, order: seq<RoleID>, c: seq<RoleID>)
    requires Topological(roles, order) && IsChain(roles, c) && c[0] in order
    ensures c[|c| - 1] in order
    ensures |c| - 1 <= Position(order, c[0]) - Position(order, c[|c| - 1])
  {
    if |c| > 1 {
      ParentIsEarlier(roles, order, c[0], c[1]);
      assert IsChain(roles, c[1..]);
      ChainDescends(roles, order, c[1..]);
    }
  }

  lemma TopologicalMeansAcyclic(roles: Roles, order: seq<RoleID>)
    requires Topological(roles, order) && forall r :: r in roles ==> r in order
    ensures !HasCycle(roles)
  {
    forall c | IsChain(roles, c) && |c| > 1 ensures c[0] != c[|c| - 1] {
      ChainDescends(roles, order, c);
    }
  }

  datatype Colour = Grey | Black

  /** Grey roles form the current path; black ones are ordered after their parents. */
  ghost predicate Coloured(roles: Roles, states: map<RoleID, Colour>, path: seq<RoleID>, finished: seq<RoleID>) {
    && ParentsResolve(roles)
    && states.Keys <= roles.Keys
    && (path == [] || IsChain(roles, path))
    && (forall r :: r in path <==> r in states && states[r] == Grey)
    && (forall r :: r in finished <==> r in states && states[r] == Black)
    && Topological(roles, finished)
  }

  lemma EnterGrey(roles: Roles, states: map<RoleID, Colour>, path: seq<RoleID>, finished: seq<RoleID>, r: RoleID)
    requires Coloured(roles, states, path, finished) && r in roles && r !in states
    requires path != [] ==> r in roles[path[|path| - 1]].parents
    ensures Coloured(roles, states[r := Grey], path + [r], finished)
  {
  }

  lemma LeaveBlack(roles: Roles, states: map<RoleID, Colour>, path: seq<RoleID>, finished: seq<RoleID>, r: RoleID)
    requires Coloured(roles, states, path + [r], finished) && r !in path
    requires forall p :: p in roles[r].parents ==> p in finished
    ensures Coloured(roles, states[r := Black], path, finished + [r])
  {
    FinishKeepsOrder(roles, finished, r);
    assert r in path + [r];
    if path != [] {
      forall i | 0 <= i < |path| ensures path[i] in roles {
        assert path[i] == (path + [r])[i];
      }
      forall i | 0 <= i < |path| - 1 ensures path[i + 1] in roles[path[i]].parents {
        assert path[i] == (path + [r])[i] && path[i + 1] == (path + [r])[i + 1];
      }
    }
  }

  /** The captured `states` map of the recursive `visit` closure. */
  class CycleSearch {
    const roles: Roles
    var states: map<RoleID, Colour>
    ghost var path: seq<RoleID>      // grey roles, outermost call first
    ghost var finished: seq<RoleID>  // black roles, in the order they finished

    ghost predicate Valid()
      reads this
    {
      Coloured(roles, states, path, finished)
    }

    constructor (roles: Roles)
      requires ParentsResolve(roles)
      ensures Valid() && this.roles == roles && states == map[] && path == [] && finished == []
    {
      this.roles := roles;
      states := map[];
      path := [];
      finished := [];
    }

    method Visit(r: RoleID) returns (acyclic: bool)
      requires Valid() && r in roles
      requires path != [] ==> r in roles[path[|path| - 1]].parents
      modifies this
      ensures !acyclic ==> HasCycle(roles)
      ensures acyclic ==> Valid() && path == old(path) && r in finished
      ensures acyclic ==> (forall x :: x in old(finished) ==> x in finished) && old(states.Keys) <= states.Keys
      decreases roles.Keys - states.Keys, 1
    {
      if r in states {
        if states[r] == Grey {
          GreyMeansCycle(roles, path, r);
          return false;
        }
        return true;
      }
      EnterGrey(roles, states, path, finished, r);
      states := states[r := Grey];
      path := path + [r];
      acyclic := VisitParents(r);
      if acyclic {
        LeaveBlack(roles, states, old(path), finished, r);
        states := states[r := Black];
        path := old(path);
        finished := finished + [r];
      }
    }

    /** The loop of `visit` over the parents of the role it has just entered. */
    method VisitParents(r: RoleID) returns (acyclic: bool)
      requires Valid() && path != [] && path[|path| - 1] == r
      modifies this
      ensures !acyclic ==> HasCycle(roles)
      ensures acyclic ==> Valid() && path == old(path) && forall p :: p in roles[r].parents ==> p in finished
      ensures acyclic ==> (forall x :: x in old(finished) ==> x in finished) && old(states.Keys) <= states.Keys
      decreases roles.Keys - states.Keys, 2
    {
      var parents := roles[r].parents;
      for i := 0 to |parents|
        invariant Valid() && path == old(path) && old(states.Keys) <= states.Keys
        invariant forall x :: x in old(finished) || x in parents[..i] ==> x in finished
      {
        assert parents[..i + 1] == parents[..i] + [parents[i]];
        var fine := Visit(parents[i]);
        if !fine {
          return false;
        }
      }
      assert parents[..|parents|] == parents;
      return true;
    }
  }

  /** Meeting a grey role closes the tail of the grey path into a cycle. */
  lemma GreyMeansCycle(roles: Roles, path: seq<RoleID>, r: RoleID)
    requires IsChain(roles, path) && r in path && r in roles[path[|path| - 1]].parents
    ensures HasCycle(roles)
  {
    var k :| 0 <= k < |path| && path[k] == r;
    var c := path[k..] + [r];
    assert IsCycle(roles, c);
  }

  lemma FinishKeepsOrder(roles: Roles, finished: seq<RoleID>, r: RoleID)
    requires Topological(roles, finished) && r in roles
    requires forall p :: p in roles[r].parents ==> p in finished
    ensures Topological(roles, finished + [r])
  {
    var order := finished + [r];
    forall i, p | 0 <= i < |order| && p in roles[order[i]].parents ensures p in order[..i] {
      assert order[..i] == finished[..i];
    }
  }

  // ---- Depth ----

  /** `d` is the number of edges of a longest chain that starts at `r`. */
  ghost predicate IsDepth(roles: Roles, r: RoleID, d: int) {
    && (exists c :: IsChain(roles, c) && c[0] == r && |c| - 1 == d)
    && (forall c :: IsChain(roles, c) && c[0] == r ==> |c| - 1 <= d)
  }

  /** As IsDepth, but only chains that leave `r` through the first `n` parents count. */
  ghost predicate IsDepthVia(roles: Roles, r: RoleID, n: int, d: int)
    requires r in roles && 0 <= n <= |roles[r].parents|
  {
    && (exists c :: IsChain(roles, c) && c[0] == r && |c| - 1 == d)
    && (forall c :: IsChain(roles, c) && c[0] == r && (|c| == 1 || c[1] in roles[r].parents[..n]) ==> |c| - 1 <= d)
  }

  lemma NoParents(roles: Roles, r: RoleID)
    requires r in roles
    ensures IsDepthVia(roles, r, 0, 0)
  {
    assert IsChain(roles, [r]);
  }

  lemma OneMoreParent(roles: Roles, r: RoleID, n: int, d: int, p: RoleID, e: int)
    requires r in roles && 0 <= n < |roles[r].parents| && p == roles[r].parents[n]
    requires IsDepthVia(roles, r, n, d) && IsDepth(roles, p, e)
    ensures IsDepthVia(roles, r, n + 1, if d > 1 + e then d else 1 + e)
  {
    var parents := roles[r].parents;
    var longest :| IsChain(roles, longest) && longest[0] == p && |longest| - 1 == e;
    assert IsChain(roles, [r] + longest);
    assert parents[..n + 1] == parents[..n] + [p];
    forall c | IsChain(roles, c) && c[0] == r && (|c| == 1 || c[1] in parents[..n + 1])
      ensures |c| - 1 <= if d > 1 + e then d else 1 + e
    {
      if |c| > 1 && c[1] == p {
        assert IsChain(roles, c[1..]);
      }
    }
  }

  /** The captured `depths` map of the recursive `depth` closure. */
  class DepthSearch {
    const roles: Roles
    ghost const order: seq<RoleID>
    var depths: map<RoleID, int>

    ghost predicate Valid()
      reads this
    {
      && ParentsResolve(roles)
      && Topological(roles, order)
      && (forall r :: r in roles ==> r in order)
      && (forall r :: r in depths ==> IsDepth(roles, r, depths[r]))
    }

    constructor (roles: Roles, ghost order: seq<RoleID>)
      requires ParentsResolve(roles) && Topological(roles, order) && forall r :: r in roles ==> r in order
      ensures Valid() && this.roles == roles && this.order == order
    {
      this.roles := roles;
      this.order := order;
      depths := map[];
    }

    method Depth(r: RoleID) returns (d: int)
      requires Valid() && r in roles
      modifies this
      ensures Valid() && IsDepth(roles, r, d)
      decreases Position(order, r)
    {
      if r in depths {
        return depths[r];
      }
      d := 0;
      NoParents(roles, r);
      var parents := roles[r].parents;
      for i := 0 to |parents|
        invariant Valid() && IsDepthVia(roles, r, i, d)
      {
        ParentIsEarlier(roles, order, r, parents[i]);
        var above := Depth(parents[i]);
        OneMoreParent(roles, r, i, d, parents[i], above);
        d := if d > 1 + above then d else 1 + above;
      }
      assert parents[..|parents|] == parents;
      assert IsDepth(roles, r, d);
      depths := depths[r := d];
    }
  }

  // ---- validateInheritance ----

  /** The edge check; which of two bad edges is reported depends on the iteration order. */
  method CheckParents(roles: Roles) returns (err: Option<GraphError>)
    ensures err == None <==> ParentsResolve(roles)
    ensures err == Some(UnknownParentRole) ==> exists r, p :: r in roles && p in roles[r].parents && p !in roles
    ensures err == Some(CrossTenantInheritance) ==>
      exists r, p :: r in roles && p in roles[r].parents && p in roles && roles[p].tenant != roles[r].tenant
    ensures err in {None, Some(UnknownParentRole), Some(CrossTenantInheritance)}
  {
    var todo := roles.Keys;
    while todo != {}
      invariant todo <= roles.Keys
      invariant forall r, p :: r in roles && r !in todo && p in roles[r].parents ==>
        p in roles && roles[p].tenant == roles[r].tenant
    {
      var r :| r in todo;
      var parents := roles[r].parents;
      for i := 0 to |parents|
        invariant forall j :: 0 <= j < i ==> parents[j] in roles && roles[parents[j]].tenant == roles[r].tenant
      {
        if parents[i] !in roles {
          return Some(UnknownParentRole);
        }
        if roles[parents[i]].tenant != roles[r].tenant {
          return Some(CrossTenantInheritance);
        }
      }
      todo := todo - {r};
    }
    return None;
  }

  /** validateInheritance: acceptance and the cycle and depth errors do not depend on map order. */
  method ValidateInheritance(roles: Roles, maxDepth: int) returns (err: Option<GraphError>)
    ensures err == None <==> ParentsResolve(roles) && !HasCycle(roles) && ChainsWithin(roles, maxDepth)
    ensures err == Some(RoleCycle) <==> ParentsResolve(roles) && HasCycle(roles)
    ensures err == Some(InheritanceDepthExceeded) <==>
            ParentsResolve(roles) && !HasCycle(roles) && !ChainsWithin(roles, maxDepth)
    ensures err == Some(UnknownParentRole) ==> exists r, p :: r in roles && p in roles[r].parents && p !in roles
    ensures err == Some(CrossTenantInheritance) ==>
      exists r, p :: r in roles && p in roles[r].parents && p in roles && roles[p].tenant != roles[r].tenant
  {
    err := CheckParents(roles);
    if err != None {
      return;
    }
    var search := new CycleSearch(roles);
    var todo := roles.Keys;
    while todo != {}
      invariant todo <= roles.Keys
      invariant search.roles == roles && search.Valid() && search.path == []
      invariant forall r :: r in roles && r !in todo ==> r in search.finished
    {
      var r :| r in todo;
      var acyclic := search.Visit(r);
      if !acyclic {
        return Some(RoleCycle);
      }
      todo := todo - {r};
    }
    TopologicalMeansAcyclic(roles, search.finished);
    err := CheckDepths(roles, maxDepth, search.finished);
  }

  method CheckDepths(roles: Roles, maxDepth: int, ghost order: seq<RoleID>) returns (err: Option<GraphError>)
    requires ParentsResolve(roles) && Topological(roles, order) && forall r :: r in roles ==> r in order
    ensures err == if ChainsWithin(roles, maxDepth) then None else Some(InheritanceDepthExceeded)
  {
    var search := new DepthSearch(roles, order);
    var todo := roles.Keys;
    while todo != {}
      invariant todo <= roles.Keys
      invariant search.roles == roles && search.Valid()
      invariant forall c :: IsChain(roles, c) && c[0] !in todo ==> |c| - 1 <= maxDepth
    {
      var r :| r in todo;
      var d := search.Depth(r);
      if d > maxDepth {
        return Some(InheritanceDepthExceeded);
      }
      todo := todo - {r};
    }
    return None;
  }

  // ---- addRoleClosure ----

  /** Parents of the roles in `seen` are in `seen`, except below the roles still being expanded. */
  ghost predicate ClosedExcept(roles: Roles, seen: set<RoleID>, pending: set<RoleID>) {
    forall r, p :: r in seen && r !in pending && r in roles && p in roles[r].parents ==> p in seen
  }

  class RoleClosure {
    const roles: Roles
    var seen: set<RoleID>

    constructor (roles: Roles)
      ensures this.roles == roles && seen == {}
    {
      this.roles := roles;
      seen := {};
    }

    /** Inner calls start from a set that is not closed below the callers in `pending`. */
    method AddRoleClosure(r: RoleID, ghost pending: set<RoleID>)
      requires ParentsResolve(roles) && r in roles && seen <= roles.Keys
      requires ClosedExcept(roles, seen, pending)
      modifies this
      ensures old(seen) <= seen <= roles.Keys && r in seen
      ensures ClosedExcept(roles, seen, pending)
      ensures forall x :: x in seen - old(seen) ==> Reaches(roles, r, x)
      decreases roles.Keys - seen
    {
      if r in seen {
        return;
      }
      seen := seen + {r};
      ReachesSelf(roles, r);
      var parents := roles[r].parents;
      for i := 0 to |parents|
        invariant old(seen) + {r} <= seen <= roles.Keys
        invariant ClosedExcept(roles, seen, pending + {r})
        invariant forall j :: 0 <= j < i ==> parents[j] in seen
        invariant forall x :: x in seen - old(seen) ==> Reaches(roles, r, x)
      {
        ghost var before := seen;
        AddRoleClosure(parents[i], pending + {r});
        forall x | x in seen - before ensures Reaches(roles, r, x) {
          ReachesThroughParent(roles, r, parents[i], x);
        }
      }
    }
  }
}
