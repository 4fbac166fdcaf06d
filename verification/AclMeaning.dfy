// What the list model accepts, decides and lists, said in the fields of the entries
// and of the request, without the keys, scopes and scans of the model.
module AclMeaning {
  import opened Ordering
  import opened Indexing
  import opened Attributes
  import opened Decisions
  import opened Acl

  /** The entry names the subject or one of its groups. */
  predicate Names(e: Entry, subject: Subject) {
    || (e.subject.kind == subject.kind && e.subject.id == subject.id)
    || (e.subject.kind == "group" && e.subject.id in subject.groups)
  }

  /** The entry is about that kind of action, in a tenant that the request may use. */
  predicate About(e: Entry, action: string, resourceType: string, tenant: string, inheritGlobal: bool) {
    && e.action == action && e.resourceType == resourceType
    && (e.tenant == tenant || (inheritGlobal && e.tenant == "" && tenant != ""))
  }

  /** An entry that speaks about the request. */
  ghost predicate Fits(entries: seq<Entry>, inheritGlobal: bool, request: Request, e: Entry) {
    && e in entries && Names(e, request.subject)
    && About(e, request.action, request.resource.kind, request.tenant, inheritGlobal)
    && (e.resourceID == "" || e.resourceID == request.resource.id)
  }

  ghost predicate SomeFit(entries: seq<Entry>, inheritGlobal: bool, request: Request, effect: Outcome) {
    exists e :: Fits(entries, inheritGlobal, request, e) && e.effect == effect
  }

  /** The scan of a query holds exactly the entries whose fields fit it. */
  lemma {:induction false} ScanMeans(entries: seq<Entry>, subject: Subject, q: Query, e: Entry)
    ensures e in Scan(entries, subject, q) <==>
            && e in entries && Names(e, subject) && About(e, q.action, q.resourceType, q.tenant, q.inheritGlobal)
            && (q.resource.None? || e.resourceID == "" || e.resourceID == q.resource.value)
  {
    var ps := Distinct(Principals(subject));
    DistinctElements(Principals(subject));
    FlatElements(entries, ps, q);
    var p := Principal(e.subject.kind, e.subject.id);
    assert p in ps <==> Names(e, subject);
    if e in Scan(entries, subject, q) {
      var x :| x in ps && Applies(e, x, q);
      assert x == p;
    } else if e in entries && p in ps {
      assert !Applies(e, p, q);
    }
  }

  // ---- Order of the matches ----

  function Owner(e: Entry): Principal { Principal(e.subject.kind, e.subject.id) }

  /** Entries of an earlier principal come first, and those of one principal in the order of definition. */
  ghost predicate Ordered(entries: seq<Entry>, ps: seq<Principal>, scan: seq<Entry>) {
    forall i, j :: 0 <= i < j < |scan| ==> Earlier(entries, ps, scan[i], scan[j])
  }

  ghost predicate Earlier(entries: seq<Entry>, ps: seq<Principal>, x: Entry, y: Entry) {
    FirstBefore(ps, Owner(x), Owner(y)) || (Owner(x) == Owner(y) && DefinedBefore(entries, x, y))
  }

  /** The first occurrence of `x` is before any of `y`. */
  ghost predicate FirstBefore(ps: seq<Principal>, x: Principal, y: Principal) {
    exists k :: 0 <= k < |ps| && ps[k] == x && y !in ps[..k + 1]
  }

  ghost predicate DefinedBefore(entries: seq<Entry>, x: Entry, y: Entry) {
    exists a, b :: 0 <= a < b < |entries| && entries[a] == x && entries[b] == y
  }

  lemma {:induction false} FilterOrdered(entries: seq<Entry>, keep: Entry -> bool, i: nat, j: nat)
    requires i < j < |Filter(entries, keep)|
    ensures DefinedBefore(entries, Filter(entries, keep)[i], Filter(entries, keep)[j])
  {
    var f, rest := Filter(entries, keep), entries[1..];
    var g := Filter(rest, keep);
    if keep(entries[0]) && i == 0 {
      FilterElements(rest, keep);
      assert f[j] == g[j - 1] && g[j - 1] in g && g[j - 1] in rest;
      var b :| 0 <= b < |rest| && rest[b] == g[j - 1];
      assert entries[0] == f[0] && entries[b + 1] == f[j];
    } else {
      var shift := if keep(entries[0]) then 1 else 0;
      FilterOrdered(rest, keep, i - shift, j - shift);
      var a, b :| 0 <= a < b < |rest| && rest[a] == f[i] && rest[b] == f[j];
      assert entries[a + 1] == f[i] && entries[b + 1] == f[j];
    }
  }

  lemma {:induction false} DistinctKeepsFirst(ps: seq<Principal>, a: nat, b: nat)
    requires a < b < |Distinct(ps)|
    ensures FirstBefore(ps, Distinct(ps)[a], Distinct(ps)[b])
  {
    var init, last := ps[..|ps| - 1], ps[|ps| - 1];
    var d := Distinct(ps);
    assert ps == init + [last];
    if b < |Distinct(init)| {
      DistinctKeepsFirst(init, a, b);
      var k :| 0 <= k < |init| && init[k] == d[a] && d[b] !in init[..k + 1];
      assert ps[..k + 1] == init[..k + 1];
    } else {
      DistinctElements(init);
      assert d[a] == Distinct(init)[a] && d[a] in init;
      var k :| 0 <= k < |init| && init[k] == d[a];
      assert ps[..k + 1] == init[..k + 1] && d[b] == last;
    }
  }

  lemma OrderedAppend(entries: seq<Entry>, all: seq<Principal>, before: seq<Entry>, mine: seq<Entry>)
    requires Ordered(entries, all, before) && Ordered(entries, all, mine)
    requires forall x, y :: x in before && y in mine ==> Earlier(entries, all, x, y)
    ensures Ordered(entries, all, before + mine)
  {
  }

  lemma {:induction false} MineOrdered(entries: seq<Entry>, all: seq<Principal>, p: Principal, q: Query)
    ensures Ordered(entries, all, Filter(entries, Applying(p, q)))
  {
    var mine := Filter(entries, Applying(p, q));
    forall i, j | 0 <= i < j < |mine| ensures Earlier(entries, all, mine[i], mine[j]) {
      FilterOrdered(entries, Applying(p, q), i, j);
      OwnedBy(entries, p, q, mine[i]);
      OwnedBy(entries, p, q, mine[j]);
    }
  }

  /** The scan lists each distinct principal's entries in the order of definition. */
  lemma {:induction false} FlatOrdered(entries: seq<Entry>, all: seq<Principal>, n: nat, q: Query)
    requires n <= |Distinct(all)|
    ensures Ordered(entries, all, Flat(entries, Distinct(all)[..n], q))
  {
    if n > 0 {
      var ps := Distinct(all)[..n];
      var init, last := ps[..n - 1], ps[n - 1];
      assert init == Distinct(all)[..n - 1];
      var before, mine := Flat(entries, init, q), Filter(entries, Applying(last, q));
      FlatOrdered(entries, all, n - 1, q);
      MineOrdered(entries, all, last, q);
      forall x, y | x in before && y in mine ensures Earlier(entries, all, x, y) {
        OwnedBy(entries, last, q, y);
        OwnedEarlier(entries, all, n - 1, q, x);
      }
      OrderedAppend(entries, all, before, mine);
    }
  }

  lemma {:induction false} OwnedBy(entries: seq<Entry>, p: Principal, q: Query, e: Entry)
    requires e in Filter(entries, Applying(p, q))
    ensures Owner(e) == p
  {
    FilterElements(entries, Applying(p, q));
  }

  lemma {:induction false} OwnedEarlier(entries: seq<Entry>, all: seq<Principal>, n: nat, q: Query, e: Entry)
    requires n < |Distinct(all)| && e in Flat(entries, Distinct(all)[..n], q)
    ensures FirstBefore(all, Owner(e), Distinct(all)[n])
  {
    FlatElements(entries, Distinct(all)[..n], q);
    var p :| p in Distinct(all)[..n] && Applies(e, p, q);
    var a :| 0 <= a < n && Distinct(all)[a] == p;
    DistinctKeepsFirst(all, a, n);
  }

  // ---- Decisions ----

  /** The fitting entries, in the order in which a decision names them. */
  ghost predicate Lists(entries: seq<Entry>, inheritGlobal: bool, request: Request, es: seq<Entry>) {
    && (forall e :: e in es <==> Fits(entries, inheritGlobal, request, e))
    && DistinctRanks(es, EntryRank)
    && Ordered(entries, Principals(request.subject), es)
  }

  ghost predicate TableSays(d: Decision, es: seq<Entry>, denied: bool, allowed: bool) {
    && (d.outcome == Deny <==> denied)
    && (d.outcome == Allow <==> allowed && !denied)
    && (d.outcome == NotApplicable <==> !allowed && !denied)
    && d.reason == (if denied then "acl-explicit-deny" else if allowed then "acl-allow" else "")
    && |d.matched| == |es| && (forall i :: 0 <= i < |es| ==> d.matched[i] == es[i].id)
  }

  lemma {:induction false} EffectsCarry(es: seq<Entry>, effect: Outcome)
    ensures HasEffect(AsMatches(es), effect) <==> exists e :: e in es && e.effect == effect
  {
    if HasEffect(AsMatches(es), effect) {
      var m :| m in AsMatches(es) && m.effect == effect;
      var i :| 0 <= i < |es| && AsMatches(es)[i] == m;
      assert es[i] in es;
    }
    if e :| e in es && e.effect == effect {
      var i :| 0 <= i < |es| && es[i] == e;
      assert AsMatches(es)[i] in AsMatches(es);
    }
  }

  lemma {:induction false} TableMeans(es: seq<Entry>)
    requires forall e :: e in es ==> e.effect == Allow || e.effect == Deny
    ensures TableSays(Summarize(AsMatches(es), ALLOW_REASON, DENY_REASON), es,
                      exists e :: e in es && e.effect == Deny, exists e :: e in es && e.effect == Allow)
  {
    var ms := AsMatches(es);
    EffectsCarry(es, Deny);
    EffectsCarry(es, Allow);
    forall m | m in ms ensures m.effect == Allow || m.effect == Deny {
      var i :| 0 <= i < |ms| && ms[i] == m;
      assert es[i] in es;
    }
    SummarizeMeans(ms, ALLOW_REASON, DENY_REASON);
    if es != [] { assert es[0] in es; }
  }

  /** The decision names the fitting entries in order, and follows their effects; beyond a limit it denies. */
  lemma {:induction false} DecideMeans(entries: seq<Entry>, inheritGlobal: bool, limits: Limits, request: Request)
    returns (es: seq<Entry>)
    requires WellFormed(entries, limits)
    ensures Lists(entries, inheritGlobal, request, es)
    ensures var r := Decide(entries, inheritGlobal, limits, request);
            if |request.subject.groups| > limits.maxGroups then
              r == Evaluation(Plain(Deny, "acl-limit-exceeded"), Some(GroupLimitExceeded))
            else if |es| > limits.maxMatches then
              r == Evaluation(Plain(Deny, "acl-limit-exceeded"), Some(MatchLimitExceeded))
            else
              && r.error == None
              && TableSays(r.decision, es, SomeFit(entries, inheritGlobal, request, Deny),
                           SomeFit(entries, inheritGlobal, request, Allow))
  {
    var q := QueryOf(request, inheritGlobal);
    es := Scan(entries, request.subject, q);
    forall e ensures e in es <==> Fits(entries, inheritGlobal, request, e) {
      ScanMeans(entries, request.subject, q, e);
    }
    var ps := Distinct(Principals(request.subject));
    DistinctElements(Principals(request.subject));
    FlatDistinct(entries, ps, q);
    FlatOrdered(entries, Principals(request.subject), |ps|, q);
    assert ps[..|ps|] == ps;
    forall e | e in es ensures e.effect == Allow || e.effect == Deny { EffectIsExplicit(entries, e); }
    TableMeans(es);
    FitsAreListed(entries, inheritGlobal, request, es, Deny);
    FitsAreListed(entries, inheritGlobal, request, es, Allow);
  }

  lemma FitsAreListed(entries: seq<Entry>, inheritGlobal: bool, request: Request, es: seq<Entry>, effect: Outcome)
    requires forall e :: e in es <==> Fits(entries, inheritGlobal, request, e)
    ensures SomeFit(entries, inheritGlobal, request, effect) <==> exists e :: e in es && e.effect == effect
  {
  }

  lemma EffectIsExplicit(entries: seq<Entry>, e: Entry)
    requires (forall i :: 0 <= i < |entries| ==> ValidEntry(entries[i])) && e in entries
    ensures e.effect == Allow || e.effect == Deny
  {
    var i :| 0 <= i < |entries| && entries[i] == e;
  }

  /** Allowed only by an entry of the request's own tenant, or a global one that is inherited. */
  lemma {:induction false} AllowNeedsEntry(entries: seq<Entry>, inheritGlobal: bool, limits: Limits, request: Request)
    requires WellFormed(entries, limits)
    ensures Decide(entries, inheritGlobal, limits, request).decision.outcome == Allow ==>
            SomeFit(entries, inheritGlobal, request, Allow) && !SomeFit(entries, inheritGlobal, request, Deny)
  {
    var _ := DecideMeans(entries, inheritGlobal, limits, request);
  }

  // ---- Listings ----

  /** An entry about that resource, or about all resources of the type. */
  ghost predicate Covers(
    entries: seq<Entry>, inheritGlobal: bool, subject: Subject, action: string, resourceType: string, tenant: string,
    id: string, effect: Outcome, e: Entry)
  {
    && e in entries && e.effect == effect && Names(e, subject)
    && About(e, action, resourceType, tenant, inheritGlobal) && (e.resourceID == "" || e.resourceID == id)
  }

  ghost predicate Covered(
    entries: seq<Entry>, inheritGlobal: bool, subject: Subject, action: string, resourceType: string, tenant: string,
    id: string, effect: Outcome)
  {
    exists e :: Covers(entries, inheritGlobal, subject, action, resourceType, tenant, id, effect, e)
  }

  /** A listed resource is covered by an allowing entry and by no denying one. As long as the entries in question
      are within the limit, every such resource is listed. */
  lemma {:induction false} ListingMeans(
    entries: seq<Entry>, inheritGlobal: bool, limits: Limits, subject: Subject, action: string, resourceType: string,
    tenant: string, ids: seq<string>, id: string)
    requires WellFormed(entries, limits) && |subject.groups| <= limits.maxGroups && id != ""
    requires ListingAgrees(entries, inheritGlobal, limits, subject, action, resourceType, tenant, ids)
    ensures id in ids ==>
            && Covered(entries, inheritGlobal, subject, action, resourceType, tenant, id, Allow)
            && !Covered(entries, inheritGlobal, subject, action, resourceType, tenant, id, Deny)
    ensures |Scan(entries, subject, ListQuery(action, resourceType, tenant, inheritGlobal))| <= limits.maxMatches ==>
            (id in ids <==>
             && Covered(entries, inheritGlobal, subject, action, resourceType, tenant, id, Allow)
             && !Covered(entries, inheritGlobal, subject, action, resourceType, tenant, id, Deny))
  {
    var request := RequestFor(subject, action, resourceType, id, tenant);
    var es := DecideMeans(entries, inheritGlobal, limits, request);
    CoveredIsFit(entries, inheritGlobal, subject, action, resourceType, tenant, id, Allow);
    CoveredIsFit(entries, inheritGlobal, subject, action, resourceType, tenant, id, Deny);
    ListedWithin(entries, inheritGlobal, subject, action, resourceType, tenant, id, es);
  }

  lemma CoveredIsFit(
    entries: seq<Entry>, inheritGlobal: bool, subject: Subject, action: string, resourceType: string, tenant: string,
    id: string, effect: Outcome)
    ensures Covered(entries, inheritGlobal, subject, action, resourceType, tenant, id, effect) <==>
            SomeFit(entries, inheritGlobal, RequestFor(subject, action, resourceType, id, tenant), effect)
  {
    var request := RequestFor(subject, action, resourceType, id, tenant);
    if e :| Covers(entries, inheritGlobal, subject, action, resourceType, tenant, id, effect, e) {
      assert Fits(entries, inheritGlobal, request, e);
    }
    if e :| Fits(entries, inheritGlobal, request, e) && e.effect == effect {
      assert Covers(entries, inheritGlobal, subject, action, resourceType, tenant, id, effect, e);
    }
  }

  lemma {:induction false} ListedWithin(
    entries: seq<Entry>, inheritGlobal: bool, subject: Subject, action: string, resourceType: string, tenant: string,
    id: string, es: seq<Entry>)
    requires DistinctRanks(entries, EntryRank)
    requires Lists(entries, inheritGlobal, RequestFor(subject, action, resourceType, id, tenant), es)
    ensures |es| <= |Scan(entries, subject, ListQuery(action, resourceType, tenant, inheritGlobal))|
  {
    var q := ListQuery(action, resourceType, tenant, inheritGlobal);
    var scan := Scan(entries, subject, q);
    ScanIsPool(entries, subject, q);
    DistinctLength(es, EntryRank);
    forall e | e in Elements(es) ensures e in Elements(scan) {
      ScanMeans(entries, subject, q, e);
    }
    SubsetSize(Elements(es), Elements(scan));
  }

  // ---- Definitions that New accepts ----

  /** New accepts exactly these entries. */
  lemma AcceptsIff(entries: seq<Entry>, limits: Limits)
    ensures WellFormed(entries, limits) <==>
            && |entries| <= limits.maxEntries
            && (forall i, j :: 0 <= i < j < |entries| ==> entries[i].id != entries[j].id)
            && (forall e :: e in entries ==>
                  && e.id != "" && e.subject.kind != "" && e.subject.id != "" && e.action != "" && e.resourceType != ""
                  && e.effect in {Allow, Deny})
  {
    if WellFormed(entries, limits) {
      forall i, j | 0 <= i < j < |entries| ensures entries[i].id != entries[j].id {
        assert EntryRank(entries[i]) != EntryRank(entries[j]);
      }
    } else {
      assert forall i :: 0 <= i < |entries| ==> entries[i] in entries;
    }
  }
}
