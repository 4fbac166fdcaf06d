// The access-control-list model (acl/acl.go): a keyed index, its evaluation loop
// and the separate listing of resource identifiers, both against a flat scan of
// the entries and against each other.
module Acl {
  import opened Ordering
  import opened Indexing
  import opened Attributes
  import opened Decisions

  datatype Entry = Entry(
    id: string, subject: Subject, action: string, resourceType: string,
    resourceID: string, tenant: string, effect: Outcome)

  datatype EntryKey = EntryKey(subjectKind: string, subjectID: string, action: string, resourceType: string)

  datatype Limits = Limits(maxEntries: nat, maxGroups: nat, maxMatches: nat)

  datatype Error =
    | EntryLimitExceeded | InvalidEntry | DuplicateEntry
    | GroupLimitExceeded | MatchLimitExceeded | UnboundedResourceSet

  datatype Evaluator = Evaluator(entries: map<EntryKey, seq<Entry>>, inheritGlobal: bool, limits: Limits)

  const ALLOW_REASON := "acl-allow"
  const DENY_REASON := "acl-explicit-deny"
  const LIMITED := Plain(Deny, "acl-limit-exceeded")

  function EntryID(e: Entry): string { e.id }

  function EntryRank(e: Entry): Rank { Rank(0, e.id) }

  function KeyOf(e: Entry): EntryKey { EntryKey(e.subject.kind, e.subject.id, e.action, e.resourceType) }

  function KeyFor(p: Principal, action: string, resourceType: string): EntryKey {
    EntryKey(p.kind, p.id, action, resourceType)
  }

  // ---- New ----

  predicate ValidEntry(e: Entry) {
    e.id != "" && e.subject.kind != "" && e.subject.id != "" && e.action != "" && e.resourceType != "" &&
    (e.effect == Allow || e.effect == Deny)
  }

  ghost predicate WellFormed(entries: seq<Entry>, limits: Limits) {
    && |entries| <= limits.maxEntries
    && (forall i :: 0 <= i < |entries| ==> ValidEntry(entries[i]))
    && DistinctRanks(entries, EntryRank)
  }

  ghost function EntryFault(entries: seq<Entry>, i: nat): Option<Error>
    requires i < |entries|
  {
    if !ValidEntry(entries[i]) then Some(InvalidEntry)
    else if exists j :: 0 <= j < i && entries[j].id == entries[i].id then Some(DuplicateEntry)
    else None
  }

  ghost predicate FirstEntryFault(entries: seq<Entry>, e: Error) {
    exists i :: 0 <= i < |entries| && EntryFault(entries, i) == Some(e) &&
                (forall j :: 0 <= j < i ==> EntryFault(entries, j) == None)
  }

  /** New publishes the index of the entries exactly when they are well formed, or reports the first fault. */
  method New(entries: seq<Entry>, inheritGlobal: bool, limits: Limits) returns (r: Result<Evaluator, Error>)
    ensures r.Ok? <==> WellFormed(entries, limits)
    ensures r.Ok? ==> r.value == Evaluator(Index(entries, KeyOf), inheritGlobal, limits)
    ensures r == Err(EntryLimitExceeded) <==> |entries| > limits.maxEntries
    ensures r.Err? && |entries| <= limits.maxEntries ==> FirstEntryFault(entries, r.error)
  {
    if |entries| > limits.maxEntries {
      return Err(EntryLimitExceeded);
    }
    NoEntryFault(entries);
    var indexed: map<EntryKey, seq<Entry>> := map[];
    var ids: set<string> := {};
    for i := 0 to |entries|
      invariant indexed == Index(entries[..i], KeyOf)
      invariant ids == IDs(entries[..i], EntryID)
      invariant forall j :: 0 <= j < i ==> EntryFault(entries, j) == None
    {
      var entry := entries[i];
      ghost var fault := EntryFault(entries, i);
      IDsSnoc(entries, EntryID, i);
      if !ValidEntry(entry) {
        assert fault == Some(InvalidEntry);
        return Err(InvalidEntry);
      }
      if entry.id in ids {
        assert fault == Some(DuplicateEntry);
        return Err(DuplicateEntry);
      }
      assert fault == None;
      IndexSnoc(entries, KeyOf, i);
      ids := ids + {entry.id};
      indexed := Append(indexed, KeyOf(entry), entry);
    }
    assert entries[..|entries|] == entries;
    return Ok(Evaluator(indexed, inheritGlobal, limits));
  }

  lemma NoEntryFault(entries: seq<Entry>)
    ensures (forall i :: 0 <= i < |entries| ==> EntryFault(entries, i) == None) <==>
            (forall i :: 0 <= i < |entries| ==> ValidEntry(entries[i])) && DistinctRanks(entries, EntryRank)
  {
    if forall i :: 0 <= i < |entries| ==> EntryFault(entries, i) == None {
      forall i, j | 0 <= i < j < |entries| ensures EntryRank(entries[i]) != EntryRank(entries[j]) {
        assert EntryFault(entries, j) == None;
      }
      forall i | 0 <= i < |entries| ensures ValidEntry(entries[i]) {
        assert EntryFault(entries, i) == None;
      }
    } else if DistinctRanks(entries, EntryRank) {
      var i :| 0 <= i < |entries| && EntryFault(entries, i) != None;
      assert forall j :: 0 <= j < i ==> EntryRank(entries[j]) != EntryRank(entries[i]);
      assert !ValidEntry(entries[i]);
    }
  }

  // ---- The flat scan ----

  /** A question to the list; without a resource it asks about every instance. */
  datatype Query = Query(
    action: string, resourceType: string, resource: Option<string>, tenant: string, inheritGlobal: bool)

  /** Tenant and instance match, once the key does. */
  predicate InScope(e: Entry, q: Query) {
    && MatchesTenant(q.inheritGlobal, e.tenant, q.tenant)
    && (q.resource.None? || e.resourceID == "" || e.resourceID == q.resource.value)
  }

  predicate Applies(e: Entry, p: Principal, q: Query) {
    KeyOf(e) == KeyFor(p, q.action, q.resourceType) && InScope(e, q)
  }

  ghost function Scoped(q: Query): Entry -> bool { (e: Entry) => InScope(e, q) }

  ghost function Applying(p: Principal, q: Query): Entry -> bool { (e: Entry) => Applies(e, p, q) }

  /** Each principal once, in order of first occurrence. */
  function Distinct(ps: seq<Principal>): seq<Principal> {
    if ps == [] then []
    else
      var init, last := ps[..|ps| - 1], ps[|ps| - 1];
      if last in init then Distinct(init) else Distinct(init) + [last]
  }

  /** All entries, scanned once per principal. */
  ghost function Flat(entries: seq<Entry>, ps: seq<Principal>, q: Query): seq<Entry> {
    if ps == [] then []
    else Flat(entries, ps[..|ps| - 1], q) + Filter(entries, Applying(ps[|ps| - 1], q))
  }

  ghost function Scan(entries: seq<Entry>, subject: Subject, q: Query): seq<Entry> {
    Flat(entries, Distinct(Principals(subject)), q)
  }

  function AsMatches(entries: seq<Entry>): seq<Match> {
    seq(|entries|, i requires 0 <= i < |entries| => Match(entries[i].id, entries[i].effect))
  }

  function QueryOf(request: Request, inheritGlobal: bool): Query {
    Query(request.action, request.resource.kind, Some(request.resource.id), request.tenant, inheritGlobal)
  }

  /** The decision table over a flat scan. */
  ghost function Decide(entries: seq<Entry>, inheritGlobal: bool, limits: Limits, request: Request): Evaluation<Error> {
    var scan := Scan(entries, request.subject, QueryOf(request, inheritGlobal));
    if |request.subject.groups| > limits.maxGroups then Evaluation(LIMITED, Some(GroupLimitExceeded))
    else if |scan| > limits.maxMatches then Evaluation(LIMITED, Some(MatchLimitExceeded))
    else Evaluation(Summarize(AsMatches(scan), ALLOW_REASON, DENY_REASON), None)
  }

  /** An index bucket narrowed to the query's scope is the scan for that principal. */
  lemma BucketIsScan(entries: seq<Entry>, p: Principal, q: Query)
    ensures Filter(Get(Index(entries, KeyOf), KeyFor(p, q.action, q.resourceType)), Scoped(q)) ==
            Filter(entries, Applying(p, q))
  {
    var key := KeyFor(p, q.action, q.resourceType);
    IndexIsScan(entries, KeyOf, key);
    FilterTwice(entries, Keyed(KeyOf, key), Scoped(q), Applying(p, q));
  }

  lemma DistinctSnoc(ps: seq<Principal>, i: nat)
    requires i < |ps|
    ensures Distinct(ps[..i + 1]) == if ps[i] in ps[..i] then Distinct(ps[..i]) else Distinct(ps[..i]) + [ps[i]]
  {
    assert ps[..i + 1][..i] == ps[..i];
  }

  lemma FlatSnoc(entries: seq<Entry>, ps: seq<Principal>, p: Principal, q: Query)
    ensures Flat(entries, ps + [p], q) == Flat(entries, ps, q) + Filter(entries, Applying(p, q))
  {
    assert (ps + [p])[..|ps|] == ps;
  }

  lemma {:induction false} DistinctPrefix(ps: seq<Principal>, i: nat)
    requires i <= |ps|
    ensures Distinct(ps[..i]) <= Distinct(ps)
    decreases |ps| - i
  {
    if i == |ps| {
      assert ps[..i] == ps;
    } else {
      DistinctSnoc(ps, i);
      DistinctPrefix(ps, i + 1);
    }
  }

  lemma {:induction false} FlatPrefix(entries: seq<Entry>, ps: seq<Principal>, qs: seq<Principal>, q: Query)
    requires ps <= qs
    ensures Flat(entries, ps, q) <= Flat(entries, qs, q)
    decreases |qs|
  {
    if |ps| < |qs| {
      FlatPrefix(entries, ps, qs[..|qs| - 1], q);
    } else {
      assert ps == qs;
    }
  }

  // ---- Evaluate ----

  /** A growing decision that stands for the entries found so far. */
  ghost predicate Tracks(d: Decision, found: seq<Entry>) {
    d == Summarize(AsMatches(found), ALLOW_REASON, DENY_REASON) && |d.matched| == |found|
  }

  /** The inner loop over one bucket. */
  method ScanBucket(bucket: seq<Entry>, q: Query, maxMatches: nat, decision: Decision, ghost found: seq<Entry>)
    returns (limited: bool, next: Decision)
    requires Tracks(decision, found) && |found| <= maxMatches
    ensures var all := found + Filter(bucket, Scoped(q));
            if |all| > maxMatches then limited else !limited && Tracks(next, all)
  {
    next := decision;
    ghost var keep := Scoped(q);
    ghost var all := found;
    assert found + Filter(bucket[..0], keep) == found;
    for i := 0 to |bucket|
      invariant all == found + Filter(bucket[..i], keep) && |all| <= maxMatches
      invariant Tracks(next, all)
    {
      var entry := bucket[i];
      NextFiltered(bucket, i, keep, found);
      if !InScope(entry, q) {
        continue;
      }
      if |next.matched| >= maxMatches {
        return true, next;
      }
      AddMatchSummarizes(AsMatches(all), Match(entry.id, entry.effect), ALLOW_REASON, DENY_REASON);
      assert AsMatches(all + [entry]) == AsMatches(all) + [Match(entry.id, entry.effect)];
      next := AddMatch(next, Match(entry.id, entry.effect), ALLOW_REASON, DENY_REASON);
      all := all + [entry];
    }
    assert bucket[..|bucket|] == bucket;
    limited := false;
  }

  lemma NextFiltered(s: seq<Entry>, i: nat, keep: Entry -> bool, before: seq<Entry>)
    requires i < |s|
    ensures before + Filter(s[..i + 1], keep) == before + Filter(s[..i], keep) + if keep(s[i]) then [s[i]] else []
    ensures |Filter(s[..i + 1], keep)| <= |Filter(s, keep)|
  {
    assert s[..i + 1] == s[..i] + [s[i]];
    FilterAppend(s[..i], [s[i]], keep);
    FilterOne(s[i], keep);
    assert s == s[..i + 1] + s[i + 1..];
    FilterAppend(s[..i + 1], s[i + 1..], keep);
  }

  lemma SeenSnoc(ps: seq<Principal>, i: nat)
    requires i < |ps|
    ensures Elements(ps[..i + 1]) == Elements(ps[..i]) + {ps[i]}
    ensures Distinct(ps[..i + 1]) ==
            if ps[i] in Elements(ps[..i]) then Distinct(ps[..i]) else Distinct(ps[..i]) + [ps[i]]
  {
    assert ps[..i + 1] == ps[..i] + [ps[i]];
    DistinctSnoc(ps, i);
  }

  /** One new principal: reads its bucket and extends the scan. */
  method ScanPrincipal(
    ev: Evaluator, ghost entries: seq<Entry>, p: Principal, q: Query, decision: Decision,
    ghost distinct: seq<Principal>)
    returns (limited: bool, next: Decision)
    requires ev.entries == Index(entries, KeyOf)
    requires Tracks(decision, Flat(entries, distinct, q)) && |Flat(entries, distinct, q)| <= ev.limits.maxMatches
    ensures var found := Flat(entries, distinct + [p], q);
            if |found| > ev.limits.maxMatches then limited else !limited && Tracks(next, found)
  {
    BucketIsScan(entries, p, q);
    FlatSnoc(entries, distinct, p, q);
    limited, next := ScanBucket(
      Get(ev.entries, KeyFor(p, q.action, q.resourceType)), q, ev.limits.maxMatches,
      decision, Flat(entries, distinct, q));
  }

  lemma ScanContainsPrefix(entries: seq<Entry>, ps: seq<Principal>, i: nat, q: Query)
    requires i <= |ps|
    ensures |Flat(entries, Distinct(ps[..i]), q)| <= |Flat(entries, Distinct(ps), q)|
  {
    DistinctPrefix(ps, i);
    FlatPrefix(entries, Distinct(ps[..i]), Distinct(ps), q);
  }

  /** The loop over principals, each considered at its first occurrence only. */
  method ScanPrincipals(ev: Evaluator, ghost entries: seq<Entry>, principals: seq<Principal>, q: Query)
    returns (limited: bool, decision: Decision)
    requires ev.entries == Index(entries, KeyOf)
    ensures var scan := Flat(entries, Distinct(principals), q);
            if |scan| > ev.limits.maxMatches then limited else !limited && Tracks(decision, scan)
  {
    decision := NO_MATCH;
    var seen: set<Principal> := {};
    ghost var distinct: seq<Principal> := [];
    for i := 0 to |principals|
      invariant seen == Elements(principals[..i]) && distinct == Distinct(principals[..i])
      invariant Tracks(decision, Flat(entries, distinct, q)) && |Flat(entries, distinct, q)| <= ev.limits.maxMatches
    {
      SeenSnoc(principals, i);
      if principals[i] !in seen {
        limited, decision := ScanPrincipal(ev, entries, principals[i], q, decision, distinct);
        if limited {
          ScanContainsPrefix(entries, principals, i + 1, q);
          return;
        }
        seen := seen + {principals[i]};
        distinct := distinct + [principals[i]];
      }
    }
    assert principals[..|principals|] == principals;
    limited := false;
  }

  /** Evaluate agrees with the flat scan, including the limit denials. */
  method Evaluate(ev: Evaluator, ghost entries: seq<Entry>, request: Request) returns (r: Evaluation<Error>)
    requires ev.entries == Index(entries, KeyOf)
    ensures r == Decide(entries, ev.inheritGlobal, ev.limits, request)
  {
    if |request.subject.groups| > ev.limits.maxGroups {
      return Evaluation(LIMITED, Some(GroupLimitExceeded));
    }
    var limited, decision := ScanPrincipals(
      ev, entries, Principals(request.subject), QueryOf(request, ev.inheritGlobal));
    if limited {
      return Evaluation(LIMITED, Some(MatchLimitExceeded));
    }
    return Evaluation(decision, None);
  }

  // ---- The scan as a set ----

  /** The entries a query concerns, with no order left. */
  ghost function Pool(entries: seq<Entry>, subject: Subject, q: Query): set<Entry> {
    set e | e in entries && Concerns(e, subject, q)
  }

  predicate Concerns(e: Entry, subject: Subject, q: Query) {
    && Principal(e.subject.kind, e.subject.id) in Principals(subject)
    && e.action == q.action && e.resourceType == q.resourceType && InScope(e, q)
  }

  lemma {:induction false} DistinctElements(ps: seq<Principal>)
    ensures forall p :: p in Distinct(ps) <==> p in ps
    ensures forall i, j :: 0 <= i < j < |Distinct(ps)| ==> Distinct(ps)[i] != Distinct(ps)[j]
  {
    if ps != [] {
      DistinctElements(ps[..|ps| - 1]);
      assert ps == ps[..|ps| - 1] + [ps[|ps| - 1]];
    }
  }

  lemma {:induction false} FlatElements(entries: seq<Entry>, ps: seq<Principal>, q: Query)
    ensures forall e :: e in Flat(entries, ps, q) <==> e in entries && exists p :: p in ps && Applies(e, p, q)
  {
    if ps != [] {
      var init, last := ps[..|ps| - 1], ps[|ps| - 1];
      FlatElements(entries, init, q);
      FilterElements(entries, Applying(last, q));
      assert ps == init + [last];
    }
  }

  lemma {:induction false} FlatDistinct(entries: seq<Entry>, ps: seq<Principal>, q: Query)
    requires DistinctRanks(entries, EntryRank)
    requires forall i, j :: 0 <= i < j < |ps| ==> ps[i] != ps[j]
    ensures DistinctRanks(Flat(entries, ps, q), EntryRank)
  {
    if ps != [] {
      var init, last := ps[..|ps| - 1], ps[|ps| - 1];
      FlatDistinct(entries, init, q);
      FilterDistinct(entries, Applying(last, q), EntryRank);
      FilterElements(entries, Applying(last, q));
      FlatElements(entries, init, q);
      var a, b := Flat(entries, init, q), Filter(entries, Applying(last, q));
      forall i, j | 0 <= i < |a| && 0 <= j < |b| ensures EntryRank(a[i]) != EntryRank(b[j]) {
        DifferentPrincipals(entries, init, last, q, a[i], b[j]);
      }
    }
  }

  lemma DifferentPrincipals(entries: seq<Entry>, init: seq<Principal>, last: Principal, q: Query, x: Entry, y: Entry)
    requires DistinctRanks(entries, EntryRank) && last !in init
    requires x in entries && (exists p :: p in init && Applies(x, p, q)) && y in entries && Applies(y, last, q)
    ensures EntryRank(x) != EntryRank(y)
  {
    var p :| p in init && Applies(x, p, q);
    assert p != last && KeyOf(x) != KeyOf(y);
    var i :| 0 <= i < |entries| && entries[i] == x;
    var j :| 0 <= j < |entries| && entries[j] == y;
    assert i < j || j < i;
  }

  /** The scan lists the pool without repetition. */
  lemma ScanIsPool(entries: seq<Entry>, subject: Subject, q: Query)
    requires DistinctRanks(entries, EntryRank)
    ensures Elements(Scan(entries, subject, q)) == Pool(entries, subject, q)
    ensures |Scan(entries, subject, q)| == |Pool(entries, subject, q)|
  {
    var ps := Distinct(Principals(subject));
    DistinctElements(Principals(subject));
    FlatElements(entries, ps, q);
    FlatDistinct(entries, ps, q);
    DistinctLength(Scan(entries, subject, q), EntryRank);
    forall e | e in entries ensures Concerns(e, subject, q) <==> exists p :: p in ps && Applies(e, p, q) {
      if Concerns(e, subject, q) {
        assert Applies(e, Principal(e.subject.kind, e.subject.id), q);
      }
    }
  }

  lemma AsMatchesDeny(entries: seq<Entry>)
    ensures Denies(AsMatches(entries)) <==> exists e :: e in entries && e.effect == Deny
  {
    if Denies(AsMatches(entries)) {
      var m :| m in AsMatches(entries) && m.effect == Deny;
      var i :| 0 <= i < |entries| && AsMatches(entries)[i] == m;
      assert entries[i] in entries;
    }
    if exists e :: e in entries && e.effect == Deny {
      var e :| e in entries && e.effect == Deny;
      var i :| 0 <= i < |entries| && entries[i] == e;
      assert AsMatches(entries)[i].effect == Deny;
    }
  }

  /** The outcome and reason that a pool of entries gives. */
  ghost function Verdict(pool: set<Entry>, limits: Limits): (Outcome, string, Option<Error>) {
    if |pool| > limits.maxMatches then (Deny, LIMITED.reason, Some(MatchLimitExceeded))
    else if pool == {} then (NotApplicable, "", None)
    else if exists e :: e in pool && e.effect == Deny then (Deny, DENY_REASON, None)
    else (Allow, ALLOW_REASON, None)
  }

  /** Decisions depend on the entries only as a set. */
  lemma DecideByPool(entries: seq<Entry>, inheritGlobal: bool, limits: Limits, request: Request)
    requires DistinctRanks(entries, EntryRank) && |request.subject.groups| <= limits.maxGroups
    ensures var d := Decide(entries, inheritGlobal, limits, request);
            var pool := Pool(entries, request.subject, QueryOf(request, inheritGlobal));
            (d.decision.outcome, d.decision.reason, d.error) == Verdict(pool, limits)
  {
    var q := QueryOf(request, inheritGlobal);
    var scan := Scan(entries, request.subject, q);
    ScanIsPool(entries, request.subject, q);
    AsMatchesDeny(scan);
    assert forall e :: e in scan <==> e in Elements(scan);
  }

  /** Reordering entries, and reordering or repeating groups within the limit, changes no outcome. */
  lemma OrderIrrelevant(
    a: seq<Entry>, b: seq<Entry>, inheritGlobal: bool, limits: Limits, request: Request, groups: seq<string>)
    requires multiset(a) == multiset(b) && DistinctRanks(a, EntryRank)
    requires forall g :: g in groups <==> g in request.subject.groups
    requires |request.subject.groups| <= limits.maxGroups && |groups| <= limits.maxGroups
    ensures var before := Decide(a, inheritGlobal, limits, request);
            var after := Decide(b, inheritGlobal, limits, request.(subject := request.subject.(groups := groups)));
            && before.decision.outcome == after.decision.outcome
            && before.decision.reason == after.decision.reason
            && before.error == after.error
  {
    var subject := request.subject.(groups := groups);
    var q := QueryOf(request, inheritGlobal);
    SameElements(a, b);
    DistinctPermuted(a, b, EntryRank);
    assert forall p :: p in Principals(subject) <==> p in Principals(request.subject);
    assert Pool(a, request.subject, q) == Pool(b, subject, q);
    DecideByPool(a, inheritGlobal, limits, request);
    DecideByPool(b, inheritGlobal, limits, request.(subject := subject));
  }

  // ---- ListResourceIDs ----

  function ListQuery(action: string, resourceType: string, tenant: string, inheritGlobal: bool): Query {
    Query(action, resourceType, None, tenant, inheritGlobal)
  }

  function RequestFor(subject: Subject, action: string, resourceType: string, id: string, tenant: string): Request {
    Request(subject, action, Resource(resourceType, id, map[]), tenant, Environment(0, map[]), map[])
  }

  predicate TypeWide(e: Entry, effect: Outcome) { e.resourceID == "" && e.effect == effect }

  function KeysFor(ps: seq<Principal>, action: string, resourceType: string): seq<EntryKey> {
    seq(|ps|, i requires 0 <= i < |ps| => KeyFor(ps[i], action, resourceType))
  }

  /** principalKeys: one key per distinct principal. */
  method PrincipalKeys(subject: Subject, action: string, resourceType: string) returns (keys: seq<EntryKey>)
    ensures keys == KeysFor(Distinct(Principals(subject)), action, resourceType)
  {
    var principals := Principals(subject);
    keys := [];
    var seen: set<EntryKey> := {};
    ghost var distinct: seq<Principal> := [];
    for i := 0 to |principals|
      invariant seen == KeySet(principals[..i], action, resourceType)
      invariant distinct == Distinct(principals[..i]) && keys == KeysFor(distinct, action, resourceType)
    {
      var key := KeyFor(principals[i], action, resourceType);
      KeySeen(principals, i, action, resourceType);
      if key !in seen {
        seen := seen + {key};
        KeysSnoc(distinct, principals[i], action, resourceType);
        keys := keys + [key];
        distinct := distinct + [principals[i]];
      }
    }
    assert principals[..|principals|] == principals;
  }

  lemma KeysSnoc(ps: seq<Principal>, p: Principal, action: string, resourceType: string)
    ensures KeysFor(ps + [p], action, resourceType) ==
            KeysFor(ps, action, resourceType) + [KeyFor(p, action, resourceType)]
  {
  }

  ghost function KeySet(ps: seq<Principal>, action: string, resourceType: string): set<EntryKey> {
    set p | p in ps :: KeyFor(p, action, resourceType)
  }

  lemma KeySeen(ps: seq<Principal>, i: nat, action: string, resourceType: string)
    requires i < |ps|
    ensures var key := KeyFor(ps[i], action, resourceType);
            && KeySet(ps[..i + 1], action, resourceType) == KeySet(ps[..i], action, resourceType) + {key}
            && Distinct(ps[..i + 1]) ==
               if key in KeySet(ps[..i], action, resourceType) then Distinct(ps[..i]) else Distinct(ps[..i]) + [ps[i]]
  {
    assert ps[..i + 1] == ps[..i] + [ps[i]];
    DistinctSnoc(ps, i);
    assert forall p :: KeyFor(p, action, resourceType) == KeyFor(ps[i], action, resourceType) ==> p == ps[i];
  }

  /** What the listing loop knows after the entries `done`, none of which denies the whole type. */
  ghost predicate Tallied(done: seq<Entry>, effects: map<string, Outcome>, typeWideAllow: bool) {
    && (forall e :: e in done ==> (e.effect == Allow || e.effect == Deny) && !TypeWide(e, Deny))
    && (typeWideAllow <==> exists e :: e in done && TypeWide(e, Allow))
    && (forall id :: id in effects <==> id != "" && exists e :: e in done && e.resourceID == id)
    && (forall id :: id in effects ==>
          effects[id] == if exists e :: e in done && e.resourceID == id && e.effect == Deny then Deny else Allow)
  }

  function Effect(effects: map<string, Outcome>, id: string): Outcome {
    if id in effects then effects[id] else NotApplicable
  }

  lemma TallyTypeWide(done: seq<Entry>, effects: map<string, Outcome>, typeWideAllow: bool, e: Entry)
    requires Tallied(done, effects, typeWideAllow) && TypeWide(e, Allow)
    ensures Tallied(done + [e], effects, true)
  {
    assert forall x :: x in done + [e] <==> x in done || x == e;
    assert e in done + [e];
  }

  lemma TallyInstance(done: seq<Entry>, effects: map<string, Outcome>, typeWideAllow: bool, e: Entry)
    requires Tallied(done, effects, typeWideAllow) && e.resourceID != "" && (e.effect == Allow || e.effect == Deny)
    ensures Tallied(done + [e],
                    if e.effect == Deny || Effect(effects, e.resourceID) == NotApplicable
                    then effects[e.resourceID := e.effect] else effects,
                    typeWideAllow)
  {
    assert forall x :: x in done + [e] <==> x in done || x == e;
    assert e in done + [e];
  }

  datatype Tally = Going | TypeDenied | Limited

  /** The whole type is denied by one of the first `n` matching entries. */
  ghost predicate DeniedWithin(scan: seq<Entry>, n: nat) {
    exists k :: 0 <= k < |scan| && k < n && TypeWide(scan[k], Deny)
  }

  /** How the listing loop ends over a scan, in the order in which it meets the entries. */
  ghost predicate Ends(tally: Tally, scan: seq<Entry>, maxMatches: nat) {
    match tally
    case Going => |scan| <= maxMatches && !DeniedWithin(scan, maxMatches)
    case TypeDenied => DeniedWithin(scan, maxMatches)
    case Limited => |scan| > maxMatches && !DeniedWithin(scan, maxMatches)
  }

  /** An early end is decided by what has been met. */
  lemma EndsEarly(tally: Tally, met: seq<Entry>, scan: seq<Entry>, maxMatches: nat)
    requires met <= scan && Ends(tally, met, maxMatches) && !tally.Going?
    ensures Ends(tally, scan, maxMatches)
  {
    if tally == TypeDenied {
      var k :| 0 <= k < |met| && k < maxMatches && TypeWide(met[k], Deny);
      assert scan[k] == met[k];
    } else {
      forall k | 0 <= k < maxMatches ensures !TypeWide(scan[k], Deny) {
        assert met[k] == scan[k];
      }
    }
  }

  /** The entry just met either denies the type within the limit, or is the first one beyond it. */
  lemma EndsHere(done: seq<Entry>, e: Entry, effects: map<string, Outcome>, typeWideAllow: bool, maxMatches: nat)
    requires Tallied(done, effects, typeWideAllow) && |done| <= maxMatches
    ensures |done| == maxMatches ==> Ends(Limited, done + [e], maxMatches)
    ensures |done| < maxMatches && TypeWide(e, Deny) ==> Ends(TypeDenied, done + [e], maxMatches)
  {
    var met := done + [e];
    assert met[|done|] == e;
    forall k | 0 <= k < |done| ensures !TypeWide(met[k], Deny) {
      assert met[k] == done[k] && done[k] in done;
    }
  }

  lemma TalliedEnds(scan: seq<Entry>, effects: map<string, Outcome>, typeWideAllow: bool, maxMatches: nat)
    requires Tallied(scan, effects, typeWideAllow) && |scan| <= maxMatches
    ensures Ends(Going, scan, maxMatches)
  {
    forall k | 0 <= k < |scan| ensures !TypeWide(scan[k], Deny) {
      assert scan[k] in scan;
    }
  }

  lemma {:induction false} FilteredPrefix(before: seq<Entry>, s: seq<Entry>, i: nat, keep: Entry -> bool)
    requires i <= |s|
    ensures before + Filter(s[..i], keep) <= before + Filter(s, keep)
  {
    var head, tail := Filter(s[..i], keep), Filter(s[i..], keep);
    FilterAppend(s[..i], s[i..], keep);
    assert s[..i] + s[i..] == s;
    Associative(before, head, tail);
  }

  /** The inner listing loop over one bucket. */
  method TallyBucket(bucket: seq<Entry>, q: Query, maxMatches: nat, effects: map<string, Outcome>, typeWideAllow: bool,
                     matches: nat, ghost done: seq<Entry>)
    returns (tally: Tally, effects': map<string, Outcome>, typeWideAllow': bool, matches': nat)
    requires forall e :: e in bucket ==> e.effect == Allow || e.effect == Deny
    requires q.resource.None? && Tallied(done, effects, typeWideAllow) && matches == |done| <= maxMatches
    ensures var all := done + Filter(bucket, Scoped(q));
            if tally.Going? then Tallied(all, effects', typeWideAllow') && matches' == |all| <= maxMatches
            else Ends(tally, all, maxMatches)
  {
    effects', typeWideAllow', matches' := effects, typeWideAllow, matches;
    ghost var keep := Scoped(q);
    ghost var all := done;
    assert done + Filter(bucket[..0], keep) == done;
    FilterElements(bucket, keep);
    for i := 0 to |bucket|
      invariant all == done + Filter(bucket[..i], keep)
      invariant Tallied(all, effects', typeWideAllow') && matches' == |all| <= maxMatches
    {
      var entry := bucket[i];
      assert entry in bucket;
      NextFiltered(bucket, i, keep, done);
      FilteredPrefix(done, bucket, i + 1, keep);
      if MatchesTenant(q.inheritGlobal, entry.tenant, q.tenant) {
        EndsHere(all, entry, effects', typeWideAllow', maxMatches);
        if matches' >= maxMatches {
          EndsEarly(Limited, all + [entry], done + Filter(bucket, keep), maxMatches);
          return Limited, effects', typeWideAllow', matches';
        }
        matches' := matches' + 1;
        if entry.resourceID == "" {
          if entry.effect == Deny {
            EndsEarly(TypeDenied, all + [entry], done + Filter(bucket, keep), maxMatches);
            return TypeDenied, effects', typeWideAllow', matches';
          }
          TallyTypeWide(all, effects', typeWideAllow', entry);
          typeWideAllow' := true;
        } else {
          TallyInstance(all, effects', typeWideAllow', entry);
          if entry.effect == Deny || Effect(effects', entry.resourceID) == NotApplicable {
            effects' := effects'[entry.resourceID := entry.effect];
          }
        }
        all := all + [entry];
      }
    }
    assert bucket[..|bucket|] == bucket;
    tally := Going;
  }

  /** Ranging over the effects in any order and sorting gives one possible list. */
  method AllowedIDs(effects: map<string, Outcome>) returns (ids: seq<string>)
    ensures StrictlySorted(ids, StringRank)
    ensures forall id :: id in ids <==> id in effects && effects[id] == Allow
  {
    var gathered: seq<string> := [];
    var todo := effects.Keys;
    while todo != {}
      invariant todo <= effects.Keys
      invariant forall id :: id in gathered <==> id in effects.Keys - todo && effects[id] == Allow
      invariant DistinctRanks(gathered, StringRank)
    {
      var id :| id in todo;
      if effects[id] == Allow {
        assert id !in gathered;
        gathered := gathered + [id];
      }
      todo := todo - {id};
    }
    ids := SortFunc(gathered, StringRank);
    SameElements(ids, gathered);
    SortedDistinct(gathered, ids, StringRank);
  }

  lemma {:induction false} FlatFinePrefix(entries: seq<Entry>, ps: seq<Principal>, i: nat, q: Query)
    requires i < |ps|
    ensures Flat(entries, ps[..i + 1], q) == Flat(entries, ps[..i], q) + Filter(entries, Applying(ps[i], q))
    ensures Flat(entries, ps[..i + 1], q) <= Flat(entries, ps, q)
  {
    assert ps[..i + 1] == ps[..i] + [ps[i]];
    FlatSnoc(entries, ps[..i], ps[i], q);
    FlatPrefix(entries, ps[..i + 1], ps, q);
  }

  /** The listing loop over all principals, against the flat scan. */
  method TallyAll(ev: Evaluator, ghost entries: seq<Entry>, subject: Subject, q: Query)
    returns (tally: Tally, effects: map<string, Outcome>, typeWideAllow: bool)
    requires WellFormed(entries, ev.limits) && ev.entries == Index(entries, KeyOf) && q.resource.None?
    ensures var scan := Scan(entries, subject, q);
            Ends(tally, scan, ev.limits.maxMatches) && (tally.Going? ==> Tallied(scan, effects, typeWideAllow))
  {
    effects, typeWideAllow := map[], false;
    var matches := 0;
    ghost var ps := Distinct(Principals(subject));
    var keys := PrincipalKeys(subject, q.action, q.resourceType);
    for i := 0 to |keys|
      invariant Tallied(Flat(entries, ps[..i], q), effects, typeWideAllow)
      invariant matches == |Flat(entries, ps[..i], q)| <= ev.limits.maxMatches
    {
      BucketIsScan(entries, ps[i], q);
      FlatFinePrefix(entries, ps, i, q);
      BucketEffects(entries, keys[i]);
      tally, effects, typeWideAllow, matches := TallyBucket(
        Get(ev.entries, keys[i]), q, ev.limits.maxMatches, effects, typeWideAllow, matches, Flat(entries, ps[..i], q));
      if !tally.Going? {
        EndsEarly(tally, Flat(entries, ps[..i + 1], q), Flat(entries, ps, q), ev.limits.maxMatches);
        return;
      }
    }
    assert ps[..|ps|] == ps;
    TalliedEnds(Flat(entries, ps, q), effects, typeWideAllow, ev.limits.maxMatches);
    tally := Going;
  }

  lemma BucketEffects(entries: seq<Entry>, key: EntryKey)
    requires forall i :: 0 <= i < |entries| ==> ValidEntry(entries[i])
    ensures forall e :: e in Get(Index(entries, KeyOf), key) ==> e.effect == Allow || e.effect == Deny
  {
    IndexIsScan(entries, KeyOf, key);
    FilterElements(entries, Keyed(KeyOf, key));
  }

  /** The pool of one instance is the part of the whole pool that names it or the type. */
  lemma InstancePool(entries: seq<Entry>, subject: Subject, action: string, resourceType: string, tenant: string,
                     inheritGlobal: bool, id: string)
    ensures var whole := Pool(entries, subject, ListQuery(action, resourceType, tenant, inheritGlobal));
            var one := Pool(
              entries, subject, QueryOf(RequestFor(subject, action, resourceType, id, tenant), inheritGlobal));
            (forall e :: e in one <==> e in whole && (e.resourceID == "" || e.resourceID == id)) && |one| <= |whole|
  {
    var whole := Pool(entries, subject, ListQuery(action, resourceType, tenant, inheritGlobal));
    var one := Pool(entries, subject, QueryOf(RequestFor(subject, action, resourceType, id, tenant), inheritGlobal));
    assert one <= whole;
    SubsetSize(one, whole);
  }

  lemma SubsetSize<T>(a: set<T>, b: set<T>)
    requires a <= b
    ensures |a| <= |b|
  {
    assert b == a + (b - a);
    assert |a + (b - a)| == |a| + |b - a|;
  }

  /** Lists identifiers, or the whole type, or a failure. */
  ghost predicate ListingAgrees(
    entries: seq<Entry>, inheritGlobal: bool, limits: Limits, subject: Subject, action: string, resourceType: string,
    tenant: string, ids: seq<string>)
  {
    forall id :: id != "" ==>
      (id in ids <==>
       Decide(entries, inheritGlobal, limits,
              RequestFor(subject, action, resourceType, id, tenant)).decision.outcome == Allow)
  }

  lemma TypeDenyAgrees(entries: seq<Entry>, inheritGlobal: bool, limits: Limits, subject: Subject, action: string,
                       resourceType: string, tenant: string)
    requires WellFormed(entries, limits) && |subject.groups| <= limits.maxGroups
    requires exists e :: e in Scan(entries, subject, ListQuery(action, resourceType, tenant, inheritGlobal)) &&
                     TypeWide(e, Deny)
    ensures ListingAgrees(entries, inheritGlobal, limits, subject, action, resourceType, tenant, [])
  {
    var q := ListQuery(action, resourceType, tenant, inheritGlobal);
    ScanIsPool(entries, subject, q);
    var e :| e in Scan(entries, subject, q) && TypeWide(e, Deny);
    assert e in Elements(Scan(entries, subject, q));
    forall id | id != ""
      ensures Decide(entries, inheritGlobal, limits,
                     RequestFor(subject, action, resourceType, id, tenant)).decision.outcome != Allow
    {
      var request := RequestFor(subject, action, resourceType, id, tenant);
      DecideByPool(entries, inheritGlobal, limits, request);
      InstancePool(entries, subject, action, resourceType, tenant, inheritGlobal, id);
      assert e in Pool(entries, subject, QueryOf(request, inheritGlobal));
    }
  }

  lemma TallyAgrees(entries: seq<Entry>, inheritGlobal: bool, limits: Limits, subject: Subject, action: string,
                    resourceType: string, tenant: string, effects: map<string, Outcome>, ids: seq<string>)
    requires WellFormed(entries, limits) && |subject.groups| <= limits.maxGroups
    requires var scan := Scan(entries, subject, ListQuery(action, resourceType, tenant, inheritGlobal));
             Tallied(scan, effects, false) && |scan| <= limits.maxMatches
    requires forall id :: id in ids <==> id in effects && effects[id] == Allow
    ensures ListingAgrees(entries, inheritGlobal, limits, subject, action, resourceType, tenant, ids)
  {
    var q := ListQuery(action, resourceType, tenant, inheritGlobal);
    var scan := Scan(entries, subject, q);
    ScanIsPool(entries, subject, q);
    assert forall e :: e in scan <==> e in Elements(scan);
    forall id | id != ""
      ensures id in ids <==>
        Decide(entries, inheritGlobal, limits,
               RequestFor(subject, action, resourceType, id, tenant)).decision.outcome == Allow
    {
      DecideByPool(entries, inheritGlobal, limits, RequestFor(subject, action, resourceType, id, tenant));
      InstancePool(entries, subject, action, resourceType, tenant, inheritGlobal, id);
      InstanceVerdict(scan,
        Pool(entries, subject, QueryOf(RequestFor(subject, action, resourceType, id, tenant), inheritGlobal)),
                      effects, limits, id);
    }
  }

  /** With no type-wide entry about, an instance is allowed exactly when its tally says so. */
  lemma InstanceVerdict(scan: seq<Entry>, one: set<Entry>, effects: map<string, Outcome>, limits: Limits, id: string)
    requires Tallied(scan, effects, false) && id != "" && |one| <= limits.maxMatches
    requires forall e :: e in one <==> e in scan && (e.resourceID == "" || e.resourceID == id)
    ensures Verdict(one, limits).0 == Allow <==> id in effects && effects[id] == Allow
  {
    assert forall e :: e in one <==> e in scan && e.resourceID == id;
    if one != {} {
      var e :| e in one;
      assert id in effects;
    }
  }

  /** ListResourceIDs: the identifiers it returns are exactly the instances that Evaluate allows. */
  method ListResourceIDs(
    ev: Evaluator, ghost entries: seq<Entry>, subject: Subject, action: string, resourceType: string, tenant: string)
    returns (r: Result<seq<string>, Error>)
    requires WellFormed(entries, ev.limits) && ev.entries == Index(entries, KeyOf)
    ensures r.Ok? ==> StrictlySorted(r.value, StringRank)
    ensures r.Ok? ==>
            ListingAgrees(entries, ev.inheritGlobal, ev.limits, subject, action, resourceType, tenant, r.value)
    ensures r.Ok? ==> "" !in r.value
    ensures var scan := Scan(entries, subject, ListQuery(action, resourceType, tenant, ev.inheritGlobal));
            && (r == Err(UnboundedResourceSet) <==>
                  |subject.groups| <= ev.limits.maxGroups && |scan| <= ev.limits.maxMatches &&
                  (exists e :: e in scan && TypeWide(e, Allow)) && !(exists e :: e in scan && TypeWide(e, Deny)))
            && (r == Err(MatchLimitExceeded) <==>
                  |subject.groups| <= ev.limits.maxGroups && |scan| > ev.limits.maxMatches &&
                  !DeniedWithin(scan, ev.limits.maxMatches))
    ensures r == Err(GroupLimitExceeded) <==> |subject.groups| > ev.limits.maxGroups
    ensures r.Err? ==> r.error in {GroupLimitExceeded, MatchLimitExceeded, UnboundedResourceSet}
  {
    if |subject.groups| > ev.limits.maxGroups {
      return Err(GroupLimitExceeded);
    }
    var q := ListQuery(action, resourceType, tenant, ev.inheritGlobal);
    var tally, effects, typeWideAllow := TallyAll(ev, entries, subject, q);
    match tally
    case Limited => return Err(MatchLimitExceeded);
    case TypeDenied =>
      ghost var scan := Scan(entries, subject, q);
      ghost var k :| 0 <= k < |scan| && k < ev.limits.maxMatches && TypeWide(scan[k], Deny);
      assert scan[k] in scan;
      TypeDenyAgrees(entries, ev.inheritGlobal, ev.limits, subject, action, resourceType, tenant);
      return Ok([]);
    case Going =>
      if typeWideAllow {
        return Err(UnboundedResourceSet);
      }
      var ids := AllowedIDs(effects);
      TallyAgrees(entries, ev.inheritGlobal, ev.limits, subject, action, resourceType, tenant, effects, ids);
      return Ok(ids);
  }
}
