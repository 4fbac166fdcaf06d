// The distributed policy lifecycle (postgres/store.go, policy/synchronizer.go,
// engine.go) as a transition system: any number of engines, synchronizers and
// concurrent calls over one repository row. Every read, write, clock sample and
// lock of the source is a step of its own, and steps interleave freely.
module Lifecycle {
  import opened Decisions
  import Engine

  /** A revisioned policy set; everything but the revision is opaque. */
  datatype Manifest = Manifest(revision: nat, content: nat)

  /** The singleton row keeps the revision beside the document that also states it. */
  datatype Row = Row(revision: nat, manifest: Manifest)

  datatype Commit = Commit(expected: nat, manifest: Manifest)

  /** A compiled snapshot and the manifest it came from. */
  datatype Snapshot = Snapshot(revision: nat, source: Manifest)

  type EngineID = nat
  type SyncID = nat
  type ThreadID = nat

  /** `verifiedAt` zero means never verified; `holder` is the owner of the reload mutex. */
  datatype Sync = Sync(engine: EngineID, maxStaleness: nat, verifiedAt: int, holder: Option<ThreadID>)

  /** A successful verification: history only. */
  datatype Mark = Mark(sync: SyncID, time: int, revision: nat)

  /** Where a call is. A hint is present when Reload runs inside Observe. */
  datatype Point =
    | Waiting(hint: Option<nat>)
    | Locked(hint: Option<nat>)
    | Loaded(hint: Option<nat>, manifest: Manifest)
    | Newer(hint: Option<nat>, manifest: Manifest, current: nat)
    | Compiled(hint: Option<nat>, manifest: Manifest, current: nat, snapshot: Snapshot)
    | Verified(hint: Option<nat>, manifest: Manifest)
    | Checking(asked: nat)
    | Reloaded
    | ReloadFailed
    | Observed(asked: nat, accepted: bool)
    | Sampled(verifiedAt: int)
    | Admitted(verifiedAt: int, now: int)
    | Refused
    | Decided(verifiedAt: int, now: int, used: Snapshot)

  /** `wrote` records whether the current reload has changed an engine or a verification time. */
  datatype Thread = Thread(sync: SyncID, at: Point, wrote: bool)

  datatype State = State(
    row: Option<Row>, commits: seq<Commit>, engines: map<EngineID, Snapshot>, syncs: map<SyncID, Sync>,
    threads: map<ThreadID, Thread>, marks: seq<Mark>)

  /** What validation, compilation and the policy-count limit say of a manifest. */
  datatype World = World(valid: Manifest -> bool, compiles: Manifest -> bool, fits: Manifest -> bool)

  datatype Action =
    | Update(expected: nat, next: Manifest)
    | Boot(engine: EngineID, manifest: Manifest)
    | Attach(sync: SyncID, engine: EngineID, maxStaleness: nat)
    | CallReload(thread: ThreadID, sync: SyncID)
    | CallObserve(thread: ThreadID, sync: SyncID, asked: nat)
    | Lock(thread: ThreadID)
    | Load(thread: ThreadID)
    | Abandon(thread: ThreadID)
    | ReadRevision(thread: ThreadID)
    | Compile(thread: ThreadID)
    | Replace(thread: ThreadID)
    | MarkVerified(thread: ThreadID, clock: int)
    | CheckHint(thread: ThreadID)
    | CallDecide(thread: ThreadID, sync: SyncID)
    | ReadClock(thread: ThreadID, clock: int)
    | LoadSnapshot(thread: ThreadID)

  const BIGINT_LIMIT := 0x8000_0000_0000_0000

  // ---- Steps ----

  /** Update together with updateManifestSQL, as one conditional write. */
  predicate Accepts(w: World, row: Option<Row>, expected: nat, next: Manifest) {
    && w.valid(next) && next.revision > expected && next.revision < BIGINT_LIMIT
    && match row
       case None => expected == 0
       case Some(r) => r.revision == expected && next.revision > r.revision
  }

  predicate InReload(p: Point) { p.Locked? || p.Loaded? || p.Newer? || p.Compiled? || p.Verified? }

  predicate Finished(p: Point) { p.Reloaded? || p.ReloadFailed? || p.Observed? || p.Refused? || p.Decided? }

  predicate Free(s: State, t: ThreadID) { t !in s.threads || Finished(s.threads[t].at) }

  predicate At(s: State, t: ThreadID) {
    t in s.threads && s.threads[t].sync in s.syncs && s.syncs[s.threads[t].sync].engine in s.engines
  }

  function SyncOf(s: State, t: ThreadID): Sync
    requires At(s, t)
  {
    s.syncs[s.threads[t].sync]
  }

  function Running(s: State, t: ThreadID): Snapshot
    requires At(s, t)
  {
    s.engines[SyncOf(s, t).engine]
  }

  ghost predicate Committed(commits: seq<Commit>, m: Manifest) {
    exists i :: 0 <= i < |commits| && commits[i].manifest == m
  }

  ghost predicate Enabled(w: World, s: State, a: Action) {
    match a
    case Update(_, _) => true
    case Boot(e, m) => e !in s.engines && Committed(s.commits, m) && w.compiles(m)
    case Attach(y, e, _) => y !in s.syncs && e in s.engines
    case CallReload(t, y) => Free(s, t) && y in s.syncs
    case CallObserve(t, y, _) => Free(s, t) && y in s.syncs && s.syncs[y].engine in s.engines
    case Lock(t) => At(s, t) && s.threads[t].at.Waiting? && SyncOf(s, t).holder == None
    case Load(t) => At(s, t) && s.threads[t].at.Locked? && s.row.Some?
    case Abandon(t) => At(s, t) && s.threads[t].at.Locked?
    case ReadRevision(t) => At(s, t) && s.threads[t].at.Loaded?
    case Compile(t) => At(s, t) && s.threads[t].at.Newer?
    case Replace(t) => At(s, t) && s.threads[t].at.Compiled?
    case MarkVerified(t, _) => At(s, t) && s.threads[t].at.Verified?
    case CheckHint(t) => At(s, t) && s.threads[t].at.Checking?
    case CallDecide(t, y) => Free(s, t) && y in s.syncs
    case ReadClock(t, _) => At(s, t) && s.threads[t].at.Sampled?
    case LoadSnapshot(t) => At(s, t) && s.threads[t].at.Admitted?
  }

  function Move(s: State, t: ThreadID, p: Point): State
    requires t in s.threads
  {
    s.(threads := s.threads[t := s.threads[t].(at := p)])
  }

  /** Leaves the reload with an error and releases the mutex. */
  function Fail(s: State, t: ThreadID): State
    requires At(s, t)
  {
    Move(Unlock(s, t), t, ReloadFailed)
  }

  function Unlock(s: State, t: ThreadID): State
    requires At(s, t)
  {
    s.(syncs := s.syncs[s.threads[t].sync := SyncOf(s, t).(holder := None)])
  }

  function Wrote(s: State, t: ThreadID): State
    requires t in s.threads
  {
    s.(threads := s.threads[t := s.threads[t].(wrote := true)])
  }

  function AfterUpdate(w: World, s: State, expected: nat, next: Manifest): State {
    if Accepts(w, s.row, expected, next)
    then s.(row := Some(Row(next.revision, next)), commits := s.commits + [Commit(expected, next)])
    else s
  }

  /** Stale manifests fail, equal ones are verified without recompiling, newer ones go on. */
  function AfterReadRevision(w: World, s: State, t: ThreadID): State
    requires At(s, t) && s.threads[t].at.Loaded?
  {
    var p, current := s.threads[t].at, Running(s, t).revision;
    if !w.valid(p.manifest) || p.manifest.revision < current then Fail(s, t)
    else if p.manifest.revision == current then Move(s, t, Verified(p.hint, p.manifest))
    else Move(s, t, Newer(p.hint, p.manifest, current))
  }

  /** Engine.ReplaceSnapshot: compare, require progress, store. */
  function AfterReplace(w: World, s: State, t: ThreadID): State
    requires At(s, t) && s.threads[t].at.Compiled?
  {
    var p := s.threads[t].at;
    if !w.fits(p.manifest) || Running(s, t).revision != p.current || p.snapshot.revision <= Running(s, t).revision
    then Fail(s, t)
    else Move(Wrote(s.(engines := s.engines[SyncOf(s, t).engine := p.snapshot]), t), t, Verified(p.hint, p.manifest))
  }

  /** markVerified, after which Reload returns and releases the mutex. */
  function AfterMark(s: State, t: ThreadID, clock: int): State
    requires At(s, t) && s.threads[t].at.Verified?
  {
    var p, y := s.threads[t].at, s.threads[t].sync;
    var marked := s.(syncs := s.syncs[y := s.syncs[y].(verifiedAt := clock, holder := None)],
                     marks := s.marks + [Mark(y, clock, p.manifest.revision)]);
    Move(Wrote(marked, t), t, if p.hint.Some? then Checking(p.hint.value) else Reloaded)
  }

  function AfterReadClock(s: State, t: ThreadID, now: int): State
    requires At(s, t) && s.threads[t].at.Sampled?
  {
    var v := s.threads[t].at.verifiedAt;
    if v == 0 || now < v || now - v > SyncOf(s, t).maxStaleness then Move(s, t, Refused)
    else Move(s, t, Admitted(v, now))
  }

  function Begin(s: State, t: ThreadID, y: SyncID, p: Point): State {
    s.(threads := s.threads[t := Thread(y, p, false)])
  }

  ghost function After(w: World, s: State, a: Action): State
    requires Enabled(w, s, a)
  {
    match a
    case Update(expected, next) => AfterUpdate(w, s, expected, next)
    case Boot(e, m) => s.(engines := s.engines[e := Snapshot(m.revision, m)])
    case Attach(y, e, maxStaleness) => s.(syncs := s.syncs[y := Sync(e, maxStaleness, 0, None)])
    case CallReload(t, y) => Begin(s, t, y, Waiting(None))
    case CallObserve(t, y, asked) =>
      Begin(s, t, y,
            if asked <= s.engines[s.syncs[y].engine].revision then Observed(asked, true)
            else Waiting(Some(asked)))
    case Lock(t) =>
      Move(s.(syncs := s.syncs[s.threads[t].sync := SyncOf(s, t).(holder := Some(t))]), t, Locked(s.threads[t].at.hint))
    case Load(t) => Move(s, t, Loaded(s.threads[t].at.hint, s.row.value.manifest))
    case Abandon(t) => Fail(s, t)
    case ReadRevision(t) => AfterReadRevision(w, s, t)
    case Compile(t) =>
      var p := s.threads[t].at;
      if w.compiles(p.manifest)
      then Move(s, t, Compiled(p.hint, p.manifest, p.current, Snapshot(p.manifest.revision, p.manifest)))
      else Fail(s, t)
    case Replace(t) => AfterReplace(w, s, t)
    case MarkVerified(t, clock) => AfterMark(s, t, clock)
    case CheckHint(t) =>
      var asked := s.threads[t].at.asked; Move(s, t, Observed(asked, Running(s, t).revision >= asked))
    case CallDecide(t, y) => Begin(s, t, y, Sampled(s.syncs[y].verifiedAt))
    case ReadClock(t, clock) => AfterReadClock(s, t, clock)
    case LoadSnapshot(t) =>
      var p := s.threads[t].at; Move(s, t, Decided(p.verifiedAt, p.now, Running(s, t)))
  }

  const START := State(None, [], map[], map[], map[], [])

  // ---- What can only grow ----

  ghost predicate EnginesAdvance(s: State, s': State) {
    forall e :: e in s.engines ==> e in s'.engines && s.engines[e].revision <= s'.engines[e].revision
  }

  ghost predicate SyncsKeep(s: State, s': State) {
    forall y :: y in s.syncs ==>
      y in s'.syncs && s'.syncs[y].engine == s.syncs[y].engine && s'.syncs[y].maxStaleness == s.syncs[y].maxStaleness
  }

  ghost predicate Grows(s: State, s': State) {
    s.commits <= s'.commits && s.marks <= s'.marks && EnginesAdvance(s, s') && SyncsKeep(s, s')
  }

  // ---- The invariant ----

  /** Commits form one chain of strictly increasing revisions, and the row is its end. */
  ghost predicate HistoryFine(commits: seq<Commit>, row: Option<Row>) {
    (forall i :: 0 <= i < |commits| ==> Linked(commits, i)) && row == LastRow(commits)
  }

  ghost predicate Linked(commits: seq<Commit>, i: int)
    requires 0 <= i < |commits|
  {
    commits[i].manifest.revision > commits[i].expected == if i == 0 then 0 else commits[i - 1].manifest.revision
  }

  function LastRow(commits: seq<Commit>): Option<Row> {
    if commits == [] then None else var last := commits[|commits| - 1].manifest; Some(Row(last.revision, last))
  }

  ghost predicate SnapshotFine(commits: seq<Commit>, x: Snapshot) {
    x.revision == x.source.revision && Committed(commits, x.source)
  }

  ghost predicate EnginesFine(commits: seq<Commit>, engines: map<EngineID, Snapshot>) {
    forall e :: e in engines ==> SnapshotFine(commits, engines[e])
  }

  /** A verification that the engine behind the synchronizer has kept up with. */
  ghost predicate Vouches(s: State, y: SyncID, time: int, k: int) {
    && 0 <= k < |s.marks| && s.marks[k].sync == y && s.marks[k].time == time
    && y in s.syncs && s.syncs[y].engine in s.engines
    && s.marks[k].revision <= s.engines[s.syncs[y].engine].revision
  }

  ghost predicate Vouched(s: State, y: SyncID, time: int) { exists k :: Vouches(s, y, time, k) }

  ghost predicate SyncsFine(s: State) {
    forall y :: y in s.syncs ==>
      s.syncs[y].engine in s.engines && (s.syncs[y].verifiedAt != 0 ==> Vouched(s, y, s.syncs[y].verifiedAt))
  }

  /** A decision taken at `now` rests on a verification that was fresh then and no newer than its snapshot. */
  ghost predicate Rests(s: State, y: SyncID, time: int, now: int) {
    time != 0 && Vouched(s, y, time) && y in s.syncs && time <= now <= time + s.syncs[y].maxStaleness
  }

  ghost predicate RestsOn(s: State, y: SyncID, time: int, used: Snapshot) {
    exists k :: Vouches(s, y, time, k) && s.marks[k].revision <= used.revision
  }

  /** A reload that has not reached its replacement, or that failed. */
  predicate NothingWritten(p: Point) {
    p.Waiting? || p.Locked? || p.Loaded? || p.Newer? || p.Compiled? || p.ReloadFailed?
  }

  /** What holds of a call at each point, whatever else goes on. */
  ghost predicate PointFine(s: State, th: Thread) {
    && th.sync in s.syncs && s.syncs[th.sync].engine in s.engines
    && (NothingWritten(th.at) ==> !th.wrote)
    && match th.at
       case Loaded(_, m) => Committed(s.commits, m)
       case Newer(_, m, current) => Committed(s.commits, m) && current < m.revision
       case Compiled(_, m, current, x) =>
         x == Snapshot(m.revision, m) && Committed(s.commits, m) && current < m.revision
       case Verified(_, m) => Committed(s.commits, m) && m.revision <= s.engines[s.syncs[th.sync].engine].revision
       case Observed(asked, accepted) => accepted ==> asked <= s.engines[s.syncs[th.sync].engine].revision
       case Sampled(time) => time != 0 ==> Vouched(s, th.sync, time)
       case Admitted(time, now) => Rests(s, th.sync, time, now)
       case Decided(time, now, used) =>
         Rests(s, th.sync, time, now) && RestsOn(s, th.sync, time, used) && SnapshotFine(s.commits, used)
       case _ => true
  }

  ghost predicate ThreadsFine(s: State) { forall t :: t in s.threads ==> PointFine(s, s.threads[t]) }

  /** Whoever is inside a reload holds that synchronizer's mutex. */
  ghost predicate LocksFine(syncs: map<SyncID, Sync>, threads: map<ThreadID, Thread>) {
    forall t :: t in threads && InReload(threads[t].at) ==> Holds(syncs, threads[t].sync, t)
  }

  ghost predicate Holds(syncs: map<SyncID, Sync>, y: SyncID, t: ThreadID) { y in syncs && syncs[y].holder == Some(t) }

  ghost predicate Inv(s: State) {
    && HistoryFine(s.commits, s.row) && EnginesFine(s.commits, s.engines)
    && SyncsFine(s) && ThreadsFine(s) && LocksFine(s.syncs, s.threads)
  }

  // ---- Stability ----

  lemma CommittedGrows(s: State, s': State, m: Manifest)
    requires s.commits <= s'.commits && Committed(s.commits, m)
    ensures Committed(s'.commits, m)
  {
    var i :| 0 <= i < |s.commits| && s.commits[i].manifest == m;
    assert s'.commits[i].manifest == m;
  }

  lemma VouchesGrows(s: State, s': State, y: SyncID, time: int, k: int)
    requires Grows(s, s') && Vouches(s, y, time, k)
    ensures Vouches(s', y, time, k) && s'.marks[k] == s.marks[k]
  {
  }

  lemma VouchedGrows(s: State, s': State, y: SyncID, time: int)
    requires Grows(s, s') && Vouched(s, y, time)
    ensures Vouched(s', y, time)
  {
    var k :| Vouches(s, y, time, k);
    VouchesGrows(s, s', y, time, k);
  }

  lemma RestsOnGrows(s: State, s': State, y: SyncID, time: int, used: Snapshot)
    requires Grows(s, s') && RestsOn(s, y, time, used)
    ensures RestsOn(s', y, time, used)
  {
    var k :| Vouches(s, y, time, k) && s.marks[k].revision <= used.revision;
    VouchesGrows(s, s', y, time, k);
  }

  /** Nothing that grows can spoil what a call relies on. */
  lemma PointGrows(s: State, s': State, th: Thread)
    requires Grows(s, s') && PointFine(s, th)
    ensures PointFine(s', th)
  {
    match th.at
    case Loaded(_, m) => CommittedGrows(s, s', m);
    case Newer(_, m, _) => CommittedGrows(s, s', m);
    case Compiled(_, m, _, _) => CommittedGrows(s, s', m);
    case Verified(_, m) => CommittedGrows(s, s', m);
    case Sampled(time) => if time != 0 { VouchedGrows(s, s', th.sync, time); }
    case Admitted(time, now) => VouchedGrows(s, s', th.sync, time);
    case Decided(time, now, used) =>
      VouchedGrows(s, s', th.sync, time);
      RestsOnGrows(s, s', th.sync, time, used);
      CommittedGrows(s, s', used.source);
    case _ =>
  }

  /** Only thread `t` may have moved, and it is fine where it now is. */
  lemma OthersFine(s: State, s': State, t: ThreadID)
    requires ThreadsFine(s) && Grows(s, s')
    requires t in s'.threads && s'.threads == s.threads[t := s'.threads[t]] && PointFine(s', s'.threads[t])
    ensures ThreadsFine(s')
  {
    forall u | u in s'.threads && u != t ensures PointFine(s', s'.threads[u]) {
      PointGrows(s, s', s.threads[u]);
    }
  }

  lemma SameThreads(s: State, s': State)
    requires ThreadsFine(s) && Grows(s, s') && s'.threads == s.threads
    ensures ThreadsFine(s')
  {
    forall u | u in s'.threads ensures PointFine(s', s'.threads[u]) {
      PointGrows(s, s', s.threads[u]);
    }
  }

  lemma SameEngines(s: State, s': State)
    requires EnginesFine(s.commits, s.engines) && Grows(s, s') && s'.engines == s.engines
    ensures EnginesFine(s'.commits, s'.engines)
  {
    forall e | e in s'.engines ensures SnapshotFine(s'.commits, s'.engines[e]) {
      CommittedGrows(s, s', s.engines[e].source);
    }
  }

  lemma OneEngine(s: State, s': State, e: EngineID)
    requires EnginesFine(s.commits, s.engines) && Grows(s, s')
    requires e in s'.engines && s'.engines == s.engines[e := s'.engines[e]]
    requires SnapshotFine(s'.commits, s'.engines[e])
    ensures EnginesFine(s'.commits, s'.engines)
  {
    forall d | d in s'.engines && d != e ensures SnapshotFine(s'.commits, s'.engines[d]) {
      CommittedGrows(s, s', s.engines[d].source);
    }
  }

  /** Verification times are kept, and so is what vouches for them. */
  lemma SameTimes(s: State, s': State)
    requires SyncsFine(s) && Grows(s, s') && s'.syncs.Keys == s.syncs.Keys
    requires forall y :: y in s.syncs ==> s'.syncs[y].verifiedAt == s.syncs[y].verifiedAt
    ensures SyncsFine(s')
  {
    forall y | y in s'.syncs ensures s'.syncs[y].engine in s'.engines {
      assert y in s.syncs;
    }
    forall y | y in s'.syncs && s'.syncs[y].verifiedAt != 0 ensures Vouched(s', y, s'.syncs[y].verifiedAt) {
      VouchedGrows(s, s', y, s.syncs[y].verifiedAt);
    }
  }

  lemma OneSync(s: State, s': State, y: SyncID)
    requires SyncsFine(s) && Grows(s, s') && y in s'.syncs && s'.syncs == s.syncs[y := s'.syncs[y]]
    requires s'.syncs[y].engine in s'.engines
    requires s'.syncs[y].verifiedAt != 0 ==> Vouched(s', y, s'.syncs[y].verifiedAt)
    ensures SyncsFine(s')
  {
    forall z | z in s'.syncs && z != y ensures s'.syncs[z].engine in s'.engines {
      assert z in s.syncs;
    }
    forall z | z in s'.syncs && z != y && s'.syncs[z].verifiedAt != 0 ensures Vouched(s', z, s'.syncs[z].verifiedAt) {
      VouchedGrows(s, s', z, s.syncs[z].verifiedAt);
    }
  }

  lemma LocksWithOne(s: State, s': State, t: ThreadID)
    requires LocksFine(s.syncs, s.threads) && t in s'.threads && s'.threads == s.threads[t := s'.threads[t]]
    requires InReload(s'.threads[t].at) ==> Holds(s'.syncs, s'.threads[t].sync, t)
    requires forall u :: u in s.threads && u != t && InReload(s.threads[u].at) ==> Holds(s'.syncs, s.threads[u].sync, u)
    ensures LocksFine(s'.syncs, s'.threads)
  {
  }

  // ---- Every step keeps the invariant and only grows ----

  ghost predicate Keeps(s: State, s': State) { Inv(s') && Grows(s, s') }

  lemma UpdateKeeps(w: World, s: State, expected: nat, next: Manifest)
    requires Inv(s)
    ensures Keeps(s, AfterUpdate(w, s, expected, next))
  {
    var s' := AfterUpdate(w, s, expected, next);
    if Accepts(w, s.row, expected, next) {
      HistoryExtends(w, s, expected, next);
      SameThreads(s, s');
      SameEngines(s, s');
      SameTimes(s, s');
    }
  }

  lemma HistoryExtends(w: World, s: State, expected: nat, next: Manifest)
    requires HistoryFine(s.commits, s.row) && Accepts(w, s.row, expected, next)
    ensures var s' := AfterUpdate(w, s, expected, next); HistoryFine(s'.commits, s'.row)
  {
    var s' := AfterUpdate(w, s, expected, next);
    forall i | 0 <= i < |s'.commits| ensures Linked(s'.commits, i) {
      if i < |s.commits| {
        assert Linked(s.commits, i);
      }
    }
  }

  lemma BootKeeps(w: World, s: State, e: EngineID, m: Manifest)
    requires Inv(s) && Enabled(w, s, Boot(e, m))
    ensures Keeps(s, After(w, s, Boot(e, m)))
  {
    var s' := After(w, s, Boot(e, m));
    CommittedGrows(s, s', m);
    SameThreads(s, s');
    OneEngine(s, s', e);
    SameTimes(s, s');
  }

  lemma AttachKeeps(w: World, s: State, y: SyncID, e: EngineID, maxStaleness: nat)
    requires Inv(s) && Enabled(w, s, Attach(y, e, maxStaleness))
    ensures Keeps(s, After(w, s, Attach(y, e, maxStaleness)))
  {
    var s' := After(w, s, Attach(y, e, maxStaleness));
    SameThreads(s, s');
    SameEngines(s, s');
    OneSync(s, s', y);
  }

  /** Calls that begin, and steps that only move their own thread. */
  lemma MoveKeeps(s: State, s': State, t: ThreadID)
    requires Inv(s) && t in s'.threads && s' == s.(threads := s.threads[t := s'.threads[t]])
    requires PointFine(s', s'.threads[t])
    requires InReload(s'.threads[t].at) ==> Holds(s.syncs, s'.threads[t].sync, t)
    ensures Keeps(s, s')
  {
    OthersFine(s, s', t);
    SameEngines(s, s');
    SameTimes(s, s');
    LocksWithOne(s, s', t);
  }

  lemma LockKeeps(w: World, s: State, t: ThreadID)
    requires Inv(s) && Enabled(w, s, Lock(t))
    ensures Keeps(s, After(w, s, Lock(t)))
  {
    var s' := After(w, s, Lock(t));
    MutexChanges(s, s', t, Some(t));
    assert PointFine(s, s.threads[t]);
    OthersFine(s, s', t);
    forall u | u in s.threads && u != t && InReload(s.threads[u].at) ensures Holds(s'.syncs, s.threads[u].sync, u) {
      assert Holds(s.syncs, s.threads[u].sync, u);
    }
    LocksWithOne(s, s', t);
  }

  /** A step that changes one mutex leaves engines, verification times and history as they were. */
  lemma MutexChanges(s: State, s': State, t: ThreadID, h: Option<ThreadID>)
    requires SyncsFine(s) && EnginesFine(s.commits, s.engines) && At(s, t)
    requires s'.commits == s.commits && s'.engines == s.engines && s'.marks == s.marks
    requires s'.syncs == s.syncs[s.threads[t].sync := SyncOf(s, t).(holder := h)]
    ensures Grows(s, s') && EnginesFine(s'.commits, s'.engines) && SyncsFine(s')
  {
    SameTimes(s, s');
  }

  lemma FailKeeps(s: State, t: ThreadID)
    requires Inv(s) && At(s, t) && InReload(s.threads[t].at) && !s.threads[t].at.Verified?
    ensures Keeps(s, Fail(s, t))
  {
    var s' := Fail(s, t);
    MutexChanges(s, s', t, None);
    assert PointFine(s, s.threads[t]);
    OthersFine(s, s', t);
    LocksReleased(s, s', t);
  }

  lemma LocksReleased(s: State, s': State, t: ThreadID)
    requires LocksFine(s.syncs, s.threads) && t in s.threads && InReload(s.threads[t].at)
    requires t in s'.threads && s'.threads == s.threads[t := s'.threads[t]] && !InReload(s'.threads[t].at)
    requires s.threads[t].sync in s'.syncs && s'.syncs == s.syncs[s.threads[t].sync := s'.syncs[s.threads[t].sync]]
    ensures LocksFine(s'.syncs, s'.threads)
  {
    MutexIsMine(s, t);
    forall u | u in s.threads && u != t && InReload(s.threads[u].at) ensures Holds(s'.syncs, s.threads[u].sync, u) {
      assert Holds(s.syncs, s.threads[u].sync, u);
    }
    LocksWithOne(s, s', t);
  }

  /** No other call is inside a reload of the same synchronizer. */
  lemma MutexIsMine(s: State, t: ThreadID)
    requires LocksFine(s.syncs, s.threads) && t in s.threads && InReload(s.threads[t].at)
    ensures forall u :: u in s.threads && u != t && InReload(s.threads[u].at) ==> s.threads[u].sync != s.threads[t].sync
  {
    forall u | u in s.threads && u != t && InReload(s.threads[u].at) ensures s.threads[u].sync != s.threads[t].sync {
      assert Holds(s.syncs, s.threads[u].sync, u) && Holds(s.syncs, s.threads[t].sync, t);
    }
  }

  lemma InstallGrows(w: World, s: State, t: ThreadID)
    requires Inv(s) && Enabled(w, s, Replace(t)) && AfterReplace(w, s, t) != Fail(s, t)
    ensures var s' := AfterReplace(w, s, t);
            Grows(s, s') && HistoryFine(s'.commits, s'.row) && EnginesFine(s'.commits, s'.engines) &&
            SyncsFine(s') && PointFine(s', s'.threads[t])
  {
    var p, s' := s.threads[t].at, AfterReplace(w, s, t);
    assert PointFine(s, s.threads[t]);
    assert Grows(s, s');
    CommittedGrows(s, s', p.manifest);
    OneEngine(s, s', SyncOf(s, t).engine);
    SameTimes(s, s');
  }

  lemma ReplaceKeeps(w: World, s: State, t: ThreadID)
    requires Inv(s) && Enabled(w, s, Replace(t))
    ensures Keeps(s, AfterReplace(w, s, t))
  {
    var s' := AfterReplace(w, s, t);
    if s' == Fail(s, t) {
      FailKeeps(s, t);
    } else {
      InstallGrows(w, s, t);
      OthersFine(s, s', t);
      LocksWithOne(s, s', t);
    }
  }

  lemma MarkGrows(s: State, t: ThreadID, clock: int)
    requires Inv(s) && At(s, t) && s.threads[t].at.Verified?
    ensures var s' := AfterMark(s, t, clock);
            Grows(s, s') && HistoryFine(s'.commits, s'.row) && EnginesFine(s'.commits, s'.engines) &&
            SyncsFine(s') && PointFine(s', s'.threads[t])
  {
    var y, s' := s.threads[t].sync, AfterMark(s, t, clock);
    assert PointFine(s, s.threads[t]);
    assert Grows(s, s');
    assert Vouches(s', y, clock, |s.marks|);
    SameEngines(s, s');
    OneSync(s, s', y);
  }

  lemma MarkKeeps(w: World, s: State, t: ThreadID, clock: int)
    requires Inv(s) && Enabled(w, s, MarkVerified(t, clock))
    ensures Keeps(s, AfterMark(s, t, clock))
  {
    var s' := AfterMark(s, t, clock);
    MarkGrows(s, t, clock);
    OthersFine(s, s', t);
    LocksReleased(s, s', t);
  }

  lemma ReadRevisionKeeps(w: World, s: State, t: ThreadID)
    requires Inv(s) && Enabled(w, s, ReadRevision(t))
    ensures Keeps(s, AfterReadRevision(w, s, t))
  {
    var s' := AfterReadRevision(w, s, t);
    assert PointFine(s, s.threads[t]);
    if s' == Fail(s, t) {
      FailKeeps(s, t);
    } else {
      CommittedGrows(s, s', s.threads[t].at.manifest);
      MoveKeeps(s, s', t);
    }
  }

  lemma CompileKeeps(w: World, s: State, t: ThreadID)
    requires Inv(s) && Enabled(w, s, Compile(t))
    ensures Keeps(s, After(w, s, Compile(t)))
  {
    var s' := After(w, s, Compile(t));
    assert PointFine(s, s.threads[t]);
    if s' == Fail(s, t) {
      FailKeeps(s, t);
    } else {
      CommittedGrows(s, s', s.threads[t].at.manifest);
      MoveKeeps(s, s', t);
    }
  }

  lemma LoadKeeps(w: World, s: State, t: ThreadID)
    requires Inv(s) && Enabled(w, s, Load(t))
    ensures Keeps(s, After(w, s, Load(t)))
  {
    var s' := After(w, s, Load(t));
    assert PointFine(s, s.threads[t]);
    assert s.commits[|s.commits| - 1].manifest == s.row.value.manifest;
    assert Committed(s'.commits, s.row.value.manifest);
    MoveKeeps(s, s', t);
  }

  lemma CallDecideKeeps(w: World, s: State, t: ThreadID, y: SyncID)
    requires Inv(s) && Enabled(w, s, CallDecide(t, y))
    ensures Keeps(s, After(w, s, CallDecide(t, y)))
  {
    var s' := After(w, s, CallDecide(t, y));
    if s.syncs[y].verifiedAt != 0 { VouchedGrows(s, s', y, s.syncs[y].verifiedAt); }
    MoveKeeps(s, s', t);
  }

  lemma CallReloadKeeps(w: World, s: State, t: ThreadID, y: SyncID)
    requires Inv(s) && Enabled(w, s, CallReload(t, y))
    ensures Keeps(s, After(w, s, CallReload(t, y)))
  {
    MoveKeeps(s, After(w, s, CallReload(t, y)), t);
  }

  lemma CallObserveKeeps(w: World, s: State, t: ThreadID, y: SyncID, asked: nat)
    requires Inv(s) && Enabled(w, s, CallObserve(t, y, asked))
    ensures Keeps(s, After(w, s, CallObserve(t, y, asked)))
  {
    MoveKeeps(s, After(w, s, CallObserve(t, y, asked)), t);
  }

  lemma CheckHintKeeps(w: World, s: State, t: ThreadID)
    requires Inv(s) && Enabled(w, s, CheckHint(t))
    ensures Keeps(s, After(w, s, CheckHint(t)))
  {
    assert PointFine(s, s.threads[t]);
    MoveKeeps(s, After(w, s, CheckHint(t)), t);
  }

  /** An admitted time was fresh and vouched for when it was sampled, and still is. */
  lemma AdmittedFine(s: State, s': State, t: ThreadID, clock: int)
    requires At(s, t) && s.threads[t].at.Sampled? && PointFine(s, s.threads[t])
    requires s' == AfterReadClock(s, t, clock) && Grows(s, s')
    ensures PointFine(s', s'.threads[t])
  {
    var th := s.threads[t];
    if s'.threads[t].at.Admitted? { VouchedGrows(s, s', th.sync, th.at.verifiedAt); }
  }

  lemma ReadClockKeeps(w: World, s: State, t: ThreadID, clock: int)
    requires Inv(s) && Enabled(w, s, ReadClock(t, clock))
    ensures Keeps(s, After(w, s, ReadClock(t, clock)))
  {
    var s' := AfterReadClock(s, t, clock);
    assert PointFine(s, s.threads[t]);
    AdmittedFine(s, s', t, clock);
    MoveKeeps(s, s', t);
  }

  lemma LoadSnapshotKeeps(w: World, s: State, t: ThreadID)
    requires Inv(s) && Enabled(w, s, LoadSnapshot(t))
    ensures Keeps(s, After(w, s, LoadSnapshot(t)))
  {
    var s' := After(w, s, LoadSnapshot(t));
    var th := s.threads[t];
    assert PointFine(s, th);
    VouchedGrows(s, s', th.sync, th.at.verifiedAt);
    var k :| Vouches(s', th.sync, th.at.verifiedAt, k);
    assert RestsOn(s', th.sync, th.at.verifiedAt, Running(s, t));
    MoveKeeps(s, s', t);
  }

  /** Every enabled step keeps the invariant and only lets histories and revisions grow. */
  lemma StepKeeps(w: World, s: State, a: Action)
    requires Inv(s) && Enabled(w, s, a)
    ensures Keeps(s, After(w, s, a))
  {
    match a
    case Update(expected, next) => UpdateKeeps(w, s, expected, next);
    case Boot(e, m) => BootKeeps(w, s, e, m);
    case Attach(y, e, maxStaleness) => AttachKeeps(w, s, y, e, maxStaleness);
    case CallReload(t, y) => CallReloadKeeps(w, s, t, y);
    case CallObserve(t, y, asked) => CallObserveKeeps(w, s, t, y, asked);
    case Lock(t) => LockKeeps(w, s, t);
    case Load(t) => LoadKeeps(w, s, t);
    case Abandon(t) => FailKeeps(s, t);
    case ReadRevision(t) => ReadRevisionKeeps(w, s, t);
    case Compile(t) => CompileKeeps(w, s, t);
    case Replace(t) => ReplaceKeeps(w, s, t);
    case MarkVerified(t, clock) => MarkKeeps(w, s, t, clock);
    case CheckHint(t) => CheckHintKeeps(w, s, t);
    case CallDecide(t, y) => CallDecideKeeps(w, s, t, y);
    case ReadClock(t, clock) => ReadClockKeeps(w, s, t, clock);
    case LoadSnapshot(t) => LoadSnapshotKeeps(w, s, t);
  }

  // ---- Runs ----

  ghost predicate StepAt(w: World, states: seq<State>, actions: seq<Action>, i: int)
    requires |states| == |actions| + 1 && 0 <= i < |actions|
  {
    Enabled(w, states[i], actions[i]) && states[i + 1] == After(w, states[i], actions[i])
  }

  ghost predicate IsRun(w: World, states: seq<State>, actions: seq<Action>) {
    && |states| == |actions| + 1 && states[0] == START
    && forall i :: 0 <= i < |actions| ==> StepAt(w, states, actions, i)
  }

  lemma {:induction false} RunKeeps(w: World, states: seq<State>, actions: seq<Action>, i: nat)
    requires IsRun(w, states, actions) && i < |states|
    ensures Inv(states[i])
  {
    if i > 0 {
      RunKeeps(w, states, actions, i - 1);
      assert StepAt(w, states, actions, i - 1);
      StepKeeps(w, states[i - 1], actions[i - 1]);
    }
  }

  lemma GrowsTransitive(a: State, b: State, c: State)
    requires Grows(a, b) && Grows(b, c)
    ensures Grows(a, c)
  {
  }

  lemma {:induction false} RunGrows(w: World, states: seq<State>, actions: seq<Action>, i: nat, j: nat)
    requires IsRun(w, states, actions) && i <= j < |states|
    ensures Grows(states[i], states[j])
    decreases j - i
  {
    if i < j {
      RunGrows(w, states, actions, i, j - 1);
      RunKeeps(w, states, actions, j - 1);
      assert StepAt(w, states, actions, j - 1);
      StepKeeps(w, states[j - 1], actions[j - 1]);
      GrowsTransitive(states[i], states[j - 1], states[j]);
    }
  }

  lemma {:induction false} RevisionsIncrease(commits: seq<Commit>, row: Option<Row>, a: nat, b: nat)
    requires HistoryFine(commits, row) && a < b < |commits|
    ensures commits[a].manifest.revision < commits[b].manifest.revision
    decreases b
  {
    assert Linked(commits, b);
    if a < b - 1 { RevisionsIncrease(commits, row, a, b - 1); }
  }

  // ---- Theorems over every run ----

  /** An engine's revision never decreases. */
  lemma EnginesNeverGoBack(w: World, states: seq<State>, actions: seq<Action>, i: nat, j: nat, e: EngineID)
    requires IsRun(w, states, actions) && i <= j < |states| && e in states[i].engines
    ensures e in states[j].engines && states[i].engines[e].revision <= states[j].engines[e].revision
  {
    RunGrows(w, states, actions, i, j);
  }

  /** No engine is ahead of the committed revision. */
  lemma EnginesBehindRepository(w: World, states: seq<State>, actions: seq<Action>, i: nat, e: EngineID)
    requires IsRun(w, states, actions) && i < |states| && e in states[i].engines
    ensures states[i].row.Some? && states[i].engines[e].revision <= states[i].row.value.revision
  {
    var s := states[i];
    RunKeeps(w, states, actions, i);
    assert SnapshotFine(s.commits, s.engines[e]);
    var k :| 0 <= k < |s.commits| && s.commits[k].manifest == s.engines[e].source;
    if k < |s.commits| - 1 { RevisionsIncrease(s.commits, s.row, k, |s.commits| - 1); }
  }

  /** Engines at the same revision, even at different times, run the same manifest. */
  lemma SameRevisionSameManifest(
    w: World, states: seq<State>, actions: seq<Action>, i: nat, j: nat, e: EngineID, f: EngineID)
    requires IsRun(w, states, actions) && i <= j < |states| && e in states[i].engines && f in states[j].engines
    requires states[i].engines[e].revision == states[j].engines[f].revision
    ensures states[i].engines[e].source == states[j].engines[f].source
  {
    var s, s' := states[i], states[j];
    RunKeeps(w, states, actions, i);
    RunKeeps(w, states, actions, j);
    RunGrows(w, states, actions, i, j);
    assert SnapshotFine(s.commits, s.engines[e]) && SnapshotFine(s'.commits, s'.engines[f]);
    CommittedGrows(s, s', s.engines[e].source);
    var a :| 0 <= a < |s'.commits| && s'.commits[a].manifest == s.engines[e].source;
    var b :| 0 <= b < |s'.commits| && s'.commits[b].manifest == s'.engines[f].source;
    if a < b { RevisionsIncrease(s'.commits, s'.row, a, b); }
    if b < a { RevisionsIncrease(s'.commits, s'.row, b, a); }
  }

  lemma AcceptedIsCommitted(w: World, states: seq<State>, actions: seq<Action>, i: nat)
    requires IsRun(w, states, actions) && i < |actions| && actions[i].Update?
    requires Accepts(w, states[i].row, actions[i].expected, actions[i].next)
    ensures states[i + 1].commits == states[i].commits + [Commit(actions[i].expected, actions[i].next)]
  {
    assert StepAt(w, states, actions, i);
  }

  /** At most one Update per expected revision ever succeeds. */
  lemma OneUpdatePerRevision(w: World, states: seq<State>, actions: seq<Action>, i: nat, j: nat)
    requires IsRun(w, states, actions) && i <= j < |actions| && actions[i].Update? && actions[j].Update?
    requires actions[i].expected == actions[j].expected
    requires Accepts(w, states[i].row, actions[i].expected, actions[i].next)
    requires Accepts(w, states[j].row, actions[j].expected, actions[j].next)
    ensures i == j
  {
    if i < j {
      AcceptedIsCommitted(w, states, actions, i);
      RunGrows(w, states, actions, i + 1, j);
      RunKeeps(w, states, actions, j);
      var s := states[j];
      var a := |states[i].commits|;
      assert s.commits[a] == Commit(actions[i].expected, actions[i].next);
      if a < |s.commits| - 1 { RevisionsIncrease(s.commits, s.row, a, |s.commits| - 1); }
    }
  }

  /** A delegated decision rests on a verification marked within the window, and on a snapshot at least as new. */
  lemma DecisionsAreFresh(w: World, states: seq<State>, actions: seq<Action>, i: nat, t: ThreadID)
    requires IsRun(w, states, actions) && i < |states|
    requires t in states[i].threads && states[i].threads[t].at.Decided?
    ensures var s, y, p := states[i], states[i].threads[t].sync, states[i].threads[t].at;
            && Committed(s.commits, p.used.source)
            && y in s.syncs && p.verifiedAt <= p.now <= p.verifiedAt + s.syncs[y].maxStaleness
            && exists k :: 0 <= k < |s.marks| && s.marks[k].sync == y && s.marks[k].time == p.verifiedAt &&
                           s.marks[k].revision <= p.used.revision
  {
    RunKeeps(w, states, actions, i);
    var s, th := states[i], states[i].threads[t];
    assert PointFine(s, th);
    var k :| Vouches(s, th.sync, th.at.verifiedAt, k) && s.marks[k].revision <= th.at.used.revision;
  }

  /** Each mark was made by a reload that had just seen that revision committed and running. */
  lemma MarksAreEarned(w: World, states: seq<State>, actions: seq<Action>, i: nat)
    requires IsRun(w, states, actions) && i < |actions| && states[i + 1].marks != states[i].marks
    ensures actions[i].MarkVerified?
    ensures var s, t := states[i], actions[i].thread;
            && At(s, t) && s.threads[t].at.Verified? && Committed(s.commits, s.threads[t].at.manifest)
            && s.threads[t].at.manifest.revision <= Running(s, t).revision
            && states[i + 1].marks == s.marks +
               [Mark(s.threads[t].sync, actions[i].clock, s.threads[t].at.manifest.revision)]
  {
    RunKeeps(w, states, actions, i);
    assert StepAt(w, states, actions, i);
    assert PointFine(states[i], states[i].threads[actions[i].thread]);
  }

  /** A running engine changes only by a replacement, which its reload records. */
  lemma EngineWritesAreRecorded(w: World, s: State, a: Action, s': State)
    requires Enabled(w, s, a) && s' == After(w, s, a)
    ensures !a.Replace? ==> forall e :: e in s.engines ==> e in s'.engines && s'.engines[e] == s.engines[e]
    ensures a.Replace? && s'.engines != s.engines ==> a.thread in s'.threads && s'.threads[a.thread].wrote
  {
  }

  /** A verification time changes only by markVerified, which its reload records. */
  lemma TimeWritesAreRecorded(w: World, s: State, a: Action, s': State)
    requires Enabled(w, s, a) && s' == After(w, s, a)
    ensures !a.MarkVerified? ==>
      forall y :: y in s.syncs ==> y in s'.syncs && s'.syncs[y].verifiedAt == s.syncs[y].verifiedAt
    ensures a.MarkVerified? ==> a.thread in s'.threads && s'.threads[a.thread].wrote
  {
  }

  predicate ActsFor(a: Action, t: ThreadID) { !a.Update? && !a.Boot? && !a.Attach? && a.thread == t }

  ghost predicate InsideUntil(states: seq<State>, t: ThreadID, i: int, j: int)
    requires 0 <= i <= j < |states|
  {
    forall m :: i <= m < j ==> t in states[m].threads && InReload(states[m].threads[t].at)
  }

  lemma WroteStaysOneStep(w: World, s: State, a: Action, t: ThreadID)
    requires Enabled(w, s, a) && t in s.threads && InReload(s.threads[t].at) && s.threads[t].wrote
    ensures t in After(w, s, a).threads && After(w, s, a).threads[t].wrote
  {
  }

  lemma {:induction false} WroteStays(w: World, states: seq<State>, actions: seq<Action>, i: nat, j: nat, t: ThreadID)
    requires IsRun(w, states, actions) && i <= j < |states| && InsideUntil(states, t, i, j)
    requires t in states[i].threads && states[i].threads[t].wrote
    ensures t in states[j].threads && states[j].threads[t].wrote
    decreases j - i
  {
    if i < j {
      assert InsideUntil(states, t, i, j - 1);
      WroteStays(w, states, actions, i, j - 1, t);
      assert StepAt(w, states, actions, j - 1);
      WroteStaysOneStep(w, states[j - 1], actions[j - 1], t);
    }
  }

  /** No step of a reload that ends in failure changes an engine or a verification time. */
  lemma FailedReloadChangesNothing(
    w: World, states: seq<State>, actions: seq<Action>, i: nat, k: nat, j: nat, t: ThreadID)
    requires IsRun(w, states, actions) && i <= k < j < |states| && InsideUntil(states, t, i, j)
    requires t in states[j].threads && states[j].threads[t].at.ReloadFailed? && ActsFor(actions[k], t)
    ensures states[k + 1].engines == states[k].engines
    ensures forall y :: y in states[k].syncs ==>
      y in states[k + 1].syncs && states[k + 1].syncs[y].verifiedAt == states[k].syncs[y].verifiedAt
  {
    var s, a, s' := states[k], actions[k], states[k + 1];
    assert StepAt(w, states, actions, k);
    RunKeeps(w, states, actions, j);
    assert PointFine(states[j], states[j].threads[t]);
    assert !(t in s'.threads && s'.threads[t].wrote) by {
      if t in s'.threads && s'.threads[t].wrote {
        assert InsideUntil(states, t, k + 1, j);
        WroteStays(w, states, actions, k + 1, j, t);
      }
    }
    EngineWritesAreRecorded(w, s, a, s');
    TimeWritesAreRecorded(w, s, a, s');
  }

  /** Observe returning without error means the engine is, and stays, at or past the hint. */
  lemma ObserveMeansCaughtUp(w: World, states: seq<State>, actions: seq<Action>, i: nat, j: nat, t: ThreadID)
    requires IsRun(w, states, actions) && i <= j < |states| && t in states[i].threads
    requires states[i].threads[t].at.Observed? && states[i].threads[t].at.accepted
    ensures var y := states[i].threads[t].sync;
            && y in states[j].syncs && states[j].syncs[y].engine in states[j].engines
            && states[i].threads[t].at.asked <= states[j].engines[states[j].syncs[y].engine].revision
  {
    RunKeeps(w, states, actions, i);
    assert PointFine(states[i], states[i].threads[t]);
    RunGrows(w, states, actions, i, j);
  }

  /** Manifests compile to snapshots of their own revision, and `fits` is the engine's policy limit. */
  ghost predicate CompilesBy(w: World, compile: Manifest -> Engine.Snapshot, limits: Engine.Limits) {
    forall m :: compile(m).revision == m.revision && (w.fits(m) <==> |compile(m).policies| <= limits.maxPolicies)
  }

  /** The replacement step refuses and installs exactly as the engine object does. */
  lemma ReplaceAgrees(w: World, s: State, t: ThreadID, compile: Manifest -> Engine.Snapshot, limits: Engine.Limits)
    requires Inv(s) && Enabled(w, s, Replace(t)) && CompilesBy(w, compile, limits)
    ensures var p, running, s' := s.threads[t].at, Running(s, t), AfterReplace(w, s, t);
            var current, next := compile(running.source), Some(compile(p.snapshot.source));
            && (s'.threads[t].at.ReloadFailed? <==> Engine.Refusal(current, next, p.current, limits).Some?)
            && (s'.threads[t].at.Verified? <==> Engine.Refusal(current, next, p.current, limits) == None)
            && compile(s'.engines[SyncOf(s, t).engine].source) == Engine.Replaced(current, next, p.current, limits)
  {
    assert PointFine(s, s.threads[t]);
    assert SnapshotFine(s.commits, Running(s, t));
  }

  /** Reloads of one synchronizer never overlap. */
  lemma ReloadsExclude(w: World, states: seq<State>, actions: seq<Action>, i: nat, t: ThreadID, u: ThreadID)
    requires IsRun(w, states, actions) && i < |states| && t in states[i].threads && u in states[i].threads
    requires InReload(states[i].threads[t].at) && InReload(states[i].threads[u].at)
    requires states[i].threads[t].sync == states[i].threads[u].sync
    ensures t == u
  {
    RunKeeps(w, states, actions, i);
    MutexIsMine(states[i], t);
  }
}
