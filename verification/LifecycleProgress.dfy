// The other half of the lifecycle's promises: what undisturbed calls achieve. Updates
// over the current revision are accepted, a reload catches up and marks the time, and
// a decision within the window is taken on the snapshot that then runs.
module LifecycleProgress {
  import opened Decisions
  import opened Lifecycle

  /** Doing the actions in order, each of them enabled, leads from one state to the other. */
  ghost predicate Leads(w: World, s: State, actions: seq<Action>, s': State)
    decreases |actions|
  {
    if actions == [] then s' == s
    else Enabled(w, s, actions[0]) && Leads(w, After(w, s, actions[0]), actions[1..], s')
  }

  lemma {:induction false} LeadsOn(w: World, s: State, first: Action, rest: seq<Action>, s': State)
    requires Enabled(w, s, first) && Leads(w, After(w, s, first), rest, s')
    ensures Leads(w, s, [first] + rest, s')
  {
    assert ([first] + rest)[1..] == rest;
  }

  // ---- Updates ----

  /** The committed revision, zero before the first. */
  function CommittedRevision(s: State): nat { if s.row.Some? then s.row.value.revision else 0 }

  /** An update is stored exactly when it expects the committed revision and exceeds it within the column's range. */
  lemma UpdateMeans(w: World, s: State, expected: nat, next: Manifest)
    ensures var s' := After(w, s, Update(expected, next));
            if w.valid(next) && CommittedRevision(s) == expected < next.revision <= 0x7FFF_FFFF_FFFF_FFFF then
              && s'.row == Some(Row(next.revision, next)) && s'.commits == s.commits + [Commit(expected, next)]
              && s' == s.(row := s'.row, commits := s'.commits)
            else s' == s
  {
  }

  // ---- Reloads ----

  /** The call waits, nobody holds the mutex, and the repository has a manifest. */
  ghost predicate Undisturbed(s: State, t: ThreadID) {
    Inv(s) && At(s, t) && s.threads[t].at.Waiting? && SyncOf(s, t).holder == None && s.row.Some?
  }

  /** The synchronizer runs this snapshot and was verified at that time. */
  ghost predicate UpToDate(s: State, y: SyncID, m: Manifest, clock: int) {
    && y in s.syncs && s.syncs[y].engine in s.engines && s.syncs[y].verifiedAt == clock && s.syncs[y].holder == None
    && s.engines[s.syncs[y].engine].revision == m.revision
  }

  /** Where a successful reload leaves its call. */
  function Returned(hint: Option<nat>): Point { if hint.Some? then Checking(hint.value) else Reloaded }

  ghost function Loading(w: World, s: State, t: ThreadID): State
    requires Undisturbed(s, t)
  {
    After(w, After(w, s, Lock(t)), Load(t))
  }

  /** Locking and loading bring the call to the stored manifest, with the mutex held. */
  lemma LoadingMeans(w: World, s: State, t: ThreadID)
    requires Undisturbed(s, t)
    ensures Enabled(w, s, Lock(t)) && Enabled(w, After(w, s, Lock(t)), Load(t))
    ensures var s' := Loading(w, s, t);
            && At(s', t) && s'.threads[t].at == Loaded(s.threads[t].at.hint, s.row.value.manifest)
            && s'.threads[t].sync == s.threads[t].sync && s'.engines == s.engines && s'.row == s.row
            && SyncOf(s', t).engine == SyncOf(s, t).engine
  {
  }

  /** No running engine is ahead of the stored manifest. */
  lemma RowIsNewest(s: State, e: EngineID)
    requires Inv(s) && e in s.engines && s.row.Some?
    ensures s.engines[e].revision <= s.row.value.manifest.revision
    ensures s.row.value.revision == s.row.value.manifest.revision
  {
    assert SnapshotFine(s.commits, s.engines[e]);
    var i :| 0 <= i < |s.commits| && s.commits[i].manifest == s.engines[e].source;
    if i < |s.commits| - 1 { RevisionsIncrease(s.commits, s.row, i, |s.commits| - 1); }
  }

  /** From a loaded, valid manifest the call goes on to the end, compiling only what is newer. */
  lemma {:induction false} FinishReload(w: World, s: State, t: ThreadID, clock: int)
    returns (actions: seq<Action>, s': State)
    requires At(s, t) && s.threads[t].at.Loaded? && Running(s, t).revision <= s.threads[t].at.manifest.revision
    requires var m := s.threads[t].at.manifest; w.valid(m) && w.compiles(m) && w.fits(m)
    ensures Leads(w, s, actions, s') && t in s'.threads && s'.threads[t].at == Returned(s.threads[t].at.hint)
    ensures s'.threads[t].sync == s.threads[t].sync
    ensures UpToDate(s', s.threads[t].sync, s.threads[t].at.manifest, clock)
  {
    var s1 := After(w, s, ReadRevision(t));
    if Running(s, t).revision == s.threads[t].at.manifest.revision {
      s' := After(w, s1, MarkVerified(t, clock));
      actions := [ReadRevision(t), MarkVerified(t, clock)];
      assert actions[1..] == [MarkVerified(t, clock)] && actions[1..][1..] == [];
      assert Leads(w, s1, actions[1..], s');
    } else {
      var s2 := After(w, s1, Compile(t));
      var s3 := After(w, s2, Replace(t));
      s' := After(w, s3, MarkVerified(t, clock));
      assert Leads(w, s', [], s');
      LeadsOn(w, s3, MarkVerified(t, clock), [], s');
      LeadsOn(w, s2, Replace(t), [MarkVerified(t, clock)] + [], s');
      LeadsOn(w, s1, Compile(t), [Replace(t)] + ([MarkVerified(t, clock)] + []), s');
      actions := [ReadRevision(t)] + ([Compile(t)] + ([Replace(t)] + ([MarkVerified(t, clock)] + [])));
      LeadsOn(w, s, ReadRevision(t), [Compile(t)] + ([Replace(t)] + ([MarkVerified(t, clock)] + [])), s');
    }
  }

  /** An undisturbed reload of a manifest that is valid, compiles and fits catches up and marks the time. */
  lemma {:induction false} ReloadCatchesUp(w: World, s: State, t: ThreadID, clock: int)
    returns (actions: seq<Action>, s': State)
    requires Undisturbed(s, t)
    requires var m := s.row.value.manifest; w.valid(m) && w.compiles(m) && w.fits(m)
    ensures Leads(w, s, actions, s') && t in s'.threads && s'.threads[t].at == Returned(s.threads[t].at.hint)
    ensures UpToDate(s', s.threads[t].sync, s.row.value.manifest, clock)
  {
    LoadingMeans(w, s, t);
    RowIsNewest(s, SyncOf(s, t).engine);
    var rest: seq<Action>;
    rest, s' := FinishReload(w, Loading(w, s, t), t, clock);
    LeadsOn(w, After(w, s, Lock(t)), Load(t), rest, s');
    LeadsOn(w, s, Lock(t), [Load(t)] + rest, s');
    actions := [Lock(t)] + ([Load(t)] + rest);
  }

  /** A manifest that is invalid, or newer and not usable, ends the reload in failure. */
  lemma ReloadRefuses(w: World, s: State, t: ThreadID)
    requires At(s, t)
    ensures s.threads[t].at.Loaded? && !w.valid(s.threads[t].at.manifest) ==>
            After(w, s, ReadRevision(t)).threads[t].at == ReloadFailed
    ensures s.threads[t].at.Loaded? && s.threads[t].at.manifest.revision < Running(s, t).revision ==>
            After(w, s, ReadRevision(t)).threads[t].at == ReloadFailed
    ensures s.threads[t].at.Newer? && !w.compiles(s.threads[t].at.manifest) ==>
            After(w, s, Compile(t)).threads[t].at == ReloadFailed
    ensures s.threads[t].at.Compiled? && !w.fits(s.threads[t].at.manifest) ==>
            After(w, s, Replace(t)).threads[t].at == ReloadFailed
    ensures s.threads[t].at.Compiled? && Running(s, t).revision != s.threads[t].at.current ==>
            After(w, s, Replace(t)).threads[t].at == ReloadFailed
  {
  }

  // ---- Hints ----

  /** After its reload Observe accepts exactly the hints that the engine has reached. */
  lemma ObserveMeans(w: World, s: State, t: ThreadID)
    requires At(s, t) && s.threads[t].at.Checking?
    ensures var asked := s.threads[t].at.asked;
            Enabled(w, s, CheckHint(t)) &&
            After(w, s, CheckHint(t)).threads[t].at == Observed(asked, asked <= Running(s, t).revision)
  {
  }

  /** A hint at or below the running revision is accepted at once; any other starts a reload. */
  lemma ObserveStarts(w: World, s: State, t: ThreadID, y: SyncID, asked: nat)
    requires Enabled(w, s, CallObserve(t, y, asked))
    ensures var at := After(w, s, CallObserve(t, y, asked)).threads[t].at;
            at == if asked <= s.engines[s.syncs[y].engine].revision then Observed(asked, true) else Waiting(Some(asked))
  {
  }

  // ---- Decisions ----

  /** A decision is taken, on the snapshot that runs, exactly when the last verification is not in the future and
      at most the staleness limit old; otherwise it is refused. */
  lemma {:induction false} DecideMeans(w: World, s: State, t: ThreadID, y: SyncID, now: int)
    requires Free(s, t) && y in s.syncs && s.syncs[y].engine in s.engines
    ensures var sync := s.syncs[y];
            var s1 := After(w, s, CallDecide(t, y));
            Enabled(w, s1, ReadClock(t, now)) &&
            var s2 := After(w, s1, ReadClock(t, now));
            if sync.verifiedAt != 0 && sync.verifiedAt <= now <= sync.verifiedAt + sync.maxStaleness then
              && Enabled(w, s2, LoadSnapshot(t))
              && After(w, s2, LoadSnapshot(t)).threads[t].at == Decided(sync.verifiedAt, now, s.engines[sync.engine])
            else s2.threads[t].at == Refused
  {
  }
}
