// Subject authority epochs (postgres/authority.go) as transactions over one table:
// the insert, the conditional increment and the share-locked read are atomic steps,
// and transactions interleave, commit and abort freely. The row-lock rules are
// those of PostgreSQL at READ COMMITTED: an uncommitted write excludes every other
// write and share lock on its row, a share lock excludes writes by others, and a
// statement waits (is not enabled) while another transaction excludes it.
module Authority {
  import opened Decisions

  datatype Scope = Scope(tenant: string, namespace: string, subject: string)

  type TxID = nat

  const MAX_EPOCH := 0xFFFF_FFFF_FFFF_FFFF

  /** An open transaction: the versions it sees instead of the committed ones, the epochs it
      stepped from, the rows it share-locked and the requirements it passed. */
  datatype Tx = Tx(staged: map<Scope, nat>, steps: map<Scope, seq<nat>>, shares: set<Scope>, passed: map<Scope, nat>)

  /** `log` is history: for each scope, the epochs that committed steps started from. */
  datatype State = State(committed: map<Scope, nat>, open: map<TxID, Tx>, log: map<Scope, seq<nat>>)

  datatype Action =
    | Begin(tx: TxID)
    | Initialize(tx: TxID, scope: Scope)
    | Advance(tx: TxID, scope: Scope, expected: nat)
    | Require(tx: TxID, scope: Scope, expected: nat)
    | Commit(tx: TxID)
    | Abort(tx: TxID)

  const START := State(map[], map[], map[])

  // ---- Statements ----

  /** The version a statement of `t` finds. */
  function Visible(s: State, t: TxID, scope: Scope): Option<nat>
    requires t in s.open
  {
    if scope in s.open[t].staged then Some(s.open[t].staged[scope])
    else if scope in s.committed then Some(s.committed[scope])
    else None
  }

  ghost predicate NoOtherWriter(s: State, t: TxID, scope: Scope) {
    forall u :: u in s.open && u != t ==> scope !in s.open[u].staged
  }

  ghost predicate NoOtherReader(s: State, t: TxID, scope: Scope) {
    forall u :: u in s.open && u != t ==> scope !in s.open[u].shares
  }

  /** The expected epoch is one that may have a successor. */
  predicate Advanceable(expected: nat) { 0 < expected < MAX_EPOCH }

  /** The update's WHERE clause holds. */
  predicate Matches(s: State, t: TxID, scope: Scope, expected: nat)
    requires t in s.open
  {
    Advanceable(expected) && Visible(s, t, scope) == Some(expected)
  }

  ghost predicate Enabled(s: State, a: Action) {
    match a
    case Begin(t) => t !in s.open
    case Initialize(t, scope) => t in s.open && (Visible(s, t, scope) == None ==> NoOtherWriter(s, t, scope))
    case Advance(t, scope, expected) =>
      t in s.open && (Matches(s, t, scope, expected) ==> NoOtherWriter(s, t, scope) && NoOtherReader(s, t, scope))
    case Require(t, scope, expected) =>
      t in s.open && (expected > 0 && Visible(s, t, scope).Some? ==> NoOtherWriter(s, t, scope))
    case Commit(t) => t in s.open
    case Abort(t) => t in s.open
  }

  function Get(m: map<Scope, seq<nat>>, scope: Scope): seq<nat> { if scope in m then m[scope] else [] }

  /** Stages a step from `from` to its successor. */
  function Stage(s: State, t: TxID, scope: Scope, from: nat): State
    requires t in s.open
  {
    var tx := s.open[t];
    s.(open := s.open[t :=
      tx.(staged := tx.staged[scope := from + 1], steps := tx.steps[scope := Get(tx.steps, scope) + [from]])])
  }

  /** A missing or unequal epoch denies; the row is locked either way once it is found. */
  function AfterRequire(s: State, t: TxID, scope: Scope, expected: nat): State
    requires t in s.open
  {
    var tx := s.open[t];
    if expected == 0 || Visible(s, t, scope) == None then s
    else
      var locked := tx.(shares := tx.shares + {scope});
      s.(open := s.open[t :=
        if Visible(s, t, scope) == Some(expected)
        then locked.(passed := tx.passed[scope := expected]) else locked])
  }

  function AfterCommit(s: State, t: TxID): State
    requires t in s.open
  {
    var tx := s.open[t];
    State(s.committed + tx.staged, s.open - {t},
          s.log + map scope | scope in tx.steps :: Get(s.log, scope) + tx.steps[scope])
  }

  function After(s: State, a: Action): State
    requires a.tx in s.open || a.Begin?
  {
    match a
    case Begin(t) => s.(open := s.open[t := Tx(map[], map[], {}, map[])])
    case Initialize(t, scope) => if Visible(s, t, scope) == None then Stage(s, t, scope, 0) else s
    case Advance(t, scope, expected) => if Matches(s, t, scope, expected) then Stage(s, t, scope, expected) else s
    case Require(t, scope, expected) => AfterRequire(s, t, scope, expected)
    case Commit(t) => AfterCommit(s, t)
    case Abort(t) => s.(open := s.open - {t})
  }

  /** What a statement returns to its caller. */
  datatype Answer = Record(version: nat) | Passed | Invalid | Overflow | Conflict | Denied

  function AnswerTo(s: State, a: Action): Answer
    requires a.Initialize? || a.Advance? || a.Require?
    requires a.tx in s.open
  {
    match a
    case Initialize(t, scope) => if Visible(s, t, scope) == None then Record(1) else Conflict
    case Advance(t, scope, expected) =>
      if expected == 0 then Invalid
      else if expected >= MAX_EPOCH then Overflow
      else if Visible(s, t, scope) == Some(expected) then Record(expected + 1)
      else Conflict
    case Require(t, scope, expected) =>
      if expected == 0 then Invalid
      else if Visible(s, t, scope) == Some(expected) then Passed
      else Denied
  }

  // ---- The invariant ----

  /** The committed epoch, zero before initialization. */
  function Epoch(committed: map<Scope, nat>, scope: Scope): nat { if scope in committed then committed[scope] else 0 }

  /** Steps from `base`, each to its successor. */
  ghost predicate Consecutive(steps: seq<nat>, base: nat) { forall i :: 0 <= i < |steps| ==> steps[i] == base + i }

  /** The committed log of a scope holds each epoch below the current one exactly once, in order. */
  ghost predicate LogFine(committed: map<Scope, nat>, log: map<Scope, seq<nat>>) {
    && log.Keys == committed.Keys
    && (forall scope :: scope in committed ==> 0 < committed[scope] <= MAX_EPOCH)
    && (forall scope :: scope in log ==> |log[scope]| == committed[scope] && Consecutive(log[scope], 0))
  }

  /** What a transaction stages continues the committed epoch, one step at a time. */
  ghost predicate StagedFine(committed: map<Scope, nat>, tx: Tx, scope: Scope)
    requires scope in tx.staged && scope in tx.steps
  {
    var base := Epoch(committed, scope);
    && tx.steps[scope] != [] && Consecutive(tx.steps[scope], base)
    && tx.staged[scope] == base + |tx.steps[scope]| <= MAX_EPOCH
  }

  ghost predicate TxFine(committed: map<Scope, nat>, tx: Tx) {
    && tx.steps.Keys == tx.staged.Keys
    && (forall scope :: scope in tx.staged ==> StagedFine(committed, tx, scope))
    && tx.passed.Keys <= tx.shares
    && (forall scope :: scope in tx.shares && scope !in tx.staged ==> scope in committed)
    && (forall scope :: scope in tx.passed && scope !in tx.staged ==>
          scope in committed && committed[scope] == tx.passed[scope])
  }

  ghost predicate TxsFine(s: State) { forall t :: t in s.open ==> TxFine(s.committed, s.open[t]) }

  /** A staged scope is neither staged nor share-locked by anyone else. */
  ghost predicate Exclusive(a: Tx, b: Tx) { a.staged.Keys !! b.staged.Keys && a.staged.Keys !! b.shares }

  ghost predicate LocksFine(open: map<TxID, Tx>) {
    forall t, u :: t in open && u in open && t != u ==> Exclusive(open[t], open[u])
  }

  ghost predicate Inv(s: State) { LogFine(s.committed, s.log) && TxsFine(s) && LocksFine(s.open) }

  // ---- Steps keep it ----

  lemma OneTx(s: State, s': State, t: TxID)
    requires TxsFine(s) && s'.committed == s.committed && t in s'.open && s'.open == s.open[t := s'.open[t]]
    requires TxFine(s'.committed, s'.open[t])
    ensures TxsFine(s')
  {
  }

  lemma OneLock(open: map<TxID, Tx>, t: TxID, tx: Tx)
    requires LocksFine(open)
    requires forall u :: u in open && u != t ==> Exclusive(open[u], tx) && Exclusive(tx, open[u])
    ensures LocksFine(open[t := tx])
  {
  }

  /** A transaction may lock and stage a row that nobody else excludes. */
  lemma MoreLocks(s: State, t: TxID, tx: Tx, scope: Scope)
    requires LocksFine(s.open) && t in s.open && NoOtherWriter(s, t, scope)
    requires tx.shares <= s.open[t].shares + {scope}
    requires tx.staged.Keys <= s.open[t].staged.Keys + {scope}
    requires scope in tx.staged.Keys - s.open[t].staged.Keys ==> NoOtherReader(s, t, scope)
    ensures LocksFine(s.open[t := tx])
  {
    forall u | u in s.open && u != t ensures Exclusive(s.open[u], tx) && Exclusive(tx, s.open[u]) {
      assert Exclusive(s.open[u], s.open[t]) && Exclusive(s.open[t], s.open[u]);
    }
    OneLock(s.open, t, tx);
  }

  lemma StageTxFine(s: State, t: TxID, scope: Scope, from: nat)
    requires Inv(s) && t in s.open && from < MAX_EPOCH
    requires match Visible(s, t, scope) case None => from == 0 case Some(v) => from == v > 0
    ensures TxFine(s.committed, Stage(s, t, scope, from).open[t])
  {
    var tx, tx' := s.open[t], Stage(s, t, scope, from).open[t];
    assert TxFine(s.committed, tx);
    if scope in tx.staged {
      assert StagedFine(s.committed, tx, scope);
    }
    assert StagedFine(s.committed, tx', scope);
    forall other | other in tx'.staged && other != scope ensures StagedFine(s.committed, tx', other) {
      assert StagedFine(s.committed, tx, other);
    }
  }

  lemma {:induction false} StageKeeps(s: State, t: TxID, scope: Scope, from: nat)
    requires Inv(s) && t in s.open && from < MAX_EPOCH
    requires match Visible(s, t, scope) case None => from == 0 case Some(v) => from == v > 0
    requires NoOtherWriter(s, t, scope) && NoOtherReader(s, t, scope)
    ensures Inv(Stage(s, t, scope, from))
  {
    var s' := Stage(s, t, scope, from);
    StageTxFine(s, t, scope, from);
    OneTx(s, s', t);
    MoreLocks(s, t, s'.open[t], scope);
  }

  /** An absent row has no share locks. */
  lemma AbsentUnlocked(s: State, t: TxID, scope: Scope)
    requires Inv(s) && t in s.open && Visible(s, t, scope) == None && NoOtherWriter(s, t, scope)
    ensures NoOtherReader(s, t, scope)
  {
    forall u | u in s.open && u != t ensures scope !in s.open[u].shares {
      assert TxFine(s.committed, s.open[u]);
    }
  }

  /** Locking a row the transaction can see, and recording that it holds the epoch it does. */
  lemma LockTxFine(committed: map<Scope, nat>, tx: Tx, tx': Tx, scope: Scope, v: nat)
    requires TxFine(committed, tx) && (scope in tx.staged || scope in committed)
    requires tx'.staged == tx.staged && tx'.steps == tx.steps && tx'.shares == tx.shares + {scope}
    requires
      || tx'.passed == tx.passed
      || (tx'.passed == tx.passed[scope := v] && (scope !in tx.staged ==> committed[scope] == v))
    ensures TxFine(committed, tx')
  {
    forall other | other in tx.staged ensures StagedFine(committed, tx', other) {
      assert StagedFine(committed, tx, other);
    }
  }

  lemma {:induction false} RequireKeeps(s: State, t: TxID, scope: Scope, expected: nat)
    requires Inv(s) && Enabled(s, Require(t, scope, expected)) && expected > 0 && Visible(s, t, scope).Some?
    ensures Inv(AfterRequire(s, t, scope, expected))
  {
    var s' := AfterRequire(s, t, scope, expected);
    LockTxFine(s.committed, s.open[t], s'.open[t], scope, expected);
    OneTx(s, s', t);
    MoreLocks(s, t, s'.open[t], scope);
  }

  /** Another transaction's commit leaves what `u` relies on. */
  lemma CommitKeepsOther(s: State, t: TxID, u: TxID)
    requires Inv(s) && t in s.open && u in s.open && t != u
    ensures TxFine(AfterCommit(s, t).committed, s.open[u])
  {
    var s' := AfterCommit(s, t);
    var tx := s.open[u];
    assert TxFine(s.committed, tx) && Exclusive(s.open[t], tx);
    forall scope | scope in tx.staged ensures StagedFine(s'.committed, tx, scope) {
      assert StagedFine(s.committed, tx, scope);
      assert Epoch(s'.committed, scope) == Epoch(s.committed, scope);
    }
  }

  lemma ConsecutiveAppend(a: seq<nat>, b: seq<nat>)
    requires Consecutive(a, 0) && Consecutive(b, |a|)
    ensures Consecutive(a + b, 0)
  {
  }

  lemma {:induction false} CommitLog(s: State, t: TxID)
    requires Inv(s) && t in s.open
    ensures var s' := AfterCommit(s, t); LogFine(s'.committed, s'.log)
  {
    var s', tx := AfterCommit(s, t), s.open[t];
    assert TxFine(s.committed, tx);
    forall scope | scope in s'.committed
      ensures 0 < s'.committed[scope] <= MAX_EPOCH
      ensures scope in s'.log && |s'.log[scope]| == s'.committed[scope] && Consecutive(s'.log[scope], 0)
    {
      if scope in tx.staged {
        assert StagedFine(s.committed, tx, scope);
        ConsecutiveAppend(Get(s.log, scope), tx.steps[scope]);
      }
    }
  }

  lemma {:induction false} CommitKeeps(s: State, t: TxID)
    requires Inv(s) && t in s.open
    ensures Inv(AfterCommit(s, t))
  {
    var s' := AfterCommit(s, t);
    CommitLog(s, t);
    forall u | u in s'.open ensures TxFine(s'.committed, s'.open[u]) {
      CommitKeepsOther(s, t, u);
    }
  }

  lemma BeginKeeps(s: State, t: TxID)
    requires Inv(s) && t !in s.open
    ensures Inv(After(s, Begin(t)))
  {
    OneTx(s, After(s, Begin(t)), t);
    OneLock(s.open, t, Tx(map[], map[], {}, map[]));
  }

  lemma AbortKeeps(s: State, t: TxID)
    requires Inv(s) && t in s.open
    ensures Inv(After(s, Abort(t)))
  {
  }

  /** Every enabled statement, commit and abort keeps the invariant. */
  lemma {:induction false} StepKeeps(s: State, a: Action)
    requires Inv(s) && Enabled(s, a)
    ensures Inv(After(s, a))
  {
    match a
    case Begin(t) => BeginKeeps(s, t);
    case Initialize(t, scope) =>
      if Visible(s, t, scope) == None {
        AbsentUnlocked(s, t, scope);
        StageKeeps(s, t, scope, 0);
      }
    case Advance(t, scope, expected) =>
      if Matches(s, t, scope, expected) { StageKeeps(s, t, scope, expected); }
    case Require(t, scope, expected) =>
      if expected > 0 && Visible(s, t, scope).Some? { RequireKeeps(s, t, scope, expected); }
    case Commit(t) => CommitKeeps(s, t);
    case Abort(t) => AbortKeeps(s, t);
  }

  // ---- Runs ----

  ghost predicate StepAt(states: seq<State>, actions: seq<Action>, i: int)
    requires |states| == |actions| + 1 && 0 <= i < |actions|
  {
    Enabled(states[i], actions[i]) && states[i + 1] == After(states[i], actions[i])
  }

  ghost predicate IsRun(states: seq<State>, actions: seq<Action>) {
    && |states| == |actions| + 1 && states[0] == START
    && forall i :: 0 <= i < |actions| ==> StepAt(states, actions, i)
  }

  lemma {:induction false} RunKeeps(states: seq<State>, actions: seq<Action>, i: nat)
    requires IsRun(states, actions) && i < |states|
    ensures Inv(states[i])
  {
    if i > 0 {
      RunKeeps(states, actions, i - 1);
      assert StepAt(states, actions, i - 1);
      StepKeeps(states[i - 1], actions[i - 1]);
    }
  }

  // ---- Theorems over every run ----

  /** Epochs are positive, never pass the largest one, and their log holds each earlier epoch once. */
  lemma EpochsInRange(states: seq<State>, actions: seq<Action>, i: nat, scope: Scope)
    requires IsRun(states, actions) && i < |states| && scope in states[i].committed
    ensures 0 < states[i].committed[scope] <= MAX_EPOCH
    ensures scope in states[i].log && |states[i].log[scope]| == states[i].committed[scope]
    ensures forall k :: 0 <= k < |states[i].log[scope]| ==> states[i].log[scope][k] == k
  {
    RunKeeps(states, actions, i);
  }

  /** The exact change a step makes to a committed epoch: what its transaction staged, and otherwise none. */
  lemma CommitAddsStagedSteps(s: State, a: Action, scope: Scope)
    requires Inv(s) && Enabled(s, a)
    ensures Epoch(After(s, a).committed, scope) ==
            Epoch(s.committed, scope) + if a.Commit? then |Get(s.open[a.tx].steps, scope)| else 0
    ensures scope in s.committed ==> scope in After(s, a).committed
    ensures Get(s.log, scope) <= Get(After(s, a).log, scope)
  {
    if a.Commit? {
      var tx := s.open[a.tx];
      assert TxFine(s.committed, tx);
      if scope in tx.staged { assert StagedFine(s.committed, tx, scope); }
    } else {
      OnlyCommitsWrite(s, a);
    }
  }

  /** Hence a committed epoch steps by exactly one if and only if its transaction staged exactly one change. */
  lemma StepsByOneIffStagedOnce(s: State, t: TxID, scope: Scope)
    requires Inv(s) && t in s.open
    ensures Epoch(AfterCommit(s, t).committed, scope) == Epoch(s.committed, scope) + 1 <==>
            |Get(s.open[t].steps, scope)| == 1
  {
    CommitAddsStagedSteps(s, Commit(t), scope);
  }

  lemma {:induction false} EpochsNeverGoBack(states: seq<State>, actions: seq<Action>, i: nat, j: nat, scope: Scope)
    requires IsRun(states, actions) && i <= j < |states|
    ensures Epoch(states[i].committed, scope) <= Epoch(states[j].committed, scope)
    ensures scope in states[i].committed ==> scope in states[j].committed
    ensures Get(states[i].log, scope) <= Get(states[j].log, scope)
    decreases j - i
  {
    if i < j {
      EpochsNeverGoBack(states, actions, i, j - 1, scope);
      RunKeeps(states, actions, j - 1);
      assert StepAt(states, actions, j - 1);
      CommitAddsStagedSteps(states[j - 1], actions[j - 1], scope);
    }
  }

  /** Transaction `t` commits at step `i` an advance of the scope from `expected`. */
  ghost predicate CommitsAdvance(states: seq<State>, actions: seq<Action>, i: int, scope: Scope, expected: nat)
    requires IsRun(states, actions)
  {
    && 0 <= i < |actions| && actions[i].Commit? && actions[i].tx in states[i].open
    && expected in Get(states[i].open[actions[i].tx].steps, scope)
  }

  /** Such a commit takes the scope past the epoch it stepped from. */
  lemma CommitsPast(states: seq<State>, actions: seq<Action>, i: nat, scope: Scope, expected: nat)
    requires IsRun(states, actions) && CommitsAdvance(states, actions, i, scope, expected)
    ensures Epoch(states[i].committed, scope) <= expected < Epoch(states[i + 1].committed, scope)
  {
    RunKeeps(states, actions, i);
    assert StepAt(states, actions, i);
    var tx := states[i].open[actions[i].tx];
    assert TxFine(states[i].committed, tx);
    assert StagedFine(states[i].committed, tx, scope);
  }

  /** At most one advance from an expected epoch ever commits, and so does at most one initialization. */
  lemma OneCommitPerEpoch(states: seq<State>, actions: seq<Action>, i: nat, j: nat, scope: Scope, expected: nat)
    requires IsRun(states, actions) && i <= j
    requires CommitsAdvance(states, actions, i, scope, expected) && CommitsAdvance(states, actions, j, scope, expected)
    ensures i == j
  {
    CommitsPast(states, actions, i, scope, expected);
    CommitsPast(states, actions, j, scope, expected);
    if i < j {
      EpochsNeverGoBack(states, actions, i + 1, j, scope);
    }
  }

  /** Only a commit changes the committed epochs. */
  lemma OnlyCommitsWrite(s: State, a: Action)
    requires Enabled(s, a) && !a.Commit?
    ensures After(s, a).committed == s.committed && After(s, a).log == s.log
  {
  }

  /** A transaction changes only by its own steps. */
  lemma OthersUndisturbed(s: State, a: Action, t: TxID)
    requires Enabled(s, a) && t in s.open && a.tx != t
    ensures t in After(s, a).open && After(s, a).open[t] == s.open[t]
  {
  }

  /** While a transaction that passed a requirement is open, nobody else commits a change to that epoch. */
  lemma RequirementProtects(s: State, a: Action, t: TxID, scope: Scope)
    requires Inv(s) && Enabled(s, a) && t in s.open && scope in s.open[t].passed
    requires a.tx != t
    ensures Epoch(After(s, a).committed, scope) == Epoch(s.committed, scope)
    ensures t in After(s, a).open && After(s, a).open[t] == s.open[t]
  {
    OthersUndisturbed(s, a, t);
    if a.Commit? {
      assert TxFine(s.committed, s.open[t]);
      assert Exclusive(s.open[a.tx], s.open[t]);
    } else {
      OnlyCommitsWrite(s, a);
    }
  }

  /** So the required epoch is the committed one for as long as its transaction
      stays open and does not advance it itself. */
  lemma RequiredEpochHolds(states: seq<State>, actions: seq<Action>, i: nat, t: TxID, scope: Scope)
    requires IsRun(states, actions) && i < |states| && t in states[i].open
    requires scope in states[i].open[t].passed && scope !in states[i].open[t].staged
    ensures scope in states[i].committed && states[i].committed[scope] == states[i].open[t].passed[scope]
  {
    RunKeeps(states, actions, i);
    assert TxFine(states[i].committed, states[i].open[t]);
  }

  /** A statement answers a record exactly when it stages a step, and the record is what its
      transaction sees from then on; every error leaves what the transaction sees as it was. */
  lemma RecordIffStaged(s: State, a: Action)
    requires Inv(s) && Enabled(s, a) && (a.Initialize? || a.Advance?)
    ensures var s' := After(s, a); var answer := AnswerTo(s, a);
            if answer.Record? then
              && Visible(s', a.tx, a.scope) == Some(answer.version)
              && Get(s'.open[a.tx].steps, a.scope) == Get(s.open[a.tx].steps, a.scope) + [answer.version - 1]
            else
              s' == s
  {
  }

  /** A requirement passes exactly when its transaction sees that epoch, and is then protected. */
  lemma PassedIffProtected(s: State, t: TxID, scope: Scope, expected: nat)
    requires Inv(s) && Enabled(s, Require(t, scope, expected)) && scope !in s.open[t].passed
    ensures AnswerTo(s, Require(t, scope, expected)) == Passed <==>
            scope in AfterRequire(s, t, scope, expected).open[t].passed
    ensures expected > MAX_EPOCH || expected == 0 ==> AnswerTo(s, Require(t, scope, expected)) != Passed
  {
    assert TxFine(s.committed, s.open[t]);
    if scope in s.open[t].staged { assert StagedFine(s.committed, s.open[t], scope); }
  }

  // ---- What undisturbed statements achieve ----

  /** No other transaction touches the row, and this one has not. */
  ghost predicate Untouched(s: State, t: TxID, scope: Scope) {
    t in s.open && scope !in s.open[t].staged && NoOtherWriter(s, t, scope) && NoOtherReader(s, t, scope)
  }

  /** Initializing a missing scope and committing yields epoch one; an existing scope conflicts and stays. */
  lemma InitializeCommits(s: State, t: TxID, scope: Scope)
    requires Inv(s) && Untouched(s, t, scope)
    ensures Enabled(s, Initialize(t, scope))
    ensures var s' := After(s, Initialize(t, scope));
            && t in s'.open
            && Epoch(AfterCommit(s', t).committed, scope) == (if scope in s.committed then s.committed[scope] else 1)
            && (AnswerTo(s, Initialize(t, scope)) == Conflict <==> scope in s.committed)
  {
  }

  /** Advancing the committed epoch and committing yields its successor; any other expectation changes nothing. */
  lemma AdvanceCommits(s: State, t: TxID, scope: Scope, expected: nat)
    requires Inv(s) && Untouched(s, t, scope)
    ensures var s', answer := After(s, Advance(t, scope, expected)), AnswerTo(s, Advance(t, scope, expected));
            && Enabled(s, Advance(t, scope, expected)) && t in s'.open
            && (answer == Invalid <==> expected == 0)
            && (answer == Overflow <==> expected >= 0xFFFF_FFFF_FFFF_FFFF)
            && (if 0 < expected < 0xFFFF_FFFF_FFFF_FFFF && Epoch(s.committed, scope) == expected
                then answer == Record(expected + 1) && Epoch(AfterCommit(s', t).committed, scope) == expected + 1
                else s' == s && answer in {Invalid, Overflow, Conflict})
  {
    assert TxFine(s.committed, s.open[t]);
  }

  /** A requirement passes exactly on the committed epoch, and otherwise denies. */
  lemma RequireAnswers(s: State, t: TxID, scope: Scope, expected: nat)
    requires Inv(s) && Untouched(s, t, scope)
    ensures Enabled(s, Require(t, scope, expected))
    ensures AnswerTo(s, Require(t, scope, expected)) ==
            if expected == 0 then Invalid else if Epoch(s.committed, scope) == expected then Passed else Denied
    ensures AnswerTo(s, Require(t, scope, expected)) == Passed ==>
            var tx := AfterRequire(s, t, scope, expected).open[t];
            scope in tx.shares && scope in tx.passed && tx.passed[scope] == expected
  {
  }

  // ---- Steps larger than one ----

  /** The last step of the run commits the scope's first epoch. */
  ghost predicate FirstCommitted(states: seq<State>, actions: seq<Action>, scope: Scope, epoch: nat) {
    && IsRun(states, actions) && |actions| > 0
    && scope !in states[|actions| - 1].committed
    && scope in states[|actions|].committed && states[|actions|].committed[scope] == epoch
  }

  /** One transaction, alone, over an empty table. */
  function Alone(tx: Tx): State { State(map[], map[0 := tx], map[]) }

  lemma AloneSteps(scope: Scope)
    ensures var s1 := Alone(Tx(map[], map[], {}, map[]));
            var s2 := Stage(s1, 0, scope, 0);
            && Enabled(START, Begin(0)) && After(START, Begin(0)) == s1
            && Enabled(s1, Initialize(0, scope)) && After(s1, Initialize(0, scope)) == s2
            && Enabled(s2, Advance(0, scope, 1)) && After(s2, Advance(0, scope, 1)) == Stage(s2, 0, scope, 1)
  {
  }

  /** Changes staged in one transaction commit together, so the first epoch ever seen may be two. */
  lemma FirstEpochCanBeTwo(scope: Scope)
    ensures exists states, actions :: FirstCommitted(states, actions, scope, 2)
  {
    var s1 := Alone(Tx(map[], map[], {}, map[]));
    var s2 := Stage(s1, 0, scope, 0);
    var s3 := Stage(s2, 0, scope, 1);
    var states := [START, s1, s2, s3, AfterCommit(s3, 0)];
    var actions := [Begin(0), Initialize(0, scope), Advance(0, scope, 1), Commit(0)];
    AloneSteps(scope);
    forall i | 0 <= i < 4 ensures StepAt(states, actions, i) {}
    assert FirstCommitted(states, actions, scope, 2);
  }
}
