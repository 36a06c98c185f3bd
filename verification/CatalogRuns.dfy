/** The catalog over whole runs: any number of transactions, interleaved, that take the DDL lock, change
    the catalog, commit and abort. A transaction sees the changes committed before it started, and its
    own. */
module CatalogRuns {
  import opened CatalogTables
  import opened CatalogChanges
  import Lock = DdlLock

  /** The changes of one committed transaction. */
  datatype Version = Version(time: nat, changes: seq<Change>)

  datatype State = State(
    lock: Lock.State,
    versions: seq<Version>,            // in the order of their commits
    made: map<nat, seq<Change>>,       // by transactions that have made any
    failed: set<nat>,                  // transactions marked to abort by an operation that failed
    next: Counters)

  datatype Step =
    | LockStep(step: Lock.Step)
    | Make(t: nat, change: Change)     // an operation that succeeds
    | Fail(t: nat, next: Counters)     // one that fails; counters may have moved

  /** The rows after the given versions; `base` are those of a new database. */
  ghost function RowsAfter(base: Rows, versions: seq<Version>): Rows {
    if versions == [] then base
    else Replay(RowsAfter(base, versions[..|versions| - 1]), versions[|versions| - 1].changes)
  }

  /** The versions committed before the given time. */
  ghost function Upto(versions: seq<Version>, time: nat): seq<Version> {
    if versions == [] || versions[|versions| - 1].time < time then versions
    else Upto(versions[..|versions| - 1], time)
  }

  ghost function Made(s: State, t: nat): seq<Change> {
    if t in s.made then s.made[t] else []
  }

  /** What a transaction sees. */
  ghost function View(base: Rows, s: State, t: nat): Rows {
    Replay(RowsAfter(base, Upto(s.versions, t)), Made(s, t))
  }

  /** A transaction that has the lock and has not begun to finish. */
  ghost predicate Owns(s: State, t: nat) {
    t in s.lock.txns && Lock.Active(s.lock.txns[t]) && s.lock.txns[t].releases != []
  }

  /** One that can go on changing the catalog. */
  ghost predicate Working(s: State, t: nat) {
    Owns(s, t) && s.lock.txns[t].phase == Lock.Running && t !in s.failed
  }

  ghost predicate Enabled(base: Rows, s: State, step: Step) {
    match step
    case LockStep(l) => Lock.Enabled(s.lock, l) && (l.Commit? ==> l.t !in s.failed)
    case Make(t, c) => Working(s, t) && Allowed(View(base, s, t), c, s.next)
    case Fail(t, next) => Working(s, t) && s.next.AtMost(next)
  }

  ghost function Apply(base: Rows, s: State, step: Step): State
    requires Enabled(base, s, step)
  {
    match step
    case LockStep(l) =>
      s.(lock := Lock.Apply(s.lock, l),
         versions := if l.Commit? && l.t in s.made then s.versions + [Version(s.lock.clock, s.made[l.t])] else s.versions)
    case Make(t, c) =>
      s.(made := s.made[t := Made(s, t) + [c]], next := After(s.next, c))
    case Fail(t, next) =>
      s.(failed := s.failed + {t}, next := next)
  }

  ghost predicate Feasible(base: Rows, s: State, steps: seq<Step>)
    decreases steps
  {
    steps == [] || (Enabled(base, s, steps[0]) && Feasible(base, Apply(base, s, steps[0]), steps[1..]))
  }

  ghost function Exec(base: Rows, s: State, steps: seq<Step>): State
    requires Feasible(base, s, steps)
    decreases steps
  {
    if steps == [] then s else Exec(base, Apply(base, s, steps[0]), steps[1..])
  }

  /** Every index is made on a table that its maker sees. */
  ghost predicate Careful(base: Rows, s: State, steps: seq<Step>)
    requires Feasible(base, s, steps)
    decreases steps
  {
    steps != [] ==>
      && (steps[0].Make? ==> OnTable(View(base, s, steps[0].t), steps[0].change))
      && Careful(base, Apply(base, s, steps[0]), steps[1..])
  }

  function Init(next: Counters): State {
    State(Lock.Init, [], map[], {}, next)
  }

  // ---------------------------------------------------------------------------
  // The owner of the lock sees everything committed
  // ---------------------------------------------------------------------------

  /** A version is what an owner of the lock committed. */
  ghost predicate Committer(l: Lock.State, u: nat, time: nat) {
    Lock.OwnedAndCommitted(l, u) && Lock.FinishTime(l.txns[u]) == time
  }

  ghost predicate FromOwner(l: Lock.State, v: Version) {
    exists u :: Committer(l, u, v.time)
  }

  ghost predicate HistoryInv(s: State) {
    && Lock.Inv(s.lock)
    && (forall i :: 0 <= i < |s.versions| ==> FromOwner(s.lock, s.versions[i]))
    && (forall t :: t in s.made ==> t in s.lock.txns && s.lock.txns[t].took.Some?)
  }

  /** Whoever has the lock and has not finished sees all that was committed. */
  lemma OwnerSeesAll(base: Rows, s: State, t: nat)
    requires HistoryInv(s) && Owns(s, t)
    ensures View(base, s, t) == Replay(RowsAfter(base, s.versions), Made(s, t))
  {
    forall i | 0 <= i < |s.versions| ensures s.versions[i].time < t {
      var u :| Committer(s.lock, u, s.versions[i].time);
      Lock.OwnerIsLatest(s.lock, t, u);
    }
  }

  lemma FromOwnerStays(l: Lock.State, step: Lock.Step, v: Version)
    requires Lock.Inv(l) && Lock.Enabled(l, step) && FromOwner(l, v)
    ensures FromOwner(Lock.Apply(l, step), v)
  {
    var u :| Committer(l, u, v.time);
    Lock.OwnedStep(l, step, u);
    assert Committer(Lock.Apply(l, step), u, v.time);
  }

  lemma NewVersion(l: Lock.State, t: nat, changes: seq<Change>)
    requires Lock.Inv(l) && Lock.Enabled(l, Lock.Commit(t)) && l.txns[t].took.Some?
    ensures FromOwner(Lock.Apply(l, Lock.Commit(t)), Version(l.clock, changes))
  {
    assert Committer(Lock.Apply(l, Lock.Commit(t)), t, l.clock);
  }

  lemma LockHistory(s: State, l: Lock.Step, s': State)
    requires HistoryInv(s) && Lock.Enabled(s.lock, l) && s'.lock == Lock.Apply(s.lock, l) && s'.made == s.made
    requires forall i :: 0 <= i < |s'.versions| ==> s'.versions[i] in s.versions || FromOwner(s'.lock, s'.versions[i])
    ensures HistoryInv(s')
  {
    Lock.StepInv(s.lock, l);
    forall t | t in s.made ensures t in s'.lock.txns && s'.lock.txns[t].took.Some? {
      Lock.OwnershipStep(s.lock, l, t);
    }
    forall i | 0 <= i < |s'.versions| && s'.versions[i] in s.versions ensures FromOwner(s'.lock, s'.versions[i]) {
      FromOwnerStays(s.lock, l, s'.versions[i]);
    }
  }

  lemma HistoryStep(base: Rows, s: State, step: Step)
    requires HistoryInv(s) && Enabled(base, s, step)
    ensures HistoryInv(Apply(base, s, step))
  {
    match step
    case LockStep(l) =>
      if l.Commit? && l.t in s.made {
        NewVersion(s.lock, l.t, s.made[l.t]);
      }
      LockHistory(s, l, Apply(base, s, step));
    case Make(t, c) =>
      assert Lock.TxnInv(s.lock, t);
    case Fail(t, next) =>
  }

  lemma SoleOwner(l: Lock.State, t: nat, u: nat)
    requires Lock.Inv(l) && t in l.txns && l.txns[t].releases != []
    ensures u in l.txns && l.txns[u].releases != [] ==> u == t
  {
    assert Lock.TxnInv(l, t);
    assert u in l.txns ==> Lock.TxnInv(l, u);
  }

  /** A commit makes the catalog what its transaction saw: the rows committed before, with the changes of
      that transaction. No other transaction has committed changes since it started. */
  lemma CommitPublishesView(base: Rows, s: State, t: nat)
    requires HistoryInv(s) && Enabled(base, s, LockStep(Lock.Commit(t))) && t in s.made
    ensures Owns(s, t) && RowsAfter(base, Apply(base, s, LockStep(Lock.Commit(t))).versions) == View(base, s, t)
  {
    assert Lock.TxnInv(s.lock, t);
    OwnerSeesAll(base, s, t);
    var versions := Apply(base, s, LockStep(Lock.Commit(t))).versions;
    assert versions[..|versions| - 1] == s.versions;
  }

  // ---------------------------------------------------------------------------
  // Every committed catalog keeps the promises
  // ---------------------------------------------------------------------------

  ghost predicate AllKept(base: Rows, versions: seq<Version>, next: Counters) {
    forall i :: 0 <= i <= |versions| ==> RowsAfter(base, versions[..i]) in Sound(next)
  }

  ghost predicate OwnerKept(base: Rows, s: State, t: nat) {
    Owns(s, t) && t !in s.failed ==> View(base, s, t) in Sound(s.next)
  }

  ghost predicate KeptInv(base: Rows, s: State) {
    HistoryInv(s) && AllKept(base, s.versions, s.next) && forall t :: OwnerKept(base, s, t)
  }

  lemma AllKeptLater(base: Rows, versions: seq<Version>, next: Counters, later: Counters)
    requires AllKept(base, versions, next) && next.AtMost(later)
    ensures AllKept(base, versions, later)
  {
    forall i | 0 <= i <= |versions| ensures RowsAfter(base, versions[..i]) in Sound(later) {
    }
  }

  lemma AllKeptOneMore(base: Rows, versions: seq<Version>, v: Version, next: Counters)
    requires AllKept(base, versions, next) && RowsAfter(base, versions + [v]) in Sound(next)
    ensures AllKept(base, versions + [v], next)
  {
    forall i | 0 <= i <= |versions| + 1 ensures RowsAfter(base, (versions + [v])[..i]) in Sound(next) {
      if i <= |versions| {
        assert (versions + [v])[..i] == versions[..i];
      } else {
        assert (versions + [v])[..i] == versions + [v];
      }
    }
  }

  /** Who has the lock after a step had it before, or takes it for the first time. */
  lemma OwnsStep(l: Lock.State, step: Lock.Step, u: nat)
    requires Lock.Inv(l) && Lock.Enabled(l, step) && u in Lock.Apply(l, step).txns
    requires var txn := Lock.Apply(l, step).txns[u]; Lock.Active(txn) && txn.releases != []
    ensures u in l.txns && Lock.Active(l.txns[u])
    ensures l.txns[u].releases != [] || l.txns[u].took.None?
  {
    if u in l.txns {
      assert Lock.TxnInv(l, u);
    }
  }

  /** The views stay while nothing is committed and nothing changed; a new owner sees the committed rows. */
  lemma LockStepKeeps(base: Rows, s: State, l: Lock.Step, s': State, u: nat)
    requires HistoryInv(s) && Lock.Enabled(s.lock, l) && HistoryInv(s') && s' == s.(lock := Lock.Apply(s.lock, l))
    requires RowsAfter(base, s.versions) in Sound(s.next) && OwnerKept(base, s, u)
    ensures OwnerKept(base, s', u)
  {
    if Owns(s', u) && u !in s.failed {
      OwnsStep(s.lock, l, u);
      if u !in s.made {
        OwnerSeesAll(base, s', u);
      }
    }
  }

  lemma CommitKeeps(base: Rows, s: State, t: nat)
    requires HistoryInv(s) && AllKept(base, s.versions, s.next) && OwnerKept(base, s, t)
    requires Enabled(base, s, LockStep(Lock.Commit(t))) && t in s.made
    ensures AllKept(base, Apply(base, s, LockStep(Lock.Commit(t))).versions, s.next)
  {
    CommitPublishesView(base, s, t);
    AllKeptOneMore(base, s.versions, Version(s.lock.clock, s.made[t]), s.next);
  }

  lemma MakeKeeps(base: Rows, s: State, t: nat, c: Change)
    requires Enabled(base, s, Make(t, c)) && View(base, s, t) in Sound(s.next) && OnTable(View(base, s, t), c)
    ensures View(base, Apply(base, s, Make(t, c)), t) in Sound(After(s.next, c))
  {
    ChangeKept(View(base, s, t), c, s.next);
    var made := Made(s, t) + [c];
    assert made[..|made| - 1] == Made(s, t);
  }

  /** After a commit of changes nobody has the lock to change the catalog. */
  lemma CommitLeavesNoOwner(base: Rows, s: State, t: nat, u: nat)
    requires HistoryInv(s) && Enabled(base, s, LockStep(Lock.Commit(t))) && t in s.made
    ensures !Owns(Apply(base, s, LockStep(Lock.Commit(t))), u)
  {
    assert Lock.TxnInv(s.lock, t);
    SoleOwner(s.lock, t, u);
  }

  lemma OwnerStep(base: Rows, s: State, step: Step, u: nat)
    requires HistoryInv(s) && Enabled(base, s, step) && HistoryInv(Apply(base, s, step))
    requires step.Make? ==> OnTable(View(base, s, step.t), step.change)
    requires RowsAfter(base, s.versions) in Sound(s.next) && OwnerKept(base, s, u)
    ensures OwnerKept(base, Apply(base, s, step), u)
  {
    match step
    case LockStep(l) =>
      if l.Commit? && l.t in s.made {
        CommitLeavesNoOwner(base, s, l.t, u);
      } else {
        LockStepKeeps(base, s, l, Apply(base, s, step), u);
      }
    case Make(t, c) =>
      SoleOwner(s.lock, t, u);
      if u == t {
        MakeKeeps(base, s, t, c);
      }
    case Fail(t, _) =>
      SoleOwner(s.lock, t, u);
  }

  lemma KeptStep(base: Rows, s: State, step: Step)
    requires KeptInv(base, s) && Enabled(base, s, step)
    requires step.Make? ==> OnTable(View(base, s, step.t), step.change)
    ensures KeptInv(base, Apply(base, s, step))
  {
    var s' := Apply(base, s, step);
    HistoryStep(base, s, step);
    assert s.versions[..|s.versions|] == s.versions;
    forall u ensures OwnerKept(base, s', u) {
      assert OwnerKept(base, s, u);
      OwnerStep(base, s, step, u);
    }
    if step.LockStep? && step.step.Commit? && step.step.t in s.made {
      assert OwnerKept(base, s, step.step.t);
      CommitKeeps(base, s, step.step.t);
    } else {
      AllKeptLater(base, s.versions, s.next, s'.next);
    }
  }

  lemma {:induction false} RunInv(base: Rows, s: State, steps: seq<Step>)
    requires HistoryInv(s) && Feasible(base, s, steps)
    ensures HistoryInv(Exec(base, s, steps))
    ensures KeptInv(base, s) && Careful(base, s, steps) ==> KeptInv(base, Exec(base, s, steps))
    decreases steps
  {
    if steps != [] {
      HistoryStep(base, s, steps[0]);
      if KeptInv(base, s) && Careful(base, s, steps) {
        KeptStep(base, s, steps[0]);
      }
      RunInv(base, Apply(base, s, steps[0]), steps[1..]);
    }
  }

  lemma {:induction false} UptoIsPrefix(versions: seq<Version>, time: nat) returns (n: nat)
    ensures n <= |versions| && Upto(versions, time) == versions[..n]
  {
    if versions == [] || versions[|versions| - 1].time < time {
      n := |versions|;
    } else {
      n := UptoIsPrefix(versions[..|versions| - 1], time);
      assert versions[..|versions| - 1][..n] == versions[..n];
    }
  }

  /** In every run in which indexes are made on tables that exist, every transaction, whenever it started,
      sees a committed catalog that keeps all the promises. */
  lemma CommittedCatalogsKept(base: Rows, next: Counters, steps: seq<Step>, time: nat)
    requires Promises(base, next) && Feasible(base, Init(next), steps) && Careful(base, Init(next), steps)
    ensures var s := Exec(base, Init(next), steps);
      Promises(RowsAfter(base, Upto(s.versions, time)), s.next)
  {
    assert AllKept(base, Init(next).versions, next);
    RunInv(base, Init(next), steps);
    var s := Exec(base, Init(next), steps);
    var n := UptoIsPrefix(s.versions, time);
    assert RowsAfter(base, s.versions[..n]) in Sound(s.next);
  }

  /** In every run, careful or not, a transaction that has changed the catalog and can commit has the lock,
      and commits what it sees: the latest committed rows with its own changes. */
  lemma DdlIsSerial(base: Rows, next: Counters, steps: seq<Step>, t: nat)
    requires Feasible(base, Init(next), steps)
    requires var s := Exec(base, Init(next), steps); t in s.made && Enabled(base, s, LockStep(Lock.Commit(t)))
    ensures var s := Exec(base, Init(next), steps);
      && Owns(s, t)
      && RowsAfter(base, Apply(base, s, LockStep(Lock.Commit(t))).versions) == View(base, s, t)
      && View(base, s, t) == Replay(RowsAfter(base, s.versions), s.made[t])
  {
    RunInv(base, Init(next), steps);
    var s := Exec(base, Init(next), steps);
    CommitPublishesView(base, s, t);
    OwnerSeesAll(base, s, t);
  }
}
