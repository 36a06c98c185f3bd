/** The catalog's DDL lock, as the interleaved steps of any number of transactions.
    One word holds either the id of the transaction that owns the lock or the
    commit time of its last committed owner. A transaction reads the word, decides
    on what it read and tries one compare-and-swap; the word is given back by an
    action that runs after the commit time was drawn, or before an abort ends. */
module DdlLock {
  import opened Options

  /** Ids of unfinished transactions are their start times moved up by this much. */
  const TXN_ID_BASE: nat := 0x8000_0000_0000_0000

  const INITIAL_TXN_TIMESTAMP: nat := 0

  predicate Committed(stamp: nat) {
    stamp < TXN_ID_BASE
  }

  predicate NewerThan(a: nat, b: nat) {
    a > b
  }

  datatype Phase =
    | Running                   // between catalog calls
    | Loaded(seen: nat)         // inside TryLock, after the load
    | Committing(time: nat)     // commit time drawn, commit actions still to run
    | Aborting                  // abort actions still to run
    | Ended(committed: bool, time: nat)

  /** A transaction, keyed by its start time. `releases` are the lock's registered
      end actions, each with the word it would restore on abort. `took` and
      `attempted` record history: the word replaced by the acquisition, and whether
      TryLock ever ran to its end. */
  datatype Txn = Txn(phase: Phase, mustAbort: bool, releases: seq<nat>, took: Option<nat>, attempted: bool)

  datatype State = State(clock: nat, word: nat, txns: map<nat, Txn>)

  datatype Step =
    | Begin
    | Load(t: nat)
    | Decide(t: nat)
    | Commit(t: nat)
    | CommitAction(t: nat)
    | EndCommit(t: nat)
    | Abort(t: nat)
    | AbortAction(t: nat)
    | EndAbort(t: nat)

  function Id(start: nat): nat {
    start + TXN_ID_BASE
  }

  const Init := State(INITIAL_TXN_TIMESTAMP, INITIAL_TXN_TIMESTAMP, map[])

  predicate Enabled(s: State, step: Step) {
    match step
    case Begin => s.clock + 1 < TXN_ID_BASE
    case Load(t) => t in s.txns && s.txns[t].phase == Running
    case Decide(t) => t in s.txns && s.txns[t].phase.Loaded?
    case Commit(t) => t in s.txns && s.txns[t].phase == Running && !s.txns[t].mustAbort && s.clock + 1 < TXN_ID_BASE
    case CommitAction(t) => t in s.txns && s.txns[t].phase.Committing? && s.txns[t].releases != []
    case EndCommit(t) => t in s.txns && s.txns[t].phase.Committing? && s.txns[t].releases == []
    case Abort(t) => t in s.txns && s.txns[t].phase == Running
    case AbortAction(t) => t in s.txns && s.txns[t].phase == Aborting && s.txns[t].releases != []
    case EndAbort(t) => t in s.txns && s.txns[t].phase == Aborting && s.txns[t].releases == [] && s.clock + 1 < TXN_ID_BASE
  }

  function Apply(s: State, step: Step): State
    requires Enabled(s, step)
  {
    match step
    case Begin =>
      State(s.clock + 1, s.word, s.txns[s.clock := Txn(Running, false, [], None, false)])
    case Load(t) =>
      s.(txns := s.txns[t := s.txns[t].(phase := Loaded(s.word))])
    case Decide(t) =>
      TryLock(s, t)
    case Commit(t) =>
      State(s.clock + 1, s.word, s.txns[t := s.txns[t].(phase := Committing(s.clock))])
    case CommitAction(t) =>
      State(s.clock, s.txns[t].phase.time, s.txns[t := s.txns[t].(releases := s.txns[t].releases[1..])])
    case EndCommit(t) =>
      s.(txns := s.txns[t := s.txns[t].(phase := Ended(true, s.txns[t].phase.time))])
    case Abort(t) =>
      s.(txns := s.txns[t := s.txns[t].(phase := Aborting)])
    case AbortAction(t) =>
      State(s.clock, s.txns[t].releases[0], s.txns[t := s.txns[t].(releases := s.txns[t].releases[1..])])
    case EndAbort(t) =>
      State(s.clock + 1, s.word, s.txns[t := s.txns[t].(phase := Ended(false, s.clock))])
  }

  /** TryLock after its load: the tests on the value read, then the compare-and-swap. */
  function TryLock(s: State, t: nat): State
    requires t in s.txns && s.txns[t].phase.Loaded?
  {
    var txn := s.txns[t];
    var seen := txn.phase.seen;
    var back := txn.(phase := Running, attempted := true);
    var alreadyHoldLock := seen == Id(t);
    var ownedByOtherTxn := !Committed(seen);
    var newerCommittedVersion := Committed(seen) && NewerThan(seen, t);
    if alreadyHoldLock then
      s.(txns := s.txns[t := back])
    else if ownedByOtherTxn || newerCommittedVersion then
      s.(txns := s.txns[t := back.(mustAbort := true)])
    else if s.word == seen then
      // Registered actions are pushed to the front of the transaction's lists.
      s.(word := Id(t), txns := s.txns[t := back.(
        releases := [seen] + txn.releases, took := if txn.took.None? then Some(seen) else txn.took)])
    else
      s.(txns := s.txns[t := back.(mustAbort := true)])
  }

  predicate Feasible(s: State, steps: seq<Step>)
    decreases steps
  {
    steps == [] || (Enabled(s, steps[0]) && Feasible(Apply(s, steps[0]), steps[1..]))
  }

  function Exec(s: State, steps: seq<Step>): State
    requires Feasible(s, steps)
    decreases steps
  {
    if steps == [] then s else Exec(Apply(s, steps[0]), steps[1..])
  }

  // ---------------------------------------------------------------------------
  // The invariant
  // ---------------------------------------------------------------------------

  /** The transaction has drawn a commit time. */
  predicate HasCommitted(txn: Txn) {
    txn.phase.Committing? || (txn.phase.Ended? && txn.phase.committed)
  }

  function FinishTime(txn: Txn): nat
    requires HasCommitted(txn)
  {
    txn.phase.time
  }

  predicate Active(txn: Txn) {
    txn.phase == Running || txn.phase.Loaded?
  }

  /** Every stamp handed out is below the clock, and no commit time is a start time. */
  ghost predicate StampInv(s: State) {
    && s.clock < TXN_ID_BASE
    && (forall t :: t in s.txns ==> t < s.clock)
    && (forall t :: t in s.txns && HasCommitted(s.txns[t]) ==>
          t < FinishTime(s.txns[t]) < s.clock && FinishTime(s.txns[t]) !in s.txns)
  }

  /** One transaction's registered actions and history. */
  ghost predicate TxnInv(s: State, t: nat)
    requires t in s.txns
  {
    var txn := s.txns[t];
    && (txn.releases != [] ==> txn.took.Some? && txn.releases == [txn.took.value] && s.word == Id(t))
    && (Active(txn) && txn.took.Some? ==> txn.releases != [])
    && (txn.phase.Ended? ==> txn.releases == [])
    && (txn.took.Some? ==> txn.took.value <= t)
    && (txn.phase.Loaded? && txn.phase.seen == Id(t) ==> txn.took.Some?)
    && (txn.attempted && txn.took.None? ==> txn.mustAbort)
    && (HasCommitted(txn) ==> !txn.mustAbort)
  }

  /** The transaction whose id the word holds. */
  function Owner(word: nat): nat
    requires !Committed(word)
  {
    word - TXN_ID_BASE
  }

  /** The word is an owner's id, or at most the clock. */
  ghost predicate WordInv(s: State) {
    if Committed(s.word) then s.word <= s.clock
    else Owner(s.word) in s.txns && s.txns[Owner(s.word)].releases != []
  }

  /** What the word holds once the present owner, if any, is set aside. */
  ghost function CommittedValue(s: State): nat
    requires WordInv(s)
  {
    if Committed(s.word) then s.word else s.txns[Owner(s.word)].releases[0]
  }

  /** The transaction owned the lock, drew a commit time and has given the word back. */
  ghost predicate Released(s: State, t: nat) {
    t in s.txns && s.txns[t].took.Some? && HasCommitted(s.txns[t]) && s.txns[t].releases == []
  }

  /** The committed value is the greatest commit time of an owner whose action has run. */
  ghost predicate GreatestInv(s: State)
    requires WordInv(s)
  {
    && (forall t :: Released(s, t) ==> FinishTime(s.txns[t]) <= CommittedValue(s))
    && (CommittedValue(s) == INITIAL_TXN_TIMESTAMP || exists t ::
          Released(s, t) && FinishTime(s.txns[t]) == CommittedValue(s))
  }

  /** The transaction owned the lock and drew a commit time. */
  ghost predicate OwnedAndCommitted(s: State, t: nat) {
    t in s.txns && s.txns[t].took.Some? && HasCommitted(s.txns[t])
  }

  /** Any two owners that drew commit times do not overlap. */
  ghost predicate SerialInv(s: State) {
    forall t, u | OwnedAndCommitted(s, t) && OwnedAndCommitted(s, u) && t != u ::
      FinishTime(s.txns[t]) < u || FinishTime(s.txns[u]) < t
  }

  ghost predicate Inv(s: State) {
    && StampInv(s)
    && (forall t :: t in s.txns ==> TxnInv(s, t))
    && WordInv(s)
    && GreatestInv(s)
    && SerialInv(s)
  }

  // ---------------------------------------------------------------------------
  // Every step keeps the invariant
  // ---------------------------------------------------------------------------

  lemma StampStep(s: State, step: Step)
    requires StampInv(s) && Enabled(s, step)
    ensures StampInv(Apply(s, step))
  {
    var s' := Apply(s, step);
    assert s'.txns.Keys == s.txns.Keys || step.Begin?;
    forall u | u in s'.txns && HasCommitted(s'.txns[u])
      ensures u < FinishTime(s'.txns[u]) < s'.clock && FinishTime(s'.txns[u]) !in s'.txns
    {
      assert step == Commit(u) || (HasCommitted(s.txns[u]) && FinishTime(s'.txns[u]) == FinishTime(s.txns[u]));
    }
  }

  lemma TxnStep(s: State, step: Step, u: nat)
    requires StampInv(s) && WordInv(s) && Enabled(s, step) && u in Apply(s, step).txns
    requires u in s.txns ==> TxnInv(s, u)
    requires step.Begin? || TxnInv(s, step.t)
    ensures TxnInv(Apply(s, step), u)
  {
  }

  /** Only a commit action moves the committed value, to its transaction's commit time. */
  lemma WordStep(s: State, step: Step)
    requires Inv(s) && Enabled(s, step)
    ensures WordInv(Apply(s, step))
    ensures CommittedValue(Apply(s, step)) ==
            if step.CommitAction? then FinishTime(s.txns[step.t]) else CommittedValue(s)
  {
    if !step.Begin? {
      assert TxnInv(s, step.t);
    }
    if !Committed(s.word) {
      assert TxnInv(s, Owner(s.word));
    }
  }

  lemma ReleasedStep(s: State, step: Step, u: nat)
    requires StampInv(s) && Enabled(s, step) && (u in s.txns ==> TxnInv(s, u))
    ensures Released(Apply(s, step), u) <==> Released(s, u) || step == CommitAction(u)
    ensures Released(s, u) || step == CommitAction(u) ==>
              FinishTime(Apply(s, step).txns[u]) == FinishTime(s.txns[u])
  {
  }

  lemma OwnedStep(s: State, step: Step, u: nat)
    requires StampInv(s) && Enabled(s, step)
    ensures OwnedAndCommitted(Apply(s, step), u) <==>
            OwnedAndCommitted(s, u) || (step == Commit(u) && s.txns[u].took.Some?)
    ensures OwnedAndCommitted(s, u) ==> FinishTime(Apply(s, step).txns[u]) == FinishTime(s.txns[u])
  {
  }

  /** While a transaction owns the lock, every earlier owner committed before it started. */
  lemma OwnerIsLatest(s: State, t: nat, u: nat)
    requires Inv(s) && t in s.txns && s.txns[t].releases != []
    requires OwnedAndCommitted(s, u) && t != u
    ensures FinishTime(s.txns[u]) < t
  {
    assert TxnInv(s, t) && TxnInv(s, u);
    assert Released(s, u);
    assert CommittedValue(s) == s.txns[t].took.value;
  }

  lemma GreatestStep(s: State, step: Step)
    requires Inv(s) && Enabled(s, step) && WordInv(Apply(s, step))
    ensures GreatestInv(Apply(s, step))
    ensures CommittedValue(s) <= CommittedValue(Apply(s, step))
  {
    var s' := Apply(s, step);
    WordStep(s, step);
    if step.CommitAction? {
      assert TxnInv(s, step.t);
      assert CommittedValue(s) == s.txns[step.t].took.value < FinishTime(s.txns[step.t]);
    }
    forall u | Released(s', u) ensures FinishTime(s'.txns[u]) <= CommittedValue(s') {
      ReleasedStep(s, step, u);
    }
    if step.CommitAction? {
      ReleasedStep(s, step, step.t);
      assert Released(s', step.t);
    } else if CommittedValue(s') != INITIAL_TXN_TIMESTAMP {
      var u :| Released(s, u) && FinishTime(s.txns[u]) == CommittedValue(s);
      ReleasedStep(s, step, u);
      assert Released(s', u);
    }
  }

  lemma SerialStep(s: State, step: Step)
    requires Inv(s) && Enabled(s, step)
    ensures SerialInv(Apply(s, step))
  {
    var s' := Apply(s, step);
    forall t, u | OwnedAndCommitted(s', t) && OwnedAndCommitted(s', u) && t != u
      ensures FinishTime(s'.txns[t]) < u || FinishTime(s'.txns[u]) < t
    {
      OwnedStep(s, step, t);
      OwnedStep(s, step, u);
      if step == Commit(t) {
        assert TxnInv(s, t);
        OwnerIsLatest(s, t, u);
      } else if step == Commit(u) {
        assert TxnInv(s, u);
        OwnerIsLatest(s, u, t);
      }
    }
  }

  lemma StepInv(s: State, step: Step)
    requires Inv(s) && Enabled(s, step)
    ensures Inv(Apply(s, step))
    ensures CommittedValue(s) <= CommittedValue(Apply(s, step))
  {
    StampStep(s, step);
    forall u | u in Apply(s, step).txns ensures TxnInv(Apply(s, step), u) {
      TxnStep(s, step, u);
    }
    WordStep(s, step);
    GreatestStep(s, step);
    SerialStep(s, step);
  }

  // ---------------------------------------------------------------------------
  // Whole runs
  // ---------------------------------------------------------------------------

  /** The invariant holds at the end of every run, and over it the committed value never decreases. */
  lemma {:induction false} RunInv(s: State, steps: seq<Step>)
    requires Inv(s) && Feasible(s, steps)
    ensures Inv(Exec(s, steps))
    ensures CommittedValue(s) <= CommittedValue(Exec(s, steps))
    decreases steps
  {
    if steps != [] {
      StepInv(s, steps[0]);
      RunInv(Apply(s, steps[0]), steps[1..]);
    }
  }

  /** In every interleaving, two transactions that finished a TryLock call and committed are
      serial: one drew its commit time before the other started. */
  lemma CommittedDdlIsSerial(steps: seq<Step>, t: nat, u: nat)
    requires Feasible(Init, steps)
    requires var s := Exec(Init, steps);
      && t in s.txns && u in s.txns && t != u
      && s.txns[t].attempted && s.txns[u].attempted
      && HasCommitted(s.txns[t]) && HasCommitted(s.txns[u])
    ensures var s := Exec(Init, steps);
      FinishTime(s.txns[t]) < u || FinishTime(s.txns[u]) < t
  {
    RunInv(Init, steps);
    var s := Exec(Init, steps);
    assert TxnInv(s, t) && TxnInv(s, u);
    assert OwnedAndCommitted(s, t) && OwnedAndCommitted(s, u);
  }

  /** In every reachable state the word is the id of the one transaction that has a release
      action pending, exactly one of them; or no action is pending anywhere and the word is the
      greatest commit time among committed owners, the initial stamp if there are none. */
  lemma WordMeaning(steps: seq<Step>)
    requires Feasible(Init, steps)
    ensures var s := Exec(Init, steps);
      if Committed(s.word) then
        && (forall t :: t in s.txns ==> s.txns[t].releases == [])
        && (forall t :: OwnedAndCommitted(s, t) ==> FinishTime(s.txns[t]) <= s.word)
        && (s.word == INITIAL_TXN_TIMESTAMP ||
            exists t :: OwnedAndCommitted(s, t) && FinishTime(s.txns[t]) == s.word)
      else
        && Owner(s.word) in s.txns && |s.txns[Owner(s.word)].releases| == 1
        && !s.txns[Owner(s.word)].phase.Ended?
        && (forall t :: t in s.txns && t != Owner(s.word) ==> s.txns[t].releases == [])
  {
    RunInv(Init, steps);
    var s := Exec(Init, steps);
    forall t | t in s.txns ensures s.txns[t].releases == [] || s.word == Id(t) {
      assert TxnInv(s, t);
    }
    if Committed(s.word) {
      forall t | OwnedAndCommitted(s, t) ensures Released(s, t) {}
      if s.word != INITIAL_TXN_TIMESTAMP {
        var t :| Released(s, t) && FinishTime(s.txns[t]) == CommittedValue(s);
        assert OwnedAndCommitted(s, t);
      }
    } else {
      assert TxnInv(s, Owner(s.word));
    }
  }

  /** Which transactions can still be at work while another owns the lock: one that owned it before has
      committed before the present owner started, has ended by an abort, or is aborting with the lock
      already given back. */
  lemma WhoOverlapsOwner(steps: seq<Step>, t: nat, u: nat)
    requires Feasible(Init, steps)
    requires var s := Exec(Init, steps);
      && t in s.txns && s.txns[t].releases != []
      && u in s.txns && s.txns[u].took.Some? && u != t
    ensures var txn := Exec(Init, steps).txns[u];
      if HasCommitted(txn) then FinishTime(txn) < t
      else txn.releases == [] && (txn.phase == Aborting || txn.phase.Ended?)
  {
    RunInv(Init, steps);
    var s := Exec(Init, steps);
    assert TxnInv(s, t) && TxnInv(s, u);
    if HasCommitted(s.txns[u]) {
      OwnerIsLatest(s, t, u);
    }
  }

  /** A compare-and-swap by `t` replaces the word. */
  predicate Acquires(s: State, t: nat) {
    Enabled(s, Decide(t)) && s.word != Id(t) && TryLock(s, t).word == Id(t)
  }

  lemma OwnershipStep(s: State, step: Step, t: nat)
    requires StampInv(s) && Enabled(s, step) && t in s.txns && s.txns[t].took.Some?
    ensures t in Apply(s, step).txns && Apply(s, step).txns[t].took == s.txns[t].took
  {
  }

  lemma {:induction false} OwnershipKept(s: State, steps: seq<Step>, t: nat, before: nat)
    requires Inv(s) && Feasible(s, steps)
    requires t in s.txns && s.txns[t].took == Some(before)
    ensures t in Exec(s, steps).txns && Exec(s, steps).txns[t].took == Some(before)
    decreases steps
  {
    if steps != [] {
      StepInv(s, steps[0]);
      OwnershipStep(s, steps[0], t);
      OwnershipKept(Apply(s, steps[0]), steps[1..], t, before);
    }
  }

  /** Whatever others do in between, an abort puts back exactly the word the acquisition replaced. */
  lemma AbortRestoresWord(before: seq<Step>, t: nat, between: seq<Step>)
    requires Feasible(Init, before) && Acquires(Exec(Init, before), t)
    requires Feasible(Apply(Exec(Init, before), Decide(t)), between)
    requires Enabled(Exec(Apply(Exec(Init, before), Decide(t)), between), AbortAction(t))
    ensures Apply(Exec(Apply(Exec(Init, before), Decide(t)), between), AbortAction(t)).word == Exec(Init, before).word
  {
    var s0 := Exec(Init, before);
    RunInv(Init, before);
    assert TxnInv(s0, t);
    var s1 := Apply(s0, Decide(t));
    StepInv(s0, Decide(t));
    assert s1.txns[t].took == Some(s0.word);
    OwnershipKept(s1, between, t, s0.word);
    RunInv(s1, between);
    assert TxnInv(Exec(s1, between), t);
  }

  lemma OneStep(s: State, step: Step, rest: seq<Step>)
    requires Enabled(s, step) && Feasible(Apply(s, step), rest)
    ensures Feasible(s, [step] + rest) && Exec(s, [step] + rest) == Exec(Apply(s, step), rest)
  {
    assert ([step] + rest)[1..] == rest;
  }

  /** The last case does happen: the abort of the first transaction has given the lock back and is not
      over, and the second one owns the lock. */
  lemma AbortingOwnerLingers() returns (steps: seq<Step>)
    ensures Feasible(Init, steps)
    ensures var s := Exec(Init, steps);
      0 in s.txns && s.txns[0].took.Some? && s.txns[0].phase == Aborting && s.word == Id(1)
  {
    var s1 := Apply(Init, Begin);
    var s2 := Apply(s1, Begin);
    var s3 := Apply(s2, Load(0));
    var s4 := Apply(s3, Decide(0));
    var s5 := Apply(s4, Abort(0));
    var s6 := Apply(s5, AbortAction(0));
    var s7 := Apply(s6, Load(1));
    OneStep(s7, Decide(1), []);
    steps := [Decide(1)];
    OneStep(s6, Load(1), steps);
    steps := [Load(1)] + steps;
    OneStep(s5, AbortAction(0), steps);
    steps := [AbortAction(0)] + steps;
    OneStep(s4, Abort(0), steps);
    steps := [Abort(0)] + steps;
    OneStep(s3, Decide(0), steps);
    steps := [Decide(0)] + steps;
    OneStep(s2, Load(0), steps);
    steps := [Load(0)] + steps;
    OneStep(s1, Begin, steps);
    steps := [Begin] + steps;
    OneStep(Init, Begin, steps);
    steps := [Begin] + steps;
  }
}
