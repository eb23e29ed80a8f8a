/** Runs of the lock manager: any number of transactions, their steps interleaved in any way. */
module LockRuns {
  import opened Common
  import opened LockHistory
  import opened LockState
  import opened LockPhases
  import opened LockManagers
  import opened WaitsFor

  /** One step of some thread, or of the detector. */
  datatype Step =
    | DoBegin(iso: Isolation)
    | DoPrepare(t: TxnId, call: Call)
    | DoAcquire(t: TxnId)
    | DoWake(t: TxnId)
    | DoAccess(t: TxnId, row: RowId, write: bool)
    | DoUnlock(t: TxnId, row: RowId)
    | DoBeginEnd(t: TxnId, commit: bool)
    | DoUnlockNext(t: TxnId)
    | DoFinishEnd(t: TxnId)
    | DoDetect

  /** The thread the step belongs to is at that point of its program, and an access holds its lock. */
  predicate Enabled(txns: map<TxnId, Txn>, blocked: map<TxnId, Call>, busy: map<TxnId, Phase>, step: Step) {
    match step
    case DoBegin(_) => true
    case DoPrepare(t, _) => t in txns && t !in blocked && t !in busy && txns[t].state != Committed
    case DoAcquire(t) => t in busy && busy[t].Admitted?
    case DoWake(t) => t in blocked
    case DoAccess(t, r, write) =>
      t in txns && t !in blocked && t !in busy && (r in txns[t].exclusive || (!write && r in txns[t].shared))
    case DoUnlock(t, _) => t in txns && t !in blocked && t !in busy
    case DoBeginEnd(t, _) => t in txns && t !in blocked && t !in busy
    case DoUnlockNext(t) => t in busy && busy[t].Releasing? && busy[t].rows != {}
    case DoFinishEnd(t) => t in busy && busy[t] == Releasing({})
    case DoDetect => true
  }

  /** A transaction whose Commit or Abort has returned. */
  ghost predicate HasEnded(s: State, t: TxnId) { t in s.busy && s.busy[t] == Ended }

  /** What ends stays ended. */
  ghost predicate EndsLast(s: State, s': State) {
    forall t {:trigger HasEnded(s', t)} :: HasEnded(s, t) ==> HasEnded(s', t)
  }

  lemma UntouchedEnds(s: State, s': State, t: TxnId)
    requires Sound(s) && Untouched(s, s', t) && (HasEnded(s, t) ==> HasEnded(s', t))
    ensures EndsLast(s, s')
  {
    forall u | HasEnded(s, u) ensures HasEnded(s', u) {
      assert BusyTxn(s, u);
      if u != t { assert SameFor(s, s', u); }
    }
  }

  // ---------------------------------------------------------------- the states of a transaction

  /** A step that was taken: the transaction it began, how it ended, and the victims it picked. */
  datatype Taken = Taken(step: Step, begun: TxnId, outcome: Outcome, victims: seq<TxnId>)

  /** What a step makes of the state of transaction `t`. */
  function StateNext(state: Option<TxnState>, t: TxnId, taken: Taken): Option<TxnState> {
    match taken.step
    case DoBegin(_) => if taken.begun == t then Some(Growing) else state
    case DoPrepare(u, _) => if u == t && taken.outcome.Threw? then Some(Aborted) else state
    case DoAcquire(u) => if u == t && taken.outcome.Threw? then Some(Aborted) else state
    case DoUnlock(u, _) => if u == t && taken.outcome == Got && state == Some(Growing) then Some(Shrinking) else state
    case DoBeginEnd(u, commit) => if u == t then Some(if commit then Committed else Aborted) else state
    case DoDetect => if t in taken.victims && state.Some? then Some(Aborted) else state
    case _ => state
  }

  /** The state of a transaction after a run. */
  function StateAfter(run: seq<Taken>, t: TxnId): Option<TxnState> {
    if run == [] then None else StateNext(StateAfter(run[..|run| - 1], t), t, run[|run| - 1])
  }

  function StateOf(s: State, t: TxnId): Option<TxnState> {
    if t in s.txns then Some(s.txns[t].state) else None
  }

  /** The states of all transactions have changed as the step says. */
  ghost predicate StatesFollow(s: State, s': State, taken: Taken) {
    forall t {:trigger StateOf(s', t)} :: StateOf(s', t) == StateNext(StateOf(s, t), t, taken)
  }

  /** A step of `u` that concerns nobody else and does with `u` what it should. */
  lemma OneFollows(s: State, s': State, u: TxnId, taken: Taken)
    requires Untouched(s, s', u) && s'.txns.Keys <= s.txns.Keys + {u} && !taken.step.DoDetect?
    requires forall t :: t != u ==> StateNext(StateOf(s, t), t, taken) == StateOf(s, t)
    requires StateOf(s', u) == StateNext(StateOf(s, u), u, taken)
    ensures StatesFollow(s, s', taken)
  {
    forall t ensures StateOf(s', t) == StateNext(StateOf(s, t), t, taken) {
      if t != u && t in s.txns { assert SameFor(s, s', t); }
    }
  }

  /** A transaction is aborted by its own Abort, by a call of its own that threw, or as a victim of the detector. */
  predicate Aborts(taken: Taken, t: TxnId) {
    || taken.step == DoBeginEnd(t, false)
    || (taken.step.DoPrepare? && taken.step.t == t && taken.outcome.Threw?)
    || (taken.step == DoAcquire(t) && taken.outcome.Threw?)
    || (taken.step == DoDetect && t in taken.victims)
  }

  /** It has begun to shrink because it unlocked a row, and is committed because it asked for it. */
  predicate Shrinks(taken: Taken, t: TxnId) {
    taken.step.DoUnlock? && taken.step.t == t && taken.outcome == Got
  }

  lemma {:induction false} StatesHaveCauses(run: seq<Taken>, t: TxnId)
    ensures StateAfter(run, t) == Some(Aborted) ==> exists i :: 0 <= i < |run| && Aborts(run[i], t)
    ensures StateAfter(run, t) == Some(Shrinking) ==> exists i :: 0 <= i < |run| && Shrinks(run[i], t)
    ensures StateAfter(run, t) == Some(Committed) ==> exists i :: 0 <= i < |run| && run[i].step == DoBeginEnd(t, true)
  {
    if run != [] {
      var n := |run| - 1;
      StatesHaveCauses(run[..n], t);
      assert forall i :: 0 <= i < n ==> run[..n][i] == run[i];
      assert Aborts(run[n], t) || Shrinks(run[n], t) || run[n].step == DoBeginEnd(t, true) ||
             StateAfter(run, t) == StateAfter(run[..n], t) || StateAfter(run, t) == Some(Growing);
    }
  }

  // ---------------------------------------------------------------- steps

  /** One step, if its thread is at that point. */
  method TakeStep(lm: LockManager, step: Step) returns (ghost taken: seq<Taken>)
    requires lm.Valid()
    modifies lm
    ensures lm.Valid() && EndsLast(old(lm.St()), lm.St())
    ensures if Enabled(old(lm.txns), old(lm.blocked), old(lm.busy), step)
            then |taken| == 1 && taken[0].step == step && StatesFollow(old(lm.St()), lm.St(), taken[0])
            else taken == [] && lm.St() == old(lm.St())
  {
    if !Enabled(lm.txns, lm.blocked, lm.busy, step) {
      return [];
    }
    if step == DoDetect {
      taken := TakeDetect(lm);
    } else {
      taken := TakeOwn(lm, step);
    }
  }

  method TakeDetect(lm: LockManager) returns (ghost taken: seq<Taken>)
    requires lm.Valid()
    modifies lm
    ensures lm.Valid() && EndsLast(old(lm.St()), lm.St())
    ensures |taken| == 1 && taken[0].step == DoDetect && StatesFollow(old(lm.St()), lm.St(), taken[0])
  {
    ghost var s := lm.St();
    ghost var graph, victims := lm.DetectDeadlocks();
    taken := [Taken(DoDetect, 0, Got, victims)];
    DetectFollows(s, lm.St(), taken[0]);
  }

  lemma DetectFollows(s: State, s': State, taken: Taken)
    requires s' == s.(txns := s'.txns) && s'.txns.Keys == s.txns.Keys && taken.step == DoDetect
    requires forall t :: t in s'.txns ==>
               s'.txns[t] == if t in taken.victims then s.txns[t].(state := Aborted) else s.txns[t]
    ensures EndsLast(s, s') && StatesFollow(s, s', taken)
  {
    forall t ensures StateOf(s', t) == StateNext(StateOf(s, t), t, taken) {
    }
  }

  /** A step of one transaction. */
  method TakeOwn(lm: LockManager, step: Step) returns (ghost taken: seq<Taken>)
    requires lm.Valid() && Enabled(lm.txns, lm.blocked, lm.busy, step) && step != DoDetect
    modifies lm
    ensures lm.Valid() && EndsLast(old(lm.St()), lm.St())
    ensures |taken| == 1 && taken[0].step == step && StatesFollow(old(lm.St()), lm.St(), taken[0])
  {
    ghost var s := lm.St();
    var u, o := 0, Got;
    match step {
      case DoBegin(iso) =>
        u := lm.Begin(iso);
      case DoPrepare(t, call) =>
        u := t;
        o := lm.Prepare(t, call);
      case DoAcquire(t) =>
        u := t;
        AcquiredState(s, t);
        o := lm.Acquire(t);
      case DoWake(t) =>
        u := t;
        WokenState(s, t);
        o := lm.Wake(t);
      case DoAccess(t, r, write) =>
        u := t;
        lm.AccessRow(t, r, write);
      case DoUnlock(t, r) =>
        u := t;
        var ok := lm.Unlock(t, r);
        o := if ok then Got else Refused;
      case DoBeginEnd(t, commit) =>
        u := t;
        lm.BeginEnd(t, if commit then Committed else Aborted);
      case DoUnlockNext(t) =>
        u := t;
        assert BusyTxn(s, t);
        var r := lm.UnlockNext(t);
      case DoFinishEnd(t) =>
        u := t;
        lm.FinishEnd(t);
    }
    taken := [Taken(step, u, o, [])];
    UntouchedEnds(s, lm.St(), u);
    OneFollows(s, lm.St(), u, taken[0]);
  }

  lemma AcquiredState(s: State, t: TxnId)
    requires Sound(s) && t in s.busy && s.busy[t].Admitted?
    ensures t in s.txns && Acquired(s, t).1.txns.Keys == s.txns.Keys
    ensures var (o, s') := Acquired(s, t); s'.txns[t].state == if o.Threw? then Aborted else s.txns[t].state
  {
    assert BusyTxn(s, t) && TxnOk(s, t);
  }

  lemma WokenState(s: State, t: TxnId)
    requires Sound(s) && t in s.blocked
    ensures t in s.txns && t !in s.busy && Woken(s, t).1.txns.Keys == s.txns.Keys
    ensures Woken(s, t).1.txns[t].state == s.txns[t].state
  {
    assert TxnOk(s, t);
    assert t in s.busy ==> BusyTxn(s, t);
  }

  /** No cycle of conflicting accesses. */
  ghost predicate Serializable(h: seq<Event>) {
    forall path :: |path| >= 2 && PrecedencePath(h, path) ==> path[0] != path[|path| - 1]
  }

  /** Every state of every interleaving: the invariant holds, no two transactions hold conflicting locks, the accesses
      made are conflict-serializable, a transaction whose Commit or Abort has returned has left nothing behind, and
      every transaction is in the state that the steps taken have put it in. */
  method Run(steps: seq<Step>) returns (lm: LockManager, ghost run: seq<Taken>)
    ensures fresh(lm) && lm.Valid() && Serializable(lm.history)
    ensures forall t, u, r :: t != u ==> Compatible(GrantedTo(lm.St(), t, r), GrantedTo(lm.St(), u, r))
    ensures forall t :: HasEnded(lm.St(), t) ==> HoldsNothing(lm.St(), t)
    ensures forall t :: StateOf(lm.St(), t) == StateAfter(run, t)
  {
    lm := new LockManager();
    run := [];
    for i := 0 to |steps|
      invariant fresh(lm) && lm.Valid()
      invariant forall t :: StateOf(lm.St(), t) == StateAfter(run, t)
    {
      ghost var s := lm.St();
      ghost var taken := TakeStep(lm, steps[i]);
      StatesAfter(s, lm.St(), run, taken);
      run := run + taken;
    }
    SoundFacts(lm.St());
  }

  lemma StatesAfter(s: State, s': State, run: seq<Taken>, taken: seq<Taken>)
    requires forall t :: StateOf(s, t) == StateAfter(run, t)
    requires if taken == [] then s' == s else |taken| == 1 && StatesFollow(s, s', taken[0])
    ensures forall t :: StateOf(s', t) == StateAfter(run + taken, t)
  {
    if taken == [] {
      assert run + taken == run;
    } else {
      assert (run + taken)[..|run|] == run;
    }
  }

  lemma SoundFacts(s: State)
    requires Sound(s)
    ensures Serializable(s.history)
    ensures forall t, u, r :: t != u ==> Compatible(GrantedTo(s, t, r), GrantedTo(s, u, r))
    ensures forall t :: HasEnded(s, t) ==> HoldsNothing(s, t)
  {
    forall path | |path| >= 2 && PrecedencePath(s.history, path) ensures path[0] != path[|path| - 1] {
      ConflictSerializable(s.history, path);
    }
    forall t, u, r | t != u ensures Compatible(GrantedTo(s, t, r), GrantedTo(s, u, r)) {
      MutualExclusion(s.history, |s.history|, t, u, r);
      assert s.history[..|s.history|] == s.history;
      assert Held(s.history, t, r) == GrantedTo(s, t, r) && Held(s.history, u, r) == GrantedTo(s, u, r);
    }
    forall t | HasEnded(s, t) ensures HoldsNothing(s, t) {
      assert BusyTxn(s, t);
    }
  }
}
