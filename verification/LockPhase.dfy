/** The steps of lock calls, commits and aborts between two holds of the latch: what each leaves behind, that it
    concerns no other transaction, and what is known of a thread that has let go of the latch. */
module LockPhases {
  import opened Common
  import opened LockHistory
  import opened LockState

  datatype AbortReason = LockOnShrinking | UpgradeConflict | Deadlock | LockSharedOnReadUncommitted

  /** How a step of a lock call ends: it returns true or false, throws, is left waiting, or, in LockExclusive on a row
      held shared, goes on to LockUpgrade. */
  datatype Outcome = Got | Refused | Threw(reason: AbortReason) | Waiting | GoOnToUpgrade

  function RequestOf(s: State, t: TxnId, r: RowId): Option<Request> {
    if r in s.table && t in s.table[r].reqs then Some(s.table[r].reqs[t]) else None
  }

  // ---------------------------------------------------------------- threads between steps

  /** What is known of a transaction whose thread is between two steps of one call. */
  ghost predicate BusyTxn(s: State, t: TxnId)
    requires t in s.busy
  {
    && t in s.txns && t !in s.blocked
    && match s.busy[t]
       case Admitted(_) => !Shrunk(s.history, t) && s.txns[t].state in {Growing, Aborted}
       case Releasing(rows) =>
         && s.txns[t].state in {Committed, Aborted}
         && s.txns[t].shared + s.txns[t].exclusive <= rows
         && forall r :: r in rows ==> GrantedTo(s, t, r) != NoLock
       case Ended => HoldsNothing(s, t)
  }

  /** No queue mentions `t` and its lock sets are empty. */
  ghost predicate HoldsNothing(s: State, t: TxnId) {
    && t in s.txns && s.txns[t].shared == {} && s.txns[t].exclusive == {}
    && forall r {:trigger RequestOf(s, t, r)} :: RequestOf(s, t, r) == None
  }

  ghost predicate BusyOk(s: State) {
    forall t {:trigger BusyTxn(s, t)} :: t in s.busy ==> BusyTxn(s, t)
  }

  predicate Flagged(s: State, r: RowId) { r in s.table && s.table[r].upgrading }

  predicate Upgrades(s: State, t: TxnId, r: RowId) { t in s.blocked && s.blocked[t] == InUpgrade(r) }

  /** The flag is_upgrading_ is only set while some upgrade is waiting. */
  ghost predicate FlagOk(s: State) {
    forall r {:trigger Flagged(s, r)} :: Flagged(s, r) ==> exists t :: Upgrades(s, t, r)
  }

  // ---------------------------------------------------------------- frames

  /** Nothing about transaction `u` has changed. */
  ghost predicate SameFor(s: State, s': State, u: TxnId) {
    && u in s.txns && u in s'.txns && s'.txns[u] == s.txns[u]
    && (u in s.blocked <==> u in s'.blocked) && (u in s.blocked ==> s'.blocked[u] == s.blocked[u])
    && (u in s.busy <==> u in s'.busy) && (u in s.busy ==> s'.busy[u] == s.busy[u])
    && (forall r {:trigger RequestOf(s', u, r)} :: RequestOf(s', u, r) == RequestOf(s, u, r))
    && Shrunk(s'.history, u) == Shrunk(s.history, u)
  }

  /** A step of transaction `t` concerns nobody else. */
  ghost predicate Untouched(s: State, s': State, t: TxnId) {
    s.txns.Keys <= s'.txns.Keys && forall u {:trigger SameFor(s, s', u)} :: u in s.txns && u != t ==> SameFor(s, s', u)
  }

  lemma UntouchedTwice(s: State, s1: State, s2: State, t: TxnId)
    requires Untouched(s, s1, t) && Untouched(s1, s2, t)
    ensures Untouched(s, s2, t)
  {
    forall u | u in s.txns && u != t ensures SameFor(s, s2, u) {
      assert SameFor(s, s1, u) && SameFor(s1, s2, u);
      forall r ensures RequestOf(s2, u, r) == RequestOf(s, u, r) {
        assert RequestOf(s2, u, r) == RequestOf(s1, u, r) && RequestOf(s1, u, r) == RequestOf(s, u, r);
      }
    }
  }

  /** A change at one row, of one transaction, with at most one event of its own. */
  lemma LocalChange(s: State, s': State, t: TxnId, r: RowId, es: seq<Event>)
    requires s.txns.Keys <= s'.txns.Keys && forall u :: u in s.txns && u != t ==> s'.txns[u] == s.txns[u]
    requires s'.blocked - {t} == s.blocked - {t} && s'.busy - {t} == s.busy - {t}
    requires forall x :: x != r ==> (x in s'.table <==> x in s.table) && (x in s.table ==> s'.table[x] == s.table[x])
    requires forall u :: u != t ==> RequestOf(s', u, r) == RequestOf(s, u, r)
    requires s'.history == s.history + es && |es| <= 1 && (es != [] ==> es[0].txn == t)
    ensures Untouched(s, s', t)
  {
    forall u | u in s.txns && u != t ensures SameFor(s, s', u) {
      if es != [] { HeldStep(s.history, es[0], u, r); } else { assert s'.history == s.history; }
      assert u in s'.blocked - {t} <==> u in s.blocked - {t};
      assert u in s'.busy - {t} <==> u in s.busy - {t};
      assert u in s.blocked ==> (s'.blocked - {t})[u] == (s.blocked - {t})[u];
      assert u in s.busy ==> (s'.busy - {t})[u] == (s.busy - {t})[u];
      forall x ensures RequestOf(s', u, x) == RequestOf(s, u, x) {
      }
    }
  }

  /** Only an upgrade sets the flag of a row, and when one ends the flag is clear. */
  ghost predicate FlagsFollow(s: State, s': State, t: TxnId) {
    && (forall r {:trigger Flagged(s', r)} :: Flagged(s', r) && !Flagged(s, r) ==> Upgrades(s', t, r))
    && (forall r {:trigger Flagged(s', r)} :: Flagged(s', r) && Upgrades(s, t, r) ==> Upgrades(s', t, r))
  }

  /** A thread between steps is not disturbed by the steps of others, nor is a waiting upgrade. */
  lemma BusyKept(s: State, s': State, t: TxnId)
    requires BusyOk(s) && FlagOk(s) && s.blocked.Keys <= s.txns.Keys
    requires Untouched(s, s', t) && FlagsFollow(s, s', t) && s'.busy.Keys <= s.busy.Keys + {t}
    requires t in s'.busy ==> BusyTxn(s', t)
    ensures BusyOk(s') && FlagOk(s')
  {
    forall r | Flagged(s', r) ensures exists u :: Upgrades(s', u, r) {
      if Flagged(s, r) {
        var u :| Upgrades(s, u, r);
        if u != t { assert SameFor(s, s', u); }
        assert Upgrades(s', u, r);
      }
    }
    forall u | u in s'.busy ensures BusyTxn(s', u) {
      if u != t {
        assert BusyTxn(s, u) && SameFor(s, s', u);
        forall r ensures GrantedTo(s', u, r) == GrantedTo(s, u, r) {
          assert RequestOf(s', u, r) == RequestOf(s, u, r);
        }
        forall r ensures RequestOf(s', u, r) == RequestOf(s, u, r) {
        }
      }
    }
  }

  ghost predicate Sound(s: State) { Inv(s) && BusyOk(s) && FlagOk(s) }

  /** Where a thread stands between two steps is no concern of the lock table. */
  lemma InvOfBusy(s: State, busy: map<TxnId, Phase>)
    requires Inv(s)
    ensures Inv(s.(busy := busy))
  {
    var s' := s.(busy := busy);
    forall r | r in s'.table ensures RowOk(s', r) {
      assert RowOk(s, r);
      forall u | u in s'.table[r].reqs ensures RequestOk(s', r, u) { assert RequestOk(s, r, u); }
    }
    forall u | u in s'.txns ensures TxnOk(s', u) { assert TxnOk(s, u); }
    forall u, x ensures Held(s'.history, u, x) == GrantedTo(s', u, x) {
      assert Held(s.history, u, x) == GrantedTo(s, u, x);
    }
  }

  // ---------------------------------------------------------------- primitives concern one transaction

  lemma WithStateUntouched(s: State, t: TxnId, state: TxnState)
    requires t in s.txns
    ensures Untouched(s, WithState(s, t, state), t)
  {
    LocalChange(s, WithState(s, t, state), t, 0, []);
  }

  lemma BusyUntouched(s: State, t: TxnId, busy: map<TxnId, Phase>)
    requires busy - {t} == s.busy - {t}
    ensures Untouched(s, s.(busy := busy), t)
  {
    LocalChange(s, s.(busy := busy), t, 0, []);
  }

  lemma EnqueuedUntouched(s: State, t: TxnId, call: Call)
    ensures Untouched(s, Enqueued(s, t, call), t)
  {
    LocalChange(s, Enqueued(s, t, call), t, call.row, []);
  }

  lemma GrantedUntouched(s: State, t: TxnId)
    requires t in s.blocked && t in s.txns && s.blocked[t].row in s.table && t in s.table[s.blocked[t].row].reqs
    ensures Untouched(s, Granted(s, t), t)
  {
    var r := s.blocked[t].row;
    LocalChange(s, Granted(s, t), t, r, [Grant(t, r, if s.blocked[t].InShared? then Shared else Exclusive)]);
  }

  lemma WithdrawnUntouched(s: State, t: TxnId)
    requires t in s.blocked && s.blocked[t].row in s.table
    ensures Untouched(s, Withdrawn(s, t), t)
  {
    LocalChange(s, Withdrawn(s, t), t, s.blocked[t].row, []);
  }

  lemma UpgradingUntouched(s: State, t: TxnId, r: RowId)
    requires r in s.table && t in s.table[r].reqs
    ensures Untouched(s, Upgrading(s, t, r), t)
  {
    LocalChange(s, Upgrading(s, t, r), t, r, []);
  }

  lemma UpgradedUntouched(s: State, t: TxnId)
    requires t in s.blocked && t in s.txns && s.blocked[t].row in s.table && t in s.table[s.blocked[t].row].reqs
    ensures Untouched(s, Upgraded(s, t), t)
  {
    LocalChange(s, Upgraded(s, t), t, s.blocked[t].row, [Grant(t, s.blocked[t].row, Exclusive)]);
  }

  lemma UpgradeAbandonedUntouched(s: State, t: TxnId)
    requires t in s.blocked && s.blocked[t].row in s.table
    ensures Untouched(s, UpgradeAbandoned(s, t), t)
  {
    LocalChange(s, UpgradeAbandoned(s, t), t, s.blocked[t].row, []);
  }

  lemma ReleasedUntouched(s: State, t: TxnId, r: RowId)
    requires r in s.table && t in s.table[r].reqs && t in s.txns
    ensures Untouched(s, Released(s, t, r), t)
  {
    LocalChange(s, Released(s, t, r), t, r, [Release(t, r)]);
  }

  lemma AccessedUntouched(s: State, t: TxnId, r: RowId, write: bool)
    ensures Untouched(s, Accessed(s, t, r, write), t)
  {
    LocalChange(s, Accessed(s, t, r, write), t, r, [Access(t, r, write)]);
  }

  // ---------------------------------------------------------------- the steps

  /** The thread of `t` is in no call. */
  predicate Idle(s: State, t: TxnId) { t in s.txns && t !in s.blocked && t !in s.busy }

  /** LockPrepare, and the test on the isolation level before it: both run without the latch. */
  function Prepared(s: State, t: TxnId, call: Call): (Outcome, State)
    requires t in s.txns
  {
    if call.InShared? && s.txns[t].iso == ReadUncommitted then
      (Threw(LockSharedOnReadUncommitted), WithState(s, t, Aborted))
    else if s.txns[t].state == Aborted then (Threw(Deadlock), s)
    else if s.txns[t].state == Shrinking then (Threw(LockOnShrinking), WithState(s, t, Aborted))
    else (Got, s.(busy := s.busy[t := Admitted(call)]))
  }

  /** The test before and after a wait: grant, or wait on. */
  function Tested(s: State, t: TxnId): (Outcome, State)
    requires t in s.blocked && t in s.txns && s.blocked[t].row in s.table && t in s.table[s.blocked[t].row].reqs
  {
    var q := s.table[s.blocked[t].row];
    match s.blocked[t]
    case InShared(_) => if q.writing || q.upgrading then (Waiting, s) else (Got, Granted(s, t))
    case InExclusive(_) => if q.writing || q.sharing > 0 then (Waiting, s) else (Got, Granted(s, t))
    case InUpgrade(_) => if q.writing || q.sharing > 1 then (Waiting, s) else (Got, Upgraded(s, t))
  }

  /** The part of a lock call under the latch, up to its return or its wait. */
  ghost function Acquired(s: State, t: TxnId): (Outcome, State)
    requires Sound(s) && t in s.busy && s.busy[t].Admitted?
  {
    assert BusyTxn(s, t) && TxnOk(s, t);
    var call, s1 := s.busy[t].call, s.(busy := s.busy - {t});
    var r, txn := call.row, s.txns[t];
    if r in txn.exclusive || (call.InShared? && r in txn.shared) then (Got, s1)
    else if call.InExclusive? && r in txn.shared then (GoOnToUpgrade, s1)
    else if !call.InUpgrade? then Tested(Enqueued(s1, t, call), t)
    else if r !in txn.shared then (Refused, s1)
    else if s.table[r].upgrading then (Threw(UpgradeConflict), WithState(s1, t, Aborted))
    else Tested(Upgrading(s1, t, r), t)
  }

  /** A blocked call is woken: if its transaction has been aborted meanwhile it gives up, otherwise it tests again. */
  ghost function Woken(s: State, t: TxnId): (Outcome, State)
    requires Inv(s) && t in s.blocked
  {
    assert TxnOk(s, t);
    if s.txns[t].state == Aborted then
      (Threw(Deadlock), if s.blocked[t].InUpgrade? then UpgradeAbandoned(s, t) else Withdrawn(s, t))
    else Tested(s, t)
  }

  /** Commit or Abort up to its first Unlock: the state is set and the lock sets are read. */
  function Ending(s: State, t: TxnId, state: TxnState): State
    requires t in s.txns
  {
    WithState(s, t, state).(busy := s.busy[t := Releasing(s.txns[t].shared + s.txns[t].exclusive)])
  }

  /** One Unlock of ReleaseLocks. */
  function ReleasedNext(s: State, t: TxnId, r: RowId): State
    requires r in s.table && t in s.table[r].reqs && t in s.txns && t in s.busy && s.busy[t].Releasing?
  {
    Released(s, t, r).(busy := s.busy[t := Releasing(s.busy[t].rows - {r})])
  }

  // ---------------------------------------------------------------- each step is sound and concerns one transaction

  lemma PreparedStep(s: State, t: TxnId, call: Call)
    requires Sound(s) && Idle(s, t) && s.txns[t].state != Committed
    ensures var s' := Prepared(s, t, call).1; Sound(s') && Untouched(s, s', t)
  {
    var (o, s') := Prepared(s, t, call);
    assert TxnOk(s, t);
    if o == Got {
      InvOfBusy(s, s'.busy);
      BusyUntouched(s, t, s'.busy);
    } else {
      WithStateInv(s, t, Aborted);
      WithStateUntouched(s, t, Aborted);
      assert s' == WithState(s, t, Aborted);
    }
    BusyKept(s, s', t);
  }

  lemma TestedStep(s: State, t: TxnId)
    requires Sound(s) && t in s.blocked && t in s.txns
    ensures s.blocked[t].row in s.table && t in s.table[s.blocked[t].row].reqs
    ensures var s' := Tested(s, t).1; Sound(s') && Untouched(s, s', t)
  {
    assert TxnOk(s, t);
    var (o, s') := Tested(s, t);
    if o == Got {
      match s.blocked[t]
      case InShared(_) => GrantedSharedInv(s, t); GrantedUntouched(s, t);
      case InExclusive(_) => GrantedExclusiveInv(s, t); GrantedUntouched(s, t);
      case InUpgrade(_) => UpgradedInv(s, t); UpgradedUntouched(s, t);
    } else {
      BusyUntouched(s, t, s.busy);
    }
    assert t in s.busy ==> BusyTxn(s, t);
    BusyKept(s, s', t);
  }

  lemma AcquiredStep(s: State, t: TxnId)
    requires Sound(s) && t in s.busy && s.busy[t].Admitted?
    ensures var s' := Acquired(s, t).1; Sound(s') && Untouched(s, s', t)
  {
    assert BusyTxn(s, t) && TxnOk(s, t);
    var call, s1 := s.busy[t].call, s.(busy := s.busy - {t});
    var r, txn, s' := call.row, s.txns[t], Acquired(s, t).1;
    InvOfBusy(s, s1.busy);
    BusyUntouched(s, t, s1.busy);
    BusyKept(s, s1, t);
    if s' != s1 {
      var s2;
      if !call.InUpgrade? {
        s2 := Enqueued(s1, t, call);
        EnqueuedInv(s1, t, call);
        EnqueuedUntouched(s1, t, call);
      } else if s.table[r].upgrading {
        s2 := WithState(s1, t, Aborted);
        WithStateInv(s1, t, Aborted);
        WithStateUntouched(s1, t, Aborted);
      } else {
        s2 := Upgrading(s1, t, r);
        UpgradingInv(s1, t, r);
        UpgradingUntouched(s1, t, r);
      }
      BusyKept(s1, s2, t);
      UntouchedTwice(s, s1, s2, t);
      if s' != s2 {
        TestedStep(s2, t);
        UntouchedTwice(s, s2, s', t);
      }
    }
  }

  lemma WokenStep(s: State, t: TxnId)
    requires Sound(s) && t in s.blocked
    ensures var s' := Woken(s, t).1; Sound(s') && Untouched(s, s', t)
  {
    assert TxnOk(s, t);
    if s.txns[t].state != Aborted {
      TestedStep(s, t);
    } else {
      assert t in s.busy ==> BusyTxn(s, t);
      if s.blocked[t].InUpgrade? {
        UpgradeAbandonedInv(s, t);
        UpgradeAbandonedUntouched(s, t);
      } else {
        WithdrawnInv(s, t);
        WithdrawnUntouched(s, t);
      }
      BusyKept(s, Woken(s, t).1, t);
    }
  }

  lemma EndingStep(s: State, t: TxnId, state: TxnState)
    requires Sound(s) && Idle(s, t) && state in {Committed, Aborted}
    ensures var s' := Ending(s, t, state); Sound(s') && Untouched(s, s', t)
  {
    var s1, s' := WithState(s, t, state), Ending(s, t, state);
    assert TxnOk(s, t);
    WithStateInv(s, t, state);
    InvOfBusy(s1, s'.busy);
    WithStateUntouched(s, t, state);
    BusyUntouched(s1, t, s'.busy);
    UntouchedTwice(s, s1, s', t);
    assert BusyTxn(s', t) by { assert TxnOk(s', t); }
    BusyKept(s, s', t);
  }

  /** Unlock by a transaction that is in no call. */
  lemma ReleasedStep(s: State, t: TxnId, r: RowId)
    requires Sound(s) && Idle(s, t) && r in s.table && t in s.table[r].reqs
    ensures var s' := Released(s, t, r); Sound(s') && Untouched(s, s', t)
  {
    ReleasedInv(s, t, r);
    ReleasedUntouched(s, t, r);
    BusyKept(s, Released(s, t, r), t);
  }

  /** A transaction that is releasing has a granted request on every row it has left to unlock. */
  lemma ReleasingHolds(s: State, t: TxnId, r: RowId)
    requires Sound(s) && t in s.busy && s.busy[t].Releasing? && r in s.busy[t].rows
    ensures t in s.txns && t !in s.blocked && r in s.table && t in s.table[r].reqs
  {
    assert BusyTxn(s, t) && GrantedTo(s, t, r) != NoLock;
  }

  lemma ReleasedNextStep(s: State, t: TxnId, r: RowId)
    requires Sound(s) && t in s.busy && s.busy[t].Releasing? && r in s.busy[t].rows
    requires t in s.txns && t !in s.blocked && r in s.table && t in s.table[r].reqs
    ensures var s' := ReleasedNext(s, t, r); Sound(s') && Untouched(s, s', t)
  {
    assert BusyTxn(s, t) && RowOk(s, r) && RequestOk(s, r, t);
    var s1, s' := Released(s, t, r), ReleasedNext(s, t, r);
    ReleasedInv(s, t, r);
    ReleasedUntouched(s, t, r);
    InvOfBusy(s1, s'.busy);
    BusyUntouched(s1, t, s'.busy);
    UntouchedTwice(s, s1, s', t);
    assert BusyTxn(s', t) by {
      forall x | x in s'.busy[t].rows ensures GrantedTo(s', t, x) != NoLock {
        assert x != r && GrantedTo(s, t, x) != NoLock;
      }
    }
    BusyKept(s, s', t);
  }

  /** A call that has unlocked everything leaves nothing of its transaction behind. */
  lemma FinishedStep(s: State, t: TxnId)
    requires Sound(s) && t in s.busy && s.busy[t] == Releasing({})
    ensures var s' := s.(busy := s.busy[t := Ended]); Sound(s') && Untouched(s, s', t) && HoldsNothing(s', t)
  {
    var s' := s.(busy := s.busy[t := Ended]);
    assert BusyTxn(s, t);
    InvOfBusy(s, s'.busy);
    BusyUntouched(s, t, s'.busy);
    forall r ensures RequestOf(s', t, r) == None {
      NoRequest(s, t, r);
    }
    BusyKept(s, s', t);
  }

  lemma AccessedStep(s: State, t: TxnId, r: RowId, write: bool)
    requires Sound(s) && Idle(s, t)
    requires GrantedTo(s, t, r) == Exclusive || (!write && GrantedTo(s, t, r) == Shared)
    ensures var s' := Accessed(s, t, r, write); Sound(s') && Untouched(s, s', t)
  {
    AccessedInv(s, t, r, write);
    AccessedUntouched(s, t, r, write);
    BusyKept(s, Accessed(s, t, r, write), t);
  }

  lemma BegunStep(s: State, t: TxnId, iso: Isolation)
    requires Sound(s) && t !in s.txns
    ensures var s' := Begun(s, t, iso); Sound(s') && Untouched(s, s', t)
  {
    var s' := Begun(s, t, iso);
    BegunInv(s, t, iso);
    assert t in s.busy ==> BusyTxn(s, t);
    LocalChange(s, s', t, 0, []);
    BusyKept(s, s', t);
  }

  /** The detector marks a transaction, whatever its thread is doing. */
  lemma MarkedStep(s: State, t: TxnId)
    requires Sound(s) && t in s.txns
    ensures var s' := WithState(s, t, Aborted); Sound(s') && Untouched(s, s', t)
  {
    var s' := WithState(s, t, Aborted);
    assert TxnOk(s, t);
    WithStateInv(s, t, Aborted);
    WithStateUntouched(s, t, Aborted);
    if t in s.busy {
      assert BusyTxn(s, t);
      assert BusyTxn(s', t) by {
        forall r ensures GrantedTo(s', t, r) == GrantedTo(s, t, r) && RequestOf(s', t, r) == RequestOf(s, t, r) {
        }
      }
    }
    BusyKept(s, s', t);
  }

  // ---------------------------------------------------------------- what a call without interference comes to

  /** The locked part of a call right after LockPrepare: when it waits, and what it has when it returns. */
  lemma AcquiredFacts(s: State, t: TxnId, call: Call)
    requires Sound(s) && Idle(s, t) && s.txns[t].state == Growing
    requires Sound(s.(busy := s.busy[t := Admitted(call)]))
    ensures var (o, s') := Acquired(s.(busy := s.busy[t := Admitted(call)]), t);
            var r, q, held := call.row, QueueAt(s, call.row), GrantedTo(s, t, call.row);
            && (o == Waiting ==> t in s'.blocked && s'.blocked[t] == call)
            && (o == Got ==> Idle(s', t) && GrantedTo(s', t, r) != NoLock)
            && (o == Got ==> GrantedTo(s', t, r) == if call.InShared? && held != Exclusive then Shared else Exclusive)
            && (o == GoOnToUpgrade <==> call.InExclusive? && held == Shared)
            && (o == GoOnToUpgrade || o == Refused ==> s' == s)
            && (o == Refused <==> call.InUpgrade? && held == NoLock)
            && (o.Threw? <==> call.InUpgrade? && held == Shared && q.upgrading)
            && (o.Threw? ==> o == Threw(UpgradeConflict) && s' == WithState(s, t, Aborted))
            && (o == Waiting <==> match call
                                  case InShared(_) => held == NoLock && (q.writing || q.upgrading)
                                  case InExclusive(_) => held == NoLock && (q.writing || q.sharing > 0)
                                  case InUpgrade(_) => held == Shared && !q.upgrading && (q.writing || q.sharing > 1))
  {
    var r, s0 := call.row, s.(busy := s.busy[t := Admitted(call)]);
    assert TxnOk(s, t) && BusyTxn(s0, t);
    assert s0.busy - {t} == s.busy && s0.(busy := s.busy) == s;
    if r !in s.txns[t].shared && r !in s.txns[t].exclusive { NoRequest(s, t, r); }
  }

  // ---------------------------------------------------------------- who waits for whom

  /** Request `a` of a queue waits, `b` has been granted something, and the two conflict. */
  predicate WaitsOn(q: Queue, a: TxnId, b: TxnId) {
    && a in q.reqs && b in q.reqs && a != b
    && (q.reqs[a].granted == NoLock || q.reqs[a].mode != q.reqs[a].granted)
    && q.reqs[b].granted != NoLock
    && (q.reqs[a].mode == Exclusive || q.reqs[b].granted == Exclusive)
  }

  /** The call of `a` waits, and there is an edge for it. */
  predicate SeenWait(s: State, a: TxnId, b: TxnId) {
    a in s.blocked && s.blocked[a].row in s.table && WaitsOn(s.table[s.blocked[a].row], a, b)
  }

  /** The shared request of `a` waits for the flag that the upgrade of `b` has set. */
  predicate FlagWait(s: State, a: TxnId, b: TxnId) {
    a in s.blocked && s.blocked[a].InShared? && Flagged(s, s.blocked[a].row) && Upgrades(s, b, s.blocked[a].row)
  }

  predicate TrueWait(s: State, a: TxnId, b: TxnId) { SeenWait(s, a, b) || FlagWait(s, a, b) }

  lemma SharersOther(q: Queue, t: TxnId)
    requires QueueOk(q)
    ensures t in Sharers(q) ==> (q.sharing > 1 <==> exists u :: u in Sharers(q) && u != t)
    ensures q.sharing > 0 <==> exists u :: u in Sharers(q)
  {
    Inhabited(Sharers(q));
    Inhabited(Sharers(q) - {t});
    assert t in Sharers(q) ==> Sharers(q) == Sharers(q) - {t} + {t} && |Sharers(q)| == |Sharers(q) - {t}| + 1;
  }

  /** A blocked call goes on waiting if and only if it truly waits for somebody. */
  lemma WaitsForSomebody(s: State, t: TxnId)
    requires Sound(s) && t in s.blocked
    ensures t in s.txns && s.blocked[t].row in s.table && t in s.table[s.blocked[t].row].reqs
    ensures Tested(s, t).0 == Waiting <==> exists u :: TrueWait(s, t, u)
  {
    assert TxnOk(s, t);
    var r := s.blocked[t].row;
    var q := s.table[r];
    assert RowOk(s, r) && RequestOk(s, r, t);
    SharersOther(q, t);
    if q.writing {
      Inhabited(Writers(q));
      var u :| u in Writers(q);
      assert s.blocked[t].InUpgrade? ==> t in Sharers(q);
      assert TrueWait(s, t, u);
    }
    match s.blocked[t]
    case InShared(_) =>
      if q.upgrading {
        assert Flagged(s, r);
        var u :| Upgrades(s, u, r);
        assert TrueWait(s, t, u);
      }
      forall u | TrueWait(s, t, u) ensures q.writing || q.upgrading { assert SeenWait(s, t, u) ==> u in Writers(q); }
    case InExclusive(_) =>
      if q.sharing > 0 {
        var u :| u in Sharers(q);
        assert TrueWait(s, t, u);
      }
      forall u | TrueWait(s, t, u) ensures q.writing || q.sharing > 0 { assert u in Writers(q) || u in Sharers(q); }
    case InUpgrade(_) =>
      assert t in Sharers(q);
      if q.sharing > 1 {
        var u :| u in Sharers(q) && u != t;
        assert TrueWait(s, t, u);
      }
      forall u | TrueWait(s, t, u) ensures q.writing || q.sharing > 1 { assert u in Writers(q) || u in Sharers(q); }
  }

  /** What a wake-up comes to. An aborted transaction gives up: an ungranted request is gone, and an upgrade leaves the
      shared lock and a clear flag. Any other waits on while there is somebody to wait for, and then has its lock. */
  lemma WokenFacts(s: State, t: TxnId)
    requires Sound(s) && t in s.blocked
    ensures t in s.txns
    ensures var (o, s') := Woken(s, t);
            var call, r := s.blocked[t], s.blocked[t].row;
            && (s.txns[t].state == Aborted ==>
                  && o == Threw(Deadlock) && t !in s'.blocked
                  && (if call.InUpgrade? then GrantedTo(s', t, r) == Shared && !Flagged(s', r)
                      else RequestOf(s', t, r) == None))
            && (s.txns[t].state != Aborted ==>
                  && (o == Waiting <==> exists u :: TrueWait(s, t, u))
                  && (o == Waiting ==> s' == s)
                  && (o != Waiting ==> o == Got && t !in s'.blocked &&
                                       GrantedTo(s', t, r) == (if call.InShared? then Shared else Exclusive)))
  {
    assert TxnOk(s, t);
    WaitsForSomebody(s, t);
  }
}
