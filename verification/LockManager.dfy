/** LockManager and TxnManager (src/concurrency): every call is cut where its thread lets go of the latch, so that
    each step below is atomic: LockPrepare, the locked part of a lock call up to its wait, each wake-up, each Unlock,
    a pass of the detector. Every step keeps the invariant and concerns one transaction, whatever the interleaving.
    The calls as a whole are the same steps without interference. */
module LockManagers {
  import opened Common
  import opened LockHistory
  import opened LockState
  import opened LockPhases
  import opened WaitsFor

  class LockManager {
    var table: map<RowId, Queue>
    var txns: map<TxnId, Txn>
    var blocked: map<TxnId, Call>
    var busy: map<TxnId, Phase>
    var nextTxnId: TxnId
    ghost var history: seq<Event>

    ghost function St(): State
      reads `table, `txns, `blocked, `busy, `history
    {
      State(table, txns, blocked, busy, history)
    }

    ghost predicate Valid()
      reads `table, `txns, `blocked, `busy, `history, `nextTxnId
    {
      Sound(St()) && forall t :: t in txns ==> t < nextTxnId
    }

    constructor ()
      ensures Valid() && St() == State(map[], map[], map[], map[], []) && nextTxnId == 0
    {
      table, txns, blocked, busy, history, nextTxnId := map[], map[], map[], map[], [], 0;
    }

    // -------------------------------------------------------------- steps of a lock call

    method Begin(iso: Isolation) returns (t: TxnId)
      requires Valid()
      modifies this
      ensures Valid() && t == old(nextTxnId) && nextTxnId == t + 1
      ensures t !in old(txns) && Idle(St(), t) && St() == Begun(old(St()), t, iso) && Untouched(old(St()), St(), t)
      ensures txns[t] == Txn(iso, Growing, {}, {})
    {
      BegunStep(St(), nextTxnId, iso);
      assert nextTxnId in busy ==> BusyTxn(St(), nextTxnId);
      assert nextTxnId !in blocked;
      t := nextTxnId;
      nextTxnId := nextTxnId + 1;
      txns := txns[t := Txn(iso, Growing, {}, {})];
    }

    method SetState(t: TxnId, state: TxnState)
      requires t in txns
      modifies this`txns
      ensures St() == WithState(old(St()), t, state)
    {
      txns := txns[t := txns[t].(state := state)];
    }

    /** The checks at the head of every lock call. A transaction in its shrinking phase is aborted. */
    method LockPrepare(t: TxnId) returns (o: Outcome)
      requires t in txns
      modifies this`txns
      ensures old(txns[t].state) == Aborted ==> o == Threw(Deadlock) && St() == old(St())
      ensures old(txns[t].state) == Shrinking ==>
                o == Threw(LockOnShrinking) && St() == WithState(old(St()), t, Aborted)
      ensures old(txns[t].state) in {Growing, Committed} ==> o == Got && St() == old(St())
    {
      if txns[t].state == Aborted {
        return Threw(Deadlock);
      }
      if txns[t].state == Shrinking {
        SetState(t, Aborted);
        return Threw(LockOnShrinking);
      }
      return Got;
    }

    /** A lock call before it takes the latch. */
    method Prepare(t: TxnId, call: Call) returns (o: Outcome)
      requires Valid() && Idle(St(), t) && txns[t].state != Committed
      modifies this`txns, this`busy
      ensures Valid() && Untouched(old(St()), St(), t)
      ensures (o, St()) == Prepared(old(St()), t, call)
    {
      PreparedStep(St(), t, call);
      if call.InShared? && txns[t].iso == ReadUncommitted {
        SetState(t, Aborted);
        return Threw(LockSharedOnReadUncommitted);
      }
      o := LockPrepare(t);
      if o == Got {
        busy := busy[t := Admitted(call)];
      }
    }

    /** A lock call from where it takes the latch to its return or its wait. */
    method Acquire(t: TxnId) returns (o: Outcome)
      requires Valid() && t in busy && busy[t].Admitted?
      modifies this
      ensures Valid() && nextTxnId == old(nextTxnId) && Untouched(old(St()), St(), t)
      ensures (o, St()) == Acquired(old(St()), t)
    {
      AcquiredStep(St(), t);
      assert BusyTxn(St(), t) && TxnOk(St(), t);
      o := LockUnderLatch(t);
    }

    method LockUnderLatch(t: TxnId) returns (o: Outcome)
      requires Valid() && t in busy && busy[t].Admitted? && t in txns && TxnOk(St(), t)
      modifies this`table, this`txns, this`blocked, this`busy, this`history
      ensures (o, St()) == Acquired(old(St()), t)
    {
      var call := busy[t].call;
      var r := call.row;
      busy := busy - {t};
      if r in txns[t].exclusive || (call.InShared? && r in txns[t].shared) {
        return Got;
      }
      if call.InExclusive? && r in txns[t].shared {
        return GoOnToUpgrade;
      }
      if !call.InUpgrade? {
        EmplaceLockRequest(t, call);
      } else {
        if r !in txns[t].shared {
          return Refused;
        }
        if table[r].upgrading {
          SetState(t, Aborted);
          return Threw(UpgradeConflict);
        }
        var q := table[r];
        table := table[r := q.(reqs := q.reqs[t := q.reqs[t].(mode := Exclusive)], upgrading := true)];
        blocked := blocked[t := InUpgrade(r)];
      }
      o := Test(t);
    }

    method EmplaceLockRequest(t: TxnId, call: Call)
      modifies this`table, this`blocked
      ensures St() == Enqueued(old(St()), t, call)
    {
      var q := if call.row in table then table[call.row] else EMPTY_QUEUE;
      var req := Request(if call.InShared? then Shared else Exclusive, NoLock);
      table := table[call.row := q.(reqs := q.reqs[t := req])];
      blocked := blocked[t := call];
    }

    /** The loop condition at the wait, and the grant behind it. */
    method Test(t: TxnId) returns (o: Outcome)
      requires t in blocked && t in txns && blocked[t].row in table && t in table[blocked[t].row].reqs
      requires !blocked[t].InUpgrade? ==>
                 table[blocked[t].row].reqs[t].mode == if blocked[t].InShared? then Shared else Exclusive
      modifies this`table, this`txns, this`blocked, this`history
      ensures (o, St()) == Tested(old(St()), t)
    {
      match blocked[t] {
        case InShared(_) => o := TryShared(t);
        case InExclusive(_) => o := TryExclusive(t);
        case InUpgrade(_) => o := TryUpgrade(t);
      }
    }

    method TryShared(t: TxnId) returns (o: Outcome)
      requires t in blocked && t in txns && blocked[t].InShared? && blocked[t].row in table
      requires t in table[blocked[t].row].reqs && table[blocked[t].row].reqs[t].mode == Shared
      modifies this`table, this`txns, this`blocked, this`history
      ensures (o, St()) == Tested(old(St()), t)
    {
      var r := blocked[t].row;
      if table[r].writing || table[r].upgrading {
        return Waiting;
      }
      var q := table[r];
      table := table[r := q.(reqs := q.reqs[t := q.reqs[t].(granted := Shared)], sharing := q.sharing + 1)];
      txns := txns[t := txns[t].(shared := txns[t].shared + {r})];
      blocked := blocked - {t};
      history := history + [Grant(t, r, Shared)];
      return Got;
    }

    method TryExclusive(t: TxnId) returns (o: Outcome)
      requires t in blocked && t in txns && blocked[t].InExclusive? && blocked[t].row in table
      requires t in table[blocked[t].row].reqs && table[blocked[t].row].reqs[t].mode == Exclusive
      modifies this`table, this`txns, this`blocked, this`history
      ensures (o, St()) == Tested(old(St()), t)
    {
      var r := blocked[t].row;
      if table[r].writing || table[r].sharing > 0 {
        return Waiting;
      }
      var q := table[r];
      table := table[r := q.(reqs := q.reqs[t := q.reqs[t].(granted := Exclusive)], writing := true)];
      txns := txns[t := txns[t].(exclusive := txns[t].exclusive + {r})];
      blocked := blocked - {t};
      history := history + [Grant(t, r, Exclusive)];
      return Got;
    }

    method TryUpgrade(t: TxnId) returns (o: Outcome)
      requires t in blocked && t in txns && blocked[t].InUpgrade? && blocked[t].row in table
      requires t in table[blocked[t].row].reqs
      modifies this`table, this`txns, this`blocked, this`history
      ensures (o, St()) == Tested(old(St()), t)
    {
      var r := blocked[t].row;
      if table[r].writing || table[r].sharing > 1 {
        return Waiting;
      }
      var q := table[r];
      table := table[r := Queue(q.reqs[t := q.reqs[t].(granted := Exclusive)], true, false, q.sharing - 1)];
      txns := txns[t := txns[t].(shared := txns[t].shared - {r}, exclusive := txns[t].exclusive + {r})];
      blocked := blocked - {t};
      history := history + [Grant(t, r, Exclusive)];
      return Got;
    }

    /** A wait ends. */
    method Wake(t: TxnId) returns (o: Outcome)
      requires Valid() && t in blocked && t in txns
      modifies this
      ensures Valid() && nextTxnId == old(nextTxnId) && Untouched(old(St()), St(), t)
      ensures (o, St()) == Woken(old(St()), t)
      ensures old(txns[t].state) == Aborted ==>
                && o == Threw(Deadlock) && t !in blocked
                && (if old(blocked[t]).InUpgrade?
                    then GrantedTo(St(), t, old(blocked[t]).row) == Shared && !Flagged(St(), old(blocked[t]).row)
                    else RequestOf(St(), t, old(blocked[t]).row) == None)
      ensures old(txns[t].state) != Aborted ==>
                && (o == Waiting <==> exists u :: TrueWait(old(St()), t, u))
                && (o == Waiting ==> St() == old(St()))
                && (o != Waiting ==>
                      && o == Got && t !in blocked
                      && GrantedTo(St(), t, old(blocked[t]).row) ==
                         (if old(blocked[t]).InShared? then Shared else Exclusive))
    {
      WokenStep(St(), t);
      WokenFacts(St(), t);
      assert TxnOk(St(), t);
      if txns[t].state == Aborted {
        CheckAbort(t);
        return Threw(Deadlock);
      }
      o := Test(t);
    }

    method CheckAbort(t: TxnId)
      requires t in blocked && BlockedOk(St(), t)
      modifies this`table, this`blocked
      ensures St() == if old(blocked[t]).InUpgrade? then UpgradeAbandoned(old(St()), t) else Withdrawn(old(St()), t)
    {
      var r := blocked[t].row;
      var q := table[r];
      if q.reqs[t].granted == NoLock {
        table := table[r := q.(reqs := q.reqs - {t})];
      } else {
        table := table[r := q.(upgrading := false)];
      }
      blocked := blocked - {t};
    }

    // -------------------------------------------------------------- steps of unlock, commit, abort

    method Unlock(t: TxnId, r: RowId) returns (ok: bool)
      requires Valid() && Idle(St(), t)
      modifies this
      ensures Valid() && nextTxnId == old(nextTxnId) && Untouched(old(St()), St(), t)
      ensures ok <==> old(GrantedTo(St(), t, r)) != NoLock
      ensures ok ==> r in old(table) && t in old(table[r].reqs) && St() == Released(old(St()), t, r)
      ensures ok ==> t in txns && RequestOf(St(), t, r) == None
      ensures ok ==> txns[t].state == if old(txns[t].state) == Growing then Shrinking else old(txns[t].state)
      ensures ok ==> txns[t].shared == old(txns[t].shared) - {r} && txns[t].exclusive == old(txns[t].exclusive) - {r}
      ensures forall x :: x != r ==> QueueAt(St(), x) == QueueAt(old(St()), x)
      ensures !ok ==> St() == old(St())
    {
      if r !in table || t !in table[r].reqs {
        BusyUntouched(St(), t, busy);
        return false;
      }
      assert RowOk(St(), r) && RequestOk(St(), r, t);
      ReleasedStep(St(), t, r);
      EraseLockRequest(t, r);
      return true;
    }

    method EraseLockRequest(t: TxnId, r: RowId)
      requires r in table && t in table[r].reqs && t in txns
      modifies this`table, this`txns, this`history
      ensures St() == Released(old(St()), t, r)
    {
      var q, req, txn := table[r], table[r].reqs[t], txns[t];
      if req.granted == Shared {
        q := q.(sharing := q.sharing - 1);
        txn := txn.(shared := txn.shared - {r});
      } else if req.granted == Exclusive {
        q := q.(writing := false);
        txn := txn.(exclusive := txn.exclusive - {r});
      }
      if req.mode == Exclusive && req.granted == Shared {
        q := q.(upgrading := false);
      }
      table := table[r := q.(reqs := q.reqs - {t})];
      if txn.state == Growing {
        txn := txn.(state := Shrinking);
      }
      txns := txns[t := txn];
      history := history + [Release(t, r)];
    }

    /** Commit or Abort before its first Unlock. */
    method BeginEnd(t: TxnId, state: TxnState)
      requires Valid() && Idle(St(), t) && state in {Committed, Aborted}
      modifies this`txns, this`busy
      ensures Valid() && Untouched(old(St()), St(), t) && St() == Ending(old(St()), t, state)
    {
      EndingStep(St(), t, state);
      busy := busy[t := Releasing(txns[t].shared + txns[t].exclusive)];
      SetState(t, state);
    }

    /** The next Unlock of ReleaseLocks, on whichever row the container yields. */
    method UnlockNext(t: TxnId) returns (r: RowId)
      requires Valid() && t in busy && busy[t].Releasing? && busy[t].rows != {}
      modifies this
      ensures Valid() && nextTxnId == old(nextTxnId) && Untouched(old(St()), St(), t)
      ensures r in old(busy[t].rows) && t in old(txns) && r in old(table) && t in old(table[r].reqs)
      ensures St() == ReleasedNext(old(St()), t, r)
    {
      Inhabited(busy[t].rows);
      r :| r in busy[t].rows;
      ReleasingHolds(St(), t, r);
      ReleasedNextStep(St(), t, r);
      EraseLockRequest(t, r);
      busy := busy[t := Releasing(busy[t].rows - {r})];
    }

    /** Commit or Abort returns: nothing of the transaction is left in any queue. */
    method FinishEnd(t: TxnId)
      requires Valid() && t in busy && busy[t] == Releasing({})
      modifies this`busy
      ensures Valid() && Untouched(old(St()), St(), t) && HoldsNothing(St(), t)
      ensures St() == old(St()).(busy := old(busy)[t := Ended])
    {
      FinishedStep(St(), t);
      busy := busy[t := Ended];
    }

    // -------------------------------------------------------------- whole calls, without interference

    method LockShared(t: TxnId, r: RowId) returns (o: Outcome)
      requires Valid() && Idle(St(), t) && txns[t].state != Committed
      modifies this
      ensures Valid() && nextTxnId == old(nextTxnId) && Untouched(old(St()), St(), t)
      ensures o == Got ==>
                && Idle(St(), t)
                && GrantedTo(St(), t, r) == if old(GrantedTo(St(), t, r)) == Exclusive then Exclusive else Shared
      ensures o == Waiting ==> t in blocked && blocked[t] == InShared(r)
      ensures o.Threw? ==> St() == WithState(old(St()), t, Aborted)
      ensures o in {Got, Waiting} || o.Threw?
      ensures o.Threw? <==> old(txns[t].iso) == ReadUncommitted || old(txns[t].state) in {Aborted, Shrinking}
      ensures o.Threw? ==> o == Threw(if old(txns[t].iso) == ReadUncommitted then LockSharedOnReadUncommitted
                                      else if old(txns[t].state) == Aborted then Deadlock else LockOnShrinking)
      ensures !o.Threw? ==>
                var q := QueueAt(old(St()), r);
                (o == Waiting <==> old(GrantedTo(St(), t, r)) == NoLock && (q.writing || q.upgrading))
    {
      ghost var s := St();
      o := Prepare(t, InShared(r));
      if o == Got {
        ghost var s1 := St();
        AcquiredFacts(s, t, InShared(r));
        o := Acquire(t);
        UntouchedTwice(s, s1, St(), t);
      }
    }

    method LockExclusive(t: TxnId, r: RowId) returns (o: Outcome)
      requires Valid() && Idle(St(), t) && txns[t].state != Committed
      modifies this
      ensures Valid() && nextTxnId == old(nextTxnId) && Untouched(old(St()), St(), t)
      ensures o == Got ==> Idle(St(), t) && GrantedTo(St(), t, r) == Exclusive
      ensures o == Waiting ==> t in blocked && blocked[t] in {InExclusive(r), InUpgrade(r)}
      ensures o.Threw? ==> St() == WithState(old(St()), t, Aborted)
      ensures o in {Got, Waiting} || o.Threw?
      ensures o.Threw? <==> || old(txns[t].state) in {Aborted, Shrinking}
                            || (old(GrantedTo(St(), t, r)) == Shared && old(QueueAt(St(), r)).upgrading)
      ensures o.Threw? ==> o == Threw(if old(txns[t].state) == Aborted then Deadlock
                                      else if old(txns[t].state) == Shrinking then LockOnShrinking
                                      else UpgradeConflict)
      ensures !o.Threw? && old(GrantedTo(St(), t, r)) == NoLock ==>
                var q := QueueAt(old(St()), r); (o == Waiting <==> q.writing || q.sharing > 0)
    {
      ghost var s := St();
      o := Prepare(t, InExclusive(r));
      if o == Got {
        ghost var s1 := St();
        AcquiredFacts(s, t, InExclusive(r));
        o := Acquire(t);
        UntouchedTwice(s, s1, St(), t);
        if o == GoOnToUpgrade {
          o := LockUpgrade(t, r);
        }
      }
    }

    method LockUpgrade(t: TxnId, r: RowId) returns (o: Outcome)
      requires Valid() && Idle(St(), t) && txns[t].state != Committed
      modifies this
      ensures Valid() && nextTxnId == old(nextTxnId) && Untouched(old(St()), St(), t)
      ensures o == Got ==> Idle(St(), t) && GrantedTo(St(), t, r) == Exclusive
      ensures o == Waiting ==> t in blocked && blocked[t] == InUpgrade(r)
      ensures o.Threw? ==> St() == WithState(old(St()), t, Aborted)
      ensures o in {Got, Waiting, Refused} || o.Threw?
      ensures o == Refused ==> r !in old(txns[t].shared) && r !in old(txns[t].exclusive) && St() == old(St())
      ensures o.Threw? <==> || old(txns[t].state) in {Aborted, Shrinking}
                            || (old(GrantedTo(St(), t, r)) == Shared && old(QueueAt(St(), r)).upgrading)
      ensures o.Threw? ==> o == Threw(if old(txns[t].state) == Aborted then Deadlock
                                      else if old(txns[t].state) == Shrinking then LockOnShrinking
                                      else UpgradeConflict)
      ensures !o.Threw? && old(GrantedTo(St(), t, r)) == Shared ==>
                var q := QueueAt(old(St()), r); (o == Waiting <==> q.writing || q.sharing > 1)
    {
      ghost var s := St();
      assert TxnOk(s, t);
      o := Prepare(t, InUpgrade(r));
      if o == Got {
        ghost var s1 := St();
        AcquiredFacts(s, t, InUpgrade(r));
        o := Acquire(t);
        UntouchedTwice(s, s1, St(), t);
      }
    }

    method Commit(t: TxnId)
      requires Valid() && Idle(St(), t)
      modifies this
      ensures Valid() && nextTxnId == old(nextTxnId) && Untouched(old(St()), St(), t)
      ensures t in busy && busy[t] == Ended && txns[t].state == Committed && HoldsNothing(St(), t)
    {
      ghost var s := St();
      BeginEnd(t, Committed);
      ReleaseLocks(t, s);
    }

    method Abort(t: TxnId)
      requires Valid() && Idle(St(), t)
      modifies this
      ensures Valid() && nextTxnId == old(nextTxnId) && Untouched(old(St()), St(), t)
      ensures t in busy && busy[t] == Ended && txns[t].state == Aborted && HoldsNothing(St(), t)
    {
      ghost var s := St();
      BeginEnd(t, Aborted);
      ReleaseLocks(t, s);
    }

    /** Unlocks every row in the lock sets, in no particular order. */
    method ReleaseLocks(t: TxnId, ghost s: State)
      requires Valid() && t in busy && busy[t].Releasing? && t in txns && txns[t].state != Growing
      requires Untouched(s, St(), t)
      modifies this
      ensures Valid() && nextTxnId == old(nextTxnId) && Untouched(s, St(), t)
      ensures t in busy && busy[t] == Ended && t in txns && txns[t].state == old(txns[t].state) && HoldsNothing(St(), t)
    {
      while busy[t].rows != {}
        invariant Valid() && nextTxnId == old(nextTxnId) && Untouched(s, St(), t)
        invariant t in busy && busy[t].Releasing? && t in txns && txns[t].state == old(txns[t].state)
        decreases busy[t].rows
      {
        ghost var s1 := St();
        var r := UnlockNext(t);
        UntouchedTwice(s, s1, St(), t);
      }
      ghost var s1 := St();
      FinishEnd(t);
      UntouchedTwice(s, s1, St(), t);
    }

    // -------------------------------------------------------------- deadlock detection

    /** The transactions with an ungranted request on a row that the victim holds. */
    function Waiters(victim: TxnId): set<TxnId>
      reads `table, `txns
    {
      if victim !in txns then {}
      else
        set r, t | r in txns[victim].shared + txns[victim].exclusive && r in table && t in table[r].reqs &&
                   table[r].reqs[t].granted == NoLock :: t
    }

    /** One pass of RunCycleDetection: build the waits-for graph, then abort the youngest transaction of a cycle and
        delete it from the graph until no cycle is left. Every victim is the youngest transaction on a real cycle,
        every cycle has a victim on it, and nobody else is affected. */
    method DetectDeadlocks() returns (ghost graph: Graph, ghost victims: seq<TxnId>)
      requires Valid()
      modifies this`txns
      ensures Valid() && txns.Keys == old(txns.Keys)
      ensures forall a, b :: Edge(graph, a, b) <==> exists r :: r in table && WaitsOn(table[r], a, b)
      ensures forall v :: v in victims ==> exists c :: NewestOn(graph, c, v)
      ensures forall c :: IsCycle(graph, c) ==> exists v :: v in victims && v in c
      ensures forall t :: t in txns ==>
                txns[t] == if t in victims then old(txns[t]).(state := Aborted) else old(txns[t])
    {
      var waitsFor := BuildGraph(table);
      graph := waitsFor;
      ghost var remaining;
      remaining, victims := PickVictims(waitsFor);
      forall c | IsCycle(graph, c) ensures exists v :: v in victims && v in c {
        EveryCycleBroken(graph, remaining, victims, c);
      }
    }

    /** The victim loop; each turn removes a key from the graph. */
    method PickVictims(graph: Graph) returns (waitsFor: Graph, ghost victims: seq<TxnId>)
      requires Valid()
      modifies this`txns
      ensures Valid() && txns.Keys == old(txns.Keys)
      ensures Picking(graph, waitsFor, victims) && Acyclic(waitsFor)
      ensures forall t :: t in txns ==>
                txns[t] == if t in victims then old(txns[t]).(state := Aborted) else old(txns[t])
    {
      waitsFor, victims := graph, [];
      var found, victim;
      ghost var cycle;
      found, victim, cycle := HasCycle(waitsFor);
      while found
        invariant Valid() && txns.Keys == old(txns.Keys)
        invariant if found then NewestOn(waitsFor, cycle, victim) else Acyclic(waitsFor)
        invariant Picking(graph, waitsFor, victims)
        invariant forall t :: t in txns ==>
                    txns[t] == if t in victims then old(txns[t]).(state := Aborted) else old(txns[t])
        decreases waitsFor.Keys, found
      {
        ghost var before := waitsFor;
        AbortVictim(victim);
        waitsFor := DeleteNode(waitsFor, victim, Waiters(victim));
        PickingStep(graph, before, waitsFor, victims, victim, cycle);
        victims := victims + [victim];
        found, victim, cycle := HasCycle(waitsFor);
      }
    }

    method AbortVictim(victim: TxnId)
      requires Valid()
      modifies this`txns
      ensures Valid() && txns.Keys == old(txns.Keys)
      ensures forall t :: t in txns ==> txns[t] == if t == victim then old(txns[t]).(state := Aborted) else old(txns[t])
    {
      if victim in txns {
        MarkedStep(St(), victim);
        SetState(victim, Aborted);
      }
    }

    /** A row is read or written by a transaction that holds the lock for it. */
    method AccessRow(t: TxnId, r: RowId, write: bool)
      requires Valid() && Idle(St(), t)
      requires r in txns[t].exclusive || (!write && r in txns[t].shared)
      modifies this`history
      ensures Valid() && Untouched(old(St()), St(), t) && St() == Accessed(old(St()), t, r, write)
      ensures history == old(history) + [Access(t, r, write)]
    {
      assert TxnOk(St(), t);
      AccessedStep(St(), t, r, write);
      history := history + [Access(t, r, write)];
    }
  }

  /** AddEdge for every waiting and every holding request of every queue. */
  method BuildGraph(table: map<RowId, Queue>) returns (g: Graph)
    ensures forall a, b :: Edge(g, a, b) <==> exists r :: r in table && WaitsOn(table[r], a, b)
  {
    g := map[];
    var rows := table.Keys;
    while rows != {}
      invariant rows <= table.Keys
      invariant forall a, b :: Edge(g, a, b) <==> exists r :: r in table && r !in rows && WaitsOn(table[r], a, b)
      decreases rows
    {
      Inhabited(rows);
      var r :| r in rows;
      ghost var g0 := g;
      g := AddQueue(g, table[r]);
      ghost var rows0 := rows;
      rows := rows - {r};
      forall a, b ensures Edge(g, a, b) <==> exists x :: x in table && x !in rows && WaitsOn(table[x], a, b) {
        if WaitsOn(table[r], a, b) { assert r in table && r !in rows; }
        if x :| x in table && x !in rows && WaitsOn(table[x], a, b) { assert x == r || x !in rows0; }
        if x :| x in table && x !in rows0 && WaitsOn(table[x], a, b) { assert x !in rows; }
      }
    }
  }

  method AddQueue(g0: Graph, q: Queue) returns (g: Graph)
    ensures forall a, b :: Edge(g, a, b) <==> Edge(g0, a, b) || WaitsOn(q, a, b)
  {
    g := g0;
    var waiting := q.reqs.Keys;
    while waiting != {}
      invariant waiting <= q.reqs.Keys
      invariant forall a, b :: Edge(g, a, b) <==> Edge(g0, a, b) || (a !in waiting && WaitsOn(q, a, b))
      decreases waiting
    {
      Inhabited(waiting);
      var a :| a in waiting;
      waiting := waiting - {a};
      ghost var g1 := g;
      var holders := set b | b in q.reqs && WaitsOn(q, a, b);
      if holders != {} {
        g := g[a := (if a in g then g[a] else {}) + holders];
      }
      forall x, y ensures Edge(g, x, y) <==> Edge(g1, x, y) || (x == a && WaitsOn(q, x, y)) {
        assert x == a && WaitsOn(q, x, y) ==> y in holders;
      }
    }
  }
}
