/** The lock table, the transactions and where each of them is blocked; the invariant that ties them together and
    to the history; and the primitive changes that the lock manager composes its operations from. */
module LockState {
  import opened Common
  import opened LockHistory

  datatype Isolation = ReadUncommitted | ReadCommitted | RepeatedRead
  datatype TxnState = Growing | Shrinking | Committed | Aborted

  datatype Txn = Txn(iso: Isolation, state: TxnState, shared: set<RowId>, exclusive: set<RowId>)

  /** LockRequest: the mode asked for and the mode granted so far. */
  datatype Request = Request(mode: Mode, granted: Mode)

  /** LockRequestQueue: at most one request per transaction, two flags and a counter. */
  datatype Queue = Queue(reqs: map<TxnId, Request>, writing: bool, upgrading: bool, sharing: int)

  const EMPTY_QUEUE := Queue(map[], false, false, 0)

  /** The cv_.wait in which the thread of a transaction is blocked. */
  datatype Call = InShared(row: RowId) | InExclusive(row: RowId) | InUpgrade(row: RowId)

  /** Where a thread stands between two holds of the latch, other than waiting: it has passed LockPrepare and is about
      to lock, it is unlocking what is left of its lock sets, or its Commit or Abort has returned. */
  datatype Phase = Admitted(call: Call) | Releasing(rows: set<RowId>) | Ended

  datatype State = State(table: map<RowId, Queue>, txns: map<TxnId, Txn>, blocked: map<TxnId, Call>,
                         busy: map<TxnId, Phase>, history: seq<Event>)

  function GrantedTo(s: State, t: TxnId, r: RowId): Mode {
    if r in s.table && t in s.table[r].reqs then s.table[r].reqs[t].granted else NoLock
  }

  function Sharers(q: Queue): set<TxnId> { set t | t in q.reqs && q.reqs[t].granted == Shared }

  function Writers(q: Queue): set<TxnId> { set t | t in q.reqs && q.reqs[t].granted == Exclusive }

  /** sharing_cnt_ counts the shared grants, is_writing_ says that there is an exclusive one, there is at most one,
      and the two kinds never coexist. */
  ghost predicate QueueOk(q: Queue) {
    && q.sharing == |Sharers(q)|
    && (q.writing <==> Writers(q) != {})
    && (forall t, u :: t in Writers(q) && u in Writers(q) ==> t == u)
    && (q.writing ==> Sharers(q) == {})
  }

  /** A request agrees with its transaction's lock sets, and an ungranted one has its owner blocked on it. */
  ghost predicate RequestOk(s: State, r: RowId, t: TxnId)
    requires r in s.table && t in s.table[r].reqs
  {
    var req := s.table[r].reqs[t];
    && t in s.txns
    && (req.granted == Shared <==> r in s.txns[t].shared)
    && (req.granted == Exclusive <==> r in s.txns[t].exclusive)
    && (req.granted == NoLock ==> t in s.blocked && s.blocked[t].row == r)
  }

  ghost predicate RowOk(s: State, r: RowId)
    requires r in s.table
  {
    && QueueOk(s.table[r])
    && forall t {:trigger RequestOk(s, r, t)} :: t in s.table[r].reqs ==> RequestOk(s, r, t)
  }

  /** What a blocked call is waiting for. */
  ghost predicate BlockedOk(s: State, t: TxnId)
    requires t in s.blocked
  {
    var r := s.blocked[t].row;
    && r in s.table && t in s.table[r].reqs
    && s.table[r].reqs[t] == match s.blocked[t]
                             case InShared(_) => Request(Shared, NoLock)
                             case InExclusive(_) => Request(Exclusive, NoLock)
                             case InUpgrade(_) => Request(Exclusive, Shared)
  }

  ghost predicate TxnOk(s: State, t: TxnId)
    requires t in s.txns
  {
    var txn := s.txns[t];
    && (forall r :: r in txn.shared ==> GrantedTo(s, t, r) == Shared)
    && (forall r :: r in txn.exclusive ==> GrantedTo(s, t, r) == Exclusive)
    && (t in s.blocked ==> (txn.state == Growing || txn.state == Aborted) && BlockedOk(s, t) && !Shrunk(s.history, t))
    && (txn.state == Growing ==> !Shrunk(s.history, t))
  }

  ghost predicate HistoryOk(s: State) {
    && LegalHistory(s.history)
    && (forall i :: 0 <= i < |s.history| ==> s.history[i].txn in s.txns)
    && forall t, r {:trigger Held(s.history, t, r)} :: Held(s.history, t, r) == GrantedTo(s, t, r)
  }

  ghost predicate Inv(s: State) {
    && (forall r {:trigger RowOk(s, r)} :: r in s.table ==> RowOk(s, r))
    && (forall t {:trigger TxnOk(s, t)} :: t in s.txns ==> TxnOk(s, t))
    && s.blocked.Keys <= s.txns.Keys
    && HistoryOk(s)
  }

  // ---------------------------------------------------------------- primitives

  /** lock_table_[rid], which creates an empty queue on first use. */
  function QueueAt(s: State, r: RowId): Queue { if r in s.table then s.table[r] else EMPTY_QUEUE }

  function Begun(s: State, t: TxnId, iso: Isolation): State {
    s.(txns := s.txns[t := Txn(iso, Growing, {}, {})])
  }

  function WithState(s: State, t: TxnId, state: TxnState): State
    requires t in s.txns
  {
    s.(txns := s.txns[t := s.txns[t].(state := state)])
  }

  /** EmplaceLockRequest, with the caller about to test whether it has to wait. */
  function Enqueued(s: State, t: TxnId, call: Call): State {
    var q := QueueAt(s, call.row);
    var req := Request(if call.InShared? then Shared else Exclusive, NoLock);
    s.(table := s.table[call.row := q.(reqs := q.reqs[t := req])], blocked := s.blocked[t := call])
  }

  /** The request of a blocked LockShared or LockExclusive is granted. */
  function Granted(s: State, t: TxnId): State
    requires t in s.blocked && t in s.txns && s.blocked[t].row in s.table && t in s.table[s.blocked[t].row].reqs
  {
    var r := s.blocked[t].row;
    var q, req, txn := s.table[r], s.table[r].reqs[t], s.txns[t];
    var reqs := q.reqs[t := req.(granted := req.mode)];
    if s.blocked[t].InShared? then
      State(s.table[r := q.(reqs := reqs, sharing := q.sharing + 1)],
            s.txns[t := txn.(shared := txn.shared + {r})], s.blocked - {t}, s.busy, s.history + [Grant(t, r, Shared)])
    else
      State(s.table[r := q.(reqs := reqs, writing := true)],
            s.txns[t := txn.(exclusive := txn.exclusive + {r})], s.blocked - {t}, s.busy,
            s.history + [Grant(t, r, Exclusive)])
  }

  /** An aborted waiter takes its ungranted request back. */
  function Withdrawn(s: State, t: TxnId): State
    requires t in s.blocked && s.blocked[t].row in s.table
  {
    var r := s.blocked[t].row;
    var q := s.table[r];
    s.(table := s.table[r := q.(reqs := q.reqs - {t})], blocked := s.blocked - {t})
  }

  /** LockUpgrade up to its wait: the shared grant now asks for an exclusive one. */
  function Upgrading(s: State, t: TxnId, r: RowId): State
    requires r in s.table && t in s.table[r].reqs
  {
    var q := s.table[r];
    s.(table := s.table[r := q.(reqs := q.reqs[t := q.reqs[t].(mode := Exclusive)], upgrading := true)],
       blocked := s.blocked[t := InUpgrade(r)])
  }

  function Upgraded(s: State, t: TxnId): State
    requires t in s.blocked && t in s.txns && s.blocked[t].row in s.table && t in s.table[s.blocked[t].row].reqs
  {
    var r := s.blocked[t].row;
    var q, txn := s.table[r], s.txns[t];
    State(s.table[r := Queue(q.reqs[t := q.reqs[t].(granted := Exclusive)], true, false, q.sharing - 1)],
          s.txns[t := txn.(shared := txn.shared - {r}, exclusive := txn.exclusive + {r})],
          s.blocked - {t}, s.busy, s.history + [Grant(t, r, Exclusive)])
  }

  /** An aborted upgrader stops waiting and keeps its shared lock; its request still asks for an exclusive one. */
  function UpgradeAbandoned(s: State, t: TxnId): State
    requires t in s.blocked && s.blocked[t].row in s.table
  {
    var r := s.blocked[t].row;
    s.(table := s.table[r := s.table[r].(upgrading := false)], blocked := s.blocked - {t})
  }

  /** Unlock of a granted request. */
  function Released(s: State, t: TxnId, r: RowId): State
    requires r in s.table && t in s.table[r].reqs && t in s.txns
  {
    var q, req, txn := s.table[r], s.table[r].reqs[t], s.txns[t];
    var q' := Queue(q.reqs - {t},
                    if req.granted == Exclusive then false else q.writing,
                    if req.mode == Exclusive && req.granted == Shared then false else q.upgrading,
                    if req.granted == Shared then q.sharing - 1 else q.sharing);
    var txn' := Txn(txn.iso, if txn.state == Growing then Shrinking else txn.state,
                    if req.granted == Shared then txn.shared - {r} else txn.shared,
                    if req.granted == Exclusive then txn.exclusive - {r} else txn.exclusive);
    State(s.table[r := q'], s.txns[t := txn'], s.blocked, s.busy, s.history + [Release(t, r)])
  }

  function Accessed(s: State, t: TxnId, r: RowId, write: bool): State {
    s.(history := s.history + [Access(t, r, write)])
  }

  // ---------------------------------------------------------------- each keeps the invariant

  lemma HeldStep(h: seq<Event>, e: Event, t: TxnId, r: RowId)
    ensures Held(h + [e], t, r) ==
            if e.Access? || e.txn != t || e.row != r then Held(h, t, r) else if e.Grant? then e.mode else NoLock
    ensures Shrunk(h + [e], t) <==> (e.Release? && e.txn == t) || Shrunk(h, t)
  {
    assert (h + [e])[..|h|] == h;
  }

  lemma {:induction false} NeverShrunk(h: seq<Event>, t: TxnId)
    requires forall i :: 0 <= i < |h| ==> h[i].txn != t
    ensures !Shrunk(h, t)
  {
    if h != [] { NeverShrunk(h[..|h| - 1], t); }
  }

  lemma BegunInv(s: State, t: TxnId, iso: Isolation)
    requires Inv(s) && t !in s.txns
    ensures Inv(Begun(s, t, iso))
  {
    var s' := Begun(s, t, iso);
    NeverShrunk(s.history, t);
    forall r | r in s'.table ensures RowOk(s', r) {
      assert RowOk(s, r);
      forall u | u in s'.table[r].reqs ensures RequestOk(s', r, u) { assert RequestOk(s, r, u); }
    }
    forall u | u in s'.txns ensures TxnOk(s', u) {
      if u != t { assert TxnOk(s, u); }
    }
  }

  lemma WithStateInv(s: State, t: TxnId, state: TxnState)
    requires Inv(s) && t in s.txns && state != Growing && (t in s.blocked ==> state == Aborted)
    ensures Inv(WithState(s, t, state))
  {
    var s' := WithState(s, t, state);
    forall r | r in s'.table ensures RowOk(s', r) {
      assert RowOk(s, r);
      forall u | u in s'.table[r].reqs ensures RequestOk(s', r, u) { assert RequestOk(s, r, u); }
    }
    forall u | u in s'.txns ensures TxnOk(s', u) { assert TxnOk(s, u); }
  }

  /** A transaction that is not blocked and does not hold a row has no request in its queue. */
  lemma NoRequest(s: State, t: TxnId, r: RowId)
    requires Inv(s) && t in s.txns && t !in s.blocked && r !in s.txns[t].shared && r !in s.txns[t].exclusive
    ensures t !in QueueAt(s, r).reqs
  {
    if r in s.table {
      assert RowOk(s, r);
      assert t in s.table[r].reqs ==> RequestOk(s, r, t);
    }
  }

  /** Requests on other rows, and by other transactions, are not affected by a change at one row. */
  lemma EnqueuedInv(s: State, t: TxnId, call: Call)
    requires Inv(s) && t in s.txns && t !in s.blocked && s.txns[t].state in {Growing, Aborted} && !Shrunk(s.history, t)
    requires !call.InUpgrade?
    requires call.row !in s.txns[t].shared && call.row !in s.txns[t].exclusive
    ensures Inv(Enqueued(s, t, call))
  {
    var s', r := Enqueued(s, t, call), call.row;
    NoRequest(s, t, r);
    var q, q' := QueueAt(s, r), s'.table[r];
    if r in s.table { assert RowOk(s, r); }
    assert Sharers(q') == Sharers(q) && Writers(q') == Writers(q);
    forall x | x in s'.table ensures RowOk(s', x) {
      if x in s.table { assert RowOk(s, x); }
      forall u | u in s'.table[x].reqs ensures RequestOk(s', x, u) {
        if x != r || u != t { assert RequestOk(s, x, u); }
      }
    }
    forall u | u in s'.txns ensures TxnOk(s', u) { assert TxnOk(s, u); }
  }

  lemma WithdrawnInv(s: State, t: TxnId)
    requires Inv(s) && t in s.blocked && !s.blocked[t].InUpgrade?
    ensures s.blocked[t].row in s.table && Inv(Withdrawn(s, t))
  {
    assert TxnOk(s, t);
    var s', r := Withdrawn(s, t), s.blocked[t].row;
    var q, q' := s.table[r], s'.table[r];
    assert Sharers(q') == Sharers(q) && Writers(q') == Writers(q);
    forall x | x in s'.table ensures RowOk(s', x) {
      assert RowOk(s, x);
      forall u | u in s'.table[x].reqs ensures RequestOk(s', x, u) { assert RequestOk(s, x, u); }
    }
    forall u | u in s'.txns ensures TxnOk(s', u) { assert TxnOk(s, u); }
  }

  lemma AccessedInv(s: State, t: TxnId, r: RowId, write: bool)
    requires Inv(s) && t in s.txns
    requires GrantedTo(s, t, r) == Exclusive || (!write && GrantedTo(s, t, r) == Shared)
    ensures Inv(Accessed(s, t, r, write))
  {
    var s' := Accessed(s, t, r, write);
    LegalExtends(s.history, Access(t, r, write));
    forall u, x ensures Held(s'.history, u, x) == GrantedTo(s', u, x) {
      HeldStep(s.history, Access(t, r, write), u, x);
    }
    forall x | x in s'.table ensures RowOk(s', x) {
      assert RowOk(s, x);
      forall u | u in s'.table[x].reqs ensures RequestOk(s', x, u) { assert RequestOk(s, x, u); }
    }
    forall u | u in s'.txns ensures TxnOk(s', u) {
      assert TxnOk(s, u);
      HeldStep(s.history, Access(t, r, write), u, r);
    }
  }

  // ---------------------------------------------------------------- grants

  lemma GrantedLegal(s: State, t: TxnId, m: Mode, r: RowId)
    requires Inv(s) && t in s.txns && !Shrunk(s.history, t) && r in s.table
    requires Strength(GrantedTo(s, t, r)) < Strength(m) && m != NoLock
    requires Writers(s.table[r]) == {} && (m == Exclusive ==> Sharers(s.table[r]) <= {t})
    ensures LegalHistory(s.history + [Grant(t, r, m)])
  {
    assert TxnOk(s, t);
    forall u | u != t ensures Compatible(m, Held(s.history, u, r)) {
      assert u !in Writers(s.table[r]);
      assert m == Exclusive ==> u !in Sharers(s.table[r]);
    }
    LegalExtends(s.history, Grant(t, r, m));
  }

  lemma GrantTxns(s: State, s': State, t: TxnId, r: RowId, m: Mode, req: Request)
    requires Inv(s) && t in s.blocked && t in s.txns && s.blocked[t].row == r && r in s.table && t in s.table[r].reqs
    requires s'.history == s.history + [Grant(t, r, m)] && s'.blocked == s.blocked - {t}
    requires s'.table.Keys == s.table.Keys && (forall x :: x in s.table && x != r ==> s'.table[x] == s.table[x])
    requires s'.table[r].reqs == s.table[r].reqs[t := req] && req.granted == m
    requires s'.txns.Keys == s.txns.Keys && (forall u :: u in s.txns && u != t ==> s'.txns[u] == s.txns[u])
    requires s'.txns[t].state == s.txns[t].state && m != NoLock
    requires s'.txns[t].shared == if m == Shared then s.txns[t].shared + {r} else s.txns[t].shared - {r}
    requires s'.txns[t].exclusive == if m == Exclusive then s.txns[t].exclusive + {r} else s.txns[t].exclusive - {r}
    ensures forall u :: u in s'.txns ==> TxnOk(s', u)
  {
    forall u | u in s'.txns ensures TxnOk(s', u) {
      assert TxnOk(s, u);
      HeldStep(s.history, Grant(t, r, m), u, r);
    }
  }

  /** Everything a grant at (t, r) does not concern. */
  lemma GrantRest(s: State, s': State, t: TxnId, r: RowId, m: Mode, req: Request)
    requires Inv(s) && t in s.blocked && t in s.txns && s.blocked[t].row == r && r in s.table && t in s.table[r].reqs
    requires LegalHistory(s'.history) && s'.history == s.history + [Grant(t, r, m)] && s'.blocked == s.blocked - {t}
    requires s'.table.Keys == s.table.Keys && (forall x :: x in s.table && x != r ==> s'.table[x] == s.table[x])
    requires s'.table[r].reqs == s.table[r].reqs[t := req] && req.granted == m
    requires s'.txns.Keys == s.txns.Keys && (forall u :: u in s.txns && u != t ==> s'.txns[u] == s.txns[u])
    requires s'.txns[t].state == s.txns[t].state && m != NoLock
    requires s'.txns[t].shared == if m == Shared then s.txns[t].shared + {r} else s.txns[t].shared - {r}
    requires s'.txns[t].exclusive == if m == Exclusive then s.txns[t].exclusive + {r} else s.txns[t].exclusive - {r}
    requires QueueOk(s'.table[r])
    ensures Inv(s')
  {
    var e := Grant(t, r, m);
    forall u, x ensures Held(s'.history, u, x) == GrantedTo(s', u, x) {
      HeldStep(s.history, e, u, x);
      assert Held(s.history, u, x) == GrantedTo(s, u, x);
    }
    forall x | x in s'.table ensures RowOk(s', x) {
      assert RowOk(s, x);
      forall u | u in s'.table[x].reqs ensures RequestOk(s', x, u) { assert RequestOk(s, x, u); }
    }
    GrantTxns(s, s', t, r, m, req);
  }

  /** LockShared past its wait: nobody is writing. */
  lemma GrantedSharedInv(s: State, t: TxnId)
    requires Inv(s) && t in s.blocked && s.blocked[t].InShared?
    requires !QueueAt(s, s.blocked[t].row).writing
    ensures BlockedOk(s, t) && Inv(Granted(s, t))
  {
    assert TxnOk(s, t);
    var r, s' := s.blocked[t].row, Granted(s, t);
    assert RowOk(s, r) && RequestOk(s, r, t);
    var q, q' := s.table[r], s'.table[r];
    assert Sharers(q') == Sharers(q) + {t} && t !in Sharers(q) && Writers(q') == Writers(q);
    GrantedLegal(s, t, Shared, r);
    GrantRest(s, s', t, r, Shared, Request(Shared, Shared));
  }

  /** LockExclusive past its wait: nobody is writing and nobody is sharing. */
  lemma GrantedExclusiveInv(s: State, t: TxnId)
    requires Inv(s) && t in s.blocked && s.blocked[t].InExclusive?
    requires !QueueAt(s, s.blocked[t].row).writing && QueueAt(s, s.blocked[t].row).sharing <= 0
    ensures BlockedOk(s, t) && Inv(Granted(s, t))
  {
    assert TxnOk(s, t);
    var r, s' := s.blocked[t].row, Granted(s, t);
    assert RowOk(s, r) && RequestOk(s, r, t);
    var q, q' := s.table[r], s'.table[r];
    assert Sharers(q) == {} && Writers(q) == {};
    assert Sharers(q') == {} && Writers(q') == {t};
    GrantedLegal(s, t, Exclusive, r);
    GrantRest(s, s', t, r, Exclusive, Request(Exclusive, Exclusive));
  }

  lemma UpgradingInv(s: State, t: TxnId, r: RowId)
    requires Inv(s) && t in s.txns && t !in s.blocked && s.txns[t].state in {Growing, Aborted} && !Shrunk(s.history, t)
    requires r in s.txns[t].shared
    ensures r in s.table && t in s.table[r].reqs && Inv(Upgrading(s, t, r))
  {
    assert TxnOk(s, t);
    var s' := Upgrading(s, t, r);
    assert RowOk(s, r) && RequestOk(s, r, t);
    var q, q' := s.table[r], s'.table[r];
    assert Sharers(q') == Sharers(q) && Writers(q') == Writers(q);
    forall x | x in s'.table ensures RowOk(s', x) {
      assert RowOk(s, x);
      forall u | u in s'.table[x].reqs ensures RequestOk(s', x, u) { assert RequestOk(s, x, u); }
    }
    forall u | u in s'.txns ensures TxnOk(s', u) { assert TxnOk(s, u); }
    forall u, x ensures Held(s'.history, u, x) == GrantedTo(s', u, x) {
      assert Held(s.history, u, x) == GrantedTo(s, u, x);
    }
  }

  lemma OneSharer(q: Queue, t: TxnId)
    requires QueueOk(q) && t in Sharers(q) && q.sharing <= 1
    ensures Sharers(q) == {t} && Writers(q) == {}
  {
    var rest := Sharers(q) - {t};
    assert Sharers(q) == rest + {t};
  }

  /** LockUpgrade past its wait: the upgrader is the only sharer left. */
  lemma UpgradedInv(s: State, t: TxnId)
    requires Inv(s) && t in s.blocked && s.blocked[t].InUpgrade?
    requires QueueAt(s, s.blocked[t].row).sharing <= 1
    ensures BlockedOk(s, t) && Inv(Upgraded(s, t))
  {
    assert TxnOk(s, t);
    var r, s' := s.blocked[t].row, Upgraded(s, t);
    assert RowOk(s, r) && RequestOk(s, r, t);
    var q, q' := s.table[r], s'.table[r];
    OneSharer(q, t);
    assert q.reqs[t].granted == Shared;
    assert Sharers(q') == {} by { assert forall u :: u in q.reqs && u != t ==> u !in Sharers(q); }
    assert Writers(q') == {t} by { assert forall u :: u in q.reqs ==> u !in Writers(q); }
    GrantedLegal(s, t, Exclusive, r);
    GrantRest(s, s', t, r, Exclusive, Request(Exclusive, Exclusive));
  }

  lemma UpgradeAbandonedInv(s: State, t: TxnId)
    requires Inv(s) && t in s.blocked && s.blocked[t].InUpgrade?
    ensures s.blocked[t].row in s.table && Inv(UpgradeAbandoned(s, t))
  {
    assert TxnOk(s, t);
    var s', r := UpgradeAbandoned(s, t), s.blocked[t].row;
    assert Sharers(s'.table[r]) == Sharers(s.table[r]) && Writers(s'.table[r]) == Writers(s.table[r]);
    forall x | x in s'.table ensures RowOk(s', x) {
      assert RowOk(s, x);
      forall u | u in s'.table[x].reqs ensures RequestOk(s', x, u) { assert RequestOk(s, x, u); }
    }
    forall u | u in s'.txns ensures TxnOk(s', u) { assert TxnOk(s, u); }
    forall u, x ensures Held(s'.history, u, x) == GrantedTo(s', u, x) {
      assert Held(s.history, u, x) == GrantedTo(s, u, x);
    }
  }

  // ---------------------------------------------------------------- release

  lemma ReleasedQueue(s: State, t: TxnId, r: RowId)
    requires Inv(s) && t in s.txns && r in s.table && t in s.table[r].reqs
    ensures QueueOk(Released(s, t, r).table[r])
  {
    assert RowOk(s, r);
    var q, q' := s.table[r], Released(s, t, r).table[r];
    assert Sharers(q') == Sharers(q) - {t} && Writers(q') == Writers(q) - {t};
    if q.reqs[t].granted == Shared {
      assert t in Sharers(q) && t !in Writers(q);
      assert Writers(q') == Writers(q);
    } else {
      assert t !in Sharers(q);
      assert Sharers(q') == Sharers(q);
      if q.reqs[t].granted == Exclusive {
        assert t in Writers(q);
        forall u ensures u !in Writers(q') {
          if u in Writers(q) { assert u == t; }
        }
        assert Writers(q') == {};
      } else {
        assert Writers(q') == Writers(q);
      }
    }
  }

  lemma ReleasedInv(s: State, t: TxnId, r: RowId)
    requires Inv(s) && t in s.txns && t !in s.blocked && r in s.table && t in s.table[r].reqs
    ensures Inv(Released(s, t, r))
  {
    var s', e := Released(s, t, r), Release(t, r);
    ReleasedQueue(s, t, r);
    LegalExtends(s.history, e);
    forall u, x ensures Held(s'.history, u, x) == GrantedTo(s', u, x) {
      HeldStep(s.history, e, u, x);
      assert Held(s.history, u, x) == GrantedTo(s, u, x);
    }
    forall x | x in s'.table ensures RowOk(s', x) {
      assert RowOk(s, x);
      forall u | u in s'.table[x].reqs ensures RequestOk(s', x, u) { assert RequestOk(s, x, u); }
    }
    forall u | u in s'.txns ensures TxnOk(s', u) {
      assert TxnOk(s, u) && RowOk(s, r) && RequestOk(s, r, t);
      HeldStep(s.history, e, u, r);
    }
  }
}
