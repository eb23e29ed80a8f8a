/** Who waits for whom in fact, beside the graph the detector builds. A shared request also waits for an upgrade that
    has been announced on its row, and for that wait the graph has no edge. */
module LockWaits {
  import opened Common
  import opened LockHistory
  import opened LockState
  import opened LockPhases
  import opened LockManagers
  import opened WaitsFor

  function Next(c: seq<TxnId>, i: nat): TxnId
    requires i < |c|
  {
    if i + 1 < |c| then c[i + 1] else c[0]
  }

  /** Every transaction of `c` waits for the next one, and the last for the first. */
  ghost predicate Deadlocked(s: State, c: seq<TxnId>) {
    c != [] && forall i {:trigger c[i]} :: 0 <= i < |c| ==> TrueWait(s, c[i], Next(c, i))
  }

  ghost predicate AllSeen(s: State, c: seq<TxnId>) {
    c != [] && forall i {:trigger c[i]} :: 0 <= i < |c| ==> SeenWait(s, c[i], Next(c, i))
  }

  // ---------------------------------------------------------------- nobody gets out of a deadlock

  /** No transaction of a deadlock gets anywhere by itself: only an abort changes that. */
  lemma DeadlockHolds(s: State, c: seq<TxnId>, t: TxnId)
    requires Sound(s) && Deadlocked(s, c) && t in c
    ensures t in s.blocked && t in s.txns && (s.txns[t].state == Aborted || Woken(s, t) == (Waiting, s))
  {
    var i :| 0 <= i < |c| && c[i] == t;
    assert TrueWait(s, t, Next(c, i));
    WaitsForSomebody(s, t);
  }

  /** Nor do the steps of the others end a deadlock whose waits all have edges. */
  lemma DeadlockStays(s: State, s': State, c: seq<TxnId>, t: TxnId)
    requires Sound(s) && AllSeen(s, c) && Untouched(s, s', t) && t !in c
    ensures AllSeen(s', c)
  {
    forall i | 0 <= i < |c| ensures SeenWait(s', c[i], Next(c, i)) {
      var a, b := c[i], Next(c, i);
      var r := s.blocked[a].row;
      assert b in c && RowOk(s, r) && RequestOk(s, r, b);
      assert SameFor(s, s', a) && SameFor(s, s', b);
      assert RequestOf(s', a, r) == RequestOf(s, a, r) && RequestOf(s', b, r) == RequestOf(s, b, r);
    }
  }

  // ---------------------------------------------------------------- what the detector makes of them

  /** A deadlock in which no transaction waits for a flag alone is a cycle of the graph, so that a pass of the detector
      picks a victim on it. */
  lemma SeenDeadlockIsCycle(s: State, graph: Graph, c: seq<TxnId>)
    requires forall a, b :: Edge(graph, a, b) <==> exists r :: r in s.table && WaitsOn(s.table[r], a, b)
    requires AllSeen(s, c)
    ensures IsCycle(graph, c)
  {
    forall i | 0 <= i < |c| ensures Edge(graph, c[i], Next(c, i)) {
      assert SeenWait(s, c[i], Next(c, i));
    }
    assert Edge(graph, c[|c| - 1], Next(c, |c| - 1));
    forall i | 0 <= i < |c| - 1 ensures Edge(graph, c[i], c[i + 1]) { assert Next(c, i) == c[i + 1]; }
  }

  lemma SeenVictims(s: State, graph: Graph, victims: seq<TxnId>, txns: map<TxnId, Txn>)
    requires Sound(s) && txns.Keys == s.txns.Keys
    requires forall a, b :: Edge(graph, a, b) <==> exists r :: r in s.table && WaitsOn(s.table[r], a, b)
    requires forall c :: IsCycle(graph, c) ==> exists v :: v in victims && v in c
    requires forall t :: t in txns ==> txns[t] == if t in victims then s.txns[t].(state := Aborted) else s.txns[t]
    ensures forall c :: AllSeen(s, c) ==> exists t :: t in c && HasAborted(txns, t)
  {
    forall c | AllSeen(s, c) ensures exists t :: t in c && HasAborted(txns, t) {
      SeenDeadlockIsCycle(s, graph, c);
      var v :| v in victims && v in c;
      var i :| 0 <= i < |c| && c[i] == v;
      assert SeenWait(s, c[i], Next(c, i)) && HasAborted(txns, v);
    }
  }

  predicate HasAborted(txns: map<TxnId, Txn>, t: TxnId) { t in txns && txns[t].state == Aborted }

  /** After a pass every such deadlock has an aborted transaction, whose wait ends at its next wake-up. */
  method DetectSeen(lm: LockManager)
    requires lm.Valid()
    modifies lm`txns
    ensures lm.Valid()
    ensures forall c :: AllSeen(old(lm.St()), c) ==> exists t :: t in c && HasAborted(lm.txns, t)
  {
    ghost var s := lm.St();
    ghost var graph, victims := lm.DetectDeadlocks();
    SeenVictims(s, graph, victims, lm.txns);
  }

  // ---------------------------------------------------------------- and what becomes of the victims

  /** `t` waits for nothing and nobody waits for it. */
  ghost predicate OutOfTheWay(s: State, t: TxnId) { t !in s.blocked && HoldsNothing(s, t) }

  lemma BrokenUp(s: State, c: seq<TxnId>, t: TxnId)
    requires t in c && OutOfTheWay(s, t)
    ensures !Deadlocked(s, c)
  {
    var i :| 0 <= i < |c| && c[i] == t;
    assert !TrueWait(s, c[i], Next(c, i));
  }

  /** The victim wakes up, and its thread, which has caught the exception, aborts the transaction. */
  method GiveUp(lm: LockManager, t: TxnId)
    requires lm.Valid() && t in lm.blocked && HasAborted(lm.txns, t)
    modifies lm
    ensures lm.Valid() && Untouched(old(lm.St()), lm.St(), t) && OutOfTheWay(lm.St(), t)
  {
    ghost var s := lm.St();
    assert t in s.busy ==> BusyTxn(s, t);
    var o := lm.Wake(t);
    ghost var s1 := lm.St();
    WokenIdle(s, t);
    lm.Abort(t);
    UntouchedTwice(s, s1, lm.St(), t);
    assert t in lm.busy ==> BusyTxn(lm.St(), t);
  }

  lemma WokenIdle(s: State, t: TxnId)
    requires Sound(s) && t in s.blocked && t in s.txns && s.txns[t].state == Aborted
    ensures Idle(Woken(s, t).1, t)
  {
    assert t in s.busy ==> BusyTxn(s, t);
  }

  lemma StillOut(s: State, s': State, t: TxnId, u: TxnId)
    requires Untouched(s, s', t) && u != t && OutOfTheWay(s, u)
    ensures OutOfTheWay(s', u)
  {
    assert SameFor(s, s', u);
    forall r ensures RequestOf(s', u, r) == None { assert RequestOf(s, u, r) == None; }
  }

  /** A pass of the detector, then the wake-ups and aborts of its victims, in any order: no deadlock whose waits all had
      edges is left. */
  method Resolve(lm: LockManager)
    requires lm.Valid()
    modifies lm
    ensures lm.Valid()
    ensures forall c :: AllSeen(old(lm.St()), c) ==> !Deadlocked(lm.St(), c)
  {
    ghost var s := lm.St();
    DetectSeen(lm);
    ghost var s1 := lm.St();
    var todo := set t | t in lm.blocked && HasAborted(lm.txns, t);
    ghost var victims := todo;
    while todo != {}
      invariant lm.Valid() && todo <= victims
      invariant forall t :: t in todo ==> t in lm.blocked && HasAborted(lm.txns, t)
      invariant forall t :: t in victims && t !in todo ==> OutOfTheWay(lm.St(), t)
      decreases todo
    {
      Inhabited(todo);
      var t :| t in todo;
      ghost var before := lm.St();
      GiveUp(lm, t);
      todo := todo - {t};
      OthersWait(before, lm.St(), t, victims, todo);
    }
    forall c | AllSeen(s, c) ensures !Deadlocked(lm.St(), c) {
      var v :| v in c && HasAborted(s1.txns, v);
      var i :| 0 <= i < |c| && c[i] == v;
      assert SeenWait(s, c[i], Next(c, i));
      BrokenUp(lm.St(), c, v);
    }
  }

  lemma OthersWait(s: State, s': State, t: TxnId, victims: set<TxnId>, todo: set<TxnId>)
    requires Untouched(s, s', t) && t !in todo && OutOfTheWay(s', t)
    requires forall u :: u in todo ==> u in s.blocked && HasAborted(s.txns, u)
    requires forall u :: u in victims && u !in todo && u != t ==> OutOfTheWay(s, u)
    ensures forall u :: u in todo ==> u in s'.blocked && HasAborted(s'.txns, u)
    ensures forall u :: u in victims && u !in todo ==> OutOfTheWay(s', u)
  {
    forall u | u in todo ensures u in s'.blocked && HasAborted(s'.txns, u) { assert SameFor(s, s', u); }
    forall u | u in victims && u !in todo ensures OutOfTheWay(s', u) {
      if u != t { StillOut(s, s', t, u); }
    }
  }

  // ---------------------------------------------------------------- a deadlock the detector does not see

  ghost function WithCall(s: State, t: TxnId, call: Call): State { s.(busy := s.busy[t := Admitted(call)]) }

  /** A lock call of a growing transaction. */
  method Lock(lm: LockManager, t: TxnId, call: Call) returns (o: Outcome)
    requires lm.Valid() && Idle(lm.St(), t) && lm.txns[t].state == Growing && lm.txns[t].iso != ReadUncommitted
    modifies lm
    ensures lm.Valid() && lm.nextTxnId == old(lm.nextTxnId)
    ensures Sound(WithCall(old(lm.St()), t, call)) && (o, lm.St()) == Acquired(WithCall(old(lm.St()), t, call), t)
  {
    o := lm.Prepare(t, call);
    o := lm.Acquire(t);
  }

  const READER := Txn(RepeatedRead, Growing, {}, {})

  /** Transaction 0 reads row 0; then 2 reads it as well; then 1 reads row 1. */
  function Readers(n: nat): State
    requires n <= 3
  {
    var held := Request(Shared, Shared);
    if n == 0 then State(map[], map[0 := READER, 1 := READER, 2 := READER], map[], map[], [])
    else if n == 1 then
      State(map[0 := Queue(map[0 := held], false, false, 1)],
            map[0 := READER.(shared := {0}), 1 := READER, 2 := READER], map[], map[], [Grant(0, 0, Shared)])
    else if n == 2 then
      State(map[0 := Queue(map[0 := held, 2 := held], false, false, 2)],
            map[0 := READER.(shared := {0}), 1 := READER, 2 := READER.(shared := {0})], map[], map[],
            [Grant(0, 0, Shared), Grant(2, 0, Shared)])
    else
      State(map[0 := Queue(map[0 := held, 2 := held], false, false, 2), 1 := Queue(map[1 := held], false, false, 1)],
            map[0 := READER.(shared := {0}), 1 := READER.(shared := {1}), 2 := READER.(shared := {0})], map[], map[],
            [Grant(0, 0, Shared), Grant(2, 0, Shared), Grant(1, 1, Shared)])
  }

  lemma ReadersStep(n: nat, t: TxnId, call: Call)
    requires n < 3 && t == [0, 2, 1][n] && call == InShared([0, 0, 1][n])
    ensures Idle(Readers(n), t)
    ensures Sound(WithCall(Readers(n), t, call)) ==> Acquired(WithCall(Readers(n), t, call), t) == (Got, Readers(n + 1))
  {
    var s, s', r := Readers(n), Enqueued(Readers(n), t, call), call.row;
    assert s.busy[t := Admitted(call)] - {t} == s.busy;
    var g, e := Granted(s', t), Readers(n + 1);
    assert {} + {r} == {r};
    assert g.table[r].reqs == e.table[r].reqs;
    assert g.table == e.table;
    assert g.txns == e.txns;
    assert g.blocked == map[];
    assert g.history == e.history;
  }

  /** Then 0 asks to upgrade on row 0, 1 asks to read row 0, and 2 asks to write row 1. */
  function Waits(n: nat): State
    requires n <= 3
  {
    var s, held := Readers(3), Request(Shared, Shared);
    var reqs := map[0 := Request(Exclusive, Shared), 2 := held];
    if n == 0 then s
    else if n == 1 then
      s.(table := s.table[0 := Queue(reqs, false, true, 2)], blocked := map[0 := InUpgrade(0)])
    else if n == 2 then
      s.(table := s.table[0 := Queue(reqs[1 := Request(Shared, NoLock)], false, true, 2)],
         blocked := map[0 := InUpgrade(0), 1 := InShared(0)])
    else
      s.(table := map[0 := Queue(reqs[1 := Request(Shared, NoLock)], false, true, 2),
                      1 := Queue(map[1 := held, 2 := Request(Exclusive, NoLock)], false, false, 1)],
         blocked := map[0 := InUpgrade(0), 1 := InShared(0), 2 := InExclusive(1)])
  }

  lemma WaitsStep(n: nat, t: TxnId, call: Call)
    requires n < 3 && t == n && call == [InUpgrade(0), InShared(0), InExclusive(1)][n]
    ensures Idle(Waits(n), t)
    ensures Sound(WithCall(Waits(n), t, call)) ==> Acquired(WithCall(Waits(n), t, call), t) == (Waiting, Waits(n + 1))
  {
    var s, r, e := Waits(n), call.row, Waits(n + 1);
    assert s.busy[t := Admitted(call)] - {t} == s.busy;
    var s' := if n == 0 then Upgrading(s, t, r) else Enqueued(s, t, call);
    assert s'.table[r].reqs == e.table[r].reqs;
    assert s'.table == e.table;
    assert s'.blocked == e.blocked;
  }

  method ReachReaders() returns (lm: LockManager)
    ensures fresh(lm) && lm.Valid() && lm.St() == Readers(3)
  {
    lm := new LockManager();
    var a := lm.Begin(RepeatedRead);
    var b := lm.Begin(RepeatedRead);
    var c := lm.Begin(RepeatedRead);
    assert lm.txns == Readers(0).txns;
    var order, rows := [0, 2, 1], [0, 0, 1];
    for n := 0 to 3
      invariant fresh(lm) && lm.Valid() && lm.St() == Readers(n)
    {
      ReadersStep(n, order[n], InShared(rows[n]));
      var o := Lock(lm, order[n], InShared(rows[n]));
    }
  }

  method ReachStuck() returns (lm: LockManager)
    ensures fresh(lm) && lm.Valid() && lm.St() == Waits(3)
  {
    lm := ReachReaders();
    var calls := [InUpgrade(0), InShared(0), InExclusive(1)];
    for n := 0 to 3
      invariant fresh(lm) && lm.Valid() && lm.St() == Waits(n)
    {
      WaitsStep(n, n, calls[n]);
      var o := Lock(lm, n, calls[n]);
    }
  }

  lemma StuckIsDeadlock()
    ensures Deadlocked(Waits(3), [0, 2, 1])
  {
    var s := Waits(3);
    assert TrueWait(s, 0, 2) && TrueWait(s, 2, 1) && TrueWait(s, 1, 0);
  }

  lemma StuckHasNoCycle(graph: Graph)
    requires forall a, b :: Edge(graph, a, b) <==> exists r :: r in Waits(3).table && WaitsOn(Waits(3).table[r], a, b)
    ensures Acyclic(graph)
  {
    var order := [1, 2, 0];
    forall a, b | Edge(graph, a, b) ensures (a == 0 && b == 2) || (a == 2 && b == 1) {
      var r :| r in Waits(3).table && WaitsOn(Waits(3).table[r], a, b);
      assert r == 0 || r == 1;
    }
    var g := map a | a in graph && graph[a] != {} :: graph[a];
    forall i, b | 0 <= i < 3 && Edge(g, order[i], b) ensures b in order[..i] {
      assert Edge(graph, order[i], b) && order[..i][i - 1] == order[i - 1];
    }
    forall a | a in g ensures a in order {
      Inhabited(g[a]);
      var b :| b in g[a];
      assert Edge(graph, a, b);
    }
    AllFinishedAcyclic(g, order);
    forall c ensures !IsCycle(graph, c) {
      if IsCycle(graph, c) {
        CycleInWhole(graph, g, c);
      }
    }
  }

  lemma VictimNeedsCycle(graph: Graph, victims: seq<TxnId>)
    requires forall v :: v in victims ==> exists c :: NewestOn(graph, c, v)
    ensures victims == [] || !Acyclic(graph)
  {
    if victims != [] {
      assert victims[0] in victims;
      var c :| NewestOn(graph, c, victims[0]);
      assert IsCycle(graph, c);
    }
  }

  /** Three transactions that wait for each other in a ring, none of them aborted, and the detector finds nothing. */
  method UnnoticedDeadlock() returns (lm: LockManager, ghost victims: seq<TxnId>)
    ensures fresh(lm) && lm.Valid() && Deadlocked(lm.St(), [0, 2, 1]) && victims == []
    ensures forall t :: t in lm.txns ==> t in lm.blocked && Woken(lm.St(), t) == (Waiting, lm.St())
  {
    lm := ReachStuck();
    ghost var s := lm.St();
    ghost var graph;
    graph, victims := lm.DetectDeadlocks();
    StuckHasNoCycle(graph);
    VictimNeedsCycle(graph, victims);
    assert lm.txns == s.txns;
    StuckIsDeadlock();
    forall t | t in lm.txns ensures t in lm.blocked && Woken(lm.St(), t) == (Waiting, lm.St()) {
      assert [0, 2, 1][0] == 0 && [0, 2, 1][1] == 2 && [0, 2, 1][2] == 1;
      DeadlockHolds(s, [0, 2, 1], t);
    }
  }
}
