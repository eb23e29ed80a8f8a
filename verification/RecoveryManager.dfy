/** RecoveryManager: the loops of Init, RedoPhase, UndoPhase and UndoTxn over the log, the active transaction
    table and the data. */
module RecoveryManagers {
  import opened Common
  import opened RecoveryLog
  import opened Recovery

  datatype CheckPoint = CheckPoint(lsn: Lsn, activeTxns: map<TxnId, Lsn>, data: Database)

  class RecoveryManager {
    var logRecs: seq<LogRec>
    var persistLsn: Lsn
    var activeTxns: map<TxnId, Lsn>
    var data: Database

    constructor ()
      ensures logRecs == [] && persistLsn == INVALID_LSN && activeTxns == map[] && data == map[]
    {
      logRecs, persistLsn, activeTxns, data := [], INVALID_LSN, map[], map[];
    }

    method AppendLogRec(r: LogRec)
      modifies this`logRecs
      ensures logRecs == old(logRecs) + [r]
    {
      logRecs := logRecs + [r];
    }

    method Init(checkpoint: CheckPoint)
      modifies this`persistLsn, this`activeTxns, this`data
      ensures persistLsn == checkpoint.lsn && activeTxns == checkpoint.activeTxns && data == checkpoint.data
    {
      persistLsn := checkpoint.lsn;
      activeTxns := checkpoint.activeTxns;
      data := checkpoint.data;
    }

    method UndoTxn(txn: TxnId, lastLsn: Lsn)
      requires Linked(logRecs)
      modifies this`data
      ensures data == UndoChain(old(data), logRecs, lastLsn)
    {
      var current := lastLsn;
      while current != INVALID_LSN
        invariant UndoChain(data, logRecs, current) == UndoChain(old(data), logRecs, lastLsn)
        decreases current
      {
        if !(0 <= current < |logRecs|) {
          break;
        }
        var r := logRecs[current];
        match r {
          case Insert(_, _, newKey, _) =>
            data := data - {newKey};
          case Delete(_, _, oldKey, oldVal) =>
            data := data[oldKey := oldVal];
          case Update(_, _, oldKey, oldVal, newKey, _) =>
            if oldKey != newKey {
              data := data - {newKey};
            }
            data := data[oldKey := oldVal];
          case Begin(_, _) =>
            return;
          case Commit(_, _) =>
          case Abort(_, _) =>
        }
        current := r.prev;
      }
    }

    method RedoPhase()
      requires Linked(logRecs)
      modifies this`data, this`activeTxns
      ensures data == Replay(old(data), logRecs, |logRecs|)
      ensures activeTxns == Att(old(activeTxns), logRecs, |logRecs|)
    {
      for n := 0 to |logRecs|
        invariant data == Replay(old(data), logRecs, n)
        invariant activeTxns == Att(old(activeTxns), logRecs, n)
      {
        var r := logRecs[n];
        match r {
          case Begin(txn, _) =>
            activeTxns := activeTxns[txn := n];
          case Insert(txn, _, newKey, newVal) =>
            data := data[newKey := newVal];
            activeTxns := activeTxns[txn := n];
          case Delete(txn, _, oldKey, _) =>
            data := data - {oldKey};
            activeTxns := activeTxns[txn := n];
          case Update(txn, _, oldKey, _, newKey, newVal) =>
            if oldKey != newKey {
              data := data - {oldKey};
            }
            data := data[newKey := newVal];
            activeTxns := activeTxns[txn := n];
          case Commit(txn, _) =>
            activeTxns := activeTxns - {txn};
          case Abort(txn, prev) =>
            UndoTxn(txn, prev);
            activeTxns := activeTxns - {txn};
        }
      }
    }

    /** The iteration order of the table is not specified; `order` is the one that was used. */
    method UndoPhase() returns (ghost order: seq<TxnId>)
      requires Linked(logRecs)
      modifies this`data, this`activeTxns
      ensures activeTxns == map[]
      ensures Orders(order, old(activeTxns)) && data == UndoAll(old(data), logRecs, old(activeTxns), order)
    {
      var losers := activeTxns;
      var todo := losers.Keys;
      order := [];
      while todo != {}
        invariant todo <= losers.Keys && activeTxns.Keys == todo
        invariant forall t :: t in losers ==> t in todo || t in order
        invariant forall i :: 0 <= i < |order| ==> order[i] in losers && order[i] !in todo
        invariant forall i, j :: 0 <= i < j < |order| ==> order[i] != order[j]
        invariant data == UndoAll(old(data), logRecs, losers, order)
        decreases todo
      {
        Inhabited(todo);
        var txn :| txn in todo;
        todo := todo - {txn};
        UndoTxn(txn, losers[txn]);
        assert (order + [txn])[..|order|] == order;
        order := order + [txn];
        activeTxns := activeTxns - {txn};
      }
    }

    /** A restart: only committed effects survive, whatever the checkpoint and the order of undo. */
    method Recover(checkpoint: CheckPoint, ghost db: Database)
      requires GoodLog(db, logRecs) && Agrees(db, checkpoint.data, logRecs)
      requires forall t :: t in checkpoint.activeTxns ==> LastOf(logRecs, |logRecs|, t) >= 0
      modifies this`persistLsn, this`data, this`activeTxns
      ensures data == CommittedEffect(db, logRecs) && activeTxns == map[]
    {
      Init(checkpoint);
      RedoPhase();
      ghost var redone, losers := data, activeTxns;
      ghost var order := UndoPhase();
      OnlyCommittedEffectsSurvive(db, checkpoint.data, checkpoint.activeTxns, logRecs, order);
    }

    /** A restart from a checkpoint taken after the first n records, with the database and the table of that moment. */
    method RecoverFromPrefix(n: nat, checkpoint: CheckPoint, ghost db: Database)
      requires GoodLog(db, logRecs) && n <= |logRecs|
      requires checkpoint == CheckPoint(checkpoint.lsn, Att(map[], logRecs, n), Replay(db, logRecs, n))
      modifies this`persistLsn, this`data, this`activeTxns
      ensures data == CommittedEffect(db, logRecs) && activeTxns == map[]
    {
      PrefixAgrees(db, logRecs, n);
      forall t | t in checkpoint.activeTxns ensures LastOf(logRecs, |logRecs|, t) >= 0 {
        AttIsActive(map[], logRecs, n, t);
        LastOfLater(logRecs, n, |logRecs|, t);
      }
      Recover(checkpoint, db);
    }

    /** Recovering again from the recovered database changes nothing. */
    method RecoverTwice(checkpoint: CheckPoint, ghost db: Database)
      requires GoodLog(db, logRecs) && Agrees(db, checkpoint.data, logRecs)
      requires forall t :: t in checkpoint.activeTxns ==> LastOf(logRecs, |logRecs|, t) >= 0
      modifies this`persistLsn, this`data, this`activeTxns
      ensures data == CommittedEffect(db, logRecs) && activeTxns == map[]
    {
      Recover(checkpoint, db);
      RecoveredAgrees(db, logRecs);
      Recover(CheckPoint(persistLsn, activeTxns, data), db);
    }
  }

  /** Transaction 2 overwrites the uncommitted value of transaction 1 and commits; transaction 1 never ends. */
  ghost function DirtyLog(): seq<LogRec> {
    [Begin(1, -1), Begin(2, -1), Update(1, 0, "a", 1, "a", 2), Update(2, 1, "a", 2, "a", 3), Commit(2, 3)]
  }

  lemma DirtyLogChains()
    ensures Linked(DirtyLog()) && Disciplined(DirtyLog()) && !Strict(DirtyLog())
  {
    var log := DirtyLog();
    assert LastOf(log, 1, 2) == -1 && LastOf(log, 2, 1) == 0 && LastOf(log, 3, 2) == 1 && LastOf(log, 4, 2) == 3;
    assert LastOf(log, 3, 1) == 2;
    forall i | 0 <= i < |log| ensures DisciplinedAt(log, i) {
    }
    assert !StrictAt(log, 2, 3, "a");
  }

  lemma DirtyTable()
    ensures Att(map[], DirtyLog(), 5) == map[1 := 2]
  {
    var log := DirtyLog();
    assert Att(map[], log, 1) == map[1 := 0];
    assert Att(map[], log, 2) == map[1 := 0, 2 := 1];
    assert Att(map[], log, 3) == map[1 := 2, 2 := 1];
    assert Att(map[], log, 4) == map[1 := 2, 2 := 3];
  }

  /** Undoing transaction 1 then loses the committed write: recovery needs the log to be strict. */
  lemma DirtyWriteIsLost()
    ensures var db := map["a" := 1];
            && Linked(DirtyLog()) && Disciplined(DirtyLog()) && Truthful(db, DirtyLog()) && !Strict(DirtyLog())
            && CommittedEffect(db, DirtyLog()) == map["a" := 3]
            && Att(map[], DirtyLog(), 5) == map[1 := 2]
            && UndoAll(Replay(db, DirtyLog(), 5), DirtyLog(), Att(map[], DirtyLog(), 5), [1]) == map["a" := 1]
  {
    DirtyLogChains();
    DirtyTable();
    DirtyCommitted();
    DirtyReplay();
    DirtyUndo();
  }

  lemma DirtyCommitted()
    ensures CommittedEffect(map["a" := 1], DirtyLog()) == map["a" := 3]
  {
    var log, db, winners := DirtyLog(), map["a" := 1], CommittedTxns(DirtyLog(), 5);
    assert log[4].txn == 2 && log[4].txn in winners;
    forall i | 0 <= i < 5 && log[i].Commit? ensures log[i].txn == 2 {
      assert i == 4;
    }
    assert log[0].txn == 1 && log[2].txn == 1 && 1 !in winners;
    assert Apply(db, log, 1, winners) == db && Apply(db, log, 2, winners) == db && Apply(db, log, 3, winners) == db;
    assert Apply(db, log, 4, winners) == map["a" := 3];
  }

  lemma DirtyReplay()
    ensures Truthful(map["a" := 1], DirtyLog()) && Replay(map["a" := 1], DirtyLog(), 5) == map["a" := 3]
  {
    var log, db := DirtyLog(), map["a" := 1];
    assert Replay(db, log, 1) == db && Replay(db, log, 2) == db;
    assert Replay(db, log, 3) == map["a" := 2];
    assert Replay(db, log, 4) == map["a" := 3];
  }

  lemma DirtyUndo()
    requires Linked(DirtyLog())
    ensures UndoAll(map["a" := 3], DirtyLog(), map[1 := 2], [1]) == map["a" := 1]
  {
    var log := DirtyLog();
    assert UndoAll(map["a" := 3], log, map[1 := 2], []) == map["a" := 3];
    assert UndoChain(map["a" := 3], log, 2) == UndoChain(map["a" := 1], log, 0);
  }
}
