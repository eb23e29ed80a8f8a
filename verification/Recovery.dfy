/** Crash recovery of src/include/recovery/recovery_manager.h: the whole log is redone on top of the last
    checkpoint, aborted transactions are undone where they aborted, and the transactions still active at the end
    are undone afterwards. Only committed effects survive. */
module Recovery {
  import opened Common
  import opened RecoveryLog

  // ---------------------------------------------------------------- what the code computes

  /** UndoTxn: follow prev_lsn_ from `lsn`, undoing each record, up to the begin record or the end of the chain. */
  ghost function UndoChain(db: Database, log: seq<LogRec>, lsn: Lsn): Database
    requires Linked(log)
    decreases lsn
  {
    if !(0 <= lsn < |log|) || log[lsn].Begin? then db
    else UndoChain(Undo(db, log[lsn]), log, log[lsn].prev)
  }

  /** The database after RedoPhase has handled the first n records. */
  ghost function Replay(db: Database, log: seq<LogRec>, n: nat): Database
    requires Linked(log) && n <= |log|
  {
    if n == 0 then db
    else
      var before, r := Replay(db, log, n - 1), log[n - 1];
      if r.Abort? then UndoChain(before, log, r.prev) else Redo(before, r)
  }

  /** The active transaction table after RedoPhase has handled the first n records. */
  function Att(att: map<TxnId, Lsn>, log: seq<LogRec>, n: nat): map<TxnId, Lsn>
    requires n <= |log|
  {
    if n == 0 then att
    else
      var before, r := Att(att, log, n - 1), log[n - 1];
      if r.Final() then before - {r.txn} else before[r.txn := n - 1]
  }

  // ---------------------------------------------------------------- what it is for

  function CommittedTxns(log: seq<LogRec>, n: nat): set<TxnId>
    requires n <= |log|
  {
    set i | 0 <= i < n && log[i].Commit? :: log[i].txn
  }

  /** The data records of the transactions in `winners`, applied in log order. */
  function Apply(db: Database, log: seq<LogRec>, n: nat, winners: set<TxnId>): Database
    requires n <= |log|
  {
    if n == 0 then db
    else
      var before, r := Apply(db, log, n - 1, winners), log[n - 1];
      if r.txn in winners then Redo(before, r) else before
  }

  /** The effect of the committed transactions alone. */
  function CommittedEffect(db: Database, log: seq<LogRec>): Database {
    Apply(db, log, |log|, CommittedTxns(log, |log|))
  }

  // ---------------------------------------------------------------- what it needs

  /** Transaction `t` has begun and has neither committed nor aborted within the first n records. */
  predicate Active(log: seq<LogRec>, n: nat, t: TxnId)
    requires n <= |log|
  {
    var last := LastOf(log, n, t);
    last >= 0 && !log[last].Final()
  }

  /** Each transaction is a begin record, then data records, then at most one commit or abort record. */
  ghost predicate Disciplined(log: seq<LogRec>) {
    forall i {:trigger DisciplinedAt(log, i)} :: 0 <= i < |log| ==> DisciplinedAt(log, i)
  }

  predicate DisciplinedAt(log: seq<LogRec>, i: nat)
    requires i < |log|
  {
    if log[i].Begin? then LastOf(log, i, log[i].txn) == INVALID_LSN else Active(log, i, log[i].txn)
  }

  /** Nobody touches a key that another transaction has touched and not yet settled by a commit or an abort. */
  ghost predicate Strict(log: seq<LogRec>) {
    forall i, j, k {:trigger StrictAt(log, i, j, k)} :: 0 <= i < j < |log| ==> StrictAt(log, i, j, k)
  }

  predicate StrictAt(log: seq<LogRec>, i: nat, j: nat, k: Key)
    requires i < j < |log|
  {
    Touches(log[i], k) && Touches(log[j], k) && log[i].txn != log[j].txn ==> !Active(log, j, log[i].txn)
  }

  /** Every data record tells the truth about the database it was written against. */
  ghost predicate Truthful(db: Database, log: seq<LogRec>)
    requires Linked(log)
  {
    forall i {:trigger Replay(db, log, i)} :: 0 <= i < |log| ==> TrueImage(Replay(db, log, i), log[i])
  }

  ghost predicate GoodLog(db: Database, log: seq<LogRec>) {
    Linked(log) && Disciplined(log) && Strict(log) && Truthful(db, log)
  }

  // ---------------------------------------------------------------- one transaction and one key

  /** What transaction `t` found under `k` when it first touched it. */
  function FirstBefore(log: seq<LogRec>, n: nat, t: TxnId, k: Key): Option<Cell>
    requires n <= |log|
  {
    if n == 0 then None
    else
      var first, r := FirstBefore(log, n - 1, t, k), log[n - 1];
      if first.Some? then first else if r.txn == t && Touches(r, k) then Some(Before(r, k)) else None
  }

  /** What transaction `t` left under `k` when it last touched it. */
  function LastAfter(log: seq<LogRec>, n: nat, t: TxnId, k: Key): Option<Cell>
    requires n <= |log|
  {
    if n == 0 then None
    else
      var r := log[n - 1];
      if r.txn == t && Touches(r, k) then Some(After(r, k)) else LastAfter(log, n - 1, t, k)
  }

  predicate Touched(log: seq<LogRec>, n: nat, t: TxnId, k: Key)
    requires n <= |log|
  {
    FirstBefore(log, n, t, k).Some?
  }

  lemma {:induction false} TouchedWitness(log: seq<LogRec>, n: nat, t: TxnId, k: Key) returns (i: nat)
    requires n <= |log| && Touched(log, n, t, k)
    ensures i < n && log[i].txn == t && Touches(log[i], k)
  {
    if Touched(log, n - 1, t, k) {
      i := TouchedWitness(log, n - 1, t, k);
    } else {
      i := n - 1;
    }
  }

  lemma {:induction false} TouchedAt(log: seq<LogRec>, n: nat, t: TxnId, k: Key, i: nat)
    requires i < n <= |log| && log[i].txn == t && Touches(log[i], k)
    ensures Touched(log, n, t, k)
  {
    if i < n - 1 { TouchedAt(log, n - 1, t, k, i); }
  }

  lemma {:induction false} LastAfterTouched(log: seq<LogRec>, n: nat, t: TxnId, k: Key)
    requires n <= |log|
    ensures LastAfter(log, n, t, k).Some? <==> Touched(log, n, t, k)
  {
    if n > 0 { LastAfterTouched(log, n - 1, t, k); }
  }

  /** Records of other transactions do not matter to FirstBefore. */
  lemma {:induction false} FirstBeforeSkip(log: seq<LogRec>, m: nat, n: nat, t: TxnId, k: Key)
    requires m <= n <= |log| && forall j :: m <= j < n ==> log[j].txn != t
    ensures FirstBefore(log, n, t, k) == FirstBefore(log, m, t, k)
    decreases n
  {
    if m < n { FirstBeforeSkip(log, m, n - 1, t, k); }
  }

  /** Undoing a whole transaction puts back what it first found, key by key. */
  lemma {:induction false} UndoChainCell(db: Database, log: seq<LogRec>, n: nat, t: TxnId, k: Key)
    requires Linked(log) && Disciplined(log) && n <= |log|
    ensures var undone := Get(UndoChain(db, log, LastOf(log, n, t)), k);
            undone == if Touched(log, n, t, k) then FirstBefore(log, n, t, k).value else Get(db, k)
    decreases n
  {
    var m := LastOf(log, n, t);
    if m < 0 {
      FirstBeforeSkip(log, 0, n, t, k);
    } else {
      FirstBeforeSkip(log, m + 1, n, t, k);
      var r := log[m];
      assert DisciplinedAt(log, m);
      if r.Begin? {
        FirstBeforeSkip(log, 0, m, t, k);
      } else {
        UndoChainCell(Undo(db, r), log, m, t, k);
        UndoCell(db, r, k);
      }
    }
  }

  // ---------------------------------------------------------------- active transactions

  /** An active transaction has been active since its begin record. */
  lemma {:induction false} ActiveEarlier(log: seq<LogRec>, m: nat, n: nat, t: TxnId)
    requires Disciplined(log) && m <= n <= |log| && Active(log, n, t) && LastOf(log, m, t) >= 0
    ensures Active(log, m, t)
    decreases n
  {
    if m < n {
      LastOfLater(log, m, n - 1, t);
      assert DisciplinedAt(log, n - 1);
      ActiveEarlier(log, m, n - 1, t);
    }
  }

  lemma {:induction false} LastOfLater(log: seq<LogRec>, m: nat, n: nat, t: TxnId)
    requires m <= n <= |log|
    ensures LastOf(log, m, t) <= LastOf(log, n, t)
    decreases n
  {
    if m < n { LastOfLater(log, m, n - 1, t); }
  }

  lemma ActiveNotCommitted(log: seq<LogRec>, n: nat, t: TxnId)
    requires Disciplined(log) && n <= |log| && Active(log, n, t)
    ensures t !in CommittedTxns(log, n)
  {
    forall i | 0 <= i < n && log[i].txn == t ensures !log[i].Commit? {
      ActiveEarlier(log, i + 1, n, t);
    }
  }

  /** At most one active transaction has touched a key. */
  lemma OneToucher(log: seq<LogRec>, n: nat, t: TxnId, u: TxnId, k: Key)
    requires Disciplined(log) && Strict(log) && n <= |log|
    requires Active(log, n, t) && Active(log, n, u) && Touched(log, n, t, k) && Touched(log, n, u, k)
    ensures t == u
  {
    var i := TouchedWitness(log, n, t, k);
    var j := TouchedWitness(log, n, u, k);
    if i < j {
      LastOfLater(log, i + 1, j, t);
      ActiveEarlier(log, j, n, t);
      assert StrictAt(log, i, j, k);
    } else if j < i {
      LastOfLater(log, j + 1, i, u);
      ActiveEarlier(log, i, n, u);
      assert StrictAt(log, j, i, k);
    }
  }

  // ---------------------------------------------------------------- the committed view

  /** A winner that does not touch a key makes no difference to it. */
  lemma {:induction false} ApplyOther(db: Database, log: seq<LogRec>, n: nat, winners: set<TxnId>, t: TxnId, k: Key)
    requires n <= |log| && !Touched(log, n, t, k)
    ensures Get(Apply(db, log, n, winners + {t}), k) == Get(Apply(db, log, n, winners), k)
  {
    if n > 0 {
      ApplyOther(db, log, n - 1, winners, t, k);
      RedoCell(Apply(db, log, n - 1, winners + {t}), log[n - 1], k);
      RedoCell(Apply(db, log, n - 1, winners), log[n - 1], k);
    }
  }

  /** While a transaction that touched a key is unsettled, its last value is the last value altogether. */
  lemma {:induction false} ApplyOwner(db: Database, log: seq<LogRec>, n: nat, winners: set<TxnId>, t: TxnId, k: Key)
    requires Disciplined(log) && Strict(log) && n <= |log| && t in winners
    requires Active(log, n, t) && Touched(log, n, t, k)
    ensures LastAfter(log, n, t, k) == Some(Get(Apply(db, log, n, winners), k))
  {
    var r := log[n - 1];
    RedoCell(Apply(db, log, n - 1, winners), r, k);
    if Touched(log, n - 1, t, k) {
      var i := TouchedWitness(log, n - 1, t, k);
      LastOfLater(log, i + 1, n - 1, t);
      ActiveEarlier(log, n - 1, n, t);
      assert StrictAt(log, i, n - 1, k);
      ApplyOwner(db, log, n - 1, winners, t, k);
    }
  }

  // ---------------------------------------------------------------- the invariant of redo

  ghost function CommittedView(db: Database, log: seq<LogRec>, n: nat): Database
    requires n <= |log|
  {
    Apply(db, log, n, CommittedTxns(log, n))
  }

  /** An active transaction has touched the key. */
  predicate Owns(log: seq<LogRec>, n: nat, t: TxnId, k: Key)
    requires n <= |log|
  {
    Active(log, n, t) && Touched(log, n, t, k)
  }

  ghost predicate Free(log: seq<LogRec>, n: nat, k: Key)
    requires n <= |log|
  {
    forall t :: !Owns(log, n, t, k)
  }

  /** For one key: if an active transaction touched it, that transaction first found the committed value there and
      left the current one; otherwise the current value is the committed one. */
  ghost predicate KeyInv(db: Database, log: seq<LogRec>, n: nat, k: Key)
    requires Linked(log) && n <= |log|
  {
    var state, view := Get(Replay(db, log, n), k), Get(CommittedView(db, log, n), k);
    && (forall t :: Owns(log, n, t, k) ==>
          FirstBefore(log, n, t, k) == Some(view) && LastAfter(log, n, t, k) == Some(state))
    && (Free(log, n, k) ==> state == view)
  }

  lemma CommittedStep(log: seq<LogRec>, n: nat)
    requires n < |log|
    ensures CommittedTxns(log, n + 1) == CommittedTxns(log, n) + (if log[n].Commit? then {log[n].txn} else {})
  {
  }

  /** A data or begin record leaves the committed view alone. */
  lemma ViewUnchanged(db: Database, log: seq<LogRec>, n: nat)
    requires Disciplined(log) && n < |log| && !log[n].Commit?
    ensures CommittedView(db, log, n + 1) == CommittedView(db, log, n)
  {
    CommittedStep(log, n);
    assert CommittedTxns(log, n + 1) == CommittedTxns(log, n);
    assert DisciplinedAt(log, n);
    if !log[n].Begin? { ActiveNotCommitted(log, n, log[n].txn); }
  }

  lemma StepData(db: Database, log: seq<LogRec>, n: nat, k: Key)
    requires GoodLog(db, log) && n < |log| && !log[n].Final() && KeyInv(db, log, n, k)
    ensures KeyInv(db, log, n + 1, k)
  {
    var r, n' := log[n], n + 1;
    ViewUnchanged(db, log, n);
    RedoCell(Replay(db, log, n), r, k);
    forall t | Owns(log, n', t, k)
      ensures FirstBefore(log, n', t, k) == Some(Get(CommittedView(db, log, n), k))
      ensures LastAfter(log, n', t, k) == Some(Get(Replay(db, log, n'), k))
    {
      StepDataFor(db, log, n, t, k);
    }
    if Free(log, n', k) {
      if Touches(r, k) {
        TouchedAt(log, n', r.txn, k, n);
        assert Owns(log, n', r.txn, k);
      }
      forall t ensures !Owns(log, n, t, k) {
        assert !Owns(log, n', t, k);
      }
    }
  }

  lemma NoOtherOwner(log: seq<LogRec>, n: nat, u: TxnId, k: Key)
    requires Strict(log) && n < |log| && Touches(log[n], k)
    ensures u != log[n].txn ==> !Owns(log, n, u, k)
  {
    if Touched(log, n, u, k) {
      var i := TouchedWitness(log, n, u, k);
      assert StrictAt(log, i, n, k);
    }
  }

  lemma StepDataFor(db: Database, log: seq<LogRec>, n: nat, t: TxnId, k: Key)
    requires GoodLog(db, log) && n < |log| && !log[n].Final() && KeyInv(db, log, n, k) && Owns(log, n + 1, t, k)
    ensures FirstBefore(log, n + 1, t, k) == Some(Get(CommittedView(db, log, n), k))
    ensures LastAfter(log, n + 1, t, k) == Some(Get(Replay(db, log, n + 1), k))
  {
    var r := log[n];
    RedoCell(Replay(db, log, n), r, k);
    if Touched(log, n, t, k) {
      StillOwns(db, log, n, t, k);
    } else {
      TrueImageCell(Replay(db, log, n), r, k);
      forall u ensures !Owns(log, n, u, k) {
        NoOtherOwner(log, n, u, k);
      }
      assert Free(log, n, k);
    }
  }

  lemma StillOwns(db: Database, log: seq<LogRec>, n: nat, t: TxnId, k: Key)
    requires GoodLog(db, log) && n < |log| && !log[n].Final() && Owns(log, n + 1, t, k) && Touched(log, n, t, k)
    ensures Owns(log, n, t, k) && (Touches(log[n], k) ==> log[n].txn == t)
  {
    var i := TouchedWitness(log, n, t, k);
    LastOfLater(log, i + 1, n, t);
    ActiveEarlier(log, n, n + 1, t);
    assert StrictAt(log, i, n, k);
  }

  lemma StepCommit(db: Database, log: seq<LogRec>, n: nat, k: Key)
    requires GoodLog(db, log) && n < |log| && log[n].Commit? && KeyInv(db, log, n, k)
    ensures KeyInv(db, log, n + 1, k)
  {
    var t, n', winners := log[n].txn, n + 1, CommittedTxns(log, n);
    assert DisciplinedAt(log, n);
    CommittedStep(log, n);
    assert Get(CommittedView(db, log, n'), k) == Get(Apply(db, log, n, winners + {t}), k);
    forall u | Owns(log, n', u, k) ensures Owns(log, n, u, k) && u != t {
      assert LastOf(log, n', u) == if u == t then n else LastOf(log, n, u);
    }
    if Touched(log, n, t, k) {
      ApplyOwner(db, log, n, winners + {t}, t, k);
      assert Owns(log, n, t, k);
      forall u ensures !Owns(log, n', u, k) {
        if Owns(log, n, u, k) { OneToucher(log, n, t, u, k); }
      }
    } else {
      ApplyOther(db, log, n, winners, t, k);
      SettledOwners(log, n, k);
    }
  }

  /** A final record by a transaction that never touched the key changes no owner. */
  lemma SettledOwners(log: seq<LogRec>, n: nat, k: Key)
    requires n < |log| && log[n].Final() && !Touched(log, n, log[n].txn, k)
    ensures forall u :: Owns(log, n + 1, u, k) == Owns(log, n, u, k)
    ensures Free(log, n + 1, k) == Free(log, n, k)
  {
    var n' := n + 1;
    forall u ensures Owns(log, n', u, k) == Owns(log, n, u, k) {
      assert LastOf(log, n', u) == if u == log[n].txn then n else LastOf(log, n, u);
    }
    if Free(log, n, k) {
      forall u ensures !Owns(log, n', u, k) { assert !Owns(log, n, u, k); }
    }
  }

  lemma StepAbort(db: Database, log: seq<LogRec>, n: nat, k: Key)
    requires GoodLog(db, log) && n < |log| && log[n].Abort? && KeyInv(db, log, n, k)
    ensures KeyInv(db, log, n + 1, k)
  {
    var t, n' := log[n].txn, n + 1;
    assert DisciplinedAt(log, n);
    ViewUnchanged(db, log, n);
    UndoChainCell(Replay(db, log, n), log, n, t, k);
    if Touched(log, n, t, k) {
      assert Owns(log, n, t, k);
      forall u ensures !Owns(log, n', u, k) {
        assert LastOf(log, n', u) == if u == t then n else LastOf(log, n, u);
        if Owns(log, n, u, k) { OneToucher(log, n, t, u, k); }
      }
    } else {
      SettledOwners(log, n, k);
      forall u | Owns(log, n', u, k) ensures Owns(log, n, u, k) && u != t {
        assert LastOf(log, n', t) == n;
      }
    }
  }

  lemma {:induction false} RedoInvariant(db: Database, log: seq<LogRec>, n: nat, k: Key)
    requires GoodLog(db, log) && n <= |log|
    ensures KeyInv(db, log, n, k)
  {
    if n > 0 {
      RedoInvariant(db, log, n - 1, k);
      if log[n - 1].Commit? {
        StepCommit(db, log, n - 1, k);
      } else if log[n - 1].Abort? {
        StepAbort(db, log, n - 1, k);
      } else {
        StepData(db, log, n - 1, k);
      }
    }
  }

  // ---------------------------------------------------------------- the active transaction table

  /** After redo the table holds exactly the active transactions, each with its last record, plus whatever the
      checkpoint listed that the log never mentions. */
  lemma {:induction false} AttIsActive(att: map<TxnId, Lsn>, log: seq<LogRec>, n: nat, t: TxnId)
    requires n <= |log|
    ensures LastOf(log, n, t) >= 0 ==> (t in Att(att, log, n) <==> Active(log, n, t))
    ensures LastOf(log, n, t) >= 0 && t in Att(att, log, n) ==> Att(att, log, n)[t] == LastOf(log, n, t)
    ensures LastOf(log, n, t) < 0 ==> (t in Att(att, log, n) <==> t in att)
  {
    if n > 0 { AttIsActive(att, log, n - 1, t); }
  }

  // ---------------------------------------------------------------- redoing from a later state

  predicate TouchedByAny(log: seq<LogRec>, n: nat, k: Key)
    requires n <= |log|
  {
    n > 0 && (Touches(log[n - 1], k) || TouchedByAny(log, n - 1, k))
  }

  lemma {:induction false} TouchedByOne(log: seq<LogRec>, n: nat, t: TxnId, k: Key)
    requires n <= |log| && Touched(log, n, t, k)
    ensures TouchedByAny(log, n, k)
  {
    if Touched(log, n - 1, t, k) { TouchedByOne(log, n - 1, t, k); }
  }

  /** Redo writes blindly: from any two starting points it agrees on every key the log touches, and it leaves
      every other key as it was. */
  lemma {:induction false} BlindReplay(a: Database, b: Database, log: seq<LogRec>, n: nat, k: Key)
    requires Linked(log) && Disciplined(log) && n <= |log|
    ensures TouchedByAny(log, n, k) ==> Get(Replay(a, log, n), k) == Get(Replay(b, log, n), k)
    ensures !TouchedByAny(log, n, k) ==> Get(Replay(a, log, n), k) == Get(a, k)
  {
    if n > 0 {
      BlindReplay(a, b, log, n - 1, k);
      var x, y, r := Replay(a, log, n - 1), Replay(b, log, n - 1), log[n - 1];
      RedoCell(x, r, k);
      RedoCell(y, r, k);
      if r.Abort? {
        UndoChainCell(x, log, n - 1, r.txn, k);
        UndoChainCell(y, log, n - 1, r.txn, k);
        if Touched(log, n - 1, r.txn, k) { TouchedByOne(log, n - 1, r.txn, k); }
      }
    }
  }

  /** The checkpoint differs from the database the log started from only in keys the log touches. */
  ghost predicate Agrees(db: Database, checkpoint: Database, log: seq<LogRec>) {
    forall k :: !TouchedByAny(log, |log|, k) ==> Get(checkpoint, k) == Get(db, k)
  }

  lemma ReplayFromCheckpoint(db: Database, checkpoint: Database, log: seq<LogRec>)
    requires Linked(log) && Disciplined(log) && Agrees(db, checkpoint, log)
    ensures Replay(checkpoint, log, |log|) == Replay(db, log, |log|)
  {
    forall k ensures Get(Replay(checkpoint, log, |log|), k) == Get(Replay(db, log, |log|), k) {
      BlindReplay(checkpoint, db, log, |log|, k);
      BlindReplay(db, checkpoint, log, |log|, k);
    }
    SameCells(Replay(checkpoint, log, |log|), Replay(db, log, |log|));
  }

  lemma {:induction false} TouchedGrows(log: seq<LogRec>, m: nat, n: nat, k: Key)
    requires m <= n <= |log| && TouchedByAny(log, m, k)
    ensures TouchedByAny(log, n, k)
    decreases n
  {
    if m < n { TouchedGrows(log, m, n - 1, k); }
  }

  /** A checkpoint taken after any prefix of the log agrees. */
  lemma PrefixAgrees(db: Database, log: seq<LogRec>, n: nat)
    requires Linked(log) && Disciplined(log) && n <= |log|
    ensures Agrees(db, Replay(db, log, n), log)
  {
    forall k | !TouchedByAny(log, |log|, k) ensures Get(Replay(db, log, n), k) == Get(db, k) {
      if TouchedByAny(log, n, k) { TouchedGrows(log, n, |log|, k); }
      BlindReplay(db, db, log, n, k);
    }
  }

  lemma {:induction false} ApplyUntouched(db: Database, log: seq<LogRec>, n: nat, winners: set<TxnId>, k: Key)
    requires n <= |log| && !TouchedByAny(log, n, k)
    ensures Get(Apply(db, log, n, winners), k) == Get(db, k)
  {
    if n > 0 {
      ApplyUntouched(db, log, n - 1, winners, k);
      RedoCell(Apply(db, log, n - 1, winners), log[n - 1], k);
    }
  }

  /** So does the recovered database itself. */
  lemma RecoveredAgrees(db: Database, log: seq<LogRec>)
    ensures Agrees(db, CommittedEffect(db, log), log)
  {
    forall k | !TouchedByAny(log, |log|, k) ensures Get(CommittedEffect(db, log), k) == Get(db, k) {
      ApplyUntouched(db, log, |log|, CommittedTxns(log, |log|), k);
    }
  }

  // ---------------------------------------------------------------- undoing the losers

  /** UndoPhase when the losers come up in this order. */
  ghost function UndoAll(db: Database, log: seq<LogRec>, att: map<TxnId, Lsn>, order: seq<TxnId>): Database
    requires Linked(log) && forall i :: 0 <= i < |order| ==> order[i] in att
  {
    if order == [] then db
    else
      var last := |order| - 1;
      UndoChain(UndoAll(db, log, att, order[..last]), log, att[order[last]])
  }

  /** `order` lists exactly the transactions of the table, each once. */
  ghost predicate Orders(order: seq<TxnId>, att: map<TxnId, Lsn>) {
    && (forall i, j :: 0 <= i < j < |order| ==> order[i] != order[j])
    && (forall i :: 0 <= i < |order| ==> order[i] in att)
    && (forall t :: t in att ==> t in order)
  }

  /** The losers in `order` have settled a key if one of them touched it, and left it alone otherwise. */
  lemma {:induction false} UndoAllCell(db: Database, log: seq<LogRec>, att: map<TxnId, Lsn>, order: seq<TxnId>, k: Key)
    requires Linked(log) && Disciplined(log) && Strict(log)
    requires forall i :: 0 <= i < |order| ==>
               order[i] in att && att[order[i]] == LastOf(log, |log|, order[i]) && Active(log, |log|, order[i])
    ensures var cell := Get(UndoAll(db, log, att, order), k);
            && (forall t :: t in order && Touched(log, |log|, t, k) ==> FirstBefore(log, |log|, t, k) == Some(cell))
            && ((forall t :: t in order ==> !Touched(log, |log|, t, k)) ==> cell == Get(db, k))
  {
    if order != [] {
      var last := |order| - 1;
      var init, t := order[..last], order[last];
      UndoAllCell(db, log, att, init, k);
      UndoChainCell(UndoAll(db, log, att, init), log, |log|, t, k);
      forall u | u in order && Touched(log, |log|, u, k) && Touched(log, |log|, t, k) ensures u == t {
        OneToucher(log, |log|, t, u, k);
      }
      assert forall u :: u in order <==> u in init || u == t;
    }
  }

  /** Only committed effects survive: from any checkpoint that agrees with the log, and in whatever order the losers
      are undone, recovery ends in the effect of the committed transactions. */
  lemma OnlyCommittedEffectsSurvive(db: Database, checkpoint: Database, att: map<TxnId, Lsn>, log: seq<LogRec>,
                                    order: seq<TxnId>)
    requires GoodLog(db, log) && Agrees(db, checkpoint, log)
    requires forall t :: t in att ==> LastOf(log, |log|, t) >= 0
    requires Orders(order, Att(att, log, |log|))
    ensures UndoAll(Replay(checkpoint, log, |log|), log, Att(att, log, |log|), order) == CommittedEffect(db, log)
  {
    var n := |log|;
    ReplayFromCheckpoint(db, checkpoint, log);
    var redone, losers := Replay(db, log, n), Att(att, log, n);
    forall t ensures t in losers <==> Active(log, n, t)
             ensures t in losers ==> losers[t] == LastOf(log, n, t)
    {
      AttIsActive(att, log, n, t);
    }
    forall k ensures Get(UndoAll(redone, log, losers, order), k) == Get(CommittedEffect(db, log), k) {
      RedoInvariant(db, log, n, k);
      UndoAllCell(redone, log, losers, order, k);
      if t :| Owns(log, n, t, k) {
        assert t in order;
      } else {
        assert Free(log, n, k);
        forall t | t in order ensures !Touched(log, n, t, k) { assert !Owns(log, n, t, k); }
      }
    }
    SameCells(UndoAll(redone, log, losers, order), CommittedEffect(db, log));
  }
}
