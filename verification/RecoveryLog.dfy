/** Log records of src/include/recovery/log_rec.h: what each does to a key, and how the records of one
    transaction are chained. A record's lsn is its position in the log. */
module RecoveryLog {
  import opened Common

  type Lsn = int
  type Key = string
  type Val = int
  type Database = map<Key, Val>

  const INVALID_LSN: Lsn := -1

  datatype LogRec =
    | Begin(txn: TxnId, prev: Lsn)
    | Insert(txn: TxnId, prev: Lsn, newKey: Key, newVal: Val)
    | Delete(txn: TxnId, prev: Lsn, oldKey: Key, oldVal: Val)
    | Update(txn: TxnId, prev: Lsn, oldKey: Key, oldVal: Val, newKey: Key, newVal: Val)
    | Commit(txn: TxnId, prev: Lsn)
    | Abort(txn: TxnId, prev: Lsn)
  {
    /** The record ends its transaction. */
    predicate Final() { Commit? || Abort? }
  }

  // ---------------------------------------------------------------- effect on the database

  /** RedoPhase on a data record. */
  function Redo(db: Database, r: LogRec): Database {
    match r
    case Insert(_, _, k, v) => db[k := v]
    case Delete(_, _, k, _) => db - {k}
    case Update(_, _, ok, _, nk, nv) => (if ok != nk then db - {ok} else db)[nk := nv]
    case _ => db
  }

  /** UndoTxn on one record. */
  function Undo(db: Database, r: LogRec): Database {
    match r
    case Insert(_, _, k, _) => db - {k}
    case Delete(_, _, k, v) => db[k := v]
    case Update(_, _, ok, ov, nk, _) => (if ok != nk then db - {nk} else db)[ok := ov]
    case _ => db
  }

  // ---------------------------------------------------------------- effect on one key

  /** What a database says about one key. */
  datatype Cell = Nothing | Holds(val: Val)

  function Get(db: Database, k: Key): Cell {
    if k in db then Holds(db[k]) else Nothing
  }

  predicate Touches(r: LogRec, k: Key) {
    match r
    case Insert(_, _, nk, _) => k == nk
    case Delete(_, _, ok, _) => k == ok
    case Update(_, _, ok, _, nk, _) => k == ok || k == nk
    case _ => false
  }

  /** The cell a data record leaves behind. */
  function After(r: LogRec, k: Key): Cell
    requires Touches(r, k)
  {
    match r
    case Insert(_, _, _, v) => Holds(v)
    case Delete(_, _, _, _) => Nothing
    case Update(_, _, _, _, nk, nv) => if k == nk then Holds(nv) else Nothing
  }

  /** The cell a data record says it found. */
  function Before(r: LogRec, k: Key): Cell
    requires Touches(r, k)
  {
    match r
    case Insert(_, _, _, _) => Nothing
    case Delete(_, _, _, v) => Holds(v)
    case Update(_, _, ok, ov, _, _) => if k == ok then Holds(ov) else Nothing
  }

  lemma RedoCell(db: Database, r: LogRec, k: Key)
    ensures Get(Redo(db, r), k) == if Touches(r, k) then After(r, k) else Get(db, k)
  {
  }

  lemma UndoCell(db: Database, r: LogRec, k: Key)
    ensures Get(Undo(db, r), k) == if Touches(r, k) then Before(r, k) else Get(db, k)
  {
  }

  /** Databases that agree on every key are the same. */
  lemma SameCells(a: Database, b: Database)
    requires forall k :: Get(a, k) == Get(b, k)
    ensures a == b
  {
    forall k ensures k in a <==> k in b && (k in a ==> a[k] == b[k]) {
      assert Get(a, k) == Get(b, k);
    }
    assert a.Keys == b.Keys by {
      forall k ensures k in a.Keys <==> k in b.Keys { assert Get(a, k) == Get(b, k); }
    }
    forall k | k in a ensures a[k] == b[k] { assert Get(a, k) == Get(b, k); }
  }

  /** The before-image is true: the record found what it says it found, and a renamed key's new name was free. */
  predicate TrueImage(db: Database, r: LogRec) {
    match r
    case Insert(_, _, k, _) => k !in db
    case Delete(_, _, k, v) => k in db && db[k] == v
    case Update(_, _, ok, ov, nk, _) => ok in db && db[ok] == ov && (ok != nk ==> nk !in db)
    case _ => true
  }

  lemma TrueImageCell(db: Database, r: LogRec, k: Key)
    requires TrueImage(db, r) && Touches(r, k)
    ensures Get(db, k) == Before(r, k)
  {
  }

  /** Undoing a record takes back its effect exactly when its before-image was true. */
  lemma UndoInvertsRedo(db: Database, r: LogRec)
    ensures Undo(Redo(db, r), r) == db <==> TrueImage(db, r)
  {
    if TrueImage(db, r) {
      forall k ensures Get(Undo(Redo(db, r), r), k) == Get(db, k) {
        RedoCell(db, r, k);
        UndoCell(Redo(db, r), r, k);
        if Touches(r, k) { TrueImageCell(db, r, k); }
      }
      SameCells(Undo(Redo(db, r), r), db);
    }
  }

  /** A rename onto an existing key is redone and undone at the price of that key's value. */
  lemma RenameOntoExistingKeyLosesIt()
    ensures var db := map["a" := 1, "b" := 2];
            Undo(Redo(db, Update(0, 0, "a", 1, "b", 9)), Update(0, 0, "a", 1, "b", 9)) == map["a" := 1]
  {
  }

  // ---------------------------------------------------------------- chains

  /** The last record of transaction `t` among the first n, or INVALID_LSN. */
  function LastOf(log: seq<LogRec>, n: nat, t: TxnId): (i: Lsn)
    requires n <= |log|
    ensures INVALID_LSN <= i < n
    ensures i >= 0 ==> log[i].txn == t
    ensures forall j :: i < j < n ==> log[j].txn != t
  {
    if n == 0 then INVALID_LSN
    else if log[n - 1].txn == t then n - 1
    else LastOf(log, n - 1, t)
  }

  /** prev_lsn_ leads to the previous record of the same transaction; a begin record starts a chain. */
  ghost predicate Linked(log: seq<LogRec>) {
    forall i :: 0 <= i < |log| ==> log[i].prev == if log[i].Begin? then INVALID_LSN else LastOf(log, i, log[i].txn)
  }

  lemma Appended(log: seq<LogRec>, r: LogRec)
    requires Linked(log) && r.prev == if r.Begin? then INVALID_LSN else LastOf(log, |log|, r.txn)
    ensures Linked(log + [r])
    ensures forall t :: LastOf(log + [r], |log + [r]|, t) == if t == r.txn then |log| else LastOf(log, |log|, t)
  {
    var log' := log + [r];
    forall i | 0 <= i < |log'|
      ensures log'[i].prev == if log'[i].Begin? then INVALID_LSN else LastOf(log', i, log'[i].txn)
    {
      LastOfPrefix(log, log', i, log'[i].txn);
    }
    forall t ensures LastOf(log', |log'|, t) == if t == r.txn then |log| else LastOf(log, |log|, t) {
      LastOfPrefix(log, log', |log|, t);
    }
  }

  /** LogRec::next_lsn_ and LogRec::prev_lsn_map_, and the log written with them. */
  class LogWriter {
    var nextLsn: Lsn
    var prevLsnMap: map<TxnId, Lsn>
    ghost var log: seq<LogRec>

    ghost predicate Valid()
      reads this
    {
      && nextLsn == |log|
      && Linked(log)
      && (forall t :: t in prevLsnMap <==> LastOf(log, |log|, t) != INVALID_LSN)
      && (forall t :: t in prevLsnMap ==> prevLsnMap[t] == LastOf(log, |log|, t))
    }

    constructor ()
      ensures Valid() && log == []
    {
      nextLsn, prevLsnMap, log := 0, map[], [];
    }

    /** The part common to all Create functions: number the record and remember it as the last of its transaction. */
    method Append(r: LogRec) returns (lsn: Lsn)
      requires Valid()
      requires r.prev == if r.Begin? then INVALID_LSN else LastOf(log, |log|, r.txn)
      modifies this
      ensures Valid() && lsn == old(nextLsn) && log == old(log) + [r]
    {
      lsn := nextLsn;
      nextLsn := nextLsn + 1;
      Appended(log, r);
      prevLsnMap := prevLsnMap[r.txn := lsn];
      log := log + [r];
    }

    function PrevOf(txn: TxnId): (lsn: Lsn)
      requires Valid()
      reads this
      ensures lsn == LastOf(log, |log|, txn)
    {
      if txn in prevLsnMap then prevLsnMap[txn] else INVALID_LSN
    }

    method CreateBeginLog(txn: TxnId) returns (r: LogRec)
      requires Valid()
      modifies this
      ensures Valid() && log == old(log) + [r] && r == Begin(txn, INVALID_LSN)
    {
      r := Begin(txn, INVALID_LSN);
      var lsn := Append(r);
    }

    method CreateInsertLog(txn: TxnId, key: Key, val: Val) returns (r: LogRec)
      requires Valid()
      modifies this
      ensures Valid() && log == old(log) + [r] && r == Insert(txn, old(LastOf(log, |log|, txn)), key, val)
    {
      r := Insert(txn, PrevOf(txn), key, val);
      var lsn := Append(r);
    }

    method CreateDeleteLog(txn: TxnId, key: Key, val: Val) returns (r: LogRec)
      requires Valid()
      modifies this
      ensures Valid() && log == old(log) + [r] && r == Delete(txn, old(LastOf(log, |log|, txn)), key, val)
    {
      r := Delete(txn, PrevOf(txn), key, val);
      var lsn := Append(r);
    }

    method CreateUpdateLog(txn: TxnId, oldKey: Key, oldVal: Val, newKey: Key, newVal: Val) returns (r: LogRec)
      requires Valid()
      modifies this
      ensures Valid() && log == old(log) + [r]
      ensures r == Update(txn, old(LastOf(log, |log|, txn)), oldKey, oldVal, newKey, newVal)
    {
      r := Update(txn, PrevOf(txn), oldKey, oldVal, newKey, newVal);
      var lsn := Append(r);
    }

    method CreateCommitLog(txn: TxnId) returns (r: LogRec)
      requires Valid()
      modifies this
      ensures Valid() && log == old(log) + [r] && r == Commit(txn, old(LastOf(log, |log|, txn)))
    {
      r := Commit(txn, PrevOf(txn));
      var lsn := Append(r);
    }

    method CreateAbortLog(txn: TxnId) returns (r: LogRec)
      requires Valid()
      modifies this
      ensures Valid() && log == old(log) + [r] && r == Abort(txn, old(LastOf(log, |log|, txn)))
    {
      r := Abort(txn, PrevOf(txn));
      var lsn := Append(r);
    }
  }

  lemma LastOfPrefix(a: seq<LogRec>, b: seq<LogRec>, n: nat, t: TxnId)
    requires n <= |a| && a <= b
    ensures LastOf(a, n, t) == LastOf(b, n, t)
  {
  }
}
