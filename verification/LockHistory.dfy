/** Histories of lock grants, releases and row accesses, and why two-phase locking makes them serializable. */
module LockHistory {
  import opened Common

  type RowId = int

  /** LockMode: what is requested or granted on a row. */
  datatype Mode = NoLock | Shared | Exclusive

  datatype Event =
    | Grant(txn: TxnId, row: RowId, mode: Mode)
    | Release(txn: TxnId, row: RowId)
    | Access(txn: TxnId, row: RowId, write: bool)

  /** The lock that transaction `t` holds on row `r` after a history. */
  function Held(h: seq<Event>, t: TxnId, r: RowId): Mode {
    if h == [] then NoLock
    else
      var e := h[|h| - 1];
      if e.Access? || e.txn != t || e.row != r then Held(h[..|h| - 1], t, r)
      else if e.Grant? then e.mode
      else NoLock
  }

  /** Transaction `t` has given up some lock. */
  predicate Shrunk(h: seq<Event>, t: TxnId) {
    h != [] && ((h[|h| - 1].Release? && h[|h| - 1].txn == t) || Shrunk(h[..|h| - 1], t))
  }

  function Strength(m: Mode): nat {
    match m case NoLock => 0 case Shared => 1 case Exclusive => 2
  }

  predicate Compatible(a: Mode, b: Mode) {
    a == NoLock || b == NoLock || (a == Shared && b == Shared)
  }

  /** What may follow a history: a lock that conflicts with nobody's, taken by a transaction that has not begun to
      release and only ever strengthening what it holds; or an access under a lock strong enough for it. */
  ghost predicate Legal(h: seq<Event>, e: Event) {
    match e
    case Grant(t, r, m) =>
      && !Shrunk(h, t)
      && Strength(Held(h, t, r)) < Strength(m)
      && (forall u {:trigger Held(h, u, r)} :: u != t ==> Compatible(m, Held(h, u, r)))
    case Release(t, r) => true
    case Access(t, r, w) => Held(h, t, r) == Exclusive || (!w && Held(h, t, r) == Shared)
  }

  ghost predicate LegalHistory(h: seq<Event>) {
    forall i {:trigger LegalAt(h, i)} :: 0 <= i < |h| ==> LegalAt(h, i)
  }

  ghost predicate LegalAt(h: seq<Event>, i: nat)
    requires i < |h|
  {
    Legal(h[..i], h[i])
  }

  lemma LegalExtends(h: seq<Event>, e: Event)
    requires LegalHistory(h) && Legal(h, e)
    ensures LegalHistory(h + [e])
  {
    var h' := h + [e];
    forall i | 0 <= i < |h'| ensures LegalAt(h', i) {
      assert h'[..i] == h[..i];
      if i < |h| { assert LegalAt(h, i); } else { assert h[..i] == h; }
    }
  }

  // ---------------------------------------------------------------- mutual exclusion

  /** In a legal history no two transactions ever hold conflicting locks on a row. */
  lemma {:induction false} MutualExclusion(h: seq<Event>, n: nat, t: TxnId, u: TxnId, r: RowId)
    requires LegalHistory(h) && n <= |h| && t != u
    ensures Compatible(Held(h[..n], t, r), Held(h[..n], u, r))
  {
    if n > 0 {
      MutualExclusion(h, n - 1, t, u, r);
      assert LegalAt(h, n - 1);
      assert h[..n][..n - 1] == h[..n - 1];
    }
  }

  // ---------------------------------------------------------------- lock points

  /** One past the position of the last grant to `t`: the moment it holds the most locks. */
  function LockPoint(h: seq<Event>, t: TxnId): (p: nat)
    ensures p <= |h|
    ensures p > 0 ==> h[p - 1].Grant? && h[p - 1].txn == t
    ensures forall i :: p <= i < |h| ==> !(h[i].Grant? && h[i].txn == t)
  {
    if h == [] then 0
    else if h[|h| - 1].Grant? && h[|h| - 1].txn == t then |h|
    else LockPoint(h[..|h| - 1], t)
  }

  lemma {:induction false} ShrunkStays(h: seq<Event>, i: nat, n: nat, t: TxnId)
    requires i < n <= |h| && h[i].Release? && h[i].txn == t
    ensures Shrunk(h[..n], t)
    decreases n
  {
    assert h[..n][..n - 1] == h[..n - 1];
    if i < n - 1 { ShrunkStays(h, i, n - 1, t); }
  }

  /** Two phases: once `t` has released, it is past its lock point. */
  lemma ReleaseAfterLockPoint(h: seq<Event>, i: nat, t: TxnId)
    requires LegalHistory(h) && i < |h| && h[i].Release? && h[i].txn == t
    ensures LockPoint(h, t) <= i
  {
    var p := LockPoint(h, t);
    assert p > 0 ==> LegalAt(h, p - 1);
    if p > i + 1 {
      ShrunkStays(h, i, p - 1, t);
    }
  }

  /** A lock that `t` holds at i and no longer holds as strongly at n was released in between. */
  lemma {:induction false} LostLock(h: seq<Event>, i: nat, n: nat, t: TxnId, r: RowId) returns (p: nat)
    requires LegalHistory(h) && i <= n <= |h|
    requires Strength(Held(h[..n], t, r)) < Strength(Held(h[..i], t, r))
    ensures i <= p < n && h[p] == Release(t, r)
    decreases n
  {
    assert n > 0 ==> h[..n][..n - 1] == h[..n - 1];
    assert LegalAt(h, n - 1);
    if h[n - 1] == Release(t, r) {
      p := n - 1;
    } else {
      p := LostLock(h, i, n - 1, t, r);
    }
  }

  /** A lock that `t` does not hold as strongly at i as at n was granted in between. */
  lemma {:induction false} GainedLock(h: seq<Event>, i: nat, n: nat, t: TxnId, r: RowId) returns (g: nat)
    requires LegalHistory(h) && i <= n <= |h|
    requires Strength(Held(h[..i], t, r)) < Strength(Held(h[..n], t, r))
    ensures i <= g < n && h[g] == Grant(t, r, Held(h[..n], t, r))
    decreases n
  {
    assert n > 0 ==> h[..n][..n - 1] == h[..n - 1];
    if h[n - 1].Grant? && h[n - 1].txn == t && h[n - 1].row == r {
      g := n - 1;
    } else {
      g := GainedLock(h, i, n - 1, t, r);
    }
  }

  // ---------------------------------------------------------------- serializability

  /** Two accesses of one row by different transactions, at least one of them a write. */
  predicate Conflict(h: seq<Event>, i: int, j: int) {
    && 0 <= i < j < |h| && h[i].Access? && h[j].Access?
    && h[i].txn != h[j].txn && h[i].row == h[j].row && (h[i].write || h[j].write)
  }

  /** Conflicting accesses happen in the order of the lock points. */
  lemma ConflictFollowsLockPoints(h: seq<Event>, i: int, j: int)
    requires LegalHistory(h) && Conflict(h, i, j)
    ensures LockPoint(h, h[i].txn) < LockPoint(h, h[j].txn)
  {
    var t, u, r := h[i].txn, h[j].txn, h[i].row;
    assert LegalAt(h, i) && LegalAt(h, j);
    MutualExclusion(h, i, t, u, r);
    MutualExclusion(h, j, t, u, r);
    var g := GainedLock(h, i, j, u, r);
    assert LegalAt(h, g);
    MutualExclusion(h, g, t, u, r);
    var p := LostLock(h, i, g, t, r);
    ReleaseAfterLockPoint(h, p, t);
  }

  /** The precedence graph: some access of `t` comes before a conflicting access of `u`. */
  ghost predicate Precedes(h: seq<Event>, t: TxnId, u: TxnId) {
    exists i, j :: Conflict(h, i, j) && h[i].txn == t && h[j].txn == u
  }

  ghost predicate PrecedencePath(h: seq<Event>, path: seq<TxnId>) {
    forall i {:trigger path[i]} :: 0 <= i < |path| - 1 ==> Precedes(h, path[i], path[i + 1])
  }

  lemma {:induction false} PathClimbs(h: seq<Event>, path: seq<TxnId>)
    requires LegalHistory(h) && |path| >= 2 && PrecedencePath(h, path)
    ensures LockPoint(h, path[0]) < LockPoint(h, path[|path| - 1])
  {
    assert Precedes(h, path[0], path[1]);
    var i, j :| Conflict(h, i, j) && h[i].txn == path[0] && h[j].txn == path[1];
    ConflictFollowsLockPoints(h, i, j);
    if |path| > 2 {
      var rest := path[1..];
      forall k | 0 <= k < |rest| - 1 ensures Precedes(h, rest[k], rest[k + 1]) {
        assert rest[k] == path[k + 1];
      }
      PathClimbs(h, rest);
    }
  }

  /** Conflict-serializability: the precedence graph of a legal history has no cycle. */
  lemma ConflictSerializable(h: seq<Event>, path: seq<TxnId>)
    requires LegalHistory(h) && |path| >= 2 && PrecedencePath(h, path)
    ensures path[0] != path[|path| - 1]
  {
    PathClimbs(h, path);
  }
}
