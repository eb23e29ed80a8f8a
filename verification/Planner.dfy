/** WHERE clauses and the choice between a sequential and an index scan (src/planner/planner.cpp,
    src/include/planner/statement/abstract_statement.h). */
module Planner {
  import opened Common
  import opened TreePages
  import opened IndexIterators

  type Table = map<RowId, seq<Key>>

  /** A bound WHERE clause over non-null columns; `And` and `Or` are LogicExpression, `Cmp` compares a column with a
      constant. */
  datatype Predicate =
    | Cmp(column: nat, op: Comparison, value: Key)
    | And(left: Predicate, right: Predicate)
    | Or(left: Predicate, right: Predicate)

  predicate InSchema(p: Predicate, width: nat) {
    match p
    case Cmp(c, _, _) => c < width
    case And(l, r) => InSchema(l, width) && InSchema(r, width)
    case Or(l, r) => InSchema(l, width) && InSchema(r, width)
  }

  /** Evaluate: does the row meet the clause? */
  predicate Holds(p: Predicate, row: seq<Key>)
    requires InSchema(p, |row|)
  {
    match p
    case Cmp(c, op, v) => Satisfies(row[c], op, v)
    case And(l, r) => Holds(l, row) && Holds(r, row)
    case Or(l, r) => Holds(l, row) || Holds(r, row)
  }

  /** Every comparison in the clause holds, whatever connects them. */
  predicate Every(p: Predicate, row: seq<Key>)
    requires InSchema(p, |row|)
  {
    match p
    case Cmp(c, op, v) => Satisfies(row[c], op, v)
    case And(l, r) => Every(l, row) && Every(r, row)
    case Or(l, r) => Every(l, row) && Every(r, row)
  }

  predicate OrFree(p: Predicate) {
    match p
    case Cmp(_, _, _) => true
    case And(l, r) => OrFree(l) && OrFree(r)
    case Or(_, _) => false
  }

  lemma {:induction false} EveryHolds(p: Predicate, row: seq<Key>)
    requires InSchema(p, |row|)
    ensures Every(p, row) ==> Holds(p, row)
    ensures OrFree(p) ==> (Every(p, row) <==> Holds(p, row))
  {
    if !p.Cmp? {
      EveryHolds(p.left, row);
      EveryHolds(p.right, row);
    }
  }

  // ---------------------------------------------------------------- statement

  function ColumnsOf(p: Predicate): set<nat> {
    match p
    case Cmp(c, _, _) => {c}
    case And(l, r) => ColumnsOf(l) + ColumnsOf(r)
    case Or(l, r) => ColumnsOf(l) + ColumnsOf(r)
  }

  /** MakePredicate's record of the columns it meets, each once, in order of appearance. */
  method CollectColumns(p: Predicate, seen: seq<nat>) returns (columns: seq<nat>)
    requires Distinct(seen)
    ensures Distinct(columns)
    ensures forall c :: c in columns <==> c in seen || c in ColumnsOf(p)
  {
    match p
    case Cmp(c, _, _) =>
      columns := if c in seen then seen else seen + [c];
    case And(l, r) =>
      columns := CollectColumns(l, seen);
      columns := CollectColumns(r, columns);
    case Or(l, r) =>
      columns := CollectColumns(l, seen);
      columns := CollectColumns(r, columns);
  }

  // ---------------------------------------------------------------- plan

  /** The key columns of an index of the table. */
  type KeySchema = seq<nat>

  predicate Usable(index: KeySchema, columns: seq<nat>) { |index| == 1 && index[0] in columns }

  /** `available` holds the positions of the usable indexes, in order. */
  datatype Plan = SeqScan | IndexScan(available: seq<nat>, needFilter: bool)

  ghost predicate Picks(available: seq<nat>, indexes: seq<KeySchema>, upTo: nat, columns: seq<nat>)
    requires upTo <= |indexes|
  {
    && Distinct(available)
    && forall i :: i in available <==> 0 <= i < upTo && Usable(indexes[i], columns)
  }

  /** Is there an index on column c alone? */
  predicate HasIndex(indexes: seq<KeySchema>, c: nat) { [c] in indexes }

  predicate AllIndexed(indexes: seq<KeySchema>, p: Predicate) {
    forall c <- ColumnsOf(p) :: HasIndex(indexes, c)
  }

  predicate AnyIndexed(indexes: seq<KeySchema>, p: Predicate) {
    exists c <- ColumnsOf(p) :: HasIndex(indexes, c)
  }

  /** The single-column indexes on columns of the clause. */
  function UsableIndexes(indexes: seq<KeySchema>, p: Predicate): set<nat> {
    set i: nat | i < |indexes| && |indexes[i]| == 1 && indexes[i][0] in ColumnsOf(p)
  }

  /** The planner's test for a clause that the indexes do not answer by themselves: it compares two counts. */
  predicate NeedsFilter(indexes: seq<KeySchema>, p: Predicate) {
    |UsableIndexes(indexes, p)| != |ColumnsOf(p)|
  }

  /** The scan chosen for a WHERE clause. The flag for "or" is only ever set by the topmost connector. */
  method PlanSelect(indexes: seq<KeySchema>, where: Predicate) returns (plan: Plan)
    ensures plan.IndexScan? <==> AnyIndexed(indexes, where) && !where.Or?
    ensures plan.IndexScan? ==> plan.needFilter == NeedsFilter(indexes, where)
    ensures plan.IndexScan? ==> Distinct(plan.available)
    ensures plan.IndexScan? ==> forall i :: i in plan.available <==> i in UsableIndexes(indexes, where)
  {
    var columns := CollectColumns(where, []);
    var available: seq<nat> := [];
    for i := 0 to |indexes|
      invariant Picks(available, indexes, i, columns)
    {
      if Usable(indexes[i], columns) {
        available := available + [i];
      }
    }
    AvailableMeansIndexed(indexes, where, columns, available);
    DistinctCount(available, UsableIndexes(indexes, where));
    DistinctCount(columns, ColumnsOf(where));
    if available == [] || where.Or? {
      return SeqScan;
    }
    plan := IndexScan(available, |available| != |columns|);
  }

  lemma AvailableMeansIndexed(indexes: seq<KeySchema>, where: Predicate, columns: seq<nat>, available: seq<nat>)
    requires Picks(available, indexes, |indexes|, columns) && forall c :: c in columns <==> c in ColumnsOf(where)
    ensures available != [] <==> AnyIndexed(indexes, where)
  {
    if available != [] {
      assert available[0] in available;
      assert indexes[available[0]] == [indexes[available[0]][0]];
    }
    if AnyIndexed(indexes, where) {
      var c :| c in ColumnsOf(where) && HasIndex(indexes, c);
      var i :| 0 <= i < |indexes| && indexes[i] == [c];
      assert Usable(indexes[i], columns);
    }
  }

  lemma {:induction false} DistinctCount(s: seq<nat>, elements: set<nat>)
    requires Distinct(s) && forall x :: x in s <==> x in elements
    ensures |s| == |elements|
  {
    if s == [] {
      assert elements == {};
    } else {
      var n := |s| - 1;
      assert forall x :: x in s <==> x in s[..n] || x == s[n];
      DistinctCount(s[..n], elements - {s[n]});
    }
  }

  // ---------------------------------------------------------------- when the two counts mean what they should

  /** No column of the clause has two indexes of its own. */
  predicate OneIndexEach(indexes: seq<KeySchema>, p: Predicate) {
    forall i, j ::
      i in UsableIndexes(indexes, p) && j in UsableIndexes(indexes, p) && indexes[i] == indexes[j] ==> i == j
  }

  ghost function IndexedColumns(indexes: seq<KeySchema>, picked: set<nat>): set<nat>
    requires forall i <- picked :: i < |indexes| && |indexes[i]| == 1
  {
    set i | i in picked :: indexes[i][0]
  }

  /** Indexes on different columns are as many as their columns. */
  lemma {:induction false} OneColumnPerIndex(indexes: seq<KeySchema>, picked: set<nat>)
    requires forall i <- picked :: i < |indexes| && |indexes[i]| == 1
    requires forall i, j :: i in picked && j in picked && indexes[i] == indexes[j] ==> i == j
    ensures |IndexedColumns(indexes, picked)| == |picked|
    decreases |picked|
  {
    if i :| i in picked {
      var rest := picked - {i};
      OneColumnPerIndex(indexes, rest);
      assert indexes[i] == [indexes[i][0]];
      forall j | j in rest ensures indexes[j][0] != indexes[i][0] {
        assert indexes[j] == [indexes[j][0]];
      }
      assert IndexedColumns(indexes, picked) == IndexedColumns(indexes, rest) + {indexes[i][0]};
    } else {
      assert picked == {} && IndexedColumns(indexes, picked) == {};
    }
  }

  lemma SubsetCount(a: set<nat>, b: set<nat>)
    requires a <= b
    ensures |a| <= |b| && (|a| == |b| <==> a == b)
  {
    assert b == a + (b - a);
    assert |b| == |a| + |b - a|;
  }

  /** Without duplicate indexes the count tells exactly whether the indexes cover the clause. */
  lemma CountDecidesCoverage(indexes: seq<KeySchema>, p: Predicate)
    requires OneIndexEach(indexes, p)
    ensures NeedsFilter(indexes, p) <==> !AllIndexed(indexes, p)
  {
    var picked := UsableIndexes(indexes, p);
    var covered := IndexedColumns(indexes, picked);
    OneColumnPerIndex(indexes, picked);
    SubsetCount(covered, ColumnsOf(p));
    forall c | c in ColumnsOf(p) ensures c in covered <==> HasIndex(indexes, c) {
      if c in covered {
        var i :| i in picked && indexes[i][0] == c;
        assert indexes[i] == [c];
      }
      if HasIndex(indexes, c) {
        var i :| 0 <= i < |indexes| && indexes[i] == [c];
        assert i in picked;
      }
    }
  }
}
