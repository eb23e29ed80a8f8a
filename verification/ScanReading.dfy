/** What an index scan makes of a WHERE clause (src/executor/index_scan_executor.cpp:49-86), as a set of rows. It does
    not look at the connective; with a filter to follow, a side that finds nothing gives way to the other side. */
module ScanReadings {
  import opened TreePages
  import opened IndexIterators
  import opened Planner

  ghost predicate Fits(p: Predicate, table: Table, width: nat) {
    InSchema(p, width) && forall r <- table :: |table[r]| == width
  }

  /** The rows that the scan of clause `p` finds when the columns `cols` have an index. */
  ghost function Reading(cols: set<nat>, needFilter: bool, p: Predicate, table: Table, width: nat): (r: set<RowId>)
    requires Fits(p, table, width)
    ensures r <= table.Keys
  {
    match p
    case Cmp(c, op, v) => if c in cols then set x | x in table && Satisfies(table[x][c], op, v) else {}
    case And(l, r) =>
      Both(needFilter, Reading(cols, needFilter, l, table, width), Reading(cols, needFilter, r, table, width))
    case Or(l, r) =>
      Both(needFilter, Reading(cols, needFilter, l, table, width), Reading(cols, needFilter, r, table, width))
  }

  ghost function Both(needFilter: bool, a: set<RowId>, b: set<RowId>): set<RowId> {
    if needFilter && a == {} then b else if needFilter && b == {} then a else a * b
  }

  /** Every comparison is on an indexed column. */
  predicate Covered(cols: set<nat>, p: Predicate) { ColumnsOf(p) <= cols }

  /** Some comparison is. */
  predicate Touched(cols: set<nat>, p: Predicate) { exists c <- ColumnsOf(p) :: c in cols }

  /** Every comparison on an indexed column holds, whatever connects them. */
  predicate EveryIndexed(cols: set<nat>, p: Predicate, row: seq<Key>)
    requires InSchema(p, |row|)
  {
    match p
    case Cmp(c, op, v) => c in cols ==> Satisfies(row[c], op, v)
    case And(l, r) => EveryIndexed(cols, l, row) && EveryIndexed(cols, r, row)
    case Or(l, r) => EveryIndexed(cols, l, row) && EveryIndexed(cols, r, row)
  }

  /** No "or" has an indexed column under it. */
  predicate OrsUntouched(cols: set<nat>, p: Predicate) {
    match p
    case Cmp(_, _, _) => true
    case And(l, r) => OrsUntouched(cols, l) && OrsUntouched(cols, r)
    case Or(_, _) => !Touched(cols, p)
  }

  lemma {:induction false} HoldsOnIndexed(cols: set<nat>, p: Predicate, row: seq<Key>)
    requires InSchema(p, |row|)
    ensures !Touched(cols, p) ==> EveryIndexed(cols, p, row)
    ensures OrsUntouched(cols, p) && Holds(p, row) ==> EveryIndexed(cols, p, row)
  {
    if p.Cmp? {
      assert p.column in ColumnsOf(p);
    } else {
      HoldsOnIndexed(cols, p.left, row);
      HoldsOnIndexed(cols, p.right, row);
    }
  }

  /** Without a filter: the rows meeting every comparison when all are indexed, else nothing. */
  lemma {:induction false} UnfilteredReading(cols: set<nat>, p: Predicate, table: Table, width: nat)
    requires Fits(p, table, width)
    ensures forall r :: r in Reading(cols, false, p, table, width) <==>
              r in table && Covered(cols, p) && Every(p, table[r])
  {
    if !p.Cmp? {
      UnfilteredReading(cols, p.left, table, width);
      UnfilteredReading(cols, p.right, table, width);
    }
  }

  /** With a filter: nothing when no comparison is indexed, else at least the rows meeting every indexed one. */
  lemma {:induction false} FilteredReading(cols: set<nat>, p: Predicate, table: Table, width: nat)
    requires Fits(p, table, width)
    ensures !Touched(cols, p) ==> Reading(cols, true, p, table, width) == {}
    ensures Touched(cols, p) ==>
              forall r <- table :: EveryIndexed(cols, p, table[r]) ==> r in Reading(cols, true, p, table, width)
  {
    if p.Cmp? {
      assert p.column in ColumnsOf(p);
    } else {
      FilteredReading(cols, p.left, table, width);
      FilteredReading(cols, p.right, table, width);
    }
  }

  /** The scan finds every row that meets the clause. */
  ghost predicate FindsAll(cols: set<nat>, needFilter: bool, p: Predicate, table: Table, width: nat)
    requires Fits(p, table, width)
  {
    forall r <- table :: Holds(p, table[r]) ==> r in Reading(cols, needFilter, p, table, width)
  }

  /** Without a filter that is exactly: the indexes cover the clause, and no row meets it without meeting every
      comparison; or no row meets it at all. */
  lemma UnfilteredFindsAll(cols: set<nat>, p: Predicate, table: Table, width: nat)
    requires Fits(p, table, width)
    ensures FindsAll(cols, false, p, table, width) <==>
              forall r <- table :: Holds(p, table[r]) ==> Covered(cols, p) && Every(p, table[r])
  {
    UnfilteredReading(cols, p, table, width);
  }

  /** On every table at once: it is enough that no "or" has an indexed column under it, and that some comparison is
      indexed, or all are when no filter follows. */
  lemma GuardedFindsAll(cols: set<nat>, needFilter: bool, p: Predicate, table: Table, width: nat)
    requires Fits(p, table, width) && OrsUntouched(cols, p)
    requires if needFilter then Touched(cols, p) else Covered(cols, p)
    ensures FindsAll(cols, needFilter, p, table, width)
  {
    UnfilteredReading(cols, p, table, width);
    FilteredReading(cols, p, table, width);
    CoveredOrs(cols, p);
    forall r | r in table && Holds(p, table[r]) ensures r in Reading(cols, needFilter, p, table, width) {
      HoldsOnIndexed(cols, p, table[r]);
      EveryHolds(p, table[r]);
    }
  }

  /** A covered clause without an indexed column under an "or" has no "or". */
  lemma {:induction false} CoveredOrs(cols: set<nat>, p: Predicate)
    ensures ColumnsOf(p) != {}
    ensures Covered(cols, p) && OrsUntouched(cols, p) ==> OrFree(p)
  {
    if !p.Cmp? {
      CoveredOrs(cols, p.left);
      CoveredOrs(cols, p.right);
    }
  }

  /** With a filter, too, a nested "or" loses rows: both its sides find something, and only what they share is kept. */
  lemma FilteredOrLosesRow()
    ensures var where, table := And(Or(Cmp(0, Ge, 1), Cmp(0, Ge, 2)), Cmp(1, Eq, 3)), map[10 := [1, 3], 20 := [2, 4]];
            && NeedsFilter([[0]], where) && AnyIndexed([[0]], where) && Fits(where, table, 2)
            && Holds(where, table[10]) && 10 !in Reading({0}, true, where, table, 2)
  {
    var one, two, last := Cmp(0, Ge, 1), Cmp(0, Ge, 2), Cmp(1, Eq, 3);
    var either := Or(one, two);
    var where, table: Table := And(either, last), map[10 := [1, 3], 20 := [2, 4]];
    var schemas: seq<KeySchema> := [[0]];
    assert ColumnsOf(either) == {0} && ColumnsOf(where) == {0, 1};
    assert UsableIndexes(schemas, where) == {0};
    assert HasIndex(schemas, 0) && 0 in ColumnsOf(where);
    assert InSchema(either, 2) && InSchema(last, 2);
    assert Holds(either, [1, 3]);
    assert 20 in Reading({0}, true, one, table, 2) && 20 in Reading({0}, true, two, table, 2);
    assert 20 in Reading({0}, true, either, table, 2) && 10 !in Reading({0}, true, two, table, 2);
    assert Reading({0}, true, last, table, 2) == {};
  }
}
