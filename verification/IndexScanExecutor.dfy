/** Answering a WHERE clause through indexes (src/executor/index_scan_executor.cpp), against the sequential scan
    (src/executor/seq_scan_executor.cpp). */
module IndexScanExecutors {
  import opened Common
  import opened TreePages
  import opened BPlusTrees
  import opened IndexIterators
  import opened Planner
  import opened ScanReadings

  // ---------------------------------------------------------------- sorted lists of row ids

  ghost predicate Increasing(s: seq<RowId>) {
    forall i, j :: 0 <= i < j < |s| ==> s[i] < s[j]
  }

  lemma IncreasingFrom(x: RowId, s: seq<RowId>)
    requires Increasing(s) && forall y <- s :: x < y
    ensures Increasing([x] + s)
  {
    forall i, j | 0 <= i < j < |[x] + s| ensures ([x] + s)[i] < ([x] + s)[j] {
      assert s[j - 1] in s;
    }
  }

  function InsertInto(s: seq<RowId>, x: RowId): (r: seq<RowId>)
    requires Increasing(s) && x !in s
    ensures Increasing(r)
    ensures forall y :: y in r <==> y in s || y == x
  {
    if s == [] then [x]
    else if x < s[0] then [x] + s
    else
      assert forall y :: y in s <==> y == s[0] || y in s[1..];
      var r := InsertInto(s[1..], x);
      IncreasingFrom(s[0], r);
      [s[0]] + r
  }

  /** std::sort of a list without repetitions. */
  function Sorted(s: seq<RowId>): (r: seq<RowId>)
    requires Distinct(s)
    ensures Increasing(r)
    ensures forall y :: y in r <==> y in s
  {
    if s == [] then []
    else
      assert forall y :: y in s <==> y == s[0] || y in s[1..];
      InsertInto(Sorted(s[1..]), s[0])
  }

  /** std::set_intersection. */
  function Intersection(a: seq<RowId>, b: seq<RowId>): (r: seq<RowId>)
    requires Increasing(a) && Increasing(b)
    ensures Increasing(r)
    ensures forall y :: y in r <==> y in a && y in b
    decreases |a| + |b|
  {
    if a == [] || b == [] then []
    else
      assert forall y :: y in a <==> y == a[0] || y in a[1..];
      assert forall y :: y in b <==> y == b[0] || y in b[1..];
      if a[0] < b[0] then Intersection(a[1..], b)
      else if b[0] < a[0] then Intersection(a, b[1..])
      else
        var r := Intersection(a[1..], b[1..]);
        IncreasingFrom(a[0], r);
        [a[0]] + r
  }

  // ---------------------------------------------------------------- one comparison

  /** The index holds the rows of the table under their value in column c, and nothing else. */
  ghost predicate Complete(content: map<Key, RowId>, c: nat, table: Table, width: nat) {
    && (forall r <- table :: |table[r]| == width) && c < width
    && (forall r <- table :: table[r][c] in content && content[table[r][c]] == r)
    && (forall k <- content :: content[k] in table && table[content[k]][c] == k)
  }

  /** `rows` lists, each once, the rows of the table that satisfy the comparison. */
  ghost predicate Selects(rows: seq<RowId>, table: Table, p: Predicate, width: nat)
    requires Fits(p, table, width)
  {
    Distinct(rows) && forall r :: r in rows <==> r in table && Every(p, table[r])
  }

  lemma ScanSelects(ks: seq<Key>, content: map<Key, RowId>, p: Predicate, table: Table, width: nat)
    requires p.Cmp? && InSchema(p, width) && Complete(content, p.column, table, width)
    requires Answers(ks, content, p.op, p.value)
    ensures Selects(Values(ks, content), table, p, width)
  {
    var rows := Values(ks, content);
    forall i, j | 0 <= i < j < |rows| ensures rows[i] != rows[j] {
      assert ks[i] < ks[j];
      assert table[content[ks[i]]][p.column] == ks[i] && table[content[ks[j]]][p.column] == ks[j];
    }
    forall r ensures r in rows <==> r in table && Every(p, table[r]) {
      if r in table && Every(p, table[r]) {
        var k := table[r][p.column];
        assert k in ks;
        var i :| 0 <= i < |ks| && ks[i] == k;
        assert rows[i] == r;
      }
      if r in rows {
        var i :| 0 <= i < |rows| && rows[i] == r;
        assert ks[i] in ks;
      }
    }
  }

  lemma SameElements(a: seq<RowId>, b: seq<RowId>)
    requires multiset(a) == multiset(b) && Distinct(b)
    ensures Distinct(a) && forall x :: x in a <==> x in b
  {
    forall x ensures x in a <==> x in b {
      assert x in multiset(a) <==> x in multiset(b);
    }
    forall x | x in multiset(b) ensures multiset(b)[x] == 1 { OnceEach(b, x); }
    forall i, j | 0 <= i < j < |a| ensures a[i] != a[j] {
      TwiceThere(a, i, j);
    }
  }

  lemma TwiceThere(s: seq<RowId>, i: nat, j: nat)
    requires i < j < |s|
    ensures s[i] == s[j] ==> multiset(s)[s[j]] >= 2
  {
    assert s == s[..j] + [s[j]] + s[j + 1..];
    assert s[i] in s[..j] && s[i] in multiset(s[..j]);
  }

  lemma {:induction false} OnceEach(s: seq<RowId>, x: RowId)
    requires Distinct(s)
    ensures multiset(s)[x] == if x in s then 1 else 0
  {
    if s != [] {
      var n := |s| - 1;
      OnceEach(s[..n], x);
      assert s == s[..n] + [s[n]];
    }
  }

  // ---------------------------------------------------------------- a clause

  /** An index the plan uses: the column of its one-column key, and the tree. */
  datatype IndexInfo = IndexInfo(column: nat, tree: BPlusTree)

  ghost predicate Ready(indexes: seq<IndexInfo>, table: Table, width: nat)
    reads set i | 0 <= i < |indexes| :: indexes[i].tree
  {
    && (forall r <- table :: |table[r]| == width)
    && forall i :: 0 <= i < |indexes| ==>
         indexes[i].tree.Valid() && Complete(indexes[i].tree.content, indexes[i].column, table, width)
  }

  function Columns(indexes: seq<IndexInfo>): set<nat> { set i | 0 <= i < |indexes| :: indexes[i].column }

  /** `rows` lists, each once, exactly the rows of the clause's reading. */
  ghost predicate Found(rows: seq<RowId>, cols: set<nat>, needFilter: bool, p: Predicate, table: Table, width: nat)
    requires Fits(p, table, width)
  {
    Distinct(rows) && forall r :: r in rows <==> r in Reading(cols, needFilter, p, table, width)
  }

  /** The lists of the two sides combine as their sets do. */
  lemma FoundBoth(lhs: seq<RowId>, rhs: seq<RowId>, rows: seq<RowId>, cols: set<nat>, needFilter: bool, p: Predicate,
                  table: Table, width: nat)
    requires !p.Cmp? && Fits(p, table, width)
    requires Found(lhs, cols, needFilter, p.left, table, width) && Found(rhs, cols, needFilter, p.right, table, width)
    requires rows == if needFilter && lhs == [] then rhs else if needFilter && rhs == [] then lhs
                     else Intersection(Sorted(lhs), Sorted(rhs))
    ensures Found(rows, cols, needFilter, p, table, width)
  {
    SameEmpty(lhs, Reading(cols, needFilter, p.left, table, width));
    SameEmpty(rhs, Reading(cols, needFilter, p.right, table, width));
  }

  lemma SameEmpty(s: seq<RowId>, rows: set<RowId>)
    requires forall r :: r in s <==> r in rows
    ensures s == [] <==> rows == {}
  {
    if s == [] {
      assert forall r :: r !in rows;
    } else {
      var r: RowId := s[0];
      assert r in s;
    }
  }

  method ScanComparison(indexes: seq<IndexInfo>, p: Predicate, needFilter: bool, ghost table: Table, ghost width: nat)
    returns (rows: seq<RowId>)
    requires Ready(indexes, table, width) && p.Cmp? && Fits(p, table, width)
    modifies (set i | 0 <= i < |indexes| :: indexes[i].tree)`pins
    ensures forall i :: 0 <= i < |indexes| ==> indexes[i].tree.pins == old(indexes[i].tree.pins)
    ensures Found(rows, Columns(indexes), needFilter, p, table, width)
  {
    rows := [];
    for i := 0 to |indexes|
      invariant rows == [] && (forall j :: 0 <= j < i ==> indexes[j].column != p.column)
      invariant forall j :: 0 <= j < |indexes| ==> indexes[j].tree.pins == old(indexes[j].tree.pins)
    {
      if indexes[i].column == p.column {
        var tree := indexes[i].tree;
        var result, found, ks := ScanKey(tree, p.value, p.op, []);
        ScanSelects(ks, tree.content, p, table, width);
        SameElements(result, Values(ks, tree.content));
        return result;
      }
    }
  }

  method IndexScan(indexes: seq<IndexInfo>, needFilter: bool, p: Predicate, ghost table: Table, ghost width: nat)
    returns (rows: seq<RowId>)
    requires Ready(indexes, table, width) && Fits(p, table, width)
    modifies (set i | 0 <= i < |indexes| :: indexes[i].tree)`pins
    ensures forall i :: 0 <= i < |indexes| ==> indexes[i].tree.pins == old(indexes[i].tree.pins)
    ensures Found(rows, Columns(indexes), needFilter, p, table, width)
    decreases p
  {
    if p.Cmp? {
      rows := ScanComparison(indexes, p, needFilter, table, width);
    } else {
      var lhs := IndexScan(indexes, needFilter, p.left, table, width);
      var rhs := IndexScan(indexes, needFilter, p.right, table, width);
      rows := if needFilter && lhs == [] then rhs else if needFilter && rhs == [] then lhs
              else Intersection(Sorted(lhs), Sorted(rhs));
      FoundBoth(lhs, rhs, rows, Columns(indexes), needFilter, p, table, width);
    }
  }

  // ---------------------------------------------------------------- executors

  ghost predicate Known(rows: seq<RowId>, p: Predicate, table: Table) {
    forall i :: 0 <= i < |rows| ==> rows[i] in table && InSchema(p, |table[rows[i]]|)
  }

  /** The rows of a list that meet the clause, in the order of the list. */
  function Meeting(rows: seq<RowId>, p: Predicate, table: Table): (r: seq<RowId>)
    requires Known(rows, p, table)
    ensures forall x :: x in r <==> x in rows && Holds(p, table[x])
    ensures Distinct(rows) ==> Distinct(r)
  {
    if rows == [] then []
    else
      var n := |rows| - 1;
      assert rows == rows[..n] + [rows[n]];
      Meeting(rows[..n], p, table) + (if Holds(p, table[rows[n]]) then [rows[n]] else [])
  }

  lemma MeetingNext(rows: seq<RowId>, n: nat, p: Predicate, table: Table)
    requires Known(rows, p, table) && n < |rows|
    ensures rows[..n + 1] == rows[..n] + [rows[n]]
    ensures Meeting(rows[..n + 1], p, table) ==
            if Holds(p, table[rows[n]]) then Meeting(rows[..n], p, table) + [rows[n]] else Meeting(rows[..n], p, table)
  {
    assert rows[..n + 1][..n] == rows[..n];
  }

  class IndexScanExecutor {
    const needFilter: bool
    const where: Predicate
    const table: Table
    const result: seq<RowId>
    var cursor: nat

    ghost predicate Valid()
      reads this
    {
      cursor <= |result| && Known(result, where, table)
    }

    constructor (needFilter: bool, where: Predicate, table: Table, result: seq<RowId>)
      requires Known(result, where, table)
      ensures Valid() && this.needFilter == needFilter && this.where == where && this.table == table
      ensures this.result == result && cursor == 0
    {
      this.needFilter, this.where, this.table, this.result := needFilter, where, table, result;
      cursor := 0;
    }

    /** What the executor hands out from the rows it has passed. */
    ghost function Passed(): seq<RowId>
      requires Valid()
      reads this
    {
      if needFilter then Meeting(result[..cursor], where, table) else result[..cursor]
    }

    /** The next row that is not filtered out, if any is left. */
    method Next() returns (found: bool, rid: RowId)
      requires Valid()
      modifies `cursor
      ensures Valid()
      ensures found ==> Passed() == old(Passed()) + [rid] && cursor > old(cursor)
      ensures !found ==> Passed() == old(Passed()) && cursor == |result|
    {
      rid := 0;
      while cursor < |result|
        invariant Valid() && Passed() == old(Passed()) && cursor >= old(cursor)
        decreases |result| - cursor
      {
        found, rid := Step();
        if found {
          return;
        }
      }
      found := false;
    }

    /** One turn of the loop in Next: the row under the cursor is handed out or filtered out. */
    method Step() returns (hit: bool, rid: RowId)
      requires Valid() && cursor < |result|
      modifies `cursor
      ensures Valid() && cursor == old(cursor) + 1
      ensures Passed() == if hit then old(Passed()) + [rid] else old(Passed())
    {
      MeetingNext(result, cursor, where, table);
      rid := result[cursor];
      hit := !needFilter || Holds(where, table[rid]);
      cursor := cursor + 1;
    }

    method Drain() returns (rows: seq<RowId>)
      requires Valid() && cursor == 0
      modifies `cursor
      ensures Valid() && cursor == |result| && rows == Passed()
    {
      rows := [];
      var found, rid := Next();
      while found
        invariant Valid() && (if found then Passed() == rows + [rid] else Passed() == rows && cursor == |result|)
        decreases |result| - cursor + (if found then 1 else 0)
      {
        rows := rows + [rid];
        found, rid := Next();
      }
    }
  }

  /** The rows of the table that meet the clause, each once. */
  ghost predicate Exactly(rows: seq<RowId>, p: Predicate, table: Table, width: nat)
    requires Fits(p, table, width)
  {
    Distinct(rows) && forall r :: r in rows <==> r in table && Holds(p, table[r])
  }

  /** The sequential scan, over the rows in heap order. */
  method SeqScan(heap: seq<RowId>, p: Predicate, table: Table, ghost width: nat) returns (rows: seq<RowId>)
    requires Fits(p, table, width) && Distinct(heap) && forall r :: r in heap <==> r in table
    ensures Exactly(rows, p, table, width)
  {
    rows := [];
    for i := 0 to |heap|
      invariant rows == Meeting(heap[..i], p, table)
    {
      assert heap[..i + 1][..i] == heap[..i];
      if Holds(p, table[heap[i]]) {
        rows := rows + [heap[i]];
      }
    }
    assert heap[..|heap|] == heap;
  }

  method RunIndexScan(indexes: seq<IndexInfo>, needFilter: bool, p: Predicate, table: Table, ghost width: nat)
    returns (rows: seq<RowId>)
    requires Ready(indexes, table, width) && Fits(p, table, width)
    modifies (set i | 0 <= i < |indexes| :: indexes[i].tree)`pins
    ensures forall i :: 0 <= i < |indexes| ==> indexes[i].tree.pins == old(indexes[i].tree.pins)
    ensures Distinct(rows) && forall r <- rows :: r in table && Holds(p, table[r])
    ensures forall r :: r in rows <==> r in Reading(Columns(indexes), needFilter, p, table, width) && Holds(p, table[r])
    ensures Exactly(rows, p, table, width) <==> FindsAll(Columns(indexes), needFilter, p, table, width)
  {
    var result := IndexScan(indexes, needFilter, p, table, width);
    forall i | 0 <= i < |result| ensures result[i] in table && InSchema(p, |table[result[i]]|) {
      var r: RowId := result[i];
      assert r in result;
    }
    var executor := new IndexScanExecutor(needFilter, p, table, result);
    rows := executor.Drain();
    assert result[..|result|] == result;
    UnfilteredReading(Columns(indexes), p, table, width);
    forall r | r in table ensures Every(p, table[r]) ==> Holds(p, table[r]) {
      EveryHolds(p, table[r]);
    }
  }

  // ---------------------------------------------------------------- planner and executor together

  /** The indexes the plan names, with their trees. */
  function Named(available: seq<nat>, schemas: seq<KeySchema>, trees: seq<BPlusTree>): (r: seq<IndexInfo>)
    requires |schemas| == |trees|
    requires forall k :: 0 <= k < |available| ==> available[k] < |schemas| && |schemas[available[k]]| == 1
    ensures |r| == |available|
  {
    seq(|available|, k requires 0 <= k < |available| => IndexInfo(schemas[available[k]][0], trees[available[k]]))
  }

  /** The columns of a clause that have an index of their own. */
  function IndexedIn(schemas: seq<KeySchema>, where: Predicate): set<nat> {
    set c | c in ColumnsOf(where) && HasIndex(schemas, c)
  }

  lemma NamedColumns(available: seq<nat>, schemas: seq<KeySchema>, trees: seq<BPlusTree>, where: Predicate)
    requires |schemas| == |trees|
    requires forall i :: i in available <==> i in UsableIndexes(schemas, where)
    requires forall k :: 0 <= k < |available| ==> available[k] < |schemas| && |schemas[available[k]]| == 1
    ensures Columns(Named(available, schemas, trees)) == IndexedIn(schemas, where)
  {
    var indexes := Named(available, schemas, trees);
    forall c ensures c in Columns(indexes) <==> c in IndexedIn(schemas, where) {
      if c in Columns(indexes) {
        var k :| 0 <= k < |indexes| && indexes[k].column == c;
        assert available[k] in available && schemas[available[k]] == [c];
      }
      if c in IndexedIn(schemas, where) {
        var i :| 0 <= i < |schemas| && schemas[i] == [c];
        assert i in available;
        var k :| 0 <= k < |available| && available[k] == i;
        assert indexes[k].column == c;
      }
    }
  }

  /** The conditions on indexes that the planner and the guard name are the ones the reading depends on. */
  lemma {:induction false} SchemaCoverage(schemas: seq<KeySchema>, where: Predicate, p: Predicate)
    requires ColumnsOf(p) <= ColumnsOf(where)
    ensures Covered(IndexedIn(schemas, where), p) <==> AllIndexed(schemas, p)
    ensures Touched(IndexedIn(schemas, where), p) <==> AnyIndexed(schemas, p)
    ensures OrsUntouched(IndexedIn(schemas, where), p) <==> OrsUnindexed(schemas, p)
    decreases p
  {
    if !p.Cmp? {
      SchemaCoverage(schemas, where, p.left);
      SchemaCoverage(schemas, where, p.right);
    }
  }

  /** No "or" has a column with an index of its own under it. */
  predicate OrsUnindexed(schemas: seq<KeySchema>, p: Predicate) {
    match p
    case Cmp(_, _, _) => true
    case And(l, r) => OrsUnindexed(schemas, l) && OrsUnindexed(schemas, r)
    case Or(_, _) => !AnyIndexed(schemas, p)
  }

  /** The guard under which the chosen plan answers a clause correctly on every table. */
  predicate Safe(schemas: seq<KeySchema>, where: Predicate) {
    || where.Or?
    || !AnyIndexed(schemas, where)
    || (OrsUnindexed(schemas, where) && (NeedsFilter(schemas, where) || AllIndexed(schemas, where)))
  }

  ghost predicate AllReady(schemas: seq<KeySchema>, trees: seq<BPlusTree>, table: Table, width: nat)
    requires |schemas| == |trees|
    reads set i | 0 <= i < |trees| :: trees[i]
  {
    && (forall r <- table :: |table[r]| == width)
    && forall i :: 0 <= i < |trees| && |schemas[i]| == 1 ==>
         trees[i].Valid() && Complete(trees[i].content, schemas[i][0], table, width)
  }

  /** What the plan for a clause finds on a table: everything by a sequential scan, else the reading of the clause. */
  ghost predicate PlanFindsAll(schemas: seq<KeySchema>, where: Predicate, table: Table, width: nat)
    requires Fits(where, table, width)
  {
    || where.Or?
    || !AnyIndexed(schemas, where)
    || FindsAll(IndexedIn(schemas, where), NeedsFilter(schemas, where), where, table, width)
  }

  /** A SELECT from plan to rows. No row that fails the clause is ever returned; all that meet it are, if and only if
      the clause is scanned sequentially or its reading has them all. */
  method Select(schemas: seq<KeySchema>, trees: seq<BPlusTree>, heap: seq<RowId>, where: Predicate, table: Table,
                ghost width: nat)
    returns (rows: seq<RowId>)
    requires |schemas| == |trees| && AllReady(schemas, trees, table, width) && Fits(where, table, width)
    requires Distinct(heap) && forall r :: r in heap <==> r in table
    modifies (set i | 0 <= i < |trees| :: trees[i])`pins
    ensures forall i :: 0 <= i < |trees| ==> trees[i].pins == old(trees[i].pins)
    ensures Distinct(rows) && forall r <- rows :: r in table && Holds(where, table[r])
    ensures Exactly(rows, where, table, width) <==> PlanFindsAll(schemas, where, table, width)
    ensures Safe(schemas, where) ==> Exactly(rows, where, table, width)
    ensures !where.Or? && AnyIndexed(schemas, where) && !NeedsFilter(schemas, where) ==>
              forall r :: r in rows <==> r in table && AllIndexed(schemas, where) && Every(where, table[r])
    ensures OrFree(where) ==> (Exactly(rows, where, table, width) <==>
                               Safe(schemas, where) || forall r <- table :: !Holds(where, table[r]))
  {
    SelectFacts(schemas, where, table, width);
    var plan := PlanSelect(schemas, where);
    match plan
    case SeqScan =>
      rows := SeqScan(heap, where, table, width);
    case IndexScan(available, needFilter) =>
      forall k | 0 <= k < |available| ensures available[k] < |schemas| && |schemas[available[k]]| == 1 {
        assert available[k] in available;
      }
      var indexes := Named(available, schemas, trees);
      NamedColumns(available, schemas, trees, where);
      rows := RunIndexScan(indexes, needFilter, where, table, width);
  }

  lemma SelectFacts(schemas: seq<KeySchema>, where: Predicate, table: Table, width: nat)
    requires Fits(where, table, width)
    ensures Safe(schemas, where) ==> PlanFindsAll(schemas, where, table, width)
    ensures !where.Or? && AnyIndexed(schemas, where) && !NeedsFilter(schemas, where) ==>
              forall r :: r in Reading(IndexedIn(schemas, where), false, where, table, width) <==>
                          r in table && AllIndexed(schemas, where) && Every(where, table[r])
    ensures forall r <- table :: Every(where, table[r]) ==> Holds(where, table[r])
    ensures OrFree(where) ==> (PlanFindsAll(schemas, where, table, width) <==>
                               Safe(schemas, where) || forall r <- table :: !Holds(where, table[r]))
  {
    SchemaCoverage(schemas, where, where);
    UnfilteredReading(IndexedIn(schemas, where), where, table, width);
    if Safe(schemas, where) { GuardSuffices(schemas, where, table, width); }
    if OrFree(where) { GuardIsExact(schemas, where, table, width); }
    forall r | r in table ensures Every(where, table[r]) ==> Holds(where, table[r]) {
      EveryHolds(where, table[r]);
    }
  }

  /** The guard is enough for every clause on every table. */
  lemma GuardSuffices(schemas: seq<KeySchema>, where: Predicate, table: Table, width: nat)
    requires Fits(where, table, width) && Safe(schemas, where)
    ensures PlanFindsAll(schemas, where, table, width)
  {
    SchemaCoverage(schemas, where, where);
    if !where.Or? && AnyIndexed(schemas, where) {
      GuardedFindsAll(IndexedIn(schemas, where), NeedsFilter(schemas, where), where, table, width);
    }
  }

  /** A plan without a filter finds exactly the rows that meet every comparison, and none if some column is not
      indexed: so it is right iff every row that meets the clause does so by meeting every comparison. */
  lemma UnfilteredPlanIsExact(schemas: seq<KeySchema>, where: Predicate, table: Table, width: nat)
    requires Fits(where, table, width) && !where.Or? && AnyIndexed(schemas, where) && !NeedsFilter(schemas, where)
    ensures PlanFindsAll(schemas, where, table, width) <==>
              forall r <- table :: Holds(where, table[r]) ==> AllIndexed(schemas, where) && Every(where, table[r])
  {
    SchemaCoverage(schemas, where, where);
    UnfilteredFindsAll(IndexedIn(schemas, where), where, table, width);
  }

  /** For a conjunction the guard is exact: where it fails, every table with a row that meets the clause is answered
      wrongly. */
  lemma GuardIsExact(schemas: seq<KeySchema>, where: Predicate, table: Table, width: nat)
    requires Fits(where, table, width) && OrFree(where)
    ensures PlanFindsAll(schemas, where, table, width) <==>
              Safe(schemas, where) || forall r <- table :: !Holds(where, table[r])
  {
    OrFreeIsUnindexed(schemas, where);
    if Safe(schemas, where) {
      GuardSuffices(schemas, where, table, width);
    } else {
      UnfilteredPlanIsExact(schemas, where, table, width);
    }
  }

  lemma {:induction false} OrFreeIsUnindexed(schemas: seq<KeySchema>, p: Predicate)
    requires OrFree(p)
    ensures OrsUnindexed(schemas, p)
  {
    if p.And? {
      OrFreeIsUnindexed(schemas, p.left);
      OrFreeIsUnindexed(schemas, p.right);
    }
  }

  /** Two indexes on one column and none on the other make the counts agree: the guard fails, and the row that meets
      the clause is lost. */
  lemma DuplicateIndexDefeatsCount()
    ensures var schemas, where := [[0], [0]], And(Cmp(0, Eq, 5), Cmp(1, Eq, 7));
            && OrFree(where) && InSchema(where, 2) && Holds(where, [5, 7]) && !Safe(schemas, where)
  {
    var schemas: seq<KeySchema>, where := [[0], [0]], And(Cmp(0, Eq, 5), Cmp(1, Eq, 7));
    assert UsableIndexes(schemas, where) == {0, 1};
    assert ColumnsOf(where) == {0, 1};
    assert HasIndex(schemas, 0) && !HasIndex(schemas, 1);
    assert InSchema(where.left, 2) && InSchema(where.right, 2);
  }

  /** An "or" under an "and" is read as "and": the plan finds only rows that meet every comparison. */
  lemma NestedOrIsReadAsAnd()
    ensures var schemas, where := [[0], [1]], And(Or(Cmp(0, Eq, 1), Cmp(0, Eq, 2)), Cmp(1, Eq, 3));
            && !where.Or? && !NeedsFilter(schemas, where) && AllIndexed(schemas, where)
            && InSchema(where, 2) && Holds(where, [1, 3]) && !Every(where, [1, 3]) && !Safe(schemas, where)
  {
    var schemas: seq<KeySchema>, either, last := [[0], [1]], Or(Cmp(0, Eq, 1), Cmp(0, Eq, 2)), Cmp(1, Eq, 3);
    var where := And(either, last);
    assert ColumnsOf(either) == {0} && ColumnsOf(last) == {1};
    assert ColumnsOf(where) == {0, 1};
    assert UsableIndexes(schemas, where) == {0, 1};
    assert schemas[0] == [0] && schemas[1] == [1];
    assert InSchema(either, 2) && InSchema(last, 2);
    assert Holds(either, [1, 3]) && !Every(either, [1, 3]);
  }
}
