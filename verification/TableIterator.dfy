/** Iteration over a table heap (src/storage/table_iterator.cpp, TableHeap::Begin): along the page chain, and through
    the live slots of each page in order. */
module TableIterators {
  import opened Common
  import opened TupleLayout
  import opened SlotBitmaps
  import opened TablePages
  import opened InsertableLists
  import opened TableHeaps

  datatype Position = End | On(page: PageId, slot: nat)

  predicate IsLiveRow(rows: map<nat, Row>, slot: nat) { slot in rows && !rows[slot].deleted }

  /** The live rows of one page from slot `from` on. */
  ghost function LiveIn(rows: map<nat, Row>, page: PageId, from: nat): seq<Position>
    decreases BITMAP_SLOT_CAPACITY - from, rows
  {
    if from >= BITMAP_SLOT_CAPACITY then []
    else (if IsLiveRow(rows, from) then [On(page, from)] else []) + LiveIn(rows, page, from + 1)
  }

  ghost predicate Backed(content: map<PageId, Summary>, chain: seq<PageId>) {
    forall i :: 0 <= i < |chain| ==> chain[i] in content
  }

  /** The live rows of the pages of the chain from position k on. */
  ghost function LiveFrom(content: map<PageId, Summary>, chain: seq<PageId>, k: nat): seq<Position>
    requires Backed(content, chain)
    decreases |chain| - k, content
  {
    if k >= |chain| then [] else LiveIn(content[chain[k]].rows, chain[k], 0) + LiveFrom(content, chain, k + 1)
  }

  /** Slots without a live row are passed over. */
  lemma {:induction false} Skip(rows: map<nat, Row>, page: PageId, from: nat, to: nat)
    requires from <= to && forall s :: from <= s < to ==> !IsLiveRow(rows, s)
    ensures LiveIn(rows, page, from) == LiveIn(rows, page, to)
    decreases BITMAP_SLOT_CAPACITY - from
  {
    if from < to && from < BITMAP_SLOT_CAPACITY {
      Skip(rows, page, from + 1, to);
    }
  }

  lemma {:induction false} LiveInIs(rows: map<nat, Row>, page: PageId, from: nat, x: Position)
    ensures x in LiveIn(rows, page, from) <==>
              x.On? && x.page == page && from <= x.slot < BITMAP_SLOT_CAPACITY && IsLiveRow(rows, x.slot)
    ensures forall i, j :: 0 <= i < j < |LiveIn(rows, page, from)| ==>
              LiveIn(rows, page, from)[i] != LiveIn(rows, page, from)[j]
    decreases BITMAP_SLOT_CAPACITY - from
  {
    if from < BITMAP_SLOT_CAPACITY {
      LiveInIs(rows, page, from + 1, x);
      LiveInIs(rows, page, from + 1, On(page, from));
    }
  }

  /** The list holds every live row of the heap exactly once, and nothing else. */
  lemma {:induction false} LiveFromIs(content: map<PageId, Summary>, chain: seq<PageId>, k: nat, x: Position)
    requires Distinct(chain) && Backed(content, chain) && k <= |chain|
    requires forall p, s :: p in content && s in content[p].rows ==> s < BITMAP_SLOT_CAPACITY
    ensures x in LiveFrom(content, chain, k) <==>
              x.On? && x.page in chain[k..] && x.page in content && IsLiveRow(content[x.page].rows, x.slot)
    ensures forall i, j :: 0 <= i < j < |LiveFrom(content, chain, k)| ==>
              LiveFrom(content, chain, k)[i] != LiveFrom(content, chain, k)[j]
    decreases |chain| - k
  {
    if k < |chain| {
      var here, later := LiveIn(content[chain[k]].rows, chain[k], 0), LiveFrom(content, chain, k + 1);
      assert chain[k..] == [chain[k]] + chain[k + 1..];
      LiveInIs(content[chain[k]].rows, chain[k], 0, x);
      LiveFromIs(content, chain, k + 1, x);
      forall i, j | 0 <= i < |here| && 0 <= j < |later| ensures here[i] != later[j] {
        LiveInIs(content[chain[k]].rows, chain[k], 0, here[i]);
        LiveFromIs(content, chain, k + 1, later[j]);
      }
    }
  }

  // ---------------------------------------------------------------- positions

  /** The position is the end or a live row of the k-th page of the chain. */
  ghost predicate Standing(content: map<PageId, Summary>, chain: seq<PageId>, at: Position, k: nat) {
    && Backed(content, chain)
    && (at.On? ==> k < |chain| && at.page == chain[k] && IsLiveRow(content[at.page].rows, at.slot)
                   && at.slot < BITMAP_SLOT_CAPACITY)
  }

  /** The rows still to come, the current one first. */
  ghost function RestOf(content: map<PageId, Summary>, chain: seq<PageId>, at: Position, k: nat): seq<Position>
    requires Standing(content, chain, at, k)
  {
    if at.End? then [] else LiveIn(content[at.page].rows, at.page, at.slot) + LiveFrom(content, chain, k + 1)
  }

  method FirstIn(heap: TableHeap, p: PageId) returns (found: bool, slot: nat)
    requires heap.PagesOk() && p in heap.content
    ensures found ==> IsLiveRow(heap.content[p].rows, slot) && slot < BITMAP_SLOT_CAPACITY
    ensures found ==> forall s: nat :: s < slot ==> !IsLiveRow(heap.content[p].rows, s)
    ensures !found ==> forall s: nat :: !IsLiveRow(heap.content[p].rows, s)
  {
    assert heap.PageOk(p);
    var page := heap.pages[p];
    page.SlotsFitBitmap();
    found, slot := page.GetFirstTupleRid();
    assert forall s: nat :: page.LiveRow(s) <==> IsLiveRow(heap.content[p].rows, s);
  }

  method NextIn(heap: TableHeap, p: PageId, after: nat) returns (found: bool, slot: nat)
    requires heap.PagesOk() && p in heap.content
    ensures found ==> after < slot < BITMAP_SLOT_CAPACITY && IsLiveRow(heap.content[p].rows, slot)
    ensures forall s: nat :: after < s && (found ==> s < slot) ==> !IsLiveRow(heap.content[p].rows, s)
  {
    assert heap.PageOk(p);
    var page := heap.pages[p];
    page.SlotsFitBitmap();
    found, slot := page.GetNextTupleRid(after);
    assert forall s: nat :: page.LiveRow(s) <==> IsLiveRow(heap.content[p].rows, s);
  }

  /** The rest starts with the current row. */
  lemma CurrentFirst(content: map<PageId, Summary>, chain: seq<PageId>, at: Position, k: nat)
    requires Standing(content, chain, at, k) && at.On?
    ensures RestOf(content, chain, at, k) ==
            [at] + (LiveIn(content[at.page].rows, at.page, at.slot + 1) + LiveFrom(content, chain, k + 1))
  {
  }

  lemma ChainBacked(heap: TableHeap)
    requires heap.Valid()
    ensures Backed(heap.content, heap.chain)
  {
    forall i | 0 <= i < |heap.chain| ensures heap.chain[i] in heap.content {
      var p: PageId := heap.chain[i];
      assert p in heap.chain && p in heap.nexts.Keys;
    }
  }

  /** The first live row from page p on, which stands at position i of the chain. */
  method FindFrom(heap: TableHeap, p: PageId, ghost i: nat) returns (at: Position, ghost k: nat)
    requires heap.Valid() && Backed(heap.content, heap.chain) && i <= |heap.chain| && p == At(heap.chain, i)
    ensures Standing(heap.content, heap.chain, at, k)
    ensures RestOf(heap.content, heap.chain, at, k) == LiveFrom(heap.content, heap.chain, i)
  {
    var next := p;
    k := i;
    while next != INVALID_PAGE_ID
      invariant i <= k <= |heap.chain| && next == At(heap.chain, k)
      invariant LiveFrom(heap.content, heap.chain, k) == LiveFrom(heap.content, heap.chain, i)
      decreases |heap.chain| - k
    {
      ChainStep(heap.nexts, heap.firstPageId, heap.chain, k);
      var found, slot := FirstIn(heap, next);
      Skip(heap.content[next].rows, next, 0, if found then slot else BITMAP_SLOT_CAPACITY);
      if found {
        return On(next, slot), k;
      }
      next, k := heap.nexts[next], k + 1;
    }
    ChainStep(heap.nexts, heap.firstPageId, heap.chain, k);
    at := End;
  }

  /** The live row after the one at (page, slot): in the same page, or else the first of a later one. */
  method FindAfter(heap: TableHeap, page: PageId, slot: nat, ghost i: nat) returns (at: Position, ghost k: nat)
    requires heap.Valid() && Backed(heap.content, heap.chain) && i < |heap.chain| && page == heap.chain[i]
    ensures Standing(heap.content, heap.chain, at, k)
    ensures RestOf(heap.content, heap.chain, at, k) ==
            LiveIn(heap.content[page].rows, page, slot + 1) + LiveFrom(heap.content, heap.chain, i + 1)
  {
    var found, next := NextIn(heap, page, slot);
    if found {
      WithinPage(heap.content, heap.chain, i, slot, next);
      return On(page, next), i;
    }
    PageDone(heap.content[page].rows, page, slot);
    ChainStep(heap.nexts, heap.firstPageId, heap.chain, i);
    at, k := FindFrom(heap, heap.nexts[page], i + 1);
  }

  lemma WithinPage(content: map<PageId, Summary>, chain: seq<PageId>, i: nat, slot: nat, next: nat)
    requires Backed(content, chain) && i < |chain| && slot < next < BITMAP_SLOT_CAPACITY
    requires IsLiveRow(content[chain[i]].rows, next)
    requires forall s: nat :: slot < s < next ==> !IsLiveRow(content[chain[i]].rows, s)
    ensures Standing(content, chain, On(chain[i], next), i)
    ensures RestOf(content, chain, On(chain[i], next), i) ==
            LiveIn(content[chain[i]].rows, chain[i], slot + 1) + LiveFrom(content, chain, i + 1)
  {
    Skip(content[chain[i]].rows, chain[i], slot + 1, next);
  }

  lemma PageDone(rows: map<nat, Row>, page: PageId, slot: nat)
    requires forall s: nat :: slot < s ==> !IsLiveRow(rows, s)
    ensures LiveIn(rows, page, slot + 1) == []
  {
    Skip(rows, page, slot + 1, slot + 1 + BITMAP_SLOT_CAPACITY);
  }

  class TableIterator {
    const heap: TableHeap
    var at: Position
    /** Where the current page stands in the chain. */
    ghost var k: nat

    ghost predicate Valid()
      reads this, heap
    {
      Standing(heap.content, heap.chain, at, k)
    }

    ghost function Rest(): seq<Position>
      requires Valid()
      reads this, heap
    {
      RestOf(heap.content, heap.chain, at, k)
    }

    /** TableHeap::Begin. */
    constructor (heap: TableHeap)
      requires heap.Valid()
      ensures Valid() && this.heap == heap && Rest() == LiveFrom(heap.content, heap.chain, 0)
    {
      ChainBacked(heap);
      var at, k := FindFrom(heap, heap.firstPageId, 0);
      this.heap, this.at, this.k := heap, at, k;
    }

    /** operator++: the current row is done, and the rest stays the same. */
    method Advance()
      requires Valid() && heap.Valid()
      modifies this
      ensures Valid() && Rest() == if old(Rest()) == [] then [] else old(Rest())[1..]
    {
      if at.End? {
        return;
      }
      CurrentFirst(heap.content, heap.chain, at, k);
      var at', k' := FindAfter(heap, at.page, at.slot, k);
      at, k := at', k';
    }
  }

  lemma OneFurther(visited: seq<Position>, rest: seq<Position>)
    requires rest != []
    ensures (visited + [rest[0]]) + rest[1..] == visited + rest
  {
  }

  /** A full scan, in chain and slot order. */
  method CollectRows(heap: TableHeap) returns (visited: seq<Position>)
    requires heap.Valid() && Backed(heap.content, heap.chain)
    ensures visited == LiveFrom(heap.content, heap.chain, 0)
  {
    visited := [];
    var it := new TableIterator(heap);
    ghost var all, rest := it.Rest(), it.Rest();
    while it.at.On?
      invariant heap.Valid() && it.Valid() && it.heap == heap && rest == it.Rest() && visited + rest == all
      decreases |rest|
    {
      CurrentFirst(heap.content, heap.chain, it.at, it.k);
      OneFurther(visited, rest);
      visited, rest := visited + [it.at], rest[1..];
      it.Advance();
    }
  }

  lemma SlotsSmall(heap: TableHeap)
    requires heap.Valid()
    ensures forall p, s :: p in heap.content && s in heap.content[p].rows ==> s < BITMAP_SLOT_CAPACITY
  {
    forall p, s | p in heap.content && s in heap.content[p].rows ensures s < BITMAP_SLOT_CAPACITY {
      assert heap.PageOk(p);
      heap.pages[p].SlotsFitBitmap();
    }
  }

  /** A full scan visits every live row of the heap exactly once. */
  method ScanTable(heap: TableHeap) returns (visited: seq<Position>)
    requires heap.Valid()
    ensures forall i, j :: 0 <= i < j < |visited| ==> visited[i] != visited[j]
    ensures forall x :: x in visited <==>
              x.On? && x.page in heap.content && IsLiveRow(heap.content[x.page].rows, x.slot)
  {
    ChainBacked(heap);
    SlotsSmall(heap);
    visited := CollectRows(heap);
    assert heap.chain[0..] == heap.chain;
    assert forall p :: p in heap.chain <==> p in heap.content.Keys;
    forall x ensures x in visited <==> x.On? && x.page in heap.content && IsLiveRow(heap.content[x.page].rows, x.slot) {
      LiveFromIs(heap.content, heap.chain, 0, x);
    }
    LiveFromIs(heap.content, heap.chain, 0, End);
  }
}
