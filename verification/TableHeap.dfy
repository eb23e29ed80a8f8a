/** The table heap (src/storage/table_heap.cpp): a chain of slotted pages, of which the ones with room for any row are
    kept on the insertable list. */
module TableHeaps {
  import opened Common
  import opened TupleLayout
  import opened TablePages
  import opened InsertableLists

  const SIZE_MAX_ROW := PAGE_SIZE - SIZE_TABLE_PAGE_HEADER - SIZE_TUPLE

  ghost predicate Apart(a: TablePage, b: TablePage) { a != b && a.data != b.data }

  /** The next-page fields run through every page once, from the first to the last. */
  ghost predicate ChainOk(nexts: map<PageId, PageId>, first: PageId, chain: seq<PageId>) {
    && INVALID_PAGE_ID !in nexts && Distinct(chain) && chain != []
    && chain[0] == first
    && (forall p :: p in chain <==> p in nexts)
    && (forall k {:trigger FollowedAt(nexts, chain, k)} :: 0 <= k < |chain| ==> FollowedAt(nexts, chain, k))
  }

  ghost predicate FollowedAt(nexts: map<PageId, PageId>, chain: seq<PageId>, k: int)
    requires 0 <= k < |chain|
  {
    chain[k] in nexts && nexts[chain[k]] == At(chain, k + 1)
  }

  /** The insertable list holds exactly the pages that can take some row, `stale` aside. */
  ghost predicate ListFits(content: map<PageId, Summary>, links: map<PageId, Links>, head: PageId, list: seq<PageId>,
                           stale: PageId) {
    && links.Keys == content.Keys && ListOk(links, head, list)
    && (forall p :: p in content && p != stale ==> (p in list <==> content[p].room >= 1))
  }

  /** What EnsureHeapMetadata has to establish. */
  ghost predicate MetadataOk(content: map<PageId, Summary>, chain: seq<PageId>, last: PageId, links: map<PageId, Links>,
                             head: PageId, list: seq<PageId>) {
    chain != [] && last == chain[|chain| - 1] && ListFits(content, links, head, list, INVALID_PAGE_ID)
  }

  lemma ListStale(content: map<PageId, Summary>, content': map<PageId, Summary>, links: map<PageId, Links>,
                  head: PageId, list: seq<PageId>, p: PageId)
    requires ListFits(content, links, head, list, INVALID_PAGE_ID)
    requires p in content && p in content' && content' == content[p := content'[p]]
    ensures ListFits(content', links, head, list, p)
    ensures content' == content ==> (p in list <==> content'[p].room >= 1)
  {
  }

  lemma ListStep(links: map<PageId, Links>, head: PageId, list: seq<PageId>, k: nat)
    requires ListOk(links, head, list) && k <= |list|
    ensures At(list, k) != INVALID_PAGE_ID <==> k < |list|
    ensures k < |list| ==> list[k] in links && links[list[k]].next == At(list, k + 1)
  {
    assert k < |list| ==> LinkedAt(links, list, k);
  }

  /** When no page of the list has room for the row, no page has. */
  lemma NoRoom(content: map<PageId, Summary>, links: map<PageId, Links>, head: PageId, list: seq<PageId>, n: nat)
    requires ListFits(content, links, head, list, INVALID_PAGE_ID) && n >= 1 && INVALID_PAGE_ID !in content
    requires NoneTakes(content, list, n)
    ensures !HasRoom(content, n)
  {
  }

  ghost predicate NoneTakes(content: map<PageId, Summary>, list: seq<PageId>, n: nat) {
    forall p :: p in list ==> p in content && content[p].room < n
  }

  lemma OneMoreRefuses(content: map<PageId, Summary>, list: seq<PageId>, k: nat, n: nat)
    requires k < |list| && NoneTakes(content, list[..k], n) && list[k] in content && content[list[k]].room < n
    ensures NoneTakes(content, list[..k + 1], n)
  {
    assert list[..k + 1] == list[..k] + [list[k]];
  }

  /** Some page has room for a row of n bytes. */
  ghost predicate HasRoom(content: map<PageId, Summary>, n: nat) {
    exists p :: p in content && n <= content[p].room
  }

  // ---------------------------------------------------------------- a new page at the end of the chain

  function Extended(nexts: map<PageId, PageId>, last: PageId, p: PageId): map<PageId, PageId> {
    nexts[last := p][p := INVALID_PAGE_ID]
  }

  lemma ExtendedOk(nexts: map<PageId, PageId>, first: PageId, chain: seq<PageId>, p: PageId)
    requires ChainOk(nexts, first, chain) && p !in nexts && p != INVALID_PAGE_ID
    ensures ChainOk(Extended(nexts, chain[|chain| - 1], p), first, chain + [p])
    ensures Extended(nexts, chain[|chain| - 1], p).Keys == nexts.Keys + {p}
  {
    var n := |chain|;
    var nexts', chain' := Extended(nexts, chain[n - 1], p), chain + [p];
    assert chain[n - 1] in chain;
    forall k | 0 <= k < |chain'| ensures FollowedAt(nexts', chain', k) {
      if k < n { assert FollowedAt(nexts, chain, k); }
    }
  }

  /** A page the list does not know yet. */
  lemma NewcomerOk(content: map<PageId, Summary>, content': map<PageId, Summary>, links: map<PageId, Links>,
                   head: PageId, list: seq<PageId>, p: PageId)
    requires ListFits(content, links, head, list, INVALID_PAGE_ID) && p !in content && p != INVALID_PAGE_ID
    requires p in content' && content' == content[p := content'[p]]
    ensures ListFits(content', links[p := UNLINKED], head, list, p)
  {
    AddedOk(links, head, list, p);
  }

  lemma AddedOk(links: map<PageId, Links>, head: PageId, list: seq<PageId>, p: PageId)
    requires ListOk(links, head, list) && p !in links && p != INVALID_PAGE_ID
    ensures ListOk(links[p := UNLINKED], head, list)
  {
    var links' := links[p := UNLINKED];
    forall k | 0 <= k < |list| ensures LinkedAt(links', list, k) {
      assert LinkedAt(links, list, k);
    }
  }

  // ---------------------------------------------------------------- rebuilding the list

  /** The list of the insertable pages among `done`, the pages visited so far. */
  ghost predicate Rebuilt(content: map<PageId, Summary>, done: seq<PageId>, links: map<PageId, Links>, head: PageId,
                          list: seq<PageId>) {
    && ListOk(links, head, list)
    && (forall p :: p in links <==> p in done)
    && (forall p :: p in done ==> p in content && (p in list <==> content[p].room >= 1))
    && (forall p :: p in list ==> p in done)
  }

  lemma RebuiltStep(content: map<PageId, Summary>, done: seq<PageId>, links: map<PageId, Links>, head: PageId,
                    list: seq<PageId>, p: PageId)
    requires Rebuilt(content, done, links, head, list) && p !in done && p in content && p != INVALID_PAGE_ID
    ensures var links1, tail := links[p := UNLINKED], At(list, |list| - 1);
            && (tail != INVALID_PAGE_ID ==> tail in links1)
            && (if content[p].room >= 1
                then Rebuilt(content, done + [p], Appended(links1, tail, p), if list == [] then p else head, list + [p])
                else Rebuilt(content, done + [p], links1, head, list))
  {
    AddedOk(links, head, list, p);
    if content[p].room >= 1 {
      AppendedOk(links[p := UNLINKED], head, list, p);
    }
  }

  /** The page holds what the summary says, and its memory is the heap's. */
  ghost predicate Backs(page: TablePage, summary: Summary, repr: set<object>)
    reads repr
  {
    page in repr && page.data in repr && page.Shows(summary)
  }

  /** What an insert into a page makes of it. */
  ghost predicate InsertedTo(before: Summary, now: Summary, bytes: seq<Byte>, ok: bool, slot: nat) {
    && (ok <==> |bytes| <= before.room)
    && (ok ==> slot !in before.rows && now.rows == before.rows[slot := Row(bytes, false)])
    && (!ok ==> now == before)
  }

  /** What an update of a row makes of its page. */
  ghost predicate UpdatedTo(before: Summary, now: Summary, slot: nat, bytes: seq<Byte>, ok: bool, was: seq<Byte>) {
    && (ok <==> && slot in before.rows && !before.rows[slot].deleted
                && |bytes| <= before.free + |before.rows[slot].bytes|)
    && (ok ==> was == before.rows[slot].bytes && now.rows == before.rows[slot := Row(bytes, false)])
    && (!ok ==> now == before)
  }

  lemma OnePageHeap(first: PageId, page: Summary)
    requires first != INVALID_PAGE_ID && page.room >= 1
    ensures ChainOk(map[first := INVALID_PAGE_ID], first, [first])
    ensures MetadataOk(map[first := page], [first], first, map[first := UNLINKED], first, [first])
  {
    var nexts, links, one := map[first := INVALID_PAGE_ID], map[first := UNLINKED], [first];
    assert FollowedAt(nexts, one, 0) && LinkedAt(links, one, 0);
  }

  class TableHeap {
    /** The pages, and the next-page and insertable-list fields of their headers. */
    var pages: map<PageId, TablePage>
    var nexts: map<PageId, PageId>
    var links: map<PageId, Links>
    const firstPageId: PageId
    var lastPageId: PageId
    var insertableHead: PageId
    var metadataBuilt: bool
    /** What every page holds; the pages in chain order; the insertable pages in list order. */
    ghost var content: map<PageId, Summary>
    ghost var chain: seq<PageId>
    ghost var list: seq<PageId>
    ghost var repr: set<object>

    ghost predicate PageOk(p: PageId)
      requires p in pages && p in content
      reads this`pages, this`repr, this`content, repr
    {
      pages[p] in repr && pages[p].data in repr && pages[p].Shows(content[p])
    }

    /** Every page is well laid and holds what `content` says, and no two share memory. */
    ghost predicate PagesOk()
      reads this`pages, this`repr, this`content, repr
    {
      && this !in repr && content.Keys == pages.Keys
      && (forall p {:trigger PageOk(p)} :: p in pages ==> PageOk(p))
      && (forall p, q {:trigger Apart(pages[p], pages[q])} :: p in pages && q in pages && p != q ==>
          Apart(pages[p], pages[q]))
    }

    ghost predicate Valid()
      reads this, repr
    {
      && PagesOk() && ChainOk(nexts, firstPageId, chain) && nexts.Keys == content.Keys
      && (metadataBuilt ==> MetadataOk(content, chain, lastPageId, links, insertableHead, list))
    }

    /** A new heap: one empty page, which is the chain and the list. */
    constructor Create(first: PageId)
      requires first != INVALID_PAGE_ID
      ensures Valid() && metadataBuilt && fresh(repr)
      ensures content.Keys == {first} && content[first].rows == map[] && list == [first]
    {
      var page := EmptyPage();
      OnePageHeap(first, page.Summarize());
      pages, nexts, links := map[first := page], map[first := INVALID_PAGE_ID], map[first := UNLINKED];
      firstPageId, lastPageId, insertableHead, metadataBuilt := first, first, first, true;
      content, chain, list, repr := map[first := page.Summarize()], [first], [first], {page, page.data};
      new;
      assert PageOk(first);
    }

    static method EmptyPage() returns (page: TablePage)
      ensures fresh(page) && fresh(page.data) && page.Valid() && page.Rows() == map[] && page.Room() == SIZE_MAX_ROW
    {
      var buffer := new Byte[PAGE_SIZE];
      page := new TablePage.Init(buffer);
    }

    /** A heap opened from disk: the link fields hold whatever the pages hold, and the list is still to be built. */
    constructor Open(first: PageId, pages: map<PageId, TablePage>, nexts: map<PageId, PageId>,
                     links: map<PageId, Links>, ghost content: map<PageId, Summary>,
                     ghost chain: seq<PageId>, ghost repr: set<object>)
      requires ChainOk(nexts, first, chain) && nexts.Keys == content.Keys == pages.Keys
      requires forall p {:trigger Backs(pages[p], content[p], repr)} :: p in pages ==> Backs(pages[p], content[p], repr)
      requires forall p, q {:trigger Apart(pages[p], pages[q])} ::
                 p in pages && q in pages && p != q ==> Apart(pages[p], pages[q])
      ensures Valid() && !metadataBuilt && this.pages == pages && this.content == content && this.repr == repr
    {
      this.pages, this.nexts, this.links, firstPageId := pages, nexts, links, first;
      lastPageId, insertableHead, metadataBuilt := INVALID_PAGE_ID, INVALID_PAGE_ID, false;
      this.content, this.chain, list, this.repr := content, chain, [], repr;
      new;
      forall p | p in pages ensures PageOk(p) {
        assert Backs(pages[p], content[p], repr);
      }
    }

    /** The fields of the heap itself are no part of its pages. */
    twostate lemma PagesKept()
      requires old(PagesOk()) && pages == old(pages) && repr == old(repr) && content == old(content)
      requires forall o: object :: o in repr ==> unchanged(o)
      ensures PagesOk()
    {
      forall p | p in pages ensures PageOk(p) {
        assert old(PageOk(p));
      }
    }

    // -------------------------------------------------------------- the insertable list

    method IsInsertable(p: PageId) returns (can: bool)
      requires PagesOk() && p in pages
      ensures can <==> content[p].room >= 1
    {
      assert PageOk(p);
      can := pages[p].CanHostAnyTuple();
    }

    /** A page joins or leaves the list according to whether it still has room. */
    method RefreshInsertablePage(p: PageId)
      requires PagesOk() && p in content && ListFits(content, links, insertableHead, list, p)
      modifies this`links, this`insertableHead, this`list
      ensures PagesOk() && ListFits(content, links, insertableHead, list, INVALID_PAGE_ID)
      ensures (p in old(list) <==> content[p].room >= 1) ==> list == old(list)
    {
      var shouldTrack := IsInsertable(p);
      SetTracked(p, shouldTrack);
      PagesKept();
    }

    method SetTracked(p: PageId, shouldTrack: bool)
      requires p in content && ListFits(content, links, insertableHead, list, p)
      requires shouldTrack <==> content[p].room >= 1
      modifies this`links, this`insertableHead, this`list
      ensures ListFits(content, links, insertableHead, list, INVALID_PAGE_ID)
      ensures (p in old(list) <==> content[p].room >= 1) ==> list == old(list)
    {
      TrackedIsListed(links, insertableHead, list, p);
      var isTracked := IsTracked(links, insertableHead, p);
      if shouldTrack && !isTracked {
        LinkInsertablePage(p);
      } else if !shouldTrack && isTracked {
        UnlinkInsertablePage(p);
      }
    }

    method LinkInsertablePage(p: PageId)
      requires ListOk(links, insertableHead, list) && p in links && p !in list
      modifies this`links, this`insertableHead, this`list
      ensures ListOk(links, insertableHead, list) && links.Keys == old(links.Keys) && list == [p] + old(list)
    {
      var head := insertableHead;
      LinkedOk(links, head, list, p);
      links := Linked(links, head, p);
      insertableHead := p;
      list := [p] + list;
    }

    method UnlinkInsertablePage(p: PageId)
      requires ListOk(links, insertableHead, list) && p in links && p in list
      modifies this`links, this`insertableHead, this`list
      ensures ListOk(links, insertableHead, list) && links.Keys == old(links.Keys)
      ensures forall q :: q in list <==> q in old(list) && q != p
    {
      ghost var k :| 0 <= k < |list| && list[k] == p;
      NeighboursLinked(links, insertableHead, list, k);
      UnlinkedOk(links, insertableHead, list, k);
      UnlinkedKeys(links, p);
      CutMembers(list, k);
      var next := links[p].next;
      links := Unlinked(links, p);
      if insertableHead == p {
        insertableHead := next;
      }
      list := list[..k] + list[k + 1..];
    }

    // -------------------------------------------------------------- one page

    /** A change inside one page leaves the others as they were. */
    twostate lemma OthersKept(p: PageId)
      requires old(PagesOk()) && p in pages && pages == old(pages) && repr == old(repr) && p in content
      requires content == old(content)[p := content[p]]
      requires forall o: object :: o in repr && o != pages[p] && o != pages[p].data ==> unchanged(o)
      requires PageOk(p)
      ensures PagesOk()
    {
      forall q | q in pages && q != p ensures PageOk(q) {
        assert old(PageOk(q)) && Apart(pages[p], pages[q]);
      }
    }

    static method InsertInto(page: TablePage, bytes: seq<Byte>, ghost before: Summary)
      returns (ok: bool, slot: nat, ghost now: Summary)
      requires page.Shows(before) && |bytes| > 0
      modifies page, page.data
      ensures page.Shows(now)
      ensures InsertedTo(before, now, bytes, ok, slot)
    {
      ok, slot := page.InsertTuple(bytes);
      now := page.Summarize();
    }

    static method UpdateIn(page: TablePage, slot: nat, bytes: seq<Byte>, ghost before: Summary)
      returns (ok: bool, was: seq<Byte>, ghost now: Summary)
      requires page.Shows(before) && |bytes| > 0
      modifies page, page.data
      ensures page.Shows(now)
      ensures UpdatedTo(before, now, slot, bytes, ok, was)
    {
      ok, was := page.UpdateTuple(slot, bytes);
      now := page.Summarize();
    }

    method InsertIntoPage(p: PageId, bytes: seq<Byte>) returns (ok: bool, slot: nat)
      requires PagesOk() && p in content && |bytes| > 0
      modifies this`content, repr
      ensures PagesOk() && p in content && content == old(content)[p := content[p]]
      ensures InsertedTo(old(content[p]), content[p], bytes, ok, slot)
    {
      assert PageOk(p);
      ghost var now;
      ok, slot, now := InsertInto(pages[p], bytes, content[p]);
      content := content[p := now];
      OthersKept(p);
    }

    method UpdateInPage(p: PageId, slot: nat, bytes: seq<Byte>) returns (ok: bool, was: seq<Byte>)
      requires PagesOk() && p in content && |bytes| > 0
      modifies this`content, repr
      ensures PagesOk() && p in content && content == old(content)[p := content[p]]
      ensures UpdatedTo(old(content[p]), content[p], slot, bytes, ok, was)
    {
      assert PageOk(p);
      ghost var now;
      ok, was, now := UpdateIn(pages[p], slot, bytes, content[p]);
      content := content[p := now];
      OthersKept(p);
    }

    method DeleteInPage(p: PageId, slot: nat)
      requires PagesOk() && p in content && slot < content[p].slots
      modifies this`content, repr
      ensures PagesOk() && p in content && content == old(content)[p := content[p]]
      ensures content[p].rows == old(content[p].rows) - {slot}
    {
      var page := pages[p];
      assert PageOk(p);
      page.ApplyDelete(slot);
      content := content[p := page.Summarize()];
      OthersKept(p);
    }

    // -------------------------------------------------------------- rows

    method TryPage(p: PageId, bytes: seq<Byte>) returns (ok: bool, slot: nat)
      requires PagesOk() && p in content && |bytes| > 0
      requires ListFits(content, links, insertableHead, list, INVALID_PAGE_ID)
      modifies this`content, this`links, this`insertableHead, this`list, repr
      ensures PagesOk() && ListFits(content, links, insertableHead, list, INVALID_PAGE_ID)
      ensures ok <==> |bytes| <= old(content[p].room)
      ensures ok ==> slot !in old(content[p].rows) && content == old(content)[p := content[p]]
      ensures ok ==> content[p].rows == old(content[p].rows)[slot := Row(bytes, false)]
      ensures !ok ==> content == old(content) && list == old(list)
    {
      ghost var content0 := content;
      assert PageOk(p);
      ok, slot := InsertIntoPage(p, bytes);
      ListStale(content0, content, links, insertableHead, list, p);
      RefreshInsertablePage(p);
    }

    /** The row goes to the first insertable page that takes it. */
    method InsertIntoListed(bytes: seq<Byte>) returns (ok: bool, p: PageId, slot: nat)
      requires PagesOk() && ListFits(content, links, insertableHead, list, INVALID_PAGE_ID) && |bytes| > 0
      modifies this`content, this`links, this`insertableHead, this`list, repr
      ensures PagesOk() && ListFits(content, links, insertableHead, list, INVALID_PAGE_ID)
      ensures ok <==> HasRoom(old(content), |bytes|)
      ensures ok ==> p in old(content) && slot !in old(content[p].rows) && content == old(content)[p := content[p]]
      ensures ok ==> content[p].rows == old(content[p].rows)[slot := Row(bytes, false)]
      ensures !ok ==> content == old(content)
    {
      slot := 0;
      p := insertableHead;
      ghost var k := 0;
      ListStep(links, insertableHead, list, 0);
      while p != INVALID_PAGE_ID
        invariant PagesOk() && ListFits(content, links, insertableHead, list, INVALID_PAGE_ID)
        invariant content == old(content) && list == old(list) && 0 <= k <= |list| && p == At(list, k)
        invariant NoneTakes(content, list[..k], |bytes|)
        decreases |list| - k
      {
        ListStep(links, insertableHead, list, k);
        var next := links[p].next;
        ok, slot := TryPage(p, bytes);
        if ok {
          return;
        }
        OneMoreRefuses(content, list, k, |bytes|);
        p, k := next, k + 1;
      }
      ok := false;
      ListStep(links, insertableHead, list, k);
      assert list[..k] == list;
      NoRoom(content, links, insertableHead, list, |bytes|);
    }

    /** The list is rebuilt from the pages when the heap has been opened from disk. */
    method EnsureHeapMetadata()
      requires Valid()
      modifies this`links, this`insertableHead, this`lastPageId, this`metadataBuilt, this`list
      ensures Valid() && metadataBuilt
    {
      if metadataBuilt {
        return;
      }
      RebuildList();
      metadataBuilt := true;
    }

    method RebuildList()
      requires ChainOk(nexts, firstPageId, chain) && nexts.Keys == content.Keys && PagesOk()
      modifies this`links, this`insertableHead, this`lastPageId, this`list
      ensures PagesOk() && MetadataOk(content, chain, lastPageId, links, insertableHead, list)
    {
      var rebuilt, head, last, l := VisitChain();
      RebuiltAll(content, chain, rebuilt, head, l);
      links, insertableHead, lastPageId, list := rebuilt, head, last, l;
      PagesKept();
    }

    method VisitChain() returns (rebuilt: map<PageId, Links>, head: PageId, last: PageId, ghost l: seq<PageId>)
      requires ChainOk(nexts, firstPageId, chain) && nexts.Keys == content.Keys && PagesOk()
      ensures Rebuilt(content, chain, rebuilt, head, l) && last == chain[|chain| - 1]
    {
      rebuilt, head, last, l := map[], INVALID_PAGE_ID, INVALID_PAGE_ID, [];
      var tail, p := INVALID_PAGE_ID, firstPageId;
      ghost var k := 0;
      while p != INVALID_PAGE_ID
        invariant 0 <= k <= |chain| && p == At(chain, k) && last == At(chain, k - 1)
        invariant tail == At(l, |l| - 1) && Rebuilt(content, chain[..k], rebuilt, head, l)
        decreases |chain| - k
      {
        ChainStep(nexts, firstPageId, chain, k);
        var next := nexts[p];
        last := p;
        var can := IsInsertable(p);
        rebuilt, head, tail, l := TrackAtEnd(p, can, rebuilt, head, tail, content, chain[..k], l);
        p, k := next, k + 1;
      }
      ChainStep(nexts, firstPageId, chain, k);
      assert chain[..k] == chain;
    }

    /** A fresh page that already holds the row; it is not on the chain yet. */
    method OpenPage(newId: PageId, bytes: seq<Byte>) returns (slot: nat)
      requires PagesOk() && newId !in pages && 0 < |bytes| <= SIZE_MAX_ROW
      modifies this`pages, this`content, this`repr
      ensures PagesOk() && fresh(repr - old(repr))
      ensures newId in content && content == old(content)[newId := content[newId]]
      ensures content[newId].rows == map[slot := Row(bytes, false)]
    {
      var page;
      ghost var now;
      page, slot, now := FilledPage(bytes);
      pages := pages[newId := page];
      content := content[newId := now];
      repr := repr + {page, page.data};
      PageAdded(newId);
    }

    static method FilledPage(bytes: seq<Byte>) returns (page: TablePage, slot: nat, ghost now: Summary)
      requires 0 < |bytes| <= SIZE_MAX_ROW
      ensures fresh(page) && fresh(page.data) && page.Shows(now) && now.rows == map[slot := Row(bytes, false)]
    {
      var buffer := new Byte[PAGE_SIZE];
      page := new TablePage.Init(buffer);
      var ok;
      ok, slot := page.InsertTuple(bytes);
      now := page.Summarize();
    }

    twostate lemma PageAdded(newId: PageId)
      requires old(PagesOk()) && newId !in old(pages) && newId in pages && newId in content && this !in repr
      requires pages == old(pages)[newId := pages[newId]] && content == old(content)[newId := content[newId]]
      requires old(repr) <= repr && forall o: object :: o in old(repr) ==> unchanged(o)
      requires PageOk(newId) && pages[newId] !in old(repr) && pages[newId].data !in old(repr)
      ensures PagesOk()
    {
      forall p | p in pages && p != newId
        ensures PageOk(p) && Apart(pages[p], pages[newId]) && Apart(pages[newId], pages[p]) {
        assert old(PageOk(p));
      }
      forall p, q | p in pages && q in pages && p != q ensures Apart(pages[p], pages[q]) {
        assert p in old(pages) && q in old(pages) ==> Apart(old(pages)[p], old(pages)[q]);
      }
    }

    /** The page joins the chain behind the last one, and the list if it still has room. */
    method ChainPage(newId: PageId, ghost before: map<PageId, Summary>)
      requires PagesOk() && ChainOk(nexts, firstPageId, chain) && newId !in nexts && newId != INVALID_PAGE_ID
      requires nexts.Keys == before.Keys && newId in content && content == before[newId := content[newId]]
      requires MetadataOk(before, chain, lastPageId, links, insertableHead, list)
      modifies this`nexts, this`lastPageId, this`chain, this`links, this`insertableHead, this`list
      ensures PagesOk() && ChainOk(nexts, firstPageId, chain) && nexts.Keys == content.Keys
      ensures MetadataOk(content, chain, lastPageId, links, insertableHead, list)
    {
      ExtendedOk(nexts, firstPageId, chain, newId);
      NewcomerOk(before, content, links, insertableHead, list, newId);
      nexts := Extended(nexts, lastPageId, newId);
      lastPageId, chain := newId, chain + [newId];
      links := links[newId := UNLINKED];
      PagesKept();
      RefreshInsertablePage(newId);
    }

    method AddPage(newId: PageId, bytes: seq<Byte>) returns (slot: nat)
      requires Valid() && metadataBuilt && newId !in content && newId != INVALID_PAGE_ID && 0 < |bytes| <= SIZE_MAX_ROW
      modifies this
      ensures Valid() && fresh(repr - old(repr))
      ensures newId in content && content == old(content)[newId := content[newId]]
      ensures content[newId].rows == map[slot := Row(bytes, false)]
    {
      ghost var before := content;
      slot := OpenPage(newId, bytes);
      ChainPage(newId, before);
    }

    /** A row no page could ever hold is refused. Any other goes to a page of the heap if one has room for it; only
        when none has is a page added, which the buffer pool may not grant. */
    method InsertTuple(bytes: seq<Byte>, newId: PageId, granted: bool) returns (ok: bool, p: PageId, slot: nat)
      requires Valid() && |bytes| > 0 && newId !in content && newId != INVALID_PAGE_ID
      modifies this, repr
      ensures Valid() && fresh(repr - old(repr))
      ensures ok <==> |bytes| <= SIZE_MAX_ROW && (HasRoom(old(content), |bytes|) || granted)
      ensures ok ==> (p in old(content) <==> HasRoom(old(content), |bytes|)) && (p !in old(content) ==> p == newId)
      ensures if ok then Stored(old(content), content, p, slot, bytes) else content == old(content)
    {
      if |bytes| > SIZE_MAX_ROW {
        return false, INVALID_PAGE_ID, 0;
      }
      EnsureHeapMetadata();
      ok, p, slot := InsertIntoListed(bytes);
      if !ok && granted {
        p, ok := newId, true;
        slot := AddPage(newId, bytes);
      }
    }

    method UpdateTuple(p: PageId, slot: nat, bytes: seq<Byte>) returns (ok: bool, was: seq<Byte>)
      requires Valid() && p in content && |bytes| > 0
      modifies this, repr
      ensures Valid() && repr == old(repr) && p in content && content == old(content)[p := content[p]]
      ensures UpdatedTo(old(content[p]), content[p], slot, bytes, ok, was)
    {
      EnsureHeapMetadata();
      ok, was := UpdateListed(p, slot, bytes);
    }

    method UpdateListed(p: PageId, slot: nat, bytes: seq<Byte>) returns (ok: bool, was: seq<Byte>)
      requires PagesOk() && p in content && |bytes| > 0
      requires ListFits(content, links, insertableHead, list, INVALID_PAGE_ID)
      modifies this`content, this`links, this`insertableHead, this`list, repr
      ensures PagesOk() && ListFits(content, links, insertableHead, list, INVALID_PAGE_ID)
      ensures p in content && content == old(content)[p := content[p]]
      ensures UpdatedTo(old(content[p]), content[p], slot, bytes, ok, was)
    {
      ghost var content0 := content;
      ok, was := UpdateInPage(p, slot, bytes);
      if ok {
        ListStale(content0, content, links, insertableHead, list, p);
        RefreshInsertablePage(p);
      } else {
        assert content == content0;
      }
    }

    /** A slot that is already free stays as it is. */
    method ApplyDelete(p: PageId, slot: nat)
      requires Valid() && p in content && slot < content[p].slots
      modifies this, repr
      ensures Valid() && repr == old(repr) && p in content && content == old(content)[p := content[p]]
      ensures content[p].rows == old(content[p].rows) - {slot}
    {
      EnsureHeapMetadata();
      DeleteListed(p, slot);
    }

    method DeleteListed(p: PageId, slot: nat)
      requires PagesOk() && p in content && slot < content[p].slots
      requires ListFits(content, links, insertableHead, list, INVALID_PAGE_ID)
      modifies this`content, this`links, this`insertableHead, this`list, repr
      ensures PagesOk() && ListFits(content, links, insertableHead, list, INVALID_PAGE_ID)
      ensures p in content && content == old(content)[p := content[p]]
      ensures content[p].rows == old(content[p].rows) - {slot}
    {
      ghost var content0 := content;
      DeleteInPage(p, slot);
      ListStale(content0, content, links, insertableHead, list, p);
      RefreshInsertablePage(p);
    }

    /** Marking a row never changes which pages have room, so the list needs no refresh. */
    method MarkDelete(p: PageId, slot: nat) returns (ok: bool)
      requires Valid() && p in content
      modifies this`content, repr
      ensures Valid() && p in content && content == old(content)[p := content[p]]
      ensures ok <==> slot in old(content[p].rows) && !old(content[p].rows)[slot].deleted
      ensures content[p].rows == if ok then old(content[p].rows)[slot := Row(old(content[p].rows)[slot].bytes, true)]
                                 else old(content[p].rows)
    {
      ghost var content0 := content;
      ok := MarkInPage(p, slot);
      if metadataBuilt {
        ListSame(content0, content, links, insertableHead, list, p);
      }
    }

    method MarkInPage(p: PageId, slot: nat) returns (ok: bool)
      requires PagesOk() && p in content
      modifies this`content, repr
      ensures PagesOk() && p in content && content == old(content)[p := content[p]]
      ensures content[p].room == old(content[p].room)
      ensures ok <==> slot in old(content[p].rows) && !old(content[p].rows)[slot].deleted
      ensures content[p].rows == if ok then old(content[p].rows)[slot := Row(old(content[p].rows)[slot].bytes, true)]
                                 else old(content[p].rows)
    {
      var page := pages[p];
      assert PageOk(p);
      ok := page.MarkDelete(slot);
      content := content[p := page.Summarize()];
      OthersKept(p);
    }
  }

  /** One row more, in page p, which may be new. */
  ghost predicate Stored(content: map<PageId, Summary>, content': map<PageId, Summary>, p: PageId, slot: nat,
                         bytes: seq<Byte>) {
    && p in content' && content' == content[p := content'[p]]
    && var rows := if p in content then content[p].rows else map[];
    && slot !in rows && content'[p].rows == rows[slot := Row(bytes, false)]
  }

  lemma ListSame(content: map<PageId, Summary>, content': map<PageId, Summary>, links: map<PageId, Links>, head: PageId,
                 list: seq<PageId>, p: PageId)
    requires ListFits(content, links, head, list, INVALID_PAGE_ID)
    requires p in content && p in content' && content' == content[p := content'[p]]
    requires content'[p].room == content[p].room
    ensures ListFits(content', links, head, list, INVALID_PAGE_ID)
  {
  }

  /** One page of the rebuilding loop: its links are reset, and it joins the end of the list if it has room. */
  method TrackAtEnd(p: PageId, can: bool, links: map<PageId, Links>, head: PageId, tail: PageId,
                    ghost content: map<PageId, Summary>, ghost done: seq<PageId>, ghost list: seq<PageId>)
    returns (links': map<PageId, Links>, head': PageId, tail': PageId, ghost list': seq<PageId>)
    requires Rebuilt(content, done, links, head, list) && tail == At(list, |list| - 1)
    requires p !in done && p in content && p != INVALID_PAGE_ID && (can <==> content[p].room >= 1)
    ensures Rebuilt(content, done + [p], links', head', list') && tail' == At(list', |list'| - 1)
  {
    RebuiltStep(content, done, links, head, list, p);
    links', head', tail', list' := links[p := UNLINKED], head, tail, list;
    if can {
      ListStep(links, head, list, if list == [] then 0 else |list| - 1);
      links' := Appended(links', tail, p);
      if tail == INVALID_PAGE_ID {
        head' := p;
      }
      tail', list' := p, list + [p];
    }
  }

  lemma RebuiltAll(content: map<PageId, Summary>, chain: seq<PageId>, links: map<PageId, Links>, head: PageId,
                   list: seq<PageId>)
    requires Rebuilt(content, chain, links, head, list) && forall p :: p in chain <==> p in content
    ensures ListFits(content, links, head, list, INVALID_PAGE_ID)
  {
    forall p: PageId ensures p in links.Keys <==> p in content.Keys {
      assert p in links <==> p in chain;
    }
  }

  lemma ChainStep(nexts: map<PageId, PageId>, first: PageId, chain: seq<PageId>, k: nat)
    requires ChainOk(nexts, first, chain) && k <= |chain|
    ensures At(chain, k) != INVALID_PAGE_ID <==> k < |chain|
    ensures k < |chain| ==> chain[k] in nexts && nexts[chain[k]] == At(chain, k + 1) && chain[k] !in chain[..k]
    ensures k < |chain| ==> chain[..k] + [chain[k]] == chain[..k + 1]
  {
    assert k < |chain| ==> FollowedAt(nexts, chain, k);
  }
}
