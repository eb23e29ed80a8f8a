/** The doubly linked list of the table pages with room (src/storage/table_heap.cpp), as the link fields of the page
    headers record it. */
module InsertableLists {
  import opened Common

  /** The previous and next insertable page ids of one page. */
  datatype Links = Links(prev: PageId, next: PageId)

  const UNLINKED := Links(INVALID_PAGE_ID, INVALID_PAGE_ID)

  function At(list: seq<PageId>, k: int): PageId {
    if 0 <= k < |list| then list[k] else INVALID_PAGE_ID
  }

  /** The link fields and the head spell out `list`, and pages outside it have both fields invalid. */
  ghost predicate ListOk(links: map<PageId, Links>, head: PageId, list: seq<PageId>) {
    && INVALID_PAGE_ID !in links && Distinct(list)
    && head == At(list, 0)
    && (forall k {:trigger LinkedAt(links, list, k)} :: 0 <= k < |list| ==> LinkedAt(links, list, k))
    && (forall p :: p in list ==> p in links)
    && (forall p <- links :: p !in list ==> links[p] == UNLINKED)
  }

  ghost predicate LinkedAt(links: map<PageId, Links>, list: seq<PageId>, k: int)
    requires 0 <= k < |list|
  {
    list[k] in links && links[list[k]] == Links(At(list, k - 1), At(list, k + 1))
  }

  /** IsInsertablePageTracked looks at three fields only, and is right. */
  predicate IsTracked(links: map<PageId, Links>, head: PageId, p: PageId)
    requires p in links
  {
    p == head || links[p].prev != INVALID_PAGE_ID || links[p].next != INVALID_PAGE_ID
  }

  lemma TrackedIsListed(links: map<PageId, Links>, head: PageId, list: seq<PageId>, p: PageId)
    requires ListOk(links, head, list) && p in links
    ensures IsTracked(links, head, p) <==> p in list
  {
    if p in list {
      var k :| 0 <= k < |list| && list[k] == p;
      assert LinkedAt(links, list, k) && (k > 0 ==> LinkedAt(links, list, k - 1));
    }
  }

  /** LinkInsertablePage: at the front. */
  function Linked(links: map<PageId, Links>, head: PageId, p: PageId): map<PageId, Links>
    requires p in links && (head != INVALID_PAGE_ID ==> head in links)
  {
    var links1 := links[p := Links(INVALID_PAGE_ID, head)];
    if head != INVALID_PAGE_ID then links1[head := Links(p, links1[head].next)] else links1
  }

  lemma LinkedOk(links: map<PageId, Links>, head: PageId, list: seq<PageId>, p: PageId)
    requires ListOk(links, head, list) && p in links && p !in list
    ensures head != INVALID_PAGE_ID ==> head in links
    ensures ListOk(Linked(links, head, p), p, [p] + list)
  {
    assert list != [] ==> LinkedAt(links, list, 0);
    var links', list' := Linked(links, head, p), [p] + list;
    forall k | 0 <= k < |list'| ensures LinkedAt(links', list', k) {
      if k > 0 { assert LinkedAt(links, list, k - 1); }
    }
  }

  /** UnlinkInsertablePage: the neighbours and the head are joined around the page. */
  function Unlinked(links: map<PageId, Links>, p: PageId): map<PageId, Links>
    requires p in links
    requires links[p].prev != INVALID_PAGE_ID ==> links[p].prev in links
    requires links[p].next != INVALID_PAGE_ID ==> links[p].next in links
  {
    var Links(prev, next) := links[p];
    var links1 := if prev != INVALID_PAGE_ID then links[prev := Links(links[prev].prev, next)] else links;
    var links2 := if next != INVALID_PAGE_ID then links1[next := Links(prev, links1[next].next)] else links1;
    links2[p := UNLINKED]
  }

  /** The fields that unlinking reads name pages of the list. */
  lemma NeighboursLinked(links: map<PageId, Links>, head: PageId, list: seq<PageId>, k: nat)
    requires ListOk(links, head, list) && k < |list|
    ensures list[k] in links && links[list[k]] == Links(At(list, k - 1), At(list, k + 1))
    ensures links[list[k]].prev != INVALID_PAGE_ID ==> links[list[k]].prev in links
    ensures links[list[k]].next != INVALID_PAGE_ID ==> links[list[k]].next in links
  {
    assert LinkedAt(links, list, k);
    assert (k > 0 ==> LinkedAt(links, list, k - 1)) && (k + 1 < |list| ==> LinkedAt(links, list, k + 1));
  }

  lemma UnlinkedOk(links: map<PageId, Links>, head: PageId, list: seq<PageId>, k: nat)
    requires ListOk(links, head, list) && k < |list| && list[k] in links
    requires links[list[k]].prev != INVALID_PAGE_ID ==> links[list[k]].prev in links
    requires links[list[k]].next != INVALID_PAGE_ID ==> links[list[k]].next in links
    ensures ListOk(Unlinked(links, list[k]), if head == list[k] then links[list[k]].next else head,
                   list[..k] + list[k + 1..])
  {
    var p, list' := list[k], list[..k] + list[k + 1..];
    NeighboursLinked(links, head, list, k);
    var links' := Unlinked(links, p);
    UnlinkedKeys(links, p);
    CutHead(list, k);
    forall j | 0 <= j < |list'| ensures LinkedAt(links', list', j) {
      UnlinkedAt(links, list, k, j);
    }
    forall q | q in links' && q !in list' ensures links'[q] == UNLINKED {
      UnlinkedElsewhere(links, list, k, q);
    }
  }

  lemma UnlinkedKeys(links: map<PageId, Links>, p: PageId)
    requires p in links
    requires links[p].prev != INVALID_PAGE_ID ==> links[p].prev in links
    requires links[p].next != INVALID_PAGE_ID ==> links[p].next in links
    ensures Unlinked(links, p).Keys == links.Keys
  {
  }

  lemma CutHead(list: seq<PageId>, k: nat)
    requires Distinct(list) && k < |list|
    ensures Distinct(list[..k] + list[k + 1..])
    ensures At(list[..k] + list[k + 1..], 0) == if list[0] == list[k] then At(list, k + 1) else list[0]
  {
  }

  lemma UnlinkedAt(links: map<PageId, Links>, list: seq<PageId>, k: nat, j: nat)
    requires ListOk(links, At(list, 0), list) && k < |list| && j + 1 < |list| && list[k] in links
    requires links[list[k]].prev != INVALID_PAGE_ID ==> links[list[k]].prev in links
    requires links[list[k]].next != INVALID_PAGE_ID ==> links[list[k]].next in links
    ensures var list' := list[..k] + list[k + 1..];
            && list'[j] in links
            && Unlinked(links, list[k])[list'[j]] == Links(At(list', j - 1), At(list', j + 1))
  {
    var i := if j < k then j else j + 1;
    assert LinkedAt(links, list, i);
    OnlyNeighbours(links, list, k, i);
  }

  lemma UnlinkedElsewhere(links: map<PageId, Links>, list: seq<PageId>, k: nat, q: PageId)
    requires ListOk(links, At(list, 0), list) && k < |list| && LinkedAt(links, list, k)
    requires q in links && q !in list[..k] + list[k + 1..]
    requires links[list[k]].prev != INVALID_PAGE_ID ==> links[list[k]].prev in links
    requires links[list[k]].next != INVALID_PAGE_ID ==> links[list[k]].next in links
    ensures Unlinked(links, list[k])[q] == UNLINKED
  {
    var list' := list[..k] + list[k + 1..];
    assert k > 0 ==> list'[k - 1] == list[k - 1];
    assert k + 1 < |list| ==> list'[k] == list[k + 1];
    assert q in list ==> q == list[k] by {
      assert list == list[..k] + [list[k]] + list[k + 1..];
    }
  }

  /** Unlinking changes the next field of the page before, the previous field of the page after, and no other. */
  lemma OnlyNeighbours(links: map<PageId, Links>, list: seq<PageId>, k: nat, i: nat)
    requires ListOk(links, At(list, 0), list) && k < |list| && i < |list| && i != k
    requires LinkedAt(links, list, k) && LinkedAt(links, list, i)
    requires links[list[k]].prev != INVALID_PAGE_ID ==> links[list[k]].prev in links
    requires links[list[k]].next != INVALID_PAGE_ID ==> links[list[k]].next in links
    ensures Unlinked(links, list[k])[list[i]] ==
            Links(if i == k + 1 then At(list, k - 1) else links[list[i]].prev,
                  if i + 1 == k then At(list, k + 1) else links[list[i]].next)
  {
  }

  /** A page at the end of the list, as EnsureHeapMetadata adds it. */
  function Appended(links: map<PageId, Links>, tail: PageId, p: PageId): map<PageId, Links>
    requires p in links && (tail != INVALID_PAGE_ID ==> tail in links)
  {
    if tail != INVALID_PAGE_ID then links[tail := Links(links[tail].prev, p)][p := Links(tail, links[p].next)]
    else links
  }

  lemma AppendedOk(links: map<PageId, Links>, head: PageId, list: seq<PageId>, p: PageId)
    requires ListOk(links, head, list) && p in links && p !in list
    ensures At(list, |list| - 1) != INVALID_PAGE_ID ==> At(list, |list| - 1) in links
    ensures ListOk(Appended(links, At(list, |list| - 1), p), if list == [] then p else head, list + [p])
  {
    var n := |list|;
    assert n > 0 ==> LinkedAt(links, list, n - 1);
    var links', list' := Appended(links, At(list, n - 1), p), list + [p];
    forall k | 0 <= k < |list'| ensures LinkedAt(links', list', k) {
      if k < n { assert LinkedAt(links, list, k); }
    }
  }

  lemma CutMembers(list: seq<PageId>, k: nat)
    requires Distinct(list) && k < |list|
    ensures forall q :: q in list[..k] + list[k + 1..] <==> q in list && q != list[k]
  {
    assert list == list[..k] + [list[k]] + list[k + 1..];
  }
}
