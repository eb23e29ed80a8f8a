/** The B+ tree index of src/index/b_plus_tree.cpp, over a buffer pool reduced to the pages it serves and their
    pin counts. */
module BPlusTrees {
  import opened Common
  import opened TreePages
  import opened TreeShape
  import opened TreeGrow
  import opened TreeShrink

  class BPlusTree {
    const lim: Limits
    var root: PageId
    /** The pages this index has allocated. */
    var pages: map<PageId, Page>
    var pins: multiset<PageId>
    /** Pages that have left the tree while somebody had them pinned, so that the buffer pool refused to delete them. */
    var kept: set<PageId>

    /** The key interval and height of every page. */
    ghost var geo: map<PageId, Range>
    /** The finite map that the index represents. */
    ghost var content: map<Key, RowId>

    ghost function St(): Store
      reads `root, `pages, `geo
    {
      Store(root, pages, geo)
    }

    /** The pages form a B+ tree that holds exactly `content`. */
    ghost predicate Valid()
      reads `root, `pages, `geo, `content
    {
      && Usable(lim)
      && if root == INVALID_PAGE_ID then pages == map[] && geo == map[] && content == map[]
         else Good(St(), NoGap, lim, content, INVALID_PAGE_ID, INVALID_PAGE_ID)
    }

    constructor (leafMax: nat, internalMax: nat)
      requires leafMax >= 2 && internalMax >= 4
      ensures Valid() && content == map[] && pins == multiset{} && kept == {}
      ensures lim == Limits(leafMax, internalMax)
    {
      lim := Limits(leafMax, internalMax);
      root := INVALID_PAGE_ID;
      pages, geo, content := map[], map[], map[];
      pins, kept := multiset{}, {};
    }

    // -------------------------------------------------------------- buffer pool

    method FetchPage(p: PageId) returns (page: Page)
      requires p in pages
      modifies this`pins
      ensures page == pages[p] && pins == old(pins) + multiset{p}
    {
      pins := pins + multiset{p};
      page := pages[p];
    }

    /** A pinned page is changed in memory. A page has room for one entry above its maximum size. */
    method Write(p: PageId, page: Page)
      requires p in pages && p in pins && Fits(page, lim)
      modifies this`pages
      ensures pages == old(pages)[p := page]
    {
      pages := pages[p := page];
    }

    /** Only a pinned page is ever unpinned; `rest` is what stays pinned. */
    method UnpinPage(p: PageId, ghost rest: multiset<PageId>)
      requires pins == rest + multiset{p}
      modifies this`pins
      ensures pins == rest
    {
      pins := pins - multiset{p};
    }

    /** NewPage followed by Init: the id is whichever one the allocator has free. */
    method NewPage(page: Page) returns (p: PageId)
      requires |page.keys| == 0
      modifies this`pages, this`pins
      ensures p !in old(pages) && p !in old(pins) && p > INVALID_PAGE_ID
      ensures pages == old(pages)[p := page] && pins == old(pins) + multiset{p}
    {
      ghost var used := pages.Keys + (set x | x in pins) + kept;
      ghost var id := UnusedPage(used);
      assert id !in used;
      assert id !in pages && id !in pins && id !in kept;
      p :| p > INVALID_PAGE_ID && p !in pages && p !in pins && p !in kept;
      pages := pages[p := page];
      pins := pins + multiset{p};
    }

    /** The page is no longer one of the tree. A pinned page is not deleted; its caller does not look at the reply. */
    method DeletePage(p: PageId)
      modifies this`pages, this`kept
      ensures pages == old(pages) - {p} && kept == if p in pins then old(kept) + {p} else old(kept)
    {
      pages := pages - {p};
      if p in pins {
        kept := kept + {p};
      }
    }

    /** The pages that have left the tree are deleted, except exactly those among `others`. */
    twostate predicate Dropped(others: multiset<PageId>)
      reads this`pages, this`kept
    {
      pages.Keys <= old(pages.Keys) && kept == old(kept) + (set p | p in old(pages) && p !in pages && p in others)
    }

    // -------------------------------------------------------------- search

    /** The leaf responsible for `key`, pinned. */
    method FindLeafPage(key: Key) returns (p: PageId)
      requires Valid() && root != INVALID_PAGE_ID
      modifies this`pins
      ensures p in pages && pages[p].Leaf? && Covers(geo[p], key)
      ensures pins == old(pins) + multiset{p}
    {
      p := root;
      var page := FetchPage(p);
      assert PageShape(St(), NoGap, p);
      while page.Internal?
        invariant p in pages && page == pages[p] && p in geo && Covers(geo[p], key)
        invariant PageShape(St(), NoGap, p)
        invariant pins == old(pins) + multiset{p}
        decreases geo[p].level
      {
        var i := ChildIndex(page.keys, key);
        assert KidShape(St(), NoGap, p, i);
        UnpinPage(p, old(pins));
        p := page.kids[i];
        page := FetchPage(p);
        assert PageShape(St(), NoGap, p);
      }
    }

    /** FindLeafPage with leftMost set. */
    method FindLeftmostLeaf() returns (p: PageId)
      requires Valid() && root != INVALID_PAGE_ID
      modifies this`pins
      ensures p in pages && pages[p].Leaf? && p in geo && geo[p].lo == Inf
      ensures pins == old(pins) + multiset{p}
    {
      p := root;
      var page := FetchPage(p);
      assert PageShape(St(), NoGap, p);
      while page.Internal?
        invariant p in pages && page == pages[p] && p in geo && geo[p].lo == Inf
        invariant PageShape(St(), NoGap, p)
        invariant pins == old(pins) + multiset{p}
        decreases geo[p].level
      {
        assert KidShape(St(), NoGap, p, 0);
        UnpinPage(p, old(pins));
        p := page.kids[0];
        page := FetchPage(p);
        assert PageShape(St(), NoGap, p);
      }
    }

    method GetValue(key: Key) returns (found: bool, value: RowId)
      requires Valid()
      modifies this`pins
      ensures pins == old(pins)
      ensures found <==> key in content
      ensures found ==> value == content[key]
    {
      if root == INVALID_PAGE_ID {
        return false, 0;
      }
      var p := FindLeafPage(key);
      LeafFacts(St(), lim, content, p);
      var page := pages[p];
      var i := KeyIndex(page.keys, key);
      found := i < |page.keys| && page.keys[i] == key;
      value := if found then page.vals[i] else 0;
      UnpinPage(p, old(pins));
    }

    // -------------------------------------------------------------- insert

    method Insert(key: Key, value: RowId) returns (ok: bool)
      requires Valid()
      modifies this`root, this`pages, this`pins, this`geo, this`content
      ensures Valid() && pins == old(pins)
      ensures ok <==> key !in old(content)
      ensures content == if ok then old(content)[key := value] else old(content)
      ensures !ok ==> root == old(root) && pages == old(pages)
    {
      if root == INVALID_PAGE_ID {
        StartNewTree(key, value);
        return true;
      }
      ok := InsertIntoLeaf(key, value);
    }

    method StartNewTree(key: Key, value: RowId)
      requires Valid() && root == INVALID_PAGE_ID
      modifies this`root, this`pages, this`pins, this`geo, this`content
      ensures Valid() && pins == old(pins) && content == map[key := value]
    {
      var p := NewPage(Leaf(INVALID_PAGE_ID, [], [], INVALID_PAGE_ID));
      Write(p, Leaf(INVALID_PAGE_ID, [key], [value], INVALID_PAGE_ID));
      root := p;
      geo := map[p := Range(0, Inf, Inf)];
      content := map[key := value];
      UnpinPage(p, old(pins));
      assert PageShape(St(), NoGap, p);
      assert SizedAt(St(), NoGap, lim, INVALID_PAGE_ID, INVALID_PAGE_ID, p);
      assert ExactAt(St(), content, p);
    }

    method InsertIntoLeaf(key: Key, value: RowId) returns (ok: bool)
      requires Valid() && root != INVALID_PAGE_ID
      modifies this`root, this`pages, this`pins, this`geo, this`content
      ensures Valid() && pins == old(pins)
      ensures ok <==> key !in old(content)
      ensures content == if ok then old(content)[key := value] else old(content)
      ensures !ok ==> root == old(root) && pages == old(pages)
    {
      ghost var s := St();
      var p := FindLeafPage(key);
      LeafFacts(s, lim, content, p);
      var page := pages[p];
      var i := KeyIndex(page.keys, key);
      if i < |page.keys| && page.keys[i] == key {
        UnpinPage(p, old(pins));
        return false;
      }
      LeafPutGood(s, p, i, key, value, lim, content);
      Write(p, LeafPut(page, i, key, value));
      content := content[key := value];
      ok := true;
      if |page.keys| == lim.leafMax {
        SplitFullLeaf(p);
      } else {
        NotOver(St(), lim, content, p);
      }
      UnpinPage(p, old(pins));
    }

    /** The tail of InsertIntoLeaf for a leaf that is one pair too large. */
    method SplitFullLeaf(p: PageId)
      requires Good(St(), NoGap, lim, content, p, INVALID_PAGE_ID)
      requires p in pages && p in pins && pages[p].Leaf?
      requires |pages[p].vals| == |pages[p].keys| == lim.leafMax + 1
      modifies this`root, this`pages, this`pins, this`geo, this`content
      ensures Valid() && pins == old(pins) && content == old(content) && root != INVALID_PAGE_ID
    {
      ghost var s := St();
      var page := pages[p];
      var right := NewPage(Leaf(page.parent, [], [], INVALID_PAGE_ID));
      LeafSplitGood(s, p, right, lim, content);
      var start := |page.keys| / 2;
      Write(right, Leaf(page.parent, page.keys[start..], page.vals[start..], page.next));
      Write(p, page.(keys := page.keys[..start], vals := page.vals[..start], next := right));
      geo := LeafSplit(s, p, right).geo;
      assert St() == LeafSplit(s, p, right);
      InsertIntoParent(p, pages[right].keys[0], right);
      UnpinPage(right, old(pins));
    }

    method InsertIntoParent(left: PageId, key: Key, right: PageId)
      requires Good(St(), Splitting(left, right), lim, content, INVALID_PAGE_ID, INVALID_PAGE_ID)
      requires At(key) == geo[right].lo && left in pins && right in pins
      modifies this`root, this`pages, this`pins, this`geo, this`content
      ensures Valid() && pins == old(pins) && content == old(content) && root != INVALID_PAGE_ID
      decreases geo[root].level - geo[left].level
    {
      ghost var s, gap := St(), Splitting(left, right);
      PendingFacts(s, gap, lim, content);
      if pages[left].IsRootPage() {
        var top := PopulateNewRoot(left, key, right);
        NewRootGood(s, gap, top, 0, lim, content);
        return;
      }
      var q := pages[left].parent;
      ghost var index := InsertNodeAfter(q, left, key, right);
      ParentPutGood(s, gap, index, lim, content);
      if |pages[q].keys| <= lim.internalMax {
        NotOver(St(), lim, content, q);
        UnpinPage(q, old(pins));
        return;
      }
      assert PageShape(St(), NoGap, q) && SizedAt(St(), NoGap, lim, q, INVALID_PAGE_ID, q);
      var newRight := SplitInternal(q);
      InsertIntoParent(q, pages[newRight].keys[0], newRight);
      UnpinPage(q, old(pins) + multiset{newRight});
      UnpinPage(newRight, old(pins));
    }

    /** The new root of InsertIntoParent, above both halves. */
    method PopulateNewRoot(left: PageId, key: Key, right: PageId) returns (top: PageId)
      requires left in pages && right in pages && left in geo && right in geo && left != right
      requires left in pins && right in pins && Fits(pages[left], lim) && Fits(pages[right], lim)
      requires At(key) == geo[right].lo && lim.internalMax >= 1
      modifies this`root, this`pages, this`pins, this`geo
      ensures top !in old(pages) && top != INVALID_PAGE_ID && pins == old(pins)
      ensures St() == NewRoot(old(St()), Splitting(left, right), top, 0)
    {
      top := NewPage(Internal(INVALID_PAGE_ID, [], []));
      Write(top, Internal(INVALID_PAGE_ID, [0, key], [left, right]));
      assert pages == old(pages)[top := Internal(INVALID_PAGE_ID, [0, key], [left, right])];
      var leftPage, rightPage := pages[left], pages[right];
      Write(left, leftPage.(parent := top));
      Write(right, rightPage.(parent := top));
      root := top;
      geo := geo[top := Range(geo[left].level + 1, Inf, Inf)];
      UnpinPage(top, old(pins));
    }

    /** The entry for `right` goes into the parent `q` next to `left`; `q` stays pinned. */
    method InsertNodeAfter(q: PageId, left: PageId, key: Key, right: PageId) returns (ghost index: nat)
      requires left in pages && right in pages && q in pages && right in geo && q != right && pages[left].parent == q
      requires right in pins && Fits(pages[right], lim) && At(key) == geo[right].lo
      requires pages[q].Internal? && |pages[q].keys| == |pages[q].kids| <= lim.internalMax && left in pages[q].kids
      modifies this`pages, this`pins
      ensures pins == old(pins) + multiset{q}
      ensures EntryOf(old(St()), left, index)
      ensures St() == ParentPut(old(St()), Splitting(left, right), index)
    {
      var parent := FetchPage(q);
      var i := ValueIndex(parent.kids, left);
      index := i;
      Write(q, parent.(keys := InsertAt(parent.keys, i + 1, key), kids := InsertAt(parent.kids, i + 1, right)));
      Write(right, pages[right].(parent := q));
    }

    /** Split of an internal page that is one entry too large; the new page stays pinned. */
    method SplitInternal(p: PageId) returns (right: PageId)
      requires Good(St(), NoGap, lim, content, p, INVALID_PAGE_ID)
      requires p in pages && p in pins && pages[p].Internal?
      requires |pages[p].kids| == |pages[p].keys| == lim.internalMax + 1
      modifies this`pages, this`pins, this`geo
      ensures right in pages && pins == old(pins) + multiset{right}
      ensures Good(St(), Splitting(p, right), lim, content, INVALID_PAGE_ID, INVALID_PAGE_ID)
      ensures |pages[right].keys| > 0 && geo[right].lo == At(pages[right].keys[0])
      ensures geo[p].level == old(geo[p].level) && geo[root].level == old(geo[root].level)
    {
      ghost var s := St();
      KidsFit(s, p, lim, content);
      right := MoveHalfTo(p);
      InternalSplitGood(s, p, right, lim, content);
    }

    method MoveHalfTo(p: PageId) returns (right: PageId)
      requires p in pages && p in pins && p in geo && pages[p].Internal?
      requires 2 <= |pages[p].keys| == |pages[p].kids| == lim.internalMax + 1 && p !in pages[p].kids
      requires Resident(pages[p].kids, pages, lim)
      modifies this`pages, this`pins, this`geo
      ensures right !in old(pages) && right != INVALID_PAGE_ID && pins == old(pins) + multiset{right}
      ensures St() == InternalSplit(old(St()), p, right)
    {
      var page := pages[p];
      right := NewPage(Internal(page.parent, [], []));
      var start := |page.keys| / 2;
      Write(right, Internal(page.parent, page.keys[start..], page.kids[start..]));
      assert pages == old(pages)[right := Internal(page.parent, page.keys[start..], page.kids[start..])];
      ReparentAll(page.kids[start..], right);
      Write(p, page.(keys := page.keys[..start], kids := page.kids[..start]));
      geo := geo[p := geo[p].(hi := At(page.keys[start]))][right := geo[p].(lo := At(page.keys[start]))];
    }

    /** The adoption loop of InternalPage::CopyNFrom. */
    method ReparentAll(kids: seq<PageId>, q: PageId)
      requires Resident(kids, pages, lim)
      modifies this`pages, this`pins
      ensures pages == Reparent(old(pages), kids, q) && pins == old(pins)
    {
      for i := 0 to |kids|
        invariant pages == Reparent(old(pages), kids[..i], q) && pins == old(pins)
      {
        ReparentOne(old(pages), kids, i, q);
        Adopt(kids[i], q);
      }
      assert kids[..|kids|] == kids;
    }

    // -------------------------------------------------------------- remove

    method Remove(key: Key)
      requires Valid()
      modifies this
      ensures Valid() && pins == old(pins)
      ensures content == old(content) - {key} && Dropped(pins)
      ensures key !in old(content) ==> root == old(root) && pages == old(pages)
    {
      if root == INVALID_PAGE_ID {
        return;
      }
      ghost var s := St();
      var p := FindLeafPage(key);
      LeafFacts(s, lim, content, p);
      var page := pages[p];
      var i := KeyIndex(page.keys, key);
      if i >= |page.keys| || page.keys[i] != key {
        assert content - {key} == content;
        UnpinPage(p, old(pins));
        return;
      }
      LeafCutGood(s, p, i, lim, content);
      Write(p, LeafCut(page, i));
      content := content - {key};
      CoalesceOrRedistribute(p, old(pins));
    }

    /** `node` may be one entry short; it is pinned on entry and released on return. */
    method CoalesceOrRedistribute(node: PageId, ghost others: multiset<PageId>)
      requires node in pages && Good(St(), NoGap, lim, content, INVALID_PAGE_ID, node)
      requires pins == others + multiset{node}
      modifies this
      ensures Valid() && pins == others && content == old(content) && Dropped(others)
      decreases geo[root].level - geo[node].level, 2
    {
      UnderFacts(St(), lim, content, node);
      if pages[node].IsRootPage() {
        ReleaseRoot(node, others);
        return;
      }
      if |pages[node].keys| >= MinSize(pages[node], lim) {
        NotUnder(St(), lim, content, node);
        UnpinPage(node, others);
        return;
      }
      FixShortPage(node, others);
    }

    /** The rest of CoalesceOrRedistribute, for a page below its minimum size. */
    method FixShortPage(node: PageId, ghost others: multiset<PageId>)
      requires node in pages && Good(St(), NoGap, lim, content, INVALID_PAGE_ID, node) && node != root
      requires |pages[node].keys| < MaxSize(pages[node], lim) / 2
      requires pins == others + multiset{node}
      modifies this
      ensures Valid() && pins == others && content == old(content) && Dropped(others)
      decreases geo[root].level - geo[node].level, 1
    {
      var neighbor, q, index := FetchFamily(node);
      if |pages[neighbor].keys| + |pages[node].keys| > MaxSize(pages[node], lim) {
        Redistribute(neighbor, node, q, index);
        UnpinPage(neighbor, others + multiset{node} + multiset{q});
        UnpinPage(node, others + multiset{q});
        UnpinPage(q, others);
      } else {
        Coalesce(neighbor, node, q, index, others);
      }
    }

    /** The parent of `node` and the sibling it is to be balanced with, both pinned. */
    method FetchFamily(node: PageId) returns (neighbor: PageId, q: PageId, index: nat)
      requires node in pages && Good(St(), NoGap, lim, content, INVALID_PAGE_ID, node) && node != root
      modifies this`pins
      ensures Neighbors(neighbor, node, q, index) && neighbor in pages
      ensures pins == old(pins) + multiset{q} + multiset{neighbor}
    {
      UnderFacts(St(), lim, content, node);
      q := pages[node].parent;
      var parent := FetchPage(q);
      index := ValueIndex(parent.kids, node);
      neighbor := parent.kids[if index == 0 then 1 else index - 1];
      NeighborFacts(St(), q, index);
      var page := FetchPage(neighbor);
    }

    /** CoalesceOrRedistribute at the root: AdjustRoot, then the old root is freed if it is no longer needed. */
    method ReleaseRoot(node: PageId, ghost others: multiset<PageId>)
      requires node == root && Good(St(), NoGap, lim, content, INVALID_PAGE_ID, node)
      requires pins == others + multiset{node}
      modifies this
      ensures Valid() && pins == others && content == old(content) && Dropped(others)
    {
      ghost var s := St();
      UnderFacts(s, lim, content, node);
      var page := pages[node];
      if page.Internal? && |page.keys| == 1 {
        CollapseGood(s, lim, content);
        ReplaceRoot(page.kids[0], others);
      } else if page.Leaf? && |page.keys| == 0 {
        EmptyRoot(s, lim, content);
        root := INVALID_PAGE_ID;
        UnpinPage(node, others);
        DeletePage(node);
        geo := map[];
      } else {
        NotUnder(s, lim, content, node);
        UnpinPage(node, others);
      }
    }

    /** The only child of the root takes its place. */
    method ReplaceRoot(child: PageId, ghost others: multiset<PageId>)
      requires root in pages && pages[root].Internal? && pages[root].kids == [child]
      requires child in pages && child != root && Fits(pages[child], lim)
      requires pins == others + multiset{root}
      modifies this`root, this`pages, this`pins, this`geo, this`kept
      ensures St() == Collapse(old(St())) && pins == others && Dropped(others)
    {
      var oldRoot := root;
      var page := FetchPage(child);
      Write(child, page.(parent := INVALID_PAGE_ID));
      root := child;
      UnpinPage(child, others + multiset{oldRoot});
      UnpinPage(oldRoot, others);
      DeletePage(oldRoot);
      geo := geo - {oldRoot};
    }

    /** `node` is entry `index` of `q` and `neighbor` the entry beside it. */
    ghost predicate Neighbors(neighbor: PageId, node: PageId, q: PageId, index: nat)
      reads `pages
    {
      && q in pages && pages[q].Internal? && index < |pages[q].kids| && |pages[q].kids| >= 2
      && pages[q].kids[index] == node
      && pages[q].kids[if index == 0 then 1 else index - 1] == neighbor
    }

    method Redistribute(neighbor: PageId, node: PageId, q: PageId, index: nat)
      requires node in pages && Good(St(), NoGap, lim, content, INVALID_PAGE_ID, node) && node != root
      requires Neighbors(neighbor, node, q, index) && neighbor in pages && neighbor in pins && node in pins && q in pins
      requires |pages[neighbor].keys| + |pages[node].keys| > MaxSize(pages[node], lim)
      requires |pages[node].keys| < MaxSize(pages[node], lim) / 2
      modifies this`pages, this`pins, this`geo
      ensures Valid() && pins == old(pins) && pages.Keys == old(pages.Keys)
    {
      ghost var s := St();
      ghost var i := if index == 0 then 1 else index;
      PairFacts(s, lim, content, node, q, i);
      if pages[node].Leaf? {
        LeafShiftGood(s, q, i, lim, content, node);
        LeafShiftKeys(s, q, i, ShiftCut(s, q, i, node));
        RedistributeLeaf(neighbor, node, q, index);
      } else {
        KidsOfPair(s, lim, content, node, q, i);
        RedistributeInternal(neighbor, node, q, index);
      }
    }

    method RedistributeInternal(neighbor: PageId, node: PageId, q: PageId, index: nat)
      requires Good(St(), NoGap, lim, content, INVALID_PAGE_ID, node) && node != root
      requires Neighbors(neighbor, node, q, index) && KidsReady(St(), q, if index == 0 then 1 else index, lim)
      requires neighbor in pins && node in pins && q in pins && Fits(pages[q], lim) && Fits(pages[neighbor], lim)
      requires |pages[neighbor].keys| + |pages[node].keys| > lim.internalMax && |pages[node].keys| < lim.internalMax / 2
      modifies this`pages, this`pins, this`geo
      ensures Valid() && pins == old(pins) && pages.Keys == old(pages.Keys)
    {
      ghost var s := St();
      ghost var i: nat := if index == 0 then 1 else index;
      ghost var junk := if index == 0 then pages[neighbor].keys[1] else pages[node].keys[0];
      InternalShiftGood(s, q, i, junk, lim, content, node);
      InternalShiftKeys(s, q, i, ShiftCut(s, q, i, node), junk);
      ShiftInternal(neighbor, node, q, index, i, junk);
    }

    method ShiftInternal(neighbor: PageId, node: PageId, q: PageId, index: nat, ghost i: nat, ghost junk: Key)
      requires Neighbors(neighbor, node, q, index) && i == (if index == 0 then 1 else index)
      requires KidsReady(St(), q, i, lim)
      requires neighbor in pins && node in pins && q in pins && Fits(pages[q], lim) && Fits(pages[neighbor], lim)
      requires 2 <= |pages[neighbor].keys| && 1 <= |pages[node].keys| <= lim.internalMax
      requires junk == if index == 0 then pages[neighbor].keys[1] else pages[node].keys[0]
      requires 1 <= ShiftCut(St(), q, i, node) < |JointKids(St(), q, i)|
      modifies this`pages, this`pins, this`geo
      ensures St() == InternalShift(old(St()), q, i, ShiftCut(old(St()), q, i, node), junk) && pins == old(pins)
    {
      if index == 0 {
        MoveFirstToEndOf(node, neighbor, q, 1);
      } else {
        MoveLastToFrontOf(neighbor, node, q, index);
      }
    }

    /** MoveFirstToEndOf or MoveLastToFrontOf between leaves, and the new separator. */
    method RedistributeLeaf(neighbor: PageId, node: PageId, q: PageId, index: nat)
      requires Neighbors(neighbor, node, q, index) && LeafSiblings(St(), q, if index == 0 then 1 else index)
      requires neighbor in pins && node in pins && q in pins && Fits(pages[q], lim)
      requires 2 <= |pages[neighbor].keys| && Fits(pages[neighbor], lim) && |pages[node].keys| <= lim.leafMax
      modifies this`pages, this`geo
      ensures var s, i := old(St()), if index == 0 then 1 else index;
              var m := ShiftCut(s, q, i, node);
              0 < m < |JointKeys(s, q, i)| && St() == LeafShift(s, q, i, m)
    {
      ghost var s := St();
      ghost var i: nat := if index == 0 then 1 else index;
      ghost var m := ShiftCut(s, q, i, node);
      var from, to, parent := pages[neighbor], pages[node], pages[q];
      if index == 0 {
        CutAfter(to.keys, from.keys);
        CutAfter(to.vals, from.vals);
        Write(node, to.(keys := to.keys + [from.keys[0]], vals := to.vals + [from.vals[0]]));
        Write(neighbor, from.(keys := from.keys[1..], vals := from.vals[1..]));
        Write(q, Internal(parent.parent, parent.keys[1 := from.keys[1]], parent.kids));
      } else {
        var last := |from.keys| - 1;
        CutBefore(from.keys, to.keys);
        CutBefore(from.vals, to.vals);
        Write(node, to.(keys := [from.keys[last]] + to.keys, vals := [from.vals[last]] + to.vals));
        Write(neighbor, from.(keys := from.keys[..last], vals := from.vals[..last]));
        Write(q, Internal(parent.parent, parent.keys[index := from.keys[last]], parent.kids));
      }
      geo := LeafShift(s, q, i, m).geo;
    }

    /** InternalPage::MoveFirstToEndOf: the separator comes down to the end of `left`, the first separator of
        `right` goes up, and the child that moves is adopted. */
    method MoveFirstToEndOf(left: PageId, right: PageId, q: PageId, i: nat)
      requires KidsReady(St(), q, i, lim) && left == pages[q].kids[i - 1] && right == pages[q].kids[i]
      requires left in pins && right in pins && q in pins && Fits(pages[q], lim) && Fits(pages[right], lim)
      requires 2 <= |pages[right].keys| && |pages[left].keys| <= lim.internalMax
      modifies this`pages, this`pins, this`geo
      ensures pins == old(pins)
      ensures St() == InternalShift(old(St()), q, i, old(|pages[left].keys|) + 1, old(pages)[right].keys[1])
    {
      ghost var s := St();
      var to, from, parent := pages[left], pages[right], pages[q];
      ghost var n := |to.kids|;
      ReparentMoved(pages, JointKids(s, q, i), n, n + 1, left, right);
      assert JointKids(s, q, i)[n] == from.kids[0];
      CutAfter(to.kids, from.kids);
      CutAfter(to.keys, from.keys[0 := parent.keys[i]]);
      assert [from.keys[1]] + JointSeps(s, q, i)[n + 2..] == from.keys[1..];
      Adopt(from.kids[0], left);
      Write(left, to.(keys := to.keys + [parent.keys[i]], kids := to.kids + [from.kids[0]]));
      Write(right, from.(keys := from.keys[1..], kids := from.kids[1..]));
      Write(q, Internal(parent.parent, parent.keys[i := from.keys[1]], parent.kids));
      geo := InternalShift(s, q, i, n + 1, 0).geo;
    }

    /** InternalPage::MoveLastToFrontOf, the other way round. The first key of `right` keeps its old bytes. */
    method MoveLastToFrontOf(left: PageId, right: PageId, q: PageId, i: nat)
      requires KidsReady(St(), q, i, lim) && left == pages[q].kids[i - 1] && right == pages[q].kids[i]
      requires left in pins && right in pins && q in pins && Fits(pages[q], lim) && Fits(pages[left], lim)
      requires 2 <= |pages[left].keys| && |pages[right].keys| <= lim.internalMax
      modifies this`pages, this`pins, this`geo
      ensures pins == old(pins)
      ensures St() == InternalShift(old(St()), q, i, old(|pages[left].keys|) - 1, old(pages)[right].keys[0])
    {
      ghost var s := St();
      var from, to, parent := pages[left], pages[right], pages[q];
      var last := |from.keys| - 1;
      ReparentMoved(pages, JointKids(s, q, i), last + 1, last, left, right);
      assert JointKids(s, q, i)[last] == from.kids[last];
      CutBefore(from.kids, to.kids);
      CutBefore(from.keys, to.keys[0 := parent.keys[i]]);
      assert [to.keys[0]] + JointSeps(s, q, i)[last + 1..] == [to.keys[0], parent.keys[i]] + to.keys[1..];
      Adopt(from.kids[last], right);
      Write(left, from.(keys := from.keys[..last], kids := from.kids[..last]));
      Write(right, to.(keys := [to.keys[0], parent.keys[i]] + to.keys[1..], kids := [from.kids[last]] + to.kids));
      Write(q, Internal(parent.parent, parent.keys[i := from.keys[last]], parent.kids));
      geo := InternalShift(s, q, i, last, 0).geo;
    }

    /** A moved child is fetched, given its new parent and released. */
    method Adopt(child: PageId, q: PageId)
      requires child in pages && Fits(pages[child], lim)
      modifies this`pages, this`pins
      ensures pages == old(pages)[child := old(pages)[child].(parent := q)] && pins == old(pins)
    {
      var page := FetchPage(child);
      Write(child, page.(parent := q));
      UnpinPage(child, old(pins));
    }

    /** The right one of the two pages is emptied into the left one and freed; the parent loses an entry.
        All three pages are pinned on entry and released on return. */
    method Coalesce(neighbor: PageId, node: PageId, q: PageId, index: nat, ghost others: multiset<PageId>)
      requires node in pages && Good(St(), NoGap, lim, content, INVALID_PAGE_ID, node) && node != root
      requires Neighbors(neighbor, node, q, index) && neighbor in pages
      requires |pages[neighbor].keys| + |pages[node].keys| <= MaxSize(pages[node], lim)
      requires pins == others + multiset{node} + multiset{q} + multiset{neighbor}
      modifies this
      ensures Valid() && pins == others && content == old(content) && Dropped(others)
      decreases geo[root].level - geo[node].level, 0
    {
      MergePair(neighbor, node, q, index, others);
      UnderFacts(St(), lim, content, q);
      if pages[q].IsRootPage() || |pages[q].keys| < MinSize(pages[q], lim) {
        CoalesceOrRedistribute(q, others);
      } else {
        NotUnder(St(), lim, content, q);
        UnpinPage(q, others);
      }
    }

    /** The merge itself; the parent, still pinned, may now be short. */
    method MergePair(neighbor: PageId, node: PageId, q: PageId, index: nat, ghost others: multiset<PageId>)
      requires node in pages && Good(St(), NoGap, lim, content, INVALID_PAGE_ID, node) && node != root
      requires Neighbors(neighbor, node, q, index) && neighbor in pages
      requires |pages[neighbor].keys| + |pages[node].keys| <= MaxSize(pages[node], lim)
      requires pins == others + multiset{node} + multiset{q} + multiset{neighbor}
      modifies this`pages, this`pins, this`geo, this`kept
      ensures q in pages && Good(St(), NoGap, lim, content, INVALID_PAGE_ID, q)
      ensures pins == others + multiset{q} && Dropped(others)
      ensures geo[root].level == old(geo[root].level) && old(geo[node].level) < geo[q].level <= geo[root].level
    {
      ghost var s := St();
      var i := if index == 0 then 1 else index;
      PairFacts(s, lim, content, node, q, i);
      MergedFacts(s, q, i, lim, content, node);
      if pages[node].Internal? {
        KidsOfPair(s, lim, content, node, q, i);
      }
      MergeSiblings(pages[q].kids[i - 1], pages[q].kids[i], q, i, others + multiset{q});
    }

    method MergeSiblings(left: PageId, right: PageId, q: PageId, i: nat, ghost others: multiset<PageId>)
      requires LeafSiblings(St(), q, i) || KidsReady(St(), q, i, lim)
      requires left == pages[q].kids[i - 1] && right == pages[q].kids[i] && Fits(pages[q], lim)
      requires |JointKeys(St(), q, i)| <= MaxSize(pages[right], lim)
      requires pins == others + multiset{left} + multiset{right} && q in others
      modifies this`pages, this`pins, this`geo, this`kept
      ensures St() == Merged(old(St()), q, i) && pins == others
      ensures kept == if right in others then old(kept) + {right} else old(kept)
    {
      if pages[right].Leaf? {
        CoalesceLeaf(left, right, q, i, others);
      } else {
        CoalesceInternal(left, right, q, i, others);
      }
    }

    method CoalesceLeaf(left: PageId, right: PageId, q: PageId, i: nat, ghost others: multiset<PageId>)
      requires LeafSiblings(St(), q, i) && left == pages[q].kids[i - 1] && right == pages[q].kids[i]
      requires pins == others + multiset{left} + multiset{right} && q in others
      requires |JointKeys(St(), q, i)| <= lim.leafMax && Fits(pages[q], lim)
      modifies this`pages, this`pins, this`geo, this`kept
      ensures St() == LeafMerge(old(St()), q, i) && pins == others
      ensures kept == if right in others then old(kept) + {right} else old(kept)
    {
      ghost var s := St();
      var l, r, parent := pages[left], pages[right], pages[q];
      Write(left, l.(keys := l.keys + r.keys, vals := l.vals + r.vals, next := r.next));
      Write(q, parent.(keys := RemoveAt(parent.keys, i), kids := RemoveAt(parent.kids, i)));
      UnpinPage(left, others + multiset{right});
      UnpinPage(right, others);
      DeletePage(right);
      geo := LeafMerge(s, q, i).geo;
    }

    method CoalesceInternal(left: PageId, right: PageId, q: PageId, i: nat, ghost others: multiset<PageId>)
      requires KidsReady(St(), q, i, lim) && left == pages[q].kids[i - 1] && right == pages[q].kids[i]
      requires pins == others + multiset{left} + multiset{right} && q in others && Fits(pages[q], lim)
      requires |JointKids(St(), q, i)| <= lim.internalMax
      modifies this`pages, this`pins, this`geo, this`kept
      ensures St() == InternalMerge(old(St()), q, i) && pins == others
      ensures kept == if right in others then old(kept) + {right} else old(kept)
    {
      ghost var s := St();
      var l, r, parent := pages[left], pages[right], pages[q];
      Write(left, l.(keys := l.keys + r.keys[0 := parent.keys[i]], kids := l.kids + r.kids));
      assert forall j :: 0 <= j < |r.kids| ==> r.kids[j] == JointKids(s, q, i)[|l.kids| + j];
      ReparentAll(r.kids, left);
      Write(q, parent.(keys := RemoveAt(parent.keys, i), kids := RemoveAt(parent.kids, i)));
      UnpinPage(left, others + multiset{right});
      UnpinPage(right, others);
      DeletePage(right);
      geo := InternalMerge(s, q, i).geo;
    }
  }
}
