/** What it means for a set of pages to be a B+ tree, stated page by page.

    Every page is given a ghost range: its height above the leaves and the half-open key interval it is
    responsible for. A tree is well shaped when each page agrees with its immediate neighbours about these
    ranges, so a change to a few pages is checked at those pages only. */
module TreeShape {
  import opened Common
  import opened TreePages

  /** The end of a key interval: unbounded, or at a key. */
  datatype Bound = Inf | At(key: Key)

  datatype Range = Range(level: nat, lo: Bound, hi: Bound)

  predicate Covers(r: Range, k: Key) {
    && (r.lo.At? ==> r.lo.key <= k)
    && (r.hi.At? ==> k < r.hi.key)
  }

  /** Strictly inside: separators of an internal page never equal its own lower bound. */
  predicate Inside(r: Range, k: Key) {
    && (r.lo.At? ==> r.lo.key < k)
    && (r.hi.At? ==> k < r.hi.key)
  }

  /** The allocated pages of one index with their ranges. */
  datatype Store = Store(root: PageId, pages: map<PageId, Page>, geo: map<PageId, Range>)

  /** A page split is not yet known to the parent between Split and InsertIntoParent:
      `right` has taken over the upper part of `left`, and the parent still points at `left` alone. */
  datatype Gap = NoGap | Splitting(left: PageId, right: PageId)

  datatype Limits = Limits(leafMax: nat, internalMax: nat)

  /** The assumption under which every page that is not the root has a sibling. */
  predicate Usable(lim: Limits) { lim.leafMax >= 2 && lim.internalMax >= 4 }

  function MaxSize(page: Page, lim: Limits): nat {
    if page.Leaf? then lim.leafMax else lim.internalMax
  }

  /** What a page has room for. */
  predicate Fits(page: Page, lim: Limits) { |page.keys| <= MaxSize(page, lim) + 1 }

  /** These children are pages of the tree, none overfull by more than the entry about to be split off. */
  ghost predicate Resident(kids: seq<PageId>, pages: map<PageId, Page>, lim: Limits) {
    forall j :: 0 <= j < |kids| ==> kids[j] in pages && Fits(pages[kids[j]], lim)
  }

  /** BPlusTreePage::GetMinSize. */
  function MinSize(page: Page, lim: Limits): nat {
    if page.IsRootPage() then (if page.Leaf? then 1 else 2) else MaxSize(page, lim) / 2
  }

  // ---------------------------------------------------------------- shape

  /** The upper end of what the parent entry of `p` stands for. */
  ghost function ParentHi(s: Store, gap: Gap, p: PageId): Bound
    requires p in s.geo && (gap.Splitting? ==> gap.right in s.geo)
  {
    if gap.Splitting? && p == gap.left then s.geo[gap.right].hi else s.geo[p].hi
  }

  /** The root covers every key, and the two halves of a pending split lie side by side under one parent. */
  ghost predicate Frame(s: Store, gap: Gap) {
    && s.geo.Keys == s.pages.Keys
    && s.root in s.pages && INVALID_PAGE_ID !in s.pages
    && s.pages[s.root].parent == INVALID_PAGE_ID
    && (gap.Splitting? ==>
          && gap.left in s.pages && gap.right in s.pages
          && gap.left != gap.right && gap.right != s.root
          && s.geo[gap.left].level == s.geo[gap.right].level
          && s.pages[gap.left].parent == s.pages[gap.right].parent
          && s.geo[gap.left].hi == s.geo[gap.right].lo && s.geo[gap.right].lo.At?
          && (s.geo[gap.left].lo.At? ==> s.geo[gap.left].lo.key < s.geo[gap.right].lo.key)
          && (s.geo[gap.right].hi.At? ==> s.geo[gap.right].lo.key < s.geo[gap.right].hi.key))
    && s.geo[s.root].lo == Inf && ParentHi(s, gap, s.root) == Inf
  }

  ghost function KidLo(s: Store, p: PageId, i: nat): Bound
    requires p in s.pages && p in s.geo && i < |s.pages[p].keys|
  {
    if i == 0 then s.geo[p].lo else At(s.pages[p].keys[i])
  }

  ghost function KidHi(s: Store, p: PageId, i: nat): Bound
    requires p in s.pages && p in s.geo && i < |s.pages[p].keys|
  {
    if i + 1 == |s.pages[p].keys| then s.geo[p].hi else At(s.pages[p].keys[i + 1])
  }

  /** Entry `i` of internal page `p` and the child it names agree on parent, height and interval. */
  ghost predicate KidShape(s: Store, gap: Gap, p: PageId, i: nat)
    requires Frame(s, gap) && p in s.pages && s.pages[p].Internal?
    requires |s.pages[p].keys| == |s.pages[p].kids| && i < |s.pages[p].kids|
  {
    var c := s.pages[p].kids[i];
    && c in s.pages
    && s.pages[c].parent == p
    && s.geo[c].level + 1 == s.geo[p].level
    && s.geo[c].lo == KidLo(s, p, i)
    && ParentHi(s, gap, c) == KidHi(s, p, i)
    && (gap.Splitting? ==> c != gap.right)
  }

  /** The parent id of `p` names an internal page that points back at `p`. */
  ghost predicate Adopted(s: Store, p: PageId)
    requires p in s.pages
  {
    var q := s.pages[p].parent;
    && q in s.pages
    && s.pages[q].Internal?
    && p in s.pages[q].kids
  }

  /** The next-page link of a leaf names the leaf whose interval starts where this one ends. */
  ghost predicate Chained(s: Store, p: PageId)
    requires p in s.pages && p in s.geo && s.pages[p].Leaf?
  {
    var next, hi := s.pages[p].next, s.geo[p].hi;
    if hi.Inf? then next == INVALID_PAGE_ID
    else next in s.pages && next in s.geo && s.pages[next].Leaf? && s.geo[next].lo == hi
  }

  ghost predicate LeafShape(s: Store, p: PageId)
    requires p in s.pages && p in s.geo && s.pages[p].Leaf?
  {
    var page, r := s.pages[p], s.geo[p];
    && r.level == 0
    && |page.keys| == |page.vals|
    && SortedFrom(page.keys, 0)
    && (forall i :: 0 <= i < |page.keys| ==> Covers(r, page.keys[i]))
    && Chained(s, p)
  }

  ghost predicate InternalShape(s: Store, gap: Gap, p: PageId)
    requires Frame(s, gap) && p in s.pages && s.pages[p].Internal?
  {
    var page, r := s.pages[p], s.geo[p];
    && r.level > 0
    && 0 < |page.keys| == |page.kids|
    && SortedFrom(page.keys, 1)
    && (forall i :: 1 <= i < |page.keys| ==> Inside(r, page.keys[i]))
    && (forall i {:trigger KidShape(s, gap, p, i)} :: 0 <= i < |page.kids| ==> KidShape(s, gap, p, i))
  }

  ghost predicate PageShape(s: Store, gap: Gap, p: PageId)
    requires Frame(s, gap) && p in s.pages
  {
    && s.geo[p].level <= s.geo[s.root].level
    && (p == s.root || (gap.Splitting? && p == gap.right) || Adopted(s, p))
    && (s.pages[p].Leaf? ==> LeafShape(s, p))
    && (s.pages[p].Internal? ==> InternalShape(s, gap, p))
  }

  ghost predicate Shape(s: Store, gap: Gap) {
    && Frame(s, gap)
    && forall p {:trigger PageShape(s, gap, p)} :: p in s.pages ==> PageShape(s, gap, p)
  }

  // ---------------------------------------------------------------- occupancy

  /** The least size a page may have. A root whose split is pending counts as an ordinary page. */
  ghost function Floor(s: Store, gap: Gap, lim: Limits, p: PageId): nat
    requires p in s.pages
  {
    if p == s.root && !(gap.Splitting? && p == gap.left) then (if s.pages[p].Leaf? then 1 else 2)
    else MaxSize(s.pages[p], lim) / 2
  }

  /** Page sizes lie between the floor and the maximum; `over` may hold one entry too many and
      `under` one too few. */
  ghost predicate Sized(s: Store, gap: Gap, lim: Limits, over: PageId, under: PageId) {
    forall p {:trigger SizedAt(s, gap, lim, over, under, p)} :: p in s.pages ==> SizedAt(s, gap, lim, over, under, p)
  }

  ghost predicate SizedAt(s: Store, gap: Gap, lim: Limits, over: PageId, under: PageId, p: PageId)
    requires p in s.pages
  {
    && |s.pages[p].keys| <= MaxSize(s.pages[p], lim) + (if p == over then 1 else 0)
    && Floor(s, gap, lim, p) <= |s.pages[p].keys| + (if p == under then 1 else 0)
  }

  // ---------------------------------------------------------------- contents

  /** A leaf holds exactly the bindings of `content` whose keys lie in its interval. */
  ghost predicate LeafExact(page: Page, r: Range, content: map<Key, RowId>)
    requires page.Leaf?
  {
    && |page.keys| == |page.vals|
    && (forall k :: k in page.keys <==> k in content && Covers(r, k))
    && (forall i :: 0 <= i < |page.keys| ==> page.keys[i] in content && content[page.keys[i]] == page.vals[i])
  }

  ghost predicate ExactAt(s: Store, content: map<Key, RowId>, p: PageId)
    requires p in s.pages
  {
    s.pages[p].Leaf? ==> p in s.geo && LeafExact(s.pages[p], s.geo[p], content)
  }

  ghost predicate Exact(s: Store, content: map<Key, RowId>) {
    forall p {:trigger ExactAt(s, content, p)} :: p in s.pages ==> ExactAt(s, content, p)
  }

  /** Shape, sizes and contents together. */
  ghost predicate Good(s: Store, gap: Gap, lim: Limits, content: map<Key, RowId>, over: PageId, under: PageId) {
    && Usable(lim)
    && Shape(s, gap)
    && Sized(s, gap, lim, over, under)
    && Exact(s, content)
  }

  /** A page that may hold one entry too many but does not. */
  lemma NotOver(s: Store, lim: Limits, content: map<Key, RowId>, over: PageId)
    requires over in s.pages && Good(s, NoGap, lim, content, over, INVALID_PAGE_ID)
    requires |s.pages[over].keys| <= MaxSize(s.pages[over], lim)
    ensures Good(s, NoGap, lim, content, INVALID_PAGE_ID, INVALID_PAGE_ID)
  {
    forall x | x in s.pages ensures SizedAt(s, NoGap, lim, INVALID_PAGE_ID, INVALID_PAGE_ID, x) {
      assert SizedAt(s, NoGap, lim, over, INVALID_PAGE_ID, x);
    }
  }

  // ---------------------------------------------------------------- consequences

  /** Two children of one page that cover a common key are the same child. */
  lemma SameChild(s: Store, p: PageId, i: nat, j: nat, k: Key)
    requires Shape(s, NoGap) && p in s.pages && s.pages[p].Internal?
    requires i < |s.pages[p].kids| && j < |s.pages[p].kids|
    requires s.pages[p].kids[i] in s.geo && s.pages[p].kids[j] in s.geo
    requires Covers(s.geo[s.pages[p].kids[i]], k) && Covers(s.geo[s.pages[p].kids[j]], k)
    ensures i == j
  {
    assert PageShape(s, NoGap, p);
    assert KidShape(s, NoGap, p, i) && KidShape(s, NoGap, p, j);
  }

  /** Page `p` is entry `i` of the page its parent id names. */
  ghost predicate EntryOf(s: Store, p: PageId, i: nat) {
    && p in s.pages && s.pages[p].parent in s.pages
    && var q := s.pages[s.pages[p].parent];
    && q.Internal? && i < |q.kids| == |q.keys| && q.kids[i] == p
  }

  /** Every page but the root is an entry of the page one level up that its parent id names. */
  lemma ParentAbove(s: Store, p: PageId) returns (i: nat)
    requires Shape(s, NoGap) && p in s.pages && p != s.root
    ensures EntryOf(s, p, i)
    ensures KidShape(s, NoGap, s.pages[p].parent, i)
    ensures s.geo[s.pages[p].parent].level == s.geo[p].level + 1
    ensures s.pages[p].parent != p
  {
    assert PageShape(s, NoGap, p);
    var q := s.pages[p].parent;
    assert PageShape(s, NoGap, q);
    i :| 0 <= i < |s.pages[q].kids| && s.pages[q].kids[i] == p;
    assert KidShape(s, NoGap, q, i);
  }

  /** A child's interval lies within its parent's. */
  lemma ParentCovers(s: Store, p: PageId, k: Key) returns (i: nat)
    requires Shape(s, NoGap) && p in s.pages && p != s.root && Covers(s.geo[p], k)
    ensures EntryOf(s, p, i)
    ensures s.geo[s.pages[p].parent].level == s.geo[p].level + 1
    ensures Covers(s.geo[s.pages[p].parent], k)
  {
    i := ParentAbove(s, p);
    var q := s.pages[p].parent;
    assert PageShape(s, NoGap, q);
    if i > 0 { assert Inside(s.geo[q], s.pages[q].keys[i]); }
    if i + 1 < |s.pages[q].keys| { assert Inside(s.geo[q], s.pages[q].keys[i + 1]); }
  }

  /** Only the root has the height of the root. */
  lemma BelowRoot(s: Store, p: PageId)
    requires Shape(s, NoGap) && p in s.pages
    ensures s.geo[p].level <= s.geo[s.root].level
    ensures p != s.root ==> s.geo[p].level < s.geo[s.root].level
  {
    assert PageShape(s, NoGap, p);
    if p != s.root {
      var i := ParentAbove(s, p);
      assert PageShape(s, NoGap, s.pages[p].parent);
    }
  }

  /** Pages of one height have disjoint intervals: whichever way a key is looked up, it leads to one page. */
  lemma {:induction false} OnePagePerKey(s: Store, p: PageId, q: PageId, k: Key)
    requires Shape(s, NoGap) && p in s.pages && q in s.pages
    requires s.geo[p].level == s.geo[q].level && Covers(s.geo[p], k) && Covers(s.geo[q], k)
    ensures p == q
    decreases s.geo[s.root].level - s.geo[p].level
  {
    if p == s.root || q == s.root {
      BelowRoot(s, p);
      BelowRoot(s, q);
    } else {
      BelowRoot(s, p);
      var i := ParentCovers(s, p, k);
      var j := ParentCovers(s, q, k);
      OnePagePerKey(s, s.pages[p].parent, s.pages[q].parent, k);
      SameChild(s, s.pages[p].parent, i, j, k);
    }
  }

  /** The children of a page are distinct, and differ from the page, its parent and the root. */
  lemma KidsDistinct(s: Store, p: PageId)
    requires Shape(s, NoGap) && p in s.pages && s.pages[p].Internal?
    ensures forall i, j :: 0 <= i < j < |s.pages[p].kids| ==> s.pages[p].kids[i] != s.pages[p].kids[j]
    ensures p !in s.pages[p].kids && s.root !in s.pages[p].kids && s.pages[p].parent !in s.pages[p].kids
    ensures forall x :: x in s.pages[p].kids ==> x in s.pages && s.pages[x].parent == p
  {
    assert PageShape(s, NoGap, p);
    var kids := s.pages[p].kids;
    forall i, j | 0 <= i < j < |kids| ensures kids[i] != kids[j] {
      assert KidShape(s, NoGap, p, i) && KidShape(s, NoGap, p, j);
      assert Inside(s.geo[p], s.pages[p].keys[j]);
    }
    forall x | x in kids ensures x in s.pages && s.pages[x].parent == p && s.geo[x].level + 1 == s.geo[p].level {
      var i :| 0 <= i < |kids| && kids[i] == x;
      assert KidShape(s, NoGap, p, i);
    }
    if p != s.root {
      var i := ParentAbove(s, p);
    }
  }
}
