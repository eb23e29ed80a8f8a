/** The page rewrites that Insert makes, and why each keeps the tree well shaped. */
module TreeGrow {
  import opened Common
  import opened TreePages
  import opened TreeShape

  function InsertAt<T(!new)>(s: seq<T>, i: nat, x: T): (r: seq<T>)
    requires i <= |s|
    ensures |r| == |s| + 1
    ensures forall j :: 0 <= j < |r| ==> r[j] == if j < i then s[j] else if j == i then x else s[j - 1]
    ensures forall y :: y in r <==> y == x || y in s
  {
    assert forall y :: y in s ==> y in s[..i] || y in s[i..];
    s[..i] + [x] + s[i..]
  }

  /** Every page of `kids` now names `q` as its parent. */
  function Reparent(pages: map<PageId, Page>, kids: seq<PageId>, q: PageId): (r: map<PageId, Page>)
    ensures r.Keys == pages.Keys
  {
    map p | p in pages :: if p in kids then pages[p].(parent := q) else pages[p]
  }

  lemma ReparentOne(pages: map<PageId, Page>, kids: seq<PageId>, i: nat, q: PageId)
    requires i < |kids| && kids[i] in pages
    ensures var done := Reparent(pages, kids[..i], q);
            Reparent(pages, kids[..i + 1], q) == done[kids[i] := done[kids[i]].(parent := q)]
  {
    assert kids[..i + 1] == kids[..i] + [kids[i]];
  }

  // ---------------------------------------------------------------- a new pair in a leaf

  function LeafPut(page: Page, i: nat, k: Key, v: RowId): Page
    requires page.Leaf? && i <= |page.keys| == |page.vals|
  {
    page.(keys := InsertAt(page.keys, i, k), vals := InsertAt(page.vals, i, v))
  }

  ghost predicate SlotFor(keys: seq<Key>, i: nat, k: Key) {
    && i <= |keys|
    && (forall j :: 0 <= j < i ==> keys[j] < k)
    && (forall j :: i <= j < |keys| ==> k < keys[j])
  }

  lemma LeafPutShape(s: Store, p: PageId, i: nat, k: Key, v: RowId)
    requires Shape(s, NoGap) && p in s.pages && s.pages[p].Leaf? && |s.pages[p].keys| == |s.pages[p].vals|
    requires SlotFor(s.pages[p].keys, i, k) && Covers(s.geo[p], k)
    ensures Shape(s.(pages := s.pages[p := LeafPut(s.pages[p], i, k, v)]), NoGap)
  {
    var page := LeafPut(s.pages[p], i, k, v);
    var s' := s.(pages := s.pages[p := page]);
    forall x | x in s'.pages ensures PageShape(s', NoGap, x) {
      assert PageShape(s, NoGap, x);
      if x == p {
        assert LeafShape(s, p);
      } else if s.pages[x].Internal? {
        forall j | 0 <= j < |s.pages[x].kids| ensures KidShape(s', NoGap, x, j) {
          assert KidShape(s, NoGap, x, j);
        }
      } else {
        assert Chained(s, x);
      }
    }
  }

  lemma LeafPutExact(s: Store, p: PageId, i: nat, k: Key, v: RowId, content: map<Key, RowId>)
    requires Shape(s, NoGap) && p in s.pages && s.pages[p].Leaf? && |s.pages[p].keys| == |s.pages[p].vals|
    requires SlotFor(s.pages[p].keys, i, k) && Covers(s.geo[p], k)
    requires Exact(s, content)
    ensures k !in content
    ensures Exact(s.(pages := s.pages[p := LeafPut(s.pages[p], i, k, v)]), content[k := v])
  {
    var s' := s.(pages := s.pages[p := LeafPut(s.pages[p], i, k, v)]);
    assert ExactAt(s, content, p);
    assert k !in s.pages[p].keys;
    forall x | x in s'.pages ensures ExactAt(s', content[k := v], x) {
      assert ExactAt(s, content, x);
      if s.pages[x].Leaf? && x != p && Covers(s.geo[x], k) {
        assert PageShape(s, NoGap, x) && PageShape(s, NoGap, p);
        OnePagePerKey(s, x, p, k);
      }
    }
  }

  lemma LeafPutSized(s: Store, p: PageId, i: nat, k: Key, v: RowId, lim: Limits)
    requires p in s.pages && s.pages[p].Leaf? && i <= |s.pages[p].keys| == |s.pages[p].vals|
    requires INVALID_PAGE_ID !in s.pages && Sized(s, NoGap, lim, INVALID_PAGE_ID, INVALID_PAGE_ID)
    ensures Sized(s.(pages := s.pages[p := LeafPut(s.pages[p], i, k, v)]), NoGap, lim, p, INVALID_PAGE_ID)
  {
    var s' := s.(pages := s.pages[p := LeafPut(s.pages[p], i, k, v)]);
    forall x | x in s'.pages ensures SizedAt(s', NoGap, lim, p, INVALID_PAGE_ID, x) {
      assert SizedAt(s, NoGap, lim, INVALID_PAGE_ID, INVALID_PAGE_ID, x);
    }
  }

  // ---------------------------------------------------------------- split

  /** LeafPage::MoveHalfTo into the empty page `right`. */
  ghost function LeafSplit(s: Store, p: PageId, right: PageId): Store
    requires p in s.pages && p in s.geo && s.pages[p].Leaf? && 2 <= |s.pages[p].keys| == |s.pages[p].vals|
  {
    var page, mid := s.pages[p], |s.pages[p].keys| / 2;
    s.(pages := s.pages[p := page.(keys := page.keys[..mid], vals := page.vals[..mid], next := right)]
                       [right := Leaf(page.parent, page.keys[mid..], page.vals[mid..], page.next)],
       geo := s.geo[p := s.geo[p].(hi := At(page.keys[mid]))]
                   [right := s.geo[p].(lo := At(page.keys[mid]))])
  }

  lemma LeafSplitFrame(s: Store, p: PageId, right: PageId)
    requires Shape(s, NoGap) && p in s.pages && s.pages[p].Leaf?
    requires 2 <= |s.pages[p].keys| == |s.pages[p].vals|
    requires right !in s.pages && right != INVALID_PAGE_ID
    ensures Frame(LeafSplit(s, p, right), Splitting(p, right))
  {
    assert PageShape(s, NoGap, p);
    var keys, mid := s.pages[p].keys, |s.pages[p].keys| / 2;
    assert keys[0] < keys[mid];
    assert Covers(s.geo[p], keys[0]) && Covers(s.geo[p], keys[mid]);
  }

  lemma LeafSplitHalves(s: Store, p: PageId, right: PageId)
    requires Shape(s, NoGap) && p in s.pages && s.pages[p].Leaf?
    requires 2 <= |s.pages[p].keys| == |s.pages[p].vals|
    requires right !in s.pages && right != INVALID_PAGE_ID
    ensures LeafShape(LeafSplit(s, p, right), p)
    ensures LeafShape(LeafSplit(s, p, right), right)
  {
    assert PageShape(s, NoGap, p);
    assert LeafShape(s, p);
  }

  lemma LeafSplitShape(s: Store, p: PageId, right: PageId)
    requires Shape(s, NoGap) && p in s.pages && s.pages[p].Leaf?
    requires 2 <= |s.pages[p].keys| == |s.pages[p].vals|
    requires right !in s.pages && right != INVALID_PAGE_ID
    ensures Shape(LeafSplit(s, p, right), Splitting(p, right))
  {
    var s', gap := LeafSplit(s, p, right), Splitting(p, right);
    LeafSplitFrame(s, p, right);
    LeafSplitHalves(s, p, right);
    forall x | x in s'.pages ensures PageShape(s', gap, x) {
      if x == p || x == right {
        assert PageShape(s, NoGap, p);
        assert x == p ==> (p == s.root || Adopted(s, p));
      } else {
        assert PageShape(s, NoGap, x);
        if s.pages[x].Internal? {
          forall j | 0 <= j < |s.pages[x].kids| ensures KidShape(s', gap, x, j) {
            assert KidShape(s, NoGap, x, j);
          }
        } else {
          assert Chained(s, x);
        }
      }
    }
  }

  lemma LeafSplitExact(s: Store, p: PageId, right: PageId, content: map<Key, RowId>)
    requires Shape(s, NoGap) && p in s.pages && s.pages[p].Leaf?
    requires 2 <= |s.pages[p].keys| == |s.pages[p].vals|
    requires right !in s.pages && Exact(s, content)
    ensures Exact(LeafSplit(s, p, right), content)
  {
    var s' := LeafSplit(s, p, right);
    assert PageShape(s, NoGap, p) && ExactAt(s, content, p);
    var keys, mid := s.pages[p].keys, |s.pages[p].keys| / 2;
    assert keys == keys[..mid] + keys[mid..];
    forall x | x in s'.pages ensures ExactAt(s', content, x) {
      if x != p && x != right {
        assert ExactAt(s, content, x);
      }
    }
  }

  lemma LeafSplitSized(s: Store, p: PageId, right: PageId, lim: Limits)
    requires p in s.pages && p in s.geo && s.pages[p].Leaf? && lim.leafMax >= 1
    requires |s.pages[p].vals| == |s.pages[p].keys| == lim.leafMax + 1
    requires right !in s.pages && right != INVALID_PAGE_ID && Usable(lim)
    requires Sized(s, NoGap, lim, p, INVALID_PAGE_ID)
    ensures Sized(LeafSplit(s, p, right), Splitting(p, right), lim, INVALID_PAGE_ID, INVALID_PAGE_ID)
  {
    var s', gap := LeafSplit(s, p, right), Splitting(p, right);
    forall x | x in s'.pages ensures SizedAt(s', gap, lim, INVALID_PAGE_ID, INVALID_PAGE_ID, x) {
      if x != right {
        assert SizedAt(s, NoGap, lim, p, INVALID_PAGE_ID, x);
      }
    }
  }

  /** InternalPage::MoveHalfTo into the empty page `right`: the moved children are adopted by it. */
  ghost function InternalSplit(s: Store, p: PageId, right: PageId): Store
    requires p in s.pages && p in s.geo && s.pages[p].Internal? && 2 <= |s.pages[p].keys| == |s.pages[p].kids|
  {
    var page, mid := s.pages[p], |s.pages[p].keys| / 2;
    s.(pages := Reparent(s.pages[p := page.(keys := page.keys[..mid], kids := page.kids[..mid])]
                                [right := Internal(page.parent, page.keys[mid..], page.kids[mid..])],
                         page.kids[mid..], right),
       geo := s.geo[p := s.geo[p].(hi := At(page.keys[mid]))]
                   [right := s.geo[p].(lo := At(page.keys[mid]))])
  }

  lemma InternalSplitFrame(s: Store, p: PageId, right: PageId)
    requires Shape(s, NoGap) && p in s.pages && s.pages[p].Internal?
    requires 2 <= |s.pages[p].keys| == |s.pages[p].kids|
    requires right !in s.pages && right != INVALID_PAGE_ID
    ensures Frame(InternalSplit(s, p, right), Splitting(p, right))
  {
    assert PageShape(s, NoGap, p);
    KidsDistinct(s, p);
    var mid := |s.pages[p].keys| / 2;
    assert Inside(s.geo[p], s.pages[p].keys[mid]);
  }

  lemma InternalSplitHalf(s: Store, p: PageId, right: PageId, half: PageId)
    requires Shape(s, NoGap) && p in s.pages && s.pages[p].Internal?
    requires 2 <= |s.pages[p].keys| == |s.pages[p].kids|
    requires right !in s.pages && right != INVALID_PAGE_ID && half in {p, right}
    ensures Frame(InternalSplit(s, p, right), Splitting(p, right))
    ensures InternalShape(InternalSplit(s, p, right), Splitting(p, right), half)
  {
    var s', gap := InternalSplit(s, p, right), Splitting(p, right);
    InternalSplitFrame(s, p, right);
    KidsDistinct(s, p);
    assert PageShape(s, NoGap, p);
    var page, mid := s.pages[p], |s.pages[p].keys| / 2;
    forall j | 0 <= j < |s'.pages[half].kids| ensures KidShape(s', gap, half, j) {
      var from := if half == p then j else mid + j;
      assert KidShape(s, NoGap, p, from);
      assert s'.pages[half].kids[j] == page.kids[from];
    }
    assert forall i :: 1 <= i < |page.keys| ==> Inside(s.geo[p], page.keys[i]);
  }

  lemma InternalSplitShape(s: Store, p: PageId, right: PageId)
    requires Shape(s, NoGap) && p in s.pages && s.pages[p].Internal?
    requires 2 <= |s.pages[p].keys| == |s.pages[p].kids|
    requires right !in s.pages && right != INVALID_PAGE_ID
    ensures Shape(InternalSplit(s, p, right), Splitting(p, right))
  {
    var s', gap := InternalSplit(s, p, right), Splitting(p, right);
    InternalSplitHalf(s, p, right, p);
    InternalSplitHalf(s, p, right, right);
    KidsDistinct(s, p);
    forall x | x in s'.pages ensures PageShape(s', gap, x) {
      if x != p && x != right {
        InternalSplitOther(s, p, right, x);
      } else {
        assert PageShape(s, NoGap, p);
        assert x == p ==> x == s.root || Adopted(s', x);
      }
    }
  }

  lemma InternalSplitOther(s: Store, p: PageId, right: PageId, x: PageId)
    requires Shape(s, NoGap) && p in s.pages && s.pages[p].Internal?
    requires 2 <= |s.pages[p].keys| == |s.pages[p].kids|
    requires right !in s.pages && right != INVALID_PAGE_ID && x in s.pages && x != p
    requires Frame(InternalSplit(s, p, right), Splitting(p, right))
    ensures PageShape(InternalSplit(s, p, right), Splitting(p, right), x)
  {
    var s', gap := InternalSplit(s, p, right), Splitting(p, right);
    KidsDistinct(s, p);
    assert PageShape(s, NoGap, p) && PageShape(s, NoGap, x);
    assert x == s.root || Adopted(s', x);
    if s.pages[x].Internal? {
      forall j | 0 <= j < |s.pages[x].kids| ensures KidShape(s', gap, x, j) {
        assert KidShape(s, NoGap, x, j);
      }
    } else {
      assert Chained(s, x);
    }
  }

  // ---------------------------------------------------------------- a new entry in the parent

  /** InternalPage::InsertNodeAfter for the pending page, which then names the parent as its own. */
  ghost function ParentPut(s: Store, gap: Gap, i: nat): Store
    requires gap.Splitting? && gap.left in s.pages && gap.right in s.pages && gap.right in s.geo
    requires s.geo[gap.right].lo.At?
    requires s.pages[gap.left].parent in s.pages
    requires var q := s.pages[s.pages[gap.left].parent]; q.Internal? && i < |q.kids| == |q.keys|
  {
    var q := s.pages[gap.left].parent;
    var page := s.pages[q];
    s.(pages := s.pages[q := page.(keys := InsertAt(page.keys, i + 1, s.geo[gap.right].lo.key),
                                   kids := InsertAt(page.kids, i + 1, gap.right))]
                       [gap.right := s.pages[gap.right].(parent := q)])
  }

  lemma ParentPutFrame(s: Store, gap: Gap, i: nat)
    requires gap.Splitting? && Shape(s, gap) && EntryOf(s, gap.left, i)
    ensures Frame(ParentPut(s, gap, i), NoGap)
    ensures s.pages[gap.left].parent != gap.right && s.pages[gap.left].parent != gap.left
  {
    var q := s.pages[gap.left].parent;
    assert PageShape(s, gap, q) && KidShape(s, gap, q, i);
  }

  /** The new separator lies strictly between its neighbours. */
  lemma ParentPutKeys(s: Store, gap: Gap, i: nat)
    requires gap.Splitting? && Shape(s, gap) && EntryOf(s, gap.left, i)
    requires s.pages[gap.left].parent != gap.right
    ensures var q, s' := s.pages[gap.left].parent, ParentPut(s, gap, i);
            && SortedFrom(s'.pages[q].keys, 1)
            && forall j :: 1 <= j < |s'.pages[q].keys| ==> Inside(s.geo[q], s'.pages[q].keys[j])
  {
    var q := s.pages[gap.left].parent;
    assert PageShape(s, gap, q) && KidShape(s, gap, q, i);
    var keys, sep := s.pages[q].keys, s.geo[gap.right].lo.key;
    assert i > 0 ==> keys[i] < sep && Inside(s.geo[q], keys[i]);
    assert i + 1 < |keys| ==> sep < keys[i + 1] && Inside(s.geo[q], keys[i + 1]);
  }

  lemma ParentPutKids(s: Store, gap: Gap, i: nat)
    requires gap.Splitting? && Shape(s, gap) && EntryOf(s, gap.left, i)
    ensures Frame(ParentPut(s, gap, i), NoGap)
    ensures InternalShape(ParentPut(s, gap, i), NoGap, s.pages[gap.left].parent)
  {
    var q, s' := s.pages[gap.left].parent, ParentPut(s, gap, i);
    ParentPutFrame(s, gap, i);
    ParentPutKeys(s, gap, i);
    assert PageShape(s, gap, q);
    forall j | 0 <= j < |s'.pages[q].kids| ensures KidShape(s', NoGap, q, j) {
      ParentPutKid(s, gap, i, j);
    }
  }

  lemma ParentPutKid(s: Store, gap: Gap, i: nat, j: nat)
    requires gap.Splitting? && Shape(s, gap) && EntryOf(s, gap.left, i)
    requires var s' := ParentPut(s, gap, i); j < |s'.pages[s.pages[gap.left].parent].kids| && Frame(s', NoGap)
    ensures KidShape(ParentPut(s, gap, i), NoGap, s.pages[gap.left].parent, j)
  {
    var q := s.pages[gap.left].parent;
    assert PageShape(s, gap, q) && KidShape(s, gap, q, i);
    if j != i + 1 {
      assert KidShape(s, gap, q, if j <= i then j else j - 1);
    }
  }

  lemma ParentPutShape(s: Store, gap: Gap, i: nat)
    requires gap.Splitting? && Shape(s, gap) && EntryOf(s, gap.left, i)
    ensures Shape(ParentPut(s, gap, i), NoGap)
  {
    var q, s' := s.pages[gap.left].parent, ParentPut(s, gap, i);
    ParentPutKids(s, gap, i);
    ParentPutFrame(s, gap, i);
    forall x | x in s'.pages ensures PageShape(s', NoGap, x) {
      assert PageShape(s, gap, x) && PageShape(s, gap, gap.left);
      if x != gap.right {
        assert x == s.root || Adopted(s', x);
      }
      if s.pages[x].Leaf? {
        assert Chained(s, x);
      } else if x != q {
        forall j | 0 <= j < |s'.pages[x].kids| ensures KidShape(s', NoGap, x, j) {
          assert KidShape(s, gap, x, j);
        }
      }
    }
  }

  // ---------------------------------------------------------------- a new root

  /** The root's split is closed by a page above both halves; `junk` is its meaningless first key. */
  ghost function NewRoot(s: Store, gap: Gap, top: PageId, junk: Key): Store
    requires gap.Splitting? && gap.left in s.pages && gap.right in s.pages && gap.left in s.geo && gap.right in s.geo
    requires s.geo[gap.right].lo.At?
  {
    Store(top,
          s.pages[top := Internal(INVALID_PAGE_ID, [junk, s.geo[gap.right].lo.key], [gap.left, gap.right])]
                 [gap.left := s.pages[gap.left].(parent := top)]
                 [gap.right := s.pages[gap.right].(parent := top)],
          s.geo[top := Range(s.geo[gap.left].level + 1, Inf, Inf)])
  }

  lemma NewRootShape(s: Store, gap: Gap, top: PageId, junk: Key)
    requires gap.Splitting? && Shape(s, gap) && gap.left == s.root
    requires top !in s.pages && top != INVALID_PAGE_ID
    ensures Shape(NewRoot(s, gap, top, junk), NoGap)
  {
    var s' := NewRoot(s, gap, top, junk);
    assert Frame(s', NoGap);
    forall x | x in s'.pages ensures PageShape(s', NoGap, x) {
      if x == top {
        assert KidShape(s', NoGap, x, 0) && KidShape(s', NoGap, x, 1);
      } else {
        assert PageShape(s, gap, x);
        if x == gap.left || x == gap.right {
          assert Adopted(s', x);
        } else {
          assert Adopted(s, x);
        }
        if s.pages[x].Leaf? {
          assert Chained(s, x);
        } else {
          forall j | 0 <= j < |s'.pages[x].kids| ensures KidShape(s', NoGap, x, j) {
            assert KidShape(s, gap, x, j);
          }
        }
      }
    }
  }

  // ---------------------------------------------------------------- what the internal rewrites leave alone

  /** No leaf changed in anything but its parent id. */
  ghost predicate SameLeaves(s: Store, s': Store) {
    forall p :: p in s'.pages && s'.pages[p].Leaf? ==>
      && p in s.pages && s.pages[p].Leaf? && s'.pages[p].keys == s.pages[p].keys && s'.pages[p].vals == s.pages[p].vals
      && p in s.geo && p in s'.geo && s'.geo[p] == s.geo[p]
  }

  lemma SameLeavesExact(s: Store, s': Store, content: map<Key, RowId>)
    requires Exact(s, content) && SameLeaves(s, s')
    ensures Exact(s', content)
  {
    forall x | x in s'.pages ensures ExactAt(s', content, x) {
      if s'.pages[x].Leaf? { assert ExactAt(s, content, x); }
    }
  }

  lemma InternalSplitSized(s: Store, p: PageId, right: PageId, lim: Limits)
    requires Shape(s, NoGap) && p in s.pages && s.pages[p].Internal? && Usable(lim)
    requires |s.pages[p].kids| == |s.pages[p].keys| == lim.internalMax + 1
    requires right !in s.pages && right != INVALID_PAGE_ID && Sized(s, NoGap, lim, p, INVALID_PAGE_ID)
    ensures Sized(InternalSplit(s, p, right), Splitting(p, right), lim, INVALID_PAGE_ID, INVALID_PAGE_ID)
  {
    var s', gap := InternalSplit(s, p, right), Splitting(p, right);
    KidsDistinct(s, p);
    forall x | x in s'.pages ensures SizedAt(s', gap, lim, INVALID_PAGE_ID, INVALID_PAGE_ID, x) {
      if x != right {
        assert SizedAt(s, NoGap, lim, p, INVALID_PAGE_ID, x);
      }
    }
  }

  lemma ParentPutSized(s: Store, gap: Gap, i: nat, lim: Limits)
    requires gap.Splitting? && Shape(s, gap) && EntryOf(s, gap.left, i) && Usable(lim)
    requires Sized(s, gap, lim, INVALID_PAGE_ID, INVALID_PAGE_ID)
    ensures Sized(ParentPut(s, gap, i), NoGap, lim, s.pages[gap.left].parent, INVALID_PAGE_ID)
  {
    var q, s' := s.pages[gap.left].parent, ParentPut(s, gap, i);
    ParentPutFrame(s, gap, i);
    forall x | x in s'.pages ensures SizedAt(s', NoGap, lim, q, INVALID_PAGE_ID, x) {
      assert SizedAt(s, gap, lim, INVALID_PAGE_ID, INVALID_PAGE_ID, x);
    }
  }

  lemma NewRootSized(s: Store, gap: Gap, top: PageId, junk: Key, lim: Limits)
    requires gap.Splitting? && Shape(s, gap) && gap.left == s.root && top !in s.pages && Usable(lim)
    requires Sized(s, gap, lim, INVALID_PAGE_ID, INVALID_PAGE_ID)
    ensures Sized(NewRoot(s, gap, top, junk), NoGap, lim, INVALID_PAGE_ID, INVALID_PAGE_ID)
  {
    var s' := NewRoot(s, gap, top, junk);
    forall x | x in s'.pages ensures SizedAt(s', NoGap, lim, INVALID_PAGE_ID, INVALID_PAGE_ID, x) {
      if x != top {
        assert SizedAt(s, gap, lim, INVALID_PAGE_ID, INVALID_PAGE_ID, x);
      }
    }
  }

  // ---------------------------------------------------------------- the steps of Insert

  lemma LeafPutGood(s: Store, p: PageId, i: nat, k: Key, v: RowId, lim: Limits, content: map<Key, RowId>)
    requires Good(s, NoGap, lim, content, INVALID_PAGE_ID, INVALID_PAGE_ID)
    requires p in s.pages && s.pages[p].Leaf? && |s.pages[p].keys| == |s.pages[p].vals|
    requires SlotFor(s.pages[p].keys, i, k) && Covers(s.geo[p], k)
    ensures k !in content
    ensures Good(s.(pages := s.pages[p := LeafPut(s.pages[p], i, k, v)]),
                 NoGap, lim, content[k := v], p, INVALID_PAGE_ID)
  {
    LeafPutShape(s, p, i, k, v);
    LeafPutExact(s, p, i, k, v, content);
    LeafPutSized(s, p, i, k, v, lim);
  }

  lemma LeafSplitGood(s: Store, p: PageId, right: PageId, lim: Limits, content: map<Key, RowId>)
    requires Good(s, NoGap, lim, content, p, INVALID_PAGE_ID) && right !in s.pages && right != INVALID_PAGE_ID
    requires p in s.pages && s.pages[p].Leaf? && |s.pages[p].vals| == |s.pages[p].keys| == lim.leafMax + 1
    ensures Good(LeafSplit(s, p, right), Splitting(p, right), lim, content, INVALID_PAGE_ID, INVALID_PAGE_ID)
  {
    LeafSplitShape(s, p, right);
    LeafSplitExact(s, p, right, content);
    LeafSplitSized(s, p, right, lim);
  }

  lemma InternalSplitGood(s: Store, p: PageId, right: PageId, lim: Limits, content: map<Key, RowId>)
    requires Good(s, NoGap, lim, content, p, INVALID_PAGE_ID) && right !in s.pages && right != INVALID_PAGE_ID
    requires p in s.pages && s.pages[p].Internal? && |s.pages[p].kids| == |s.pages[p].keys| == lim.internalMax + 1
    ensures Good(InternalSplit(s, p, right), Splitting(p, right), lim, content, INVALID_PAGE_ID, INVALID_PAGE_ID)
  {
    InternalSplitShape(s, p, right);
    InternalSplitSized(s, p, right, lim);
    SameLeavesExact(s, InternalSplit(s, p, right), content);
  }

  lemma ParentPutGood(s: Store, gap: Gap, i: nat, lim: Limits, content: map<Key, RowId>)
    requires gap.Splitting? && Good(s, gap, lim, content, INVALID_PAGE_ID, INVALID_PAGE_ID) && EntryOf(s, gap.left, i)
    ensures Good(ParentPut(s, gap, i), NoGap, lim, content, s.pages[gap.left].parent, INVALID_PAGE_ID)
  {
    ParentPutShape(s, gap, i);
    ParentPutSized(s, gap, i, lim);
    SameLeavesExact(s, ParentPut(s, gap, i), content);
  }

  lemma NewRootGood(s: Store, gap: Gap, top: PageId, junk: Key, lim: Limits, content: map<Key, RowId>)
    requires gap.Splitting? && Good(s, gap, lim, content, INVALID_PAGE_ID, INVALID_PAGE_ID)
    requires gap.left == s.root && top !in s.pages && top != INVALID_PAGE_ID
    ensures Good(NewRoot(s, gap, top, junk), NoGap, lim, content, INVALID_PAGE_ID, INVALID_PAGE_ID)
  {
    NewRootShape(s, gap, top, junk);
    NewRootSized(s, gap, top, junk, lim);
    SameLeavesExact(s, NewRoot(s, gap, top, junk), content);
  }

  /** What a search reads of the leaf it ends in. */
  lemma LeafFacts(s: Store, lim: Limits, content: map<Key, RowId>, p: PageId)
    requires Good(s, NoGap, lim, content, INVALID_PAGE_ID, INVALID_PAGE_ID) && p in s.pages && s.pages[p].Leaf?
    ensures p in s.geo && SortedFrom(s.pages[p].keys, 0) && LeafExact(s.pages[p], s.geo[p], content)
    ensures 1 <= |s.pages[p].keys| <= lim.leafMax
  {
    assert PageShape(s, NoGap, p) && ExactAt(s, content, p);
    assert SizedAt(s, NoGap, lim, INVALID_PAGE_ID, INVALID_PAGE_ID, p);
  }

  /** What InsertIntoParent reads of the pages around a pending split. */
  lemma PendingFacts(s: Store, gap: Gap, lim: Limits, content: map<Key, RowId>)
    requires gap.Splitting? && Good(s, gap, lim, content, INVALID_PAGE_ID, INVALID_PAGE_ID)
    ensures Fits(s.pages[gap.left], lim) && Fits(s.pages[gap.right], lim)
    ensures s.pages[gap.left].IsRootPage() <==> gap.left == s.root
    ensures gap.left != s.root ==>
              var q := s.pages[gap.left].parent;
              && q in s.pages && s.pages[q].Internal? && q != gap.right && gap.left in s.pages[q].kids
              && |s.pages[q].keys| == |s.pages[q].kids| <= lim.internalMax
              && s.geo[q].level == s.geo[gap.left].level + 1 && s.geo[q].level <= s.geo[s.root].level
  {
    assert PageShape(s, gap, gap.left);
    assert SizedAt(s, gap, lim, INVALID_PAGE_ID, INVALID_PAGE_ID, gap.left);
    assert SizedAt(s, gap, lim, INVALID_PAGE_ID, INVALID_PAGE_ID, gap.right);
    if gap.left != s.root {
      var q := s.pages[gap.left].parent;
      assert PageShape(s, gap, q) && SizedAt(s, gap, lim, INVALID_PAGE_ID, INVALID_PAGE_ID, q);
      var i :| 0 <= i < |s.pages[q].kids| && s.pages[q].kids[i] == gap.left;
      assert KidShape(s, gap, q, i);
    }
  }

  lemma KidsFit(s: Store, p: PageId, lim: Limits, content: map<Key, RowId>)
    requires Good(s, NoGap, lim, content, p, INVALID_PAGE_ID) && p in s.pages && s.pages[p].Internal?
    ensures p !in s.pages[p].kids
    ensures Resident(s.pages[p].kids, s.pages, lim)
  {
    KidsDistinct(s, p);
    forall j | 0 <= j < |s.pages[p].kids|
      ensures s.pages[p].kids[j] in s.pages && Fits(s.pages[s.pages[p].kids[j]], lim) {
      var x: PageId := s.pages[p].kids[j];
      assert x in s.pages[p].kids && SizedAt(s, NoGap, lim, p, INVALID_PAGE_ID, x);
    }
  }
}
