/** The page rewrites that Remove makes, and why each keeps the tree well shaped. */
module TreeShrink {
  import opened Common
  import opened TreePages
  import opened TreeShape
  import opened TreeGrow

  function RemoveAt<T(!new)>(s: seq<T>, i: nat): (r: seq<T>)
    requires i < |s|
    ensures |r| == |s| - 1
    ensures forall j :: 0 <= j < |r| ==> r[j] == if j < i then s[j] else s[j + 1]
    ensures forall y :: y in r ==> y in s
    ensures forall y :: y in s ==> y == s[i] || y in r
  {
    assert forall y :: y in s ==> y in s[..i] || y == s[i] || y in s[i + 1..];
    s[..i] + s[i + 1..]
  }

  // ---------------------------------------------------------------- a pair leaves a leaf

  function LeafCut(page: Page, i: nat): Page
    requires page.Leaf? && i < |page.keys| == |page.vals|
  {
    page.(keys := RemoveAt(page.keys, i), vals := RemoveAt(page.vals, i))
  }

  lemma LeafCutShape(s: Store, p: PageId, i: nat)
    requires Shape(s, NoGap) && p in s.pages && s.pages[p].Leaf? && i < |s.pages[p].keys| == |s.pages[p].vals|
    ensures Shape(s.(pages := s.pages[p := LeafCut(s.pages[p], i)]), NoGap)
  {
    var s' := s.(pages := s.pages[p := LeafCut(s.pages[p], i)]);
    forall x | x in s'.pages ensures PageShape(s', NoGap, x) {
      assert PageShape(s, NoGap, x);
      if x == p {
        assert LeafShape(s, p);
      } else if s.pages[x].Internal? {
        forall j | 0 <= j < |s.pages[x].kids| ensures KidShape(s', NoGap, x, j) {
          assert KidShape(s, NoGap, x, j);
        }
      } else {
        assert Chained(s, x);
      }
    }
  }

  lemma LeafCutExact(s: Store, p: PageId, i: nat, content: map<Key, RowId>)
    requires Shape(s, NoGap) && p in s.pages && s.pages[p].Leaf? && i < |s.pages[p].keys| == |s.pages[p].vals|
    requires Exact(s, content)
    ensures Exact(s.(pages := s.pages[p := LeafCut(s.pages[p], i)]), content - {s.pages[p].keys[i]})
  {
    var k := s.pages[p].keys[i];
    var s', content' := s.(pages := s.pages[p := LeafCut(s.pages[p], i)]), content - {k};
    assert PageShape(s, NoGap, p);
    forall x | x in s'.pages ensures ExactAt(s', content', x) {
      assert ExactAt(s, content, x);
      if x != p && s.pages[x].Leaf? && Covers(s.geo[x], k) {
        assert PageShape(s, NoGap, x);
        OnePagePerKey(s, x, p, k);
      }
    }
  }

  lemma LeafCutSized(s: Store, p: PageId, i: nat, lim: Limits)
    requires p in s.pages && s.pages[p].Leaf? && i < |s.pages[p].keys| == |s.pages[p].vals|
    requires INVALID_PAGE_ID !in s.pages && Sized(s, NoGap, lim, INVALID_PAGE_ID, INVALID_PAGE_ID)
    ensures Sized(s.(pages := s.pages[p := LeafCut(s.pages[p], i)]), NoGap, lim, INVALID_PAGE_ID, p)
  {
    var s' := s.(pages := s.pages[p := LeafCut(s.pages[p], i)]);
    forall x | x in s'.pages ensures SizedAt(s', NoGap, lim, INVALID_PAGE_ID, p, x) {
      assert SizedAt(s, NoGap, lim, INVALID_PAGE_ID, INVALID_PAGE_ID, x);
    }
  }

  // ---------------------------------------------------------------- neighbouring leaves

  /** No page is responsible for an empty interval. */
  lemma {:induction false} RangeNonEmpty(s: Store, p: PageId)
    requires Shape(s, NoGap) && p in s.pages
    ensures s.geo[p].lo.At? && s.geo[p].hi.At? ==> s.geo[p].lo.key < s.geo[p].hi.key
    decreases s.geo[s.root].level - s.geo[p].level
  {
    BelowRoot(s, p);
    if p != s.root {
      var i := ParentAbove(s, p);
      var q := s.pages[p].parent;
      assert PageShape(s, NoGap, q);
      RangeNonEmpty(s, q);
      if i > 0 { assert Inside(s.geo[q], s.pages[q].keys[i]); }
      if i + 1 < |s.pages[q].keys| { assert Inside(s.geo[q], s.pages[q].keys[i + 1]); }
    }
  }

  /** Only one leaf ends at a given key, so only one next-page link leads to a given leaf. */
  lemma OneLeafEndsAt(s: Store, p: PageId, q: PageId)
    requires Shape(s, NoGap) && p in s.pages && q in s.pages && s.pages[p].Leaf? && s.pages[q].Leaf?
    requires s.geo[p].hi == s.geo[q].hi && s.geo[p].hi.At?
    ensures p == q
  {
    RangeNonEmpty(s, p);
    RangeNonEmpty(s, q);
    assert PageShape(s, NoGap, p) && PageShape(s, NoGap, q);
    OnePagePerKey(s, p, q, s.geo[p].hi.key - 1);
  }

  /** Entries i-1 and i of page `q` are two different pages, both different from `q`. */
  ghost predicate Siblings(s: Store, q: PageId, i: nat) {
    && q in s.pages && s.pages[q].Internal? && 1 <= i < |s.pages[q].kids| == |s.pages[q].keys|
    && var l, r := s.pages[q].kids[i - 1], s.pages[q].kids[i];
    && l in s.pages && r in s.pages && l in s.geo && r in s.geo
    && l != r && l != q && r != q
  }

  lemma SiblingFacts(s: Store, q: PageId, i: nat)
    requires Shape(s, NoGap) && q in s.pages && s.pages[q].Internal? && 1 <= i < |s.pages[q].kids|
    ensures Siblings(s, q, i)
    ensures var l, r, sep := s.pages[q].kids[i - 1], s.pages[q].kids[i], At(s.pages[q].keys[i]);
            && l != r && l != q && r != q && l != s.root && r != s.root
            && s.pages[l].parent == q && s.pages[r].parent == q
            && s.geo[l].hi == sep && s.geo[r].lo == sep
            && s.geo[l].level == s.geo[r].level && s.geo[q].level == s.geo[l].level + 1
            && s.pages[l].Leaf? == s.pages[r].Leaf?
  {
    KidsDistinct(s, q);
    var l, r := s.pages[q].kids[i - 1], s.pages[q].kids[i];
    assert PageShape(s, NoGap, q) && PageShape(s, NoGap, l) && PageShape(s, NoGap, r);
    assert KidShape(s, NoGap, q, i - 1) && KidShape(s, NoGap, q, i);
    assert l in s.pages[q].kids && r in s.pages[q].kids;
  }

  /** The neighbour that CoalesceOrRedistribute picks for entry `index`. */
  lemma NeighborFacts(s: Store, q: PageId, index: nat)
    requires Shape(s, NoGap) && q in s.pages && s.pages[q].Internal?
    requires index < |s.pages[q].kids| && |s.pages[q].kids| > 1
    ensures var node, neighbor := s.pages[q].kids[index], s.pages[q].kids[if index == 0 then 1 else index - 1];
            && neighbor in s.pages && neighbor != node && neighbor != q && node != q && node in s.pages
            && s.pages[neighbor].Leaf? == s.pages[node].Leaf?
  {
    SiblingFacts(s, q, if index == 0 then 1 else index);
  }

  // ---------------------------------------------------------------- merging leaves

  /** LeafPage::MoveAllTo: the right sibling is appended to the left one, leaves the chain and is freed. */
  ghost function LeafMerge(s: Store, q: PageId, i: nat): Store
    requires Siblings(s, q, i) && s.pages[s.pages[q].kids[i - 1]].Leaf? && s.pages[s.pages[q].kids[i]].Leaf?
  {
    var l, r := s.pages[q].kids[i - 1], s.pages[q].kids[i];
    var parent, left, right := s.pages[q], s.pages[l], s.pages[r];
    s.(pages := s.pages[l := left.(keys := left.keys + right.keys, vals := left.vals + right.vals, next := right.next)]
                       [q := parent.(keys := RemoveAt(parent.keys, i), kids := RemoveAt(parent.kids, i))]
                - {r},
       geo := s.geo[l := s.geo[l].(hi := s.geo[r].hi)] - {r})
  }

  lemma ParentCutKeys(s: Store, q: PageId, i: nat)
    requires Shape(s, NoGap) && Siblings(s, q, i)
    ensures SortedFrom(RemoveAt(s.pages[q].keys, i), 1)
    ensures var keys := RemoveAt(s.pages[q].keys, i);
            forall j :: 1 <= j < |keys| ==> Inside(s.geo[q], keys[j])
  {
    assert PageShape(s, NoGap, q);
  }

  /** The parent loses entry i; its left neighbour now stands for both intervals. */
  lemma ParentCut(s: Store, s': Store, q: PageId, i: nat)
    requires Shape(s, NoGap) && Siblings(s, q, i) && Frame(s', NoGap)
    requires var l, r := s.pages[q].kids[i - 1], s.pages[q].kids[i];
             && s'.pages.Keys == s.pages.Keys - {r}
             && s'.geo == s.geo[l := s.geo[l].(hi := s.geo[r].hi)] - {r}
             && q in s'.pages
             && s'.pages[q] == s.pages[q].(keys := RemoveAt(s.pages[q].keys, i), kids := RemoveAt(s.pages[q].kids, i))
             && (forall x :: x in s'.pages && x in s.pages[q].kids ==> s'.pages[x].parent == q)
    ensures InternalShape(s', NoGap, q)
  {
    SiblingFacts(s, q, i);
    KidsDistinct(s, q);
    ParentCutKeys(s, q, i);
    assert PageShape(s, NoGap, q);
    forall j | 0 <= j < |s'.pages[q].kids| ensures KidShape(s', NoGap, q, j) {
      var from := if j < i then j else j + 1;
      assert KidShape(s, NoGap, q, from) && KidShape(s, NoGap, q, i);
      assert s'.pages[q].kids[j] == s.pages[q].kids[from] && s.pages[q].kids[from] != s.pages[q].kids[i];
    }
  }

  lemma LeafMergeParts(s: Store, q: PageId, i: nat)
    requires Shape(s, NoGap) && Siblings(s, q, i)
    requires s.pages[s.pages[q].kids[i - 1]].Leaf? && s.pages[s.pages[q].kids[i]].Leaf?
    ensures Frame(LeafMerge(s, q, i), NoGap)
    ensures LeafShape(LeafMerge(s, q, i), s.pages[q].kids[i - 1])
  {
    SiblingFacts(s, q, i);
    var l, r := s.pages[q].kids[i - 1], s.pages[q].kids[i];
    assert PageShape(s, NoGap, l) && PageShape(s, NoGap, r);
    RangeNonEmpty(s, l);
    RangeNonEmpty(s, r);
  }

  lemma LeafMergeShape(s: Store, q: PageId, i: nat)
    requires Shape(s, NoGap) && Siblings(s, q, i)
    requires s.pages[s.pages[q].kids[i - 1]].Leaf? && s.pages[s.pages[q].kids[i]].Leaf?
    ensures Shape(LeafMerge(s, q, i), NoGap)
  {
    SiblingFacts(s, q, i);
    KidsDistinct(s, q);
    LeafMergeParts(s, q, i);
    var l, r, s' := s.pages[q].kids[i - 1], s.pages[q].kids[i], LeafMerge(s, q, i);
    ParentCut(s, s', q, i);
    forall x | x in s'.pages ensures PageShape(s', NoGap, x) {
      assert PageShape(s, NoGap, x);
      if x != l && s.pages[x].Leaf? {
        assert Chained(s, x);
        if s.pages[x].next == r { OneLeafEndsAt(s, x, l); }
      } else if x != l && x != q {
        forall j | 0 <= j < |s.pages[x].kids| ensures KidShape(s', NoGap, x, j) {
          assert KidShape(s, NoGap, x, j);
        }
      }
    }
  }

  lemma LeafMergeExact(s: Store, q: PageId, i: nat, content: map<Key, RowId>)
    requires Shape(s, NoGap) && Siblings(s, q, i) && Exact(s, content)
    requires s.pages[s.pages[q].kids[i - 1]].Leaf? && s.pages[s.pages[q].kids[i]].Leaf?
    ensures Exact(LeafMerge(s, q, i), content)
  {
    SiblingFacts(s, q, i);
    var l, r, s' := s.pages[q].kids[i - 1], s.pages[q].kids[i], LeafMerge(s, q, i);
    RangeNonEmpty(s, l);
    RangeNonEmpty(s, r);
    assert ExactAt(s, content, l) && ExactAt(s, content, r);
    forall x | x in s'.pages ensures ExactAt(s', content, x) {
      assert ExactAt(s, content, x);
    }
  }

  /** A merge leaves both a full enough left page and a parent that is at most one entry short. */
  lemma MergeSized(s: Store, s': Store, q: PageId, i: nat, lim: Limits, under: PageId)
    requires Shape(s, NoGap) && Siblings(s, q, i) && Usable(lim)
    requires Sized(s, NoGap, lim, INVALID_PAGE_ID, under)
    requires var l, r := s.pages[q].kids[i - 1], s.pages[q].kids[i];
             && under in {l, r}
             && |s.pages[l].keys| + |s.pages[r].keys| <= MaxSize(s.pages[l], lim)
             && s'.root == s.root && s'.pages.Keys == s.pages.Keys - {r}
             && (forall x :: x in s'.pages ==> s'.pages[x].Leaf? == s.pages[x].Leaf?)
             && (forall x :: x in s'.pages && x != l && x != q ==> |s'.pages[x].keys| == |s.pages[x].keys|)
             && |s'.pages[l].keys| == |s.pages[l].keys| + |s.pages[r].keys|
             && |s'.pages[q].keys| == |s.pages[q].keys| - 1
    ensures Sized(s', NoGap, lim, INVALID_PAGE_ID, q)
  {
    SiblingFacts(s, q, i);
    var l, r := s.pages[q].kids[i - 1], s.pages[q].kids[i];
    forall x | x in s'.pages ensures SizedAt(s', NoGap, lim, INVALID_PAGE_ID, q, x) {
      assert SizedAt(s, NoGap, lim, INVALID_PAGE_ID, under, x);
      assert SizedAt(s, NoGap, lim, INVALID_PAGE_ID, under, r);
    }
  }

  // ---------------------------------------------------------------- moving the boundary between leaves

  /** Redistribution: the pairs of both siblings in order, cut at position m; the cut key becomes the separator. */
  ghost function LeafShift(s: Store, q: PageId, i: nat, m: nat): Store
    requires LeafSiblings(s, q, i) && m < |JointKeys(s, q, i)|
  {
    var l, r := s.pages[q].kids[i - 1], s.pages[q].kids[i];
    var left, right := s.pages[l], s.pages[r];
    var keys, vals := left.keys + right.keys, left.vals + right.vals;
    s.(pages := s.pages[l := left.(keys := keys[..m], vals := vals[..m])]
                       [r := right.(keys := keys[m..], vals := vals[m..])]
                       [q := Internal(s.pages[q].parent, s.pages[q].keys[i := keys[m]], s.pages[q].kids)],
       geo := s.geo[l := s.geo[l].(hi := At(keys[m]))][r := s.geo[r].(lo := At(keys[m]))])
  }

  /** A separator may move to any key strictly between the outer ends of its two neighbours. */
  lemma ParentRekey(s: Store, s': Store, q: PageId, i: nat, sep: Key)
    requires Shape(s, NoGap) && Siblings(s, q, i) && Frame(s', NoGap)
    requires var l, r := s.pages[q].kids[i - 1], s.pages[q].kids[i];
             && s'.pages.Keys == s.pages.Keys
             && s'.geo == s.geo[l := s.geo[l].(hi := At(sep))][r := s.geo[r].(lo := At(sep))]
             && s'.pages[q] == Internal(s.pages[q].parent, s.pages[q].keys[i := sep], s.pages[q].kids)
             && (forall x :: x in s'.pages && x in s.pages[q].kids ==> s'.pages[x].parent == q)
             && (s.geo[l].lo.At? ==> s.geo[l].lo.key < sep)
             && (s.geo[r].hi.At? ==> sep < s.geo[r].hi.key)
    ensures InternalShape(s', NoGap, q)
  {
    SiblingFacts(s, q, i);
    KidsDistinct(s, q);
    assert PageShape(s, NoGap, q);
    assert KidShape(s, NoGap, q, i - 1) && KidShape(s, NoGap, q, i);
    var keys := s.pages[q].keys;
    assert i > 1 ==> keys[i - 1] < sep && Inside(s.geo[q], keys[i - 1]);
    assert i + 1 < |keys| ==> sep < keys[i + 1] && Inside(s.geo[q], keys[i + 1]);
    forall j | 0 <= j < |s'.pages[q].kids| ensures KidShape(s', NoGap, q, j) {
      assert KidShape(s, NoGap, q, j);
    }
  }

  /** Two sibling leaves and what they hold together. */
  ghost predicate LeafSiblings(s: Store, q: PageId, i: nat) {
    && Siblings(s, q, i)
    && var left, right := s.pages[s.pages[q].kids[i - 1]], s.pages[s.pages[q].kids[i]];
    && left.Leaf? && right.Leaf? && |left.keys| == |left.vals| && |right.keys| == |right.vals|
  }

  ghost function JointKeys(s: Store, q: PageId, i: nat): seq<Key>
    requires Siblings(s, q, i)
  {
    s.pages[s.pages[q].kids[i - 1]].keys + s.pages[s.pages[q].kids[i]].keys
  }

  ghost function JointRange(s: Store, q: PageId, i: nat): Range
    requires Siblings(s, q, i)
  {
    Range(0, s.geo[s.pages[q].kids[i - 1]].lo, s.geo[s.pages[q].kids[i]].hi)
  }

  lemma JointLeaf(s: Store, q: PageId, i: nat)
    requires Shape(s, NoGap) && LeafSiblings(s, q, i)
    ensures SortedFrom(JointKeys(s, q, i), 0)
    ensures forall j :: 0 <= j < |JointKeys(s, q, i)| ==> Covers(JointRange(s, q, i), JointKeys(s, q, i)[j])
    ensures s.pages[s.pages[q].kids[i - 1]].next == s.pages[q].kids[i]
  {
    SiblingFacts(s, q, i);
    var l, r := s.pages[q].kids[i - 1], s.pages[q].kids[i];
    assert PageShape(s, NoGap, l) && PageShape(s, NoGap, r);
    RangeNonEmpty(s, l);
    RangeNonEmpty(s, r);
    var next := s.pages[l].next;
    assert Chained(s, l);
    assert PageShape(s, NoGap, next);
    RangeNonEmpty(s, next);
    OnePagePerKey(s, next, r, s.pages[q].keys[i]);
  }

  lemma LeafShiftParts(s: Store, q: PageId, i: nat, m: nat)
    requires Shape(s, NoGap) && LeafSiblings(s, q, i) && 1 <= m < |JointKeys(s, q, i)|
    ensures var l, r, s' := s.pages[q].kids[i - 1], s.pages[q].kids[i], LeafShift(s, q, i, m);
            && Frame(s', NoGap) && LeafShape(s', l) && LeafShape(s', r)
            && (s.geo[l].lo.At? ==> s.geo[l].lo.key < s'.pages[q].keys[i])
            && (s.geo[r].hi.At? ==> s'.pages[q].keys[i] < s.geo[r].hi.key)
  {
    SiblingFacts(s, q, i);
    JointLeaf(s, q, i);
    var l, r := s.pages[q].kids[i - 1], s.pages[q].kids[i];
    assert PageShape(s, NoGap, l) && PageShape(s, NoGap, r);
    RangeNonEmpty(s, r);
    var keys := JointKeys(s, q, i);
    assert keys[0] < keys[m] && Covers(JointRange(s, q, i), keys[0]) && Covers(JointRange(s, q, i), keys[m]);
  }

  lemma LeafShiftShape(s: Store, q: PageId, i: nat, m: nat)
    requires Shape(s, NoGap) && LeafSiblings(s, q, i) && 1 <= m < |JointKeys(s, q, i)|
    ensures Shape(LeafShift(s, q, i, m), NoGap)
  {
    SiblingFacts(s, q, i);
    KidsDistinct(s, q);
    LeafShiftParts(s, q, i, m);
    var l, r, s' := s.pages[q].kids[i - 1], s.pages[q].kids[i], LeafShift(s, q, i, m);
    ParentRekey(s, s', q, i, s'.pages[q].keys[i]);
    forall x | x in s'.pages ensures PageShape(s', NoGap, x) {
      assert PageShape(s, NoGap, x);
      if s.pages[x].Leaf? && x != l && x != r {
        assert Chained(s, x);
        if s.pages[x].next == r { OneLeafEndsAt(s, x, l); }
      } else if s.pages[x].Internal? && x != q {
        forall j | 0 <= j < |s.pages[x].kids| ensures KidShape(s', NoGap, x, j) {
          assert KidShape(s, NoGap, x, j);
        }
      }
    }
  }

  lemma JointExact(s: Store, q: PageId, i: nat, content: map<Key, RowId>)
    requires Shape(s, NoGap) && LeafSiblings(s, q, i) && Exact(s, content)
    ensures forall k :: k in JointKeys(s, q, i) <==> k in content && Covers(JointRange(s, q, i), k)
    ensures var vals := s.pages[s.pages[q].kids[i - 1]].vals + s.pages[s.pages[q].kids[i]].vals;
            forall j :: 0 <= j < |JointKeys(s, q, i)| ==>
              JointKeys(s, q, i)[j] in content && content[JointKeys(s, q, i)[j]] == vals[j]
  {
    SiblingFacts(s, q, i);
    var l, r := s.pages[q].kids[i - 1], s.pages[q].kids[i];
    assert ExactAt(s, content, l) && ExactAt(s, content, r);
    RangeNonEmpty(s, l);
    RangeNonEmpty(s, r);
  }

  lemma LeafShiftExact(s: Store, q: PageId, i: nat, m: nat, content: map<Key, RowId>)
    requires Shape(s, NoGap) && LeafSiblings(s, q, i) && Exact(s, content) && 1 <= m < |JointKeys(s, q, i)|
    ensures Exact(LeafShift(s, q, i, m), content)
  {
    SiblingFacts(s, q, i);
    var l, r, s' := s.pages[q].kids[i - 1], s.pages[q].kids[i], LeafShift(s, q, i, m);
    JointExact(s, q, i, content);
    LeafShiftParts(s, q, i, m);
    var keys := JointKeys(s, q, i);
    assert keys == keys[..m] + keys[m..];
    forall x | x in s'.pages ensures ExactAt(s', content, x) {
      if x != l && x != r {
        assert ExactAt(s, content, x);
      }
    }
  }

  /** A redistribution that moves one entry towards the short page settles every size. */
  lemma ShiftSized(s: Store, s': Store, q: PageId, i: nat, lim: Limits, under: PageId)
    requires Shape(s, NoGap) && Siblings(s, q, i) && Usable(lim)
    requires Sized(s, NoGap, lim, INVALID_PAGE_ID, under)
    requires var l, r := s.pages[q].kids[i - 1], s.pages[q].kids[i];
             && under in {l, r}
             && |s.pages[l].keys| + |s.pages[r].keys| > MaxSize(s.pages[l], lim)
             && |s.pages[under].keys| < MaxSize(s.pages[under], lim) / 2
             && s'.root == s.root && s'.pages.Keys == s.pages.Keys
             && (forall x :: x in s'.pages ==> s'.pages[x].Leaf? == s.pages[x].Leaf?)
             && (forall x :: x in s'.pages && x != l && x != r ==> |s'.pages[x].keys| == |s.pages[x].keys|)
             && |s'.pages[l].keys| == |s.pages[l].keys| + (if under == l then 1 else -1)
             && |s'.pages[r].keys| == |s.pages[r].keys| + (if under == l then -1 else 1)
    ensures Sized(s', NoGap, lim, INVALID_PAGE_ID, INVALID_PAGE_ID)
  {
    SiblingFacts(s, q, i);
    var l, r := s.pages[q].kids[i - 1], s.pages[q].kids[i];
    assert SizedAt(s, NoGap, lim, INVALID_PAGE_ID, under, l);
    assert SizedAt(s, NoGap, lim, INVALID_PAGE_ID, under, r);
    forall x | x in s'.pages ensures SizedAt(s', NoGap, lim, INVALID_PAGE_ID, INVALID_PAGE_ID, x) {
      assert SizedAt(s, NoGap, lim, INVALID_PAGE_ID, under, x);
    }
  }

  // ---------------------------------------------------------------- merging internal pages

  /** InternalPage::MoveAllTo: the separator comes down between the two halves, and the children change parent. */
  ghost function InternalMerge(s: Store, q: PageId, i: nat): Store
    requires Siblings(s, q, i) && s.pages[s.pages[q].kids[i - 1]].Internal? && s.pages[s.pages[q].kids[i]].Internal?
    requires |s.pages[s.pages[q].kids[i]].keys| > 0
  {
    var l, r := s.pages[q].kids[i - 1], s.pages[q].kids[i];
    var parent, left, right := s.pages[q], s.pages[l], s.pages[r];
    s.(pages := Reparent(s.pages[l := left.(keys := left.keys + right.keys[0 := parent.keys[i]],
                                            kids := left.kids + right.kids)],
                         right.kids, l)
                [q := parent.(keys := RemoveAt(parent.keys, i), kids := RemoveAt(parent.kids, i))]
                - {r},
       geo := s.geo[l := s.geo[l].(hi := s.geo[r].hi)] - {r})
  }

  /** The two pages of a sibling pair, and the children on either side, do not overlap. */
  lemma CousinsDistinct(s: Store, q: PageId, i: nat)
    requires Shape(s, NoGap) && Siblings(s, q, i)
    requires s.pages[s.pages[q].kids[i - 1]].Internal? && s.pages[s.pages[q].kids[i]].Internal?
    ensures var l, r := s.pages[q].kids[i - 1], s.pages[q].kids[i];
            && (forall x :: x in s.pages[l].kids || x in s.pages[r].kids ==>
                  x in s.pages && x != q && x != l && x != r && x != s.root && x !in s.pages[q].kids)
            && (forall x :: x in s.pages[l].kids ==> x !in s.pages[r].kids && s.pages[x].parent == l)
            && (forall x :: x in s.pages[r].kids ==> s.pages[x].parent == r)
            && (forall x :: x in s.pages[q].kids ==> x in s.pages && s.pages[x].parent == q)
  {
    SiblingFacts(s, q, i);
    KidsDistinct(s, q);
    KidsDistinct(s, s.pages[q].kids[i - 1]);
    KidsDistinct(s, s.pages[q].kids[i]);
  }

  ghost predicate InternalSiblings(s: Store, q: PageId, i: nat) {
    && Siblings(s, q, i)
    && var left, right := s.pages[s.pages[q].kids[i - 1]], s.pages[s.pages[q].kids[i]];
    && left.Internal? && right.Internal? && 0 < |left.keys| == |left.kids| && 0 < |right.keys| == |right.kids|
  }

  /** The separators of both siblings with the parent's separator between them. */
  ghost function JointSeps(s: Store, q: PageId, i: nat): seq<Key>
    requires InternalSiblings(s, q, i)
  {
    s.pages[s.pages[q].kids[i - 1]].keys + s.pages[s.pages[q].kids[i]].keys[0 := s.pages[q].keys[i]]
  }

  ghost function JointKids(s: Store, q: PageId, i: nat): seq<PageId>
    requires InternalSiblings(s, q, i)
  {
    s.pages[s.pages[q].kids[i - 1]].kids + s.pages[s.pages[q].kids[i]].kids
  }

  lemma JointInternal(s: Store, q: PageId, i: nat)
    requires Shape(s, NoGap) && InternalSiblings(s, q, i)
    ensures SortedFrom(JointSeps(s, q, i), 1)
    ensures forall j :: 1 <= j < |JointSeps(s, q, i)| ==> Inside(JointRange(s, q, i), JointSeps(s, q, i)[j])
  {
    SiblingFacts(s, q, i);
    var l, r := s.pages[q].kids[i - 1], s.pages[q].kids[i];
    assert PageShape(s, NoGap, l) && PageShape(s, NoGap, r);
    RangeNonEmpty(s, l);
    RangeNonEmpty(s, r);
  }

  /** Every child of the pair keeps the interval that the joint separators give it. */
  lemma JointKid(s: Store, q: PageId, i: nat, j: nat)
    requires Shape(s, NoGap) && InternalSiblings(s, q, i) && j < |JointKids(s, q, i)|
    ensures var c, seps, range := JointKids(s, q, i)[j], JointSeps(s, q, i), JointRange(s, q, i);
            && c in s.pages && s.geo[c].level + 2 == s.geo[q].level
            && s.geo[c].lo == (if j == 0 then range.lo else At(seps[j]))
            && s.geo[c].hi == (if j + 1 == |seps| then range.hi else At(seps[j + 1]))
  {
    SiblingFacts(s, q, i);
    var l, r := s.pages[q].kids[i - 1], s.pages[q].kids[i];
    assert PageShape(s, NoGap, l) && PageShape(s, NoGap, r);
    if j < |s.pages[l].kids| {
      assert KidShape(s, NoGap, l, j);
    } else {
      assert KidShape(s, NoGap, r, j - |s.pages[l].kids|);
    }
  }

  lemma InternalMergeParts(s: Store, q: PageId, i: nat)
    requires Shape(s, NoGap) && InternalSiblings(s, q, i)
    ensures Frame(InternalMerge(s, q, i), NoGap)
    ensures InternalShape(InternalMerge(s, q, i), NoGap, s.pages[q].kids[i - 1])
  {
    SiblingFacts(s, q, i);
    CousinsDistinct(s, q, i);
    JointInternal(s, q, i);
    var l, r, s' := s.pages[q].kids[i - 1], s.pages[q].kids[i], InternalMerge(s, q, i);
    assert PageShape(s, NoGap, l);
    assert s'.pages[l].keys == JointSeps(s, q, i) && s'.pages[l].kids == JointKids(s, q, i);
    forall j | 0 <= j < |s'.pages[l].kids| ensures KidShape(s', NoGap, l, j) {
      JointKid(s, q, i, j);
      assert JointKids(s, q, i)[j] in s.pages[l].kids || JointKids(s, q, i)[j] in s.pages[r].kids;
    }
  }

  lemma InternalMergeShape(s: Store, q: PageId, i: nat)
    requires Shape(s, NoGap) && InternalSiblings(s, q, i)
    ensures Shape(InternalMerge(s, q, i), NoGap)
  {
    SiblingFacts(s, q, i);
    CousinsDistinct(s, q, i);
    InternalMergeParts(s, q, i);
    var l, r, s' := s.pages[q].kids[i - 1], s.pages[q].kids[i], InternalMerge(s, q, i);
    ParentCut(s, s', q, i);
    forall x | x in s'.pages ensures PageShape(s', NoGap, x) {
      assert PageShape(s, NoGap, x);
      assert x == s.root || Adopted(s', x);
      if s.pages[x].Leaf? {
        assert Chained(s, x);
      } else if x != l && x != q {
        forall j | 0 <= j < |s.pages[x].kids| ensures KidShape(s', NoGap, x, j) {
          assert KidShape(s, NoGap, x, j);
        }
      }
    }
  }

  // ---------------------------------------------------------------- moving the boundary between internal pages

  /** Redistribution of internal pages: the cut separator goes up, and `junk` is left as the first key. */
  ghost function InternalShift(s: Store, q: PageId, i: nat, m: nat, junk: Key): Store
    requires InternalSiblings(s, q, i) && 1 <= m < |JointKids(s, q, i)|
  {
    var l, r := s.pages[q].kids[i - 1], s.pages[q].kids[i];
    var keys, kids := JointSeps(s, q, i), JointKids(s, q, i);
    s.(pages := Reparent(Reparent(s.pages, kids[..m], l), kids[m..], r)
                [l := s.pages[l].(keys := keys[..m], kids := kids[..m])]
                [r := s.pages[r].(keys := [junk] + keys[m + 1..], kids := kids[m..])]
                [q := Internal(s.pages[q].parent, s.pages[q].keys[i := keys[m]], s.pages[q].kids)],
       geo := s.geo[l := s.geo[l].(hi := At(keys[m]))][r := s.geo[r].(lo := At(keys[m]))])
  }

  lemma JointKidsDistinct(s: Store, q: PageId, i: nat, m: nat)
    requires Shape(s, NoGap) && InternalSiblings(s, q, i) && m <= |JointKids(s, q, i)|
    ensures forall a, b :: 0 <= a < b < |JointKids(s, q, i)| ==> JointKids(s, q, i)[a] != JointKids(s, q, i)[b]
    ensures forall x :: x in JointKids(s, q, i)[..m] ==> x !in JointKids(s, q, i)[m..]
  {
    SiblingFacts(s, q, i);
    CousinsDistinct(s, q, i);
    KidsDistinct(s, s.pages[q].kids[i - 1]);
    KidsDistinct(s, s.pages[q].kids[i]);
    var left, kids := s.pages[s.pages[q].kids[i - 1]].kids, JointKids(s, q, i);
    forall a, b | 0 <= a < b < |kids| ensures kids[a] != kids[b] {
      assert a < |left| <= b ==> kids[a] in left && kids[b] in s.pages[s.pages[q].kids[i]].kids;
    }
  }

  lemma InternalShiftFrame(s: Store, q: PageId, i: nat, m: nat, junk: Key)
    requires Shape(s, NoGap) && InternalSiblings(s, q, i) && 1 <= m < |JointKids(s, q, i)|
    ensures var l, r, s' := s.pages[q].kids[i - 1], s.pages[q].kids[i], InternalShift(s, q, i, m, junk);
            && Frame(s', NoGap)
            && (forall x :: x in s.pages && x != q && x != l && x != r ==>
                  s'.pages[x] == s.pages[x].(parent := if x in JointKids(s, q, i)[m..] then r
                                                       else if x in JointKids(s, q, i)[..m] then l
                                                       else s.pages[x].parent))
            && (forall x :: x in JointKids(s, q, i) ==> x in s.pages && x != q && x != l && x != r && x != s.root)
  {
    SiblingFacts(s, q, i);
    CousinsDistinct(s, q, i);
  }

  lemma InternalShiftKid(s: Store, q: PageId, i: nat, m: nat, junk: Key, half: PageId, j: nat)
    requires Shape(s, NoGap) && InternalSiblings(s, q, i) && 1 <= m < |JointKids(s, q, i)|
    requires half in {s.pages[q].kids[i - 1], s.pages[q].kids[i]}
    requires j < |InternalShift(s, q, i, m, junk).pages[half].kids|
    ensures Frame(InternalShift(s, q, i, m, junk), NoGap)
    ensures KidShape(InternalShift(s, q, i, m, junk), NoGap, half, j)
  {
    SiblingFacts(s, q, i);
    InternalShiftFrame(s, q, i, m, junk);
    JointKidsDistinct(s, q, i, m);
    var l, s' := s.pages[q].kids[i - 1], InternalShift(s, q, i, m, junk);
    var kids, from := JointKids(s, q, i), if half == l then j else m + j;
    JointKid(s, q, i, from);
    assert kids[from] in (if half == l then kids[..m] else kids[m..]);
  }

  lemma InternalShiftHalf(s: Store, q: PageId, i: nat, m: nat, junk: Key, half: PageId)
    requires Shape(s, NoGap) && InternalSiblings(s, q, i) && 1 <= m < |JointKids(s, q, i)|
    requires half in {s.pages[q].kids[i - 1], s.pages[q].kids[i]}
    ensures Frame(InternalShift(s, q, i, m, junk), NoGap)
    ensures InternalShape(InternalShift(s, q, i, m, junk), NoGap, half)
  {
    SiblingFacts(s, q, i);
    InternalShiftFrame(s, q, i, m, junk);
    JointInternal(s, q, i);
    var s' := InternalShift(s, q, i, m, junk);
    assert PageShape(s, NoGap, half);
    forall j | 0 <= j < |s'.pages[half].kids| ensures KidShape(s', NoGap, half, j) {
      InternalShiftKid(s, q, i, m, junk, half, j);
    }
  }

  lemma InternalShiftAdopted(s: Store, q: PageId, i: nat, m: nat, junk: Key, x: PageId)
    requires Shape(s, NoGap) && InternalSiblings(s, q, i) && 1 <= m < |JointKids(s, q, i)|
    requires x in s.pages && x != s.root
    ensures Adopted(InternalShift(s, q, i, m, junk), x)
  {
    SiblingFacts(s, q, i);
    CousinsDistinct(s, q, i);
    InternalShiftFrame(s, q, i, m, junk);
    assert PageShape(s, NoGap, x) && Adopted(s, x);
    var kids := JointKids(s, q, i);
    assert x in kids ==> x in kids[..m] || x in kids[m..];
  }

  lemma InternalShiftParent(s: Store, q: PageId, i: nat, m: nat, junk: Key)
    requires Shape(s, NoGap) && InternalSiblings(s, q, i) && 1 <= m < |JointKids(s, q, i)|
    ensures Frame(InternalShift(s, q, i, m, junk), NoGap)
    ensures InternalShape(InternalShift(s, q, i, m, junk), NoGap, q)
  {
    SiblingFacts(s, q, i);
    CousinsDistinct(s, q, i);
    InternalShiftFrame(s, q, i, m, junk);
    JointInternal(s, q, i);
    var s' := InternalShift(s, q, i, m, junk);
    assert Inside(JointRange(s, q, i), JointSeps(s, q, i)[m]);
    ParentRekey(s, s', q, i, s'.pages[q].keys[i]);
  }

  lemma InternalShiftShape(s: Store, q: PageId, i: nat, m: nat, junk: Key)
    requires Shape(s, NoGap) && InternalSiblings(s, q, i) && 1 <= m < |JointKids(s, q, i)|
    ensures Shape(InternalShift(s, q, i, m, junk), NoGap)
  {
    SiblingFacts(s, q, i);
    CousinsDistinct(s, q, i);
    InternalShiftFrame(s, q, i, m, junk);
    InternalShiftParent(s, q, i, m, junk);
    var l, r, s' := s.pages[q].kids[i - 1], s.pages[q].kids[i], InternalShift(s, q, i, m, junk);
    forall x | x in s'.pages ensures PageShape(s', NoGap, x) {
      assert PageShape(s, NoGap, x);
      if x != s.root { InternalShiftAdopted(s, q, i, m, junk, x); }
      if x == l || x == r {
        InternalShiftHalf(s, q, i, m, junk, x);
      } else if s.pages[x].Leaf? {
        assert Chained(s, x);
      } else if x != q {
        forall j | 0 <= j < |s.pages[x].kids| ensures KidShape(s', NoGap, x, j) {
          assert KidShape(s, NoGap, x, j);
        }
      }
    }
  }

  // ---------------------------------------------------------------- losing the root

  /** AdjustRoot on a root with one child: the child becomes the root. */
  ghost function Collapse(s: Store): Store
    requires s.root in s.pages && s.pages[s.root].Internal? && |s.pages[s.root].kids| == 1
    requires s.pages[s.root].kids[0] in s.pages
  {
    var child := s.pages[s.root].kids[0];
    Store(child, s.pages[child := s.pages[child].(parent := INVALID_PAGE_ID)] - {s.root}, s.geo - {s.root})
  }

  lemma CollapseShape(s: Store)
    requires Shape(s, NoGap) && s.pages[s.root].Internal? && |s.pages[s.root].kids| == 1
    ensures s.pages[s.root].kids[0] in s.pages
    ensures Shape(Collapse(s), NoGap)
  {
    KidsDistinct(s, s.root);
    var child := s.pages[s.root].kids[0];
    assert PageShape(s, NoGap, s.root) && KidShape(s, NoGap, s.root, 0);
    var s' := Collapse(s);
    forall x | x in s'.pages ensures PageShape(s', NoGap, x) {
      assert PageShape(s, NoGap, x);
      BelowRoot(s, x);
      if x != child { assert Adopted(s, x); }
      if s.pages[x].Leaf? {
        assert Chained(s, x);
      } else {
        forall j | 0 <= j < |s.pages[x].kids| ensures KidShape(s', NoGap, x, j) {
          assert KidShape(s, NoGap, x, j);
        }
      }
    }
  }

  lemma CollapseSized(s: Store, lim: Limits)
    requires Shape(s, NoGap) && s.pages[s.root].Internal? && |s.pages[s.root].kids| == 1 && Usable(lim)
    requires Sized(s, NoGap, lim, INVALID_PAGE_ID, s.root)
    ensures s.pages[s.root].kids[0] in s.pages
    ensures Sized(Collapse(s), NoGap, lim, INVALID_PAGE_ID, INVALID_PAGE_ID)
  {
    CollapseShape(s);
    KidsDistinct(s, s.root);
    var s' := Collapse(s);
    forall x | x in s'.pages ensures SizedAt(s', NoGap, lim, INVALID_PAGE_ID, INVALID_PAGE_ID, x) {
      assert SizedAt(s, NoGap, lim, INVALID_PAGE_ID, s.root, x);
    }
  }

  // ---------------------------------------------------------------- the steps of Remove

  lemma LeafCutGood(s: Store, p: PageId, i: nat, lim: Limits, content: map<Key, RowId>)
    requires Good(s, NoGap, lim, content, INVALID_PAGE_ID, INVALID_PAGE_ID)
    requires p in s.pages && s.pages[p].Leaf? && i < |s.pages[p].keys| == |s.pages[p].vals|
    ensures Good(s.(pages := s.pages[p := LeafCut(s.pages[p], i)]), NoGap, lim, content - {s.pages[p].keys[i]},
                 INVALID_PAGE_ID, p)
  {
    LeafCutShape(s, p, i);
    LeafCutExact(s, p, i, content);
    LeafCutSized(s, p, i, lim);
  }

  /** A page that may be one entry short but is not. */
  lemma NotUnder(s: Store, lim: Limits, content: map<Key, RowId>, under: PageId)
    requires under in s.pages && Good(s, NoGap, lim, content, INVALID_PAGE_ID, under)
    requires |s.pages[under].keys| >= Floor(s, NoGap, lim, under)
    ensures Good(s, NoGap, lim, content, INVALID_PAGE_ID, INVALID_PAGE_ID)
  {
    forall x | x in s.pages ensures SizedAt(s, NoGap, lim, INVALID_PAGE_ID, INVALID_PAGE_ID, x) {
      assert SizedAt(s, NoGap, lim, INVALID_PAGE_ID, under, x);
    }
  }

  lemma LeafMergeGood(s: Store, q: PageId, i: nat, lim: Limits, content: map<Key, RowId>, under: PageId)
    requires Good(s, NoGap, lim, content, INVALID_PAGE_ID, under) && LeafSiblings(s, q, i)
    requires under in {s.pages[q].kids[i - 1], s.pages[q].kids[i]} && |JointKeys(s, q, i)| <= lim.leafMax
    ensures Good(LeafMerge(s, q, i), NoGap, lim, content, INVALID_PAGE_ID, q)
  {
    LeafMergeShape(s, q, i);
    LeafMergeExact(s, q, i, content);
    MergeSized(s, LeafMerge(s, q, i), q, i, lim, under);
  }

  lemma LeafShiftGood(s: Store, q: PageId, i: nat, lim: Limits, content: map<Key, RowId>, under: PageId)
    requires Good(s, NoGap, lim, content, INVALID_PAGE_ID, under) && LeafSiblings(s, q, i)
    requires under in {s.pages[q].kids[i - 1], s.pages[q].kids[i]} && |JointKeys(s, q, i)| > lim.leafMax
    requires |s.pages[under].keys| < lim.leafMax / 2
    ensures 1 <= ShiftCut(s, q, i, under) < |JointKeys(s, q, i)|
    ensures Good(LeafShift(s, q, i, ShiftCut(s, q, i, under)), NoGap, lim, content, INVALID_PAGE_ID, INVALID_PAGE_ID)
  {
    assert SizedAt(s, NoGap, lim, INVALID_PAGE_ID, under, s.pages[q].kids[i - 1]);
    assert SizedAt(s, NoGap, lim, INVALID_PAGE_ID, under, s.pages[q].kids[i]);
    var m := ShiftCut(s, q, i, under);
    LeafShiftShape(s, q, i, m);
    LeafShiftExact(s, q, i, m, content);
    ShiftSized(s, LeafShift(s, q, i, m), q, i, lim, under);
  }

  /** Where redistribution cuts: the short page gains one entry. */
  ghost function ShiftCut(s: Store, q: PageId, i: nat, under: PageId): int
    requires Siblings(s, q, i)
  {
    var l := s.pages[q].kids[i - 1];
    if under == l then |s.pages[l].keys| + 1 else |s.pages[l].keys| - 1
  }

  lemma InternalMergeGood(s: Store, q: PageId, i: nat, lim: Limits, content: map<Key, RowId>, under: PageId)
    requires Good(s, NoGap, lim, content, INVALID_PAGE_ID, under) && InternalSiblings(s, q, i)
    requires under in {s.pages[q].kids[i - 1], s.pages[q].kids[i]} && |JointKids(s, q, i)| <= lim.internalMax
    ensures Good(InternalMerge(s, q, i), NoGap, lim, content, INVALID_PAGE_ID, q)
  {
    CousinsDistinct(s, q, i);
    InternalMergeShape(s, q, i);
    SameLeavesExact(s, InternalMerge(s, q, i), content);
    MergeSized(s, InternalMerge(s, q, i), q, i, lim, under);
  }

  lemma InternalShiftGood(s: Store, q: PageId, i: nat, junk: Key, lim: Limits, content: map<Key, RowId>, under: PageId)
    requires Good(s, NoGap, lim, content, INVALID_PAGE_ID, under) && InternalSiblings(s, q, i)
    requires under in {s.pages[q].kids[i - 1], s.pages[q].kids[i]} && |JointKids(s, q, i)| > lim.internalMax
    requires |s.pages[under].keys| < lim.internalMax / 2
    ensures 1 <= ShiftCut(s, q, i, under) < |JointKids(s, q, i)|
    ensures Good(InternalShift(s, q, i, ShiftCut(s, q, i, under), junk), NoGap, lim, content,
                 INVALID_PAGE_ID, INVALID_PAGE_ID)
  {
    assert SizedAt(s, NoGap, lim, INVALID_PAGE_ID, under, s.pages[q].kids[i - 1]);
    assert SizedAt(s, NoGap, lim, INVALID_PAGE_ID, under, s.pages[q].kids[i]);
    var m := ShiftCut(s, q, i, under);
    InternalShiftShape(s, q, i, m, junk);
    InternalShiftFrame(s, q, i, m, junk);
    SiblingFacts(s, q, i);
    SameLeavesExact(s, InternalShift(s, q, i, m, junk), content);
    ShiftSized(s, InternalShift(s, q, i, m, junk), q, i, lim, under);
  }

  lemma CollapseGood(s: Store, lim: Limits, content: map<Key, RowId>)
    requires Good(s, NoGap, lim, content, INVALID_PAGE_ID, s.root)
    requires s.pages[s.root].Internal? && |s.pages[s.root].kids| == 1
    ensures s.pages[s.root].kids[0] in s.pages && s.pages[s.root].kids[0] != s.root
    ensures Fits(s.pages[s.pages[s.root].kids[0]], lim)
    ensures Good(Collapse(s), NoGap, lim, content, INVALID_PAGE_ID, INVALID_PAGE_ID)
  {
    KidsDistinct(s, s.root);
    CollapseShape(s);
    CollapseSized(s, lim);
    SameLeavesExact(s, Collapse(s), content);
    assert SizedAt(s, NoGap, lim, INVALID_PAGE_ID, s.root, s.pages[s.root].kids[0]);
  }

  /** An empty root leaf holds the whole, empty, map. */
  lemma EmptyRoot(s: Store, lim: Limits, content: map<Key, RowId>)
    requires Good(s, NoGap, lim, content, INVALID_PAGE_ID, s.root)
    requires s.pages[s.root].Leaf? && |s.pages[s.root].keys| == 0
    ensures content == map[] && s.pages.Keys == {s.root}
  {
    assert PageShape(s, NoGap, s.root) && ExactAt(s, content, s.root);
    var keys := s.pages[s.root].keys;
    assert forall k :: k in content ==> k in keys;
    assert content == map[];
    forall x | x in s.pages ensures x == s.root {
      BelowRoot(s, x);
    }
  }

  /** What CoalesceOrRedistribute reads of the pages around a short page. */
  lemma UnderFacts(s: Store, lim: Limits, content: map<Key, RowId>, node: PageId)
    requires Good(s, NoGap, lim, content, INVALID_PAGE_ID, node) && node in s.pages
    ensures s.pages[node].IsRootPage() <==> node == s.root
    ensures Floor(s, NoGap, lim, node) == MinSize(s.pages[node], lim) <= |s.pages[node].keys| + 1
    ensures s.pages[node].Internal? ==> |s.pages[node].keys| == |s.pages[node].kids|
    ensures node != s.root ==>
              var q := s.pages[node].parent;
              && q in s.pages && s.pages[q].Internal? && q != node && node in s.pages[q].kids
              && 2 <= |s.pages[q].keys| == |s.pages[q].kids| <= lim.internalMax
              && s.geo[q].level == s.geo[node].level + 1 && s.geo[q].level <= s.geo[s.root].level
  {
    assert PageShape(s, NoGap, node) && SizedAt(s, NoGap, lim, INVALID_PAGE_ID, node, node);
    if node != s.root {
      var i := ParentAbove(s, node);
      var q := s.pages[node].parent;
      assert PageShape(s, NoGap, q) && SizedAt(s, NoGap, lim, INVALID_PAGE_ID, node, q);
    }
  }

  /** What a merge or redistribution reads of two siblings. */
  lemma PairFacts(s: Store, lim: Limits, content: map<Key, RowId>, under: PageId, q: PageId, i: nat)
    requires Good(s, NoGap, lim, content, INVALID_PAGE_ID, under)
    requires q in s.pages && s.pages[q].Internal? && 1 <= i < |s.pages[q].kids|
    ensures Siblings(s, q, i)
    ensures var l, r := s.pages[q].kids[i - 1], s.pages[q].kids[i];
            && Fits(s.pages[l], lim) && Fits(s.pages[r], lim) && s.root != r
            && (if s.pages[l].Leaf? then LeafSiblings(s, q, i) else InternalSiblings(s, q, i))
            && (|s.pages[q].kids| == |s.pages[q].keys| <= lim.internalMax + 1)
  {
    SiblingFacts(s, q, i);
    var l, r := s.pages[q].kids[i - 1], s.pages[q].kids[i];
    assert PageShape(s, NoGap, l) && PageShape(s, NoGap, r);
    assert SizedAt(s, NoGap, lim, INVALID_PAGE_ID, under, l) && SizedAt(s, NoGap, lim, INVALID_PAGE_ID, under, r);
    assert SizedAt(s, NoGap, lim, INVALID_PAGE_ID, under, q);
  }

  /** Handing one child from a page to its sibling is the whole effect of re-parenting both sides of the cut. */
  lemma ReparentMoved(pages: map<PageId, Page>, kids: seq<PageId>, n: nat, m: nat, l: PageId, r: PageId)
    requires n <= |kids| && m < |kids| && forall a :: 0 <= a < |kids| ==> kids[a] in pages
    requires forall a, b :: 0 <= a < b < |kids| ==> kids[a] != kids[b]
    requires forall a :: 0 <= a < n ==> pages[kids[a]].parent == l
    requires forall a :: n <= a < |kids| ==> pages[kids[a]].parent == r
    requires m == n - 1 || m == n + 1
    ensures var moved, to := if m < n then kids[m] else kids[n], if m < n then r else l;
            Reparent(Reparent(pages, kids[..m], l), kids[m..], r) == pages[moved := pages[moved].(parent := to)]
  {
    var c, to := if m < n then kids[m] else kids[n], if m < n then r else l;
    var done := Reparent(Reparent(pages, kids[..m], l), kids[m..], r);
    forall x | x in pages ensures done[x] == pages[c := pages[c].(parent := to)][x] {
      if x in kids {
        var a :| 0 <= a < |kids| && kids[a] == x;
        assert a < m ==> kids[..m][a] == x;
        assert a >= m ==> kids[m..][a - m] == x;
      }
    }
  }

  /** The children of two internal siblings are distinct pages that know their parents. */
  ghost predicate KidsReady(s: Store, q: PageId, i: nat, lim: Limits) {
    && InternalSiblings(s, q, i)
    && var l, r, kids := s.pages[q].kids[i - 1], s.pages[q].kids[i], JointKids(s, q, i);
    && Resident(kids, s.pages, lim)
    && (forall a :: 0 <= a < |kids| ==> kids[a] != q && kids[a] != l && kids[a] != r)
    && (forall a, b :: 0 <= a < b < |kids| ==> kids[a] != kids[b])
    && (forall a :: 0 <= a < |s.pages[l].kids| ==> s.pages[kids[a]].parent == l)
    && (forall a :: |s.pages[l].kids| <= a < |kids| ==> s.pages[kids[a]].parent == r)
  }

  lemma KidsOfPair(s: Store, lim: Limits, content: map<Key, RowId>, under: PageId, q: PageId, i: nat)
    requires Good(s, NoGap, lim, content, INVALID_PAGE_ID, under) && InternalSiblings(s, q, i)
    ensures KidsReady(s, q, i, lim)
  {
    CousinsDistinct(s, q, i);
    JointKidsDistinct(s, q, i, 0);
    var l, r, kids := s.pages[q].kids[i - 1], s.pages[q].kids[i], JointKids(s, q, i);
    forall a | 0 <= a < |kids|
      ensures kids[a] in s.pages && kids[a] != q && kids[a] != l && kids[a] != r && Fits(s.pages[kids[a]], lim)
      ensures s.pages[kids[a]].parent == if a < |s.pages[l].kids| then l else r
    {
      var x: PageId := kids[a];
      assert if a < |s.pages[l].kids| then x in s.pages[l].kids else x in s.pages[r].kids;
      assert SizedAt(s, NoGap, lim, INVALID_PAGE_ID, under, x);
    }
  }

  lemma CutAfter<T>(a: seq<T>, b: seq<T>)
    requires |b| > 0
    ensures (a + b)[..|a| + 1] == a + [b[0]] && (a + b)[|a| + 1..] == b[1..] && (|b| > 1 ==> (a + b)[|a| + 1] == b[1])
  {
  }

  lemma CutBefore<T>(a: seq<T>, b: seq<T>)
    requires |a| > 0
    ensures (a + b)[..|a| - 1] == a[..|a| - 1] && (a + b)[|a| - 1..] == [a[|a| - 1]] + b
  {
  }

  // ---------------------------------------------------------------- which pages a rewrite leaves

  /** The merge of two siblings of either kind. */
  ghost function Merged(s: Store, q: PageId, i: nat): Store
    requires LeafSiblings(s, q, i) || InternalSiblings(s, q, i)
  {
    if s.pages[s.pages[q].kids[i]].Leaf? then LeafMerge(s, q, i) else InternalMerge(s, q, i)
  }

  lemma MergedFacts(s: Store, q: PageId, i: nat, lim: Limits, content: map<Key, RowId>, under: PageId)
    requires Good(s, NoGap, lim, content, INVALID_PAGE_ID, under) && under != s.root
    requires LeafSiblings(s, q, i) || InternalSiblings(s, q, i)
    requires under in {s.pages[q].kids[i - 1], s.pages[q].kids[i]} && s.root != s.pages[q].kids[i]
    requires if s.pages[under].Leaf? then |JointKeys(s, q, i)| <= lim.leafMax
             else |JointKids(s, q, i)| <= lim.internalMax
    ensures var s' := Merged(s, q, i);
            && Good(s', NoGap, lim, content, INVALID_PAGE_ID, q)
            && s'.pages.Keys == s.pages.Keys - {s.pages[q].kids[i]} && s'.root == s.root
            && s'.geo[s.root].level == s.geo[s.root].level
            && s.geo[under].level < s'.geo[q].level <= s.geo[s.root].level
  {
    SiblingFacts(s, q, i);
    UnderFacts(s, lim, content, under);
    var j := ParentAbove(s, under);
    if s.pages[under].Leaf? {
      LeafMergeGood(s, q, i, lim, content, under);
    } else {
      InternalMergeGood(s, q, i, lim, content, under);
    }
  }

  lemma LeafShiftKeys(s: Store, q: PageId, i: nat, m: nat)
    requires LeafSiblings(s, q, i) && m < |JointKeys(s, q, i)|
    ensures LeafShift(s, q, i, m).pages.Keys == s.pages.Keys
  {
  }

  lemma InternalShiftKeys(s: Store, q: PageId, i: nat, m: nat, junk: Key)
    requires InternalSiblings(s, q, i) && 1 <= m < |JointKids(s, q, i)|
    ensures InternalShift(s, q, i, m, junk).pages.Keys == s.pages.Keys
  {
  }
}
