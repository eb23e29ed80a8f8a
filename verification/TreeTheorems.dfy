/** What the shape of the tree means for the index as a whole: runs of operations, depth, and page conservation. */
module TreeTheorems {
  import opened Common
  import opened TreePages
  import opened TreeShape
  import opened TreeShrink
  import opened BPlusTrees

  // ---------------------------------------------------------------- runs

  datatype Op = Put(key: Key, value: RowId) | Del(key: Key) | Get(key: Key)

  /** What Insert and GetValue report; Remove reports nothing. */
  datatype Reply = Inserted | Duplicate | Removed | Found(value: RowId) | Absent

  /** One operation on a finite map. */
  function MapStep(m: map<Key, RowId>, op: Op): (map<Key, RowId>, Reply) {
    match op
    case Put(k, v) => if k in m then (m, Duplicate) else (m[k := v], Inserted)
    case Del(k) => (m - {k}, Removed)
    case Get(k) => (m, if k in m then Found(m[k]) else Absent)
  }

  /** A run on a finite map: the final map and every reply. */
  function MapRun(m: map<Key, RowId>, ops: seq<Op>): (map<Key, RowId>, seq<Reply>) {
    if ops == [] then (m, [])
    else
      var (m1, replies) := MapRun(m, ops[..|ops| - 1]);
      var (m2, reply) := MapStep(m1, ops[|ops| - 1]);
      (m2, replies + [reply])
  }

  /** Every run of the tree, through all its splits, merges, redistributions and root changes, is a run of a
      finite map, whatever pages somebody else has pinned meanwhile; it leaves a tree and all pins as they were, and
      fails to delete only pages that were pinned. */
  method Run(tree: BPlusTree, ops: seq<Op>) returns (replies: seq<Reply>)
    requires tree.Valid()
    modifies tree
    ensures tree.Valid() && tree.pins == old(tree.pins)
    ensures (tree.content, replies) == MapRun(old(tree.content), ops)
    ensures forall p :: p in tree.kept ==> p in old(tree.kept) || p in tree.pins
  {
    replies := [];
    for n := 0 to |ops|
      invariant tree.Valid() && tree.pins == old(tree.pins)
      invariant forall p :: p in tree.kept ==> p in old(tree.kept) || p in tree.pins
      invariant (tree.content, replies) == MapRun(old(tree.content), ops[..n])
    {
      assert ops[..n + 1][..n] == ops[..n];
      match ops[n] {
        case Put(k, v) =>
          var ok := tree.Insert(k, v);
          replies := replies + [if ok then Inserted else Duplicate];
        case Del(k) =>
          tree.Remove(k);
          replies := replies + [Removed];
        case Get(k) =>
          var found, value := tree.GetValue(k);
          replies := replies + [if found then Found(value) else Absent];
      }
    }
    assert ops[..|ops|] == ops;
  }

  // ---------------------------------------------------------------- default page sizes

  /** The words in front of the entries of an index page. */
  const PAGE_HEADER_WORDS := ["page_type", "key_size", "lsn", "size", "max_size", "parent_page_id", "page_id"]
  const LEAF_HEADER_WORDS := PAGE_HEADER_WORDS + ["next_page_id"]

  const LEAF_PAGE_HEADER_SIZE := 32
  const INTERNAL_PAGE_HEADER_SIZE := 28
  const ROW_ID_SIZE := 8
  const PAGE_ID_SIZE := 4

  /** The sizes the constructor chooses for a key of `keySize` bytes. */
  function DefaultLimits(keySize: nat): Limits
    requires 5 * (keySize + PAGE_ID_SIZE) <= PAGE_SIZE - INTERNAL_PAGE_HEADER_SIZE
  {
    var leafMax := (PAGE_SIZE - LEAF_PAGE_HEADER_SIZE) / (keySize + ROW_ID_SIZE) - 1;
    var internalMax := (PAGE_SIZE - INTERNAL_PAGE_HEADER_SIZE) / (keySize + PAGE_ID_SIZE) - 1;
    AtLeastQuotient(PAGE_SIZE - LEAF_PAGE_HEADER_SIZE, keySize + ROW_ID_SIZE, 3);
    AtLeastQuotient(PAGE_SIZE - INTERNAL_PAGE_HEADER_SIZE, keySize + PAGE_ID_SIZE, 5);
    Limits(leafMax, internalMax)
  }

  lemma AtLeastQuotient(a: nat, d: nat, q: nat)
    requires d > 0
    ensures a / d >= q <==> q * d <= a
    ensures (a / d) * d <= a
  {
    var r := a / d;
    assert a == r * d + a % d;
    if r >= q { assert q * d <= r * d; }
    if r < q { assert (r + 1) * d <= q * d; }
  }

  /** One entry above the maximum still fits the page, and with keys of up to 809 bytes every internal page but
      the root has at least two children. */
  lemma DefaultSizesFit(keySize: nat)
    requires 5 * (keySize + PAGE_ID_SIZE) <= PAGE_SIZE - INTERNAL_PAGE_HEADER_SIZE
    ensures var lim := DefaultLimits(keySize);
            && Usable(lim)
            && Filled(LEAF_PAGE_HEADER_SIZE, keySize + ROW_ID_SIZE, lim.leafMax + 1)
            && Filled(INTERNAL_PAGE_HEADER_SIZE, keySize + PAGE_ID_SIZE, lim.internalMax + 1)
    ensures INTERNAL_PAGE_HEADER_SIZE == 4 * |PAGE_HEADER_WORDS| && LEAF_PAGE_HEADER_SIZE == 4 * |LEAF_HEADER_WORDS|
  {
    AtLeastQuotient(PAGE_SIZE - LEAF_PAGE_HEADER_SIZE, keySize + ROW_ID_SIZE, 3);
    AtLeastQuotient(PAGE_SIZE - INTERNAL_PAGE_HEADER_SIZE, keySize + PAGE_ID_SIZE, 5);
    QuotientFills(PAGE_SIZE - LEAF_PAGE_HEADER_SIZE, keySize + ROW_ID_SIZE);
    QuotientFills(PAGE_SIZE - INTERNAL_PAGE_HEADER_SIZE, keySize + PAGE_ID_SIZE);
  }

  /** A page has room for `n` entries of `entry` bytes behind its header, and not for one more. */
  predicate Filled(header: nat, entry: nat, n: nat) {
    header + n * entry <= PAGE_SIZE < header + (n + 1) * entry
  }

  lemma QuotientFills(a: nat, d: nat)
    requires d > 0
    ensures a / d * d <= a < (a / d + 1) * d
  {
    assert a == a / d * d + a % d;
  }

  /** Every page but the root is at least half full, and none holds more than its maximum. */
  lemma HalfFull(s: Store, lim: Limits, content: map<Key, RowId>, p: PageId)
    requires Good(s, NoGap, lim, content, INVALID_PAGE_ID, INVALID_PAGE_ID) && p in s.pages && p != s.root
    ensures MaxSize(s.pages[p], lim) <= 2 * |s.pages[p].keys| + 1
    ensures |s.pages[p].keys| <= MaxSize(s.pages[p], lim)
  {
    assert PageShape(s, NoGap, p);
    assert SizedAt(s, NoGap, lim, INVALID_PAGE_ID, INVALID_PAGE_ID, p);
  }

  // ---------------------------------------------------------------- depth

  lemma ParentInfo(s: Store, p: PageId)
    requires Shape(s, NoGap) && p in s.pages && p != s.root
    ensures s.pages[p].parent in s.pages && s.geo[s.pages[p].parent].level == s.geo[p].level + 1
    ensures s.pages[s.pages[p].parent].Internal? && p in s.pages[s.pages[p].parent].kids
    ensures s.geo[p].level < s.geo[s.root].level
  {
    var i := ParentAbove(s, p);
    BelowRoot(s, p);
  }

  /** The page reached from `p` by following n parent ids. */
  ghost function Ancestor(s: Store, p: PageId, n: nat): (a: PageId)
    requires Shape(s, NoGap) && p in s.pages && s.geo[p].level + n <= s.geo[s.root].level
    ensures a in s.pages && s.geo[a].level == s.geo[p].level + n
    decreases n
  {
    if n == 0 then p else (ParentInfo(s, p); Ancestor(s, s.pages[p].parent, n - 1))
  }

  /** The number of parent ids to follow from a page to the root. */
  ghost function Depth(s: Store, p: PageId): nat
    requires Shape(s, NoGap) && p in s.pages
    decreases s.geo[s.root].level - s.geo[p].level
  {
    if p == s.root then 0 else (ParentInfo(s, p); 1 + Depth(s, s.pages[p].parent))
  }

  /** Depth and height always add up to the height of the root, so all leaves are equally deep. */
  lemma {:induction false} EqualDepth(s: Store, p: PageId)
    requires Shape(s, NoGap) && p in s.pages
    ensures Depth(s, p) + s.geo[p].level == s.geo[s.root].level
    ensures s.pages[p].Leaf? ==> Depth(s, p) == s.geo[s.root].level
    decreases s.geo[s.root].level - s.geo[p].level
  {
    assert PageShape(s, NoGap, p);
    if p != s.root {
      ParentInfo(s, p);
      EqualDepth(s, s.pages[p].parent);
    }
  }

  // ---------------------------------------------------------------- page conservation

  /** `x` hangs below `p`, or is `p`. */
  ghost predicate Below(s: Store, p: PageId, x: PageId)
    requires Shape(s, NoGap) && p in s.pages && x in s.pages
  {
    BelowRoot(s, p);
    s.geo[x].level <= s.geo[p].level && Ancestor(s, x, s.geo[p].level - s.geo[x].level) == p
  }

  ghost function Subtree(s: Store, p: PageId): set<PageId>
    requires Shape(s, NoGap) && p in s.pages
  {
    set x | x in s.pages && Below(s, p, x)
  }

  /** Every allocated page hangs below the root: nothing is leaked. */
  lemma NoPageLeaked(s: Store)
    requires Shape(s, NoGap)
    ensures Subtree(s, s.root) == s.pages.Keys
  {
    forall x | x in s.pages ensures Below(s, s.root, x) {
      BelowRoot(s, x);
      BelowRoot(s, Ancestor(s, x, s.geo[s.root].level - s.geo[x].level));
    }
  }

  lemma {:induction false} AncestorStep(s: Store, p: PageId, n: nat)
    requires Shape(s, NoGap) && p in s.pages && s.geo[p].level + n + 1 <= s.geo[s.root].level
    ensures s.pages[Ancestor(s, p, n)].parent == Ancestor(s, p, n + 1)
    ensures Ancestor(s, p, n) != s.root
    decreases n
  {
    BelowRoot(s, p);
    if n > 0 {
      ParentInfo(s, p);
      AncestorStep(s, s.pages[p].parent, n - 1);
    } else {
      BelowRoot(s, s.root);
      assert p != s.root;
      ParentInfo(s, p);
      assert Ancestor(s, p, 1) == Ancestor(s, s.pages[p].parent, 0);
    }
  }

  /** Below an internal page means: the page itself, or below one of its children. */
  lemma BelowChild(s: Store, p: PageId, x: PageId)
    requires Shape(s, NoGap) && p in s.pages && s.pages[p].Internal? && x in s.pages
    ensures Below(s, p, x) && x != p ==> exists c :: c in s.pages[p].kids && c in s.pages && Below(s, c, x)
    ensures forall c :: c in s.pages[p].kids ==> c in s.pages && (Below(s, c, x) ==> Below(s, p, x) && x != p)
  {
    KidsDistinct(s, p);
    BelowRoot(s, p);
    assert PageShape(s, NoGap, p);
    var d := s.geo[p].level - s.geo[x].level;
    if Below(s, p, x) && x != p {
      AncestorStep(s, x, d - 1);
      var c := Ancestor(s, x, d - 1);
      ParentInfo(s, c);
      assert Below(s, c, x);
    }
    forall c | c in s.pages[p].kids ensures c in s.pages && (Below(s, c, x) ==> Below(s, p, x) && x != p) {
      var i :| 0 <= i < |s.pages[p].kids| && s.pages[p].kids[i] == c;
      assert KidShape(s, NoGap, p, i);
      if Below(s, c, x) {
        AncestorStep(s, x, d - 1);
      }
    }
  }

  /** A page's subtree is the page and the subtrees of its children. */
  lemma SubtreeWhole(s: Store, p: PageId)
    requires Shape(s, NoGap) && p in s.pages && s.pages[p].Internal?
    ensures Subtrees(s, s.pages[p].kids) == Subtree(s, p) - {p} && p in Subtree(s, p)
    ensures forall c :: c in s.pages[p].kids ==> c in s.pages && Subtree(s, c) <= Subtree(s, p) - {p}
  {
    KidsDistinct(s, p);
    assert Below(s, p, p);
    forall x | x in s.pages ensures x in Subtree(s, p) - {p} <==> x in Subtrees(s, s.pages[p].kids) {
      BelowChild(s, p, x);
      if Below(s, p, x) && x != p {
        var c :| c in s.pages[p].kids && c in s.pages && Below(s, c, x);
        assert x in Subtree(s, c);
      }
    }
    forall c, x | c in s.pages[p].kids && x in Subtree(s, c) ensures x in Subtree(s, p) - {p} {
      BelowChild(s, p, x);
    }
  }

  /** The subtrees of two children have no page in common. */
  lemma SubtreesDisjoint(s: Store, p: PageId, n: nat)
    requires Shape(s, NoGap) && p in s.pages && s.pages[p].Internal? && n < |s.pages[p].kids|
    requires s.pages[p].kids[n] in s.pages
    ensures Subtree(s, s.pages[p].kids[n]) !! Subtrees(s, s.pages[p].kids[..n])
  {
    KidsDistinct(s, p);
    var kids := s.pages[p].kids;
    assert PageShape(s, NoGap, p) && KidShape(s, NoGap, p, n);
    forall c, x | c in kids[..n] && c in s.pages && x in Subtree(s, c) ensures x !in Subtree(s, kids[n]) {
      var i :| 0 <= i < n && kids[i] == c;
      assert KidShape(s, NoGap, p, i);
    }
  }

  /** The pages below any of `ps`. */
  ghost function Subtrees(s: Store, ps: seq<PageId>): set<PageId>
    requires Shape(s, NoGap)
  {
    set p, x | p in ps && p in s.pages && x in Subtree(s, p) :: x
  }

  /** The pages of a set that somebody has pinned. */
  ghost function PinnedIn(ps: set<PageId>, pins: multiset<PageId>): set<PageId> { set x | x in ps && x in pins }

  lemma PinnedElsewhere(ps: set<PageId>, pins: multiset<PageId>, p: PageId)
    requires p !in ps
    ensures PinnedIn(ps, pins + multiset{p}) == PinnedIn(ps, pins)
  {
  }

  /** Destroy below `p`: every page of the subtree is freed, and no other. */
  method Destroy(tree: BPlusTree, p: PageId, ghost s: Store)
    requires Shape(s, NoGap) && p in s.pages
    requires forall x :: x in Subtree(s, p) ==> x in tree.pages && tree.pages[x] == s.pages[x]
    modifies tree`pages, tree`pins, tree`kept
    ensures tree.pages == old(tree.pages) - Subtree(s, p) && tree.pins == old(tree.pins)
    ensures tree.kept == old(tree.kept) + PinnedIn(Subtree(s, p), tree.pins)
    decreases s.geo[p].level, 1
  {
    assert Below(s, p, p);
    assert PageShape(s, NoGap, p);
    var page := tree.FetchPage(p);
    if page.Internal? {
      SubtreeWhole(s, p);
      DestroyChildren(tree, p, s);
      PinnedElsewhere(Subtrees(s, page.kids), old(tree.pins), p);
    } else {
      LeafAlone(s, p);
    }
    tree.UnpinPage(p, old(tree.pins));
    tree.DeletePage(p);
  }

  lemma LeafAlone(s: Store, p: PageId)
    requires Shape(s, NoGap) && p in s.pages && s.pages[p].Leaf?
    ensures Subtree(s, p) == {p}
  {
    assert Below(s, p, p);
    forall x | x in s.pages && Below(s, p, x) ensures x == p {
      assert PageShape(s, NoGap, p) && PageShape(s, NoGap, x);
    }
  }

  method DestroyChildren(tree: BPlusTree, p: PageId, ghost s: Store)
    requires Shape(s, NoGap) && p in s.pages && s.pages[p].Internal? && p in tree.pages && tree.pages[p] == s.pages[p]
    requires forall x :: x in Subtree(s, p) ==> x in tree.pages && tree.pages[x] == s.pages[x]
    modifies tree`pages, tree`pins, tree`kept
    ensures tree.pages == old(tree.pages) - Subtrees(s, s.pages[p].kids) && tree.pins == old(tree.pins)
    ensures tree.kept == old(tree.kept) + PinnedIn(Subtrees(s, s.pages[p].kids), tree.pins)
    decreases s.geo[p].level, 0
  {
    var kids := tree.pages[p].kids;
    SubtreeWhole(s, p);
    for i := 0 to |kids|
      invariant tree.pages == old(tree.pages) - Subtrees(s, kids[..i]) && tree.pins == old(tree.pins)
      invariant tree.kept == old(tree.kept) + PinnedIn(Subtrees(s, kids[..i]), tree.pins)
    {
      assert PageShape(s, NoGap, p) && KidShape(s, NoGap, p, i);
      SubtreesDisjoint(s, p, i);
      assert kids[..i + 1] == kids[..i] + [kids[i]];
      Destroy(tree, kids[i], s);
      assert Subtrees(s, kids[..i + 1]) == Subtrees(s, kids[..i]) + Subtree(s, kids[i]);
    }
    assert kids[..|kids|] == kids;
  }

  /** Destroy from the root frees every page the index ever allocated. */
  method DestroyAll(tree: BPlusTree)
    requires tree.Valid()
    modifies tree
    ensures tree.Valid() && tree.pages == map[] && tree.content == map[] && tree.pins == old(tree.pins)
    ensures tree.kept == old(tree.kept) + PinnedIn(old(tree.pages.Keys), tree.pins)
  {
    if tree.root == INVALID_PAGE_ID {
      return;
    }
    ghost var s := tree.St();
    NoPageLeaked(s);
    Destroy(tree, tree.root, s);
    tree.root := INVALID_PAGE_ID;
    tree.geo, tree.content := map[], map[];
  }
}
