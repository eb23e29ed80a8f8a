/** Range scans: the iterator of src/index/index_iterator.cpp and the six comparisons of
    src/index/b_plus_tree_index.cpp. */
module IndexIterators {
  import opened Common
  import opened TreePages
  import opened TreeShape
  import opened TreeGrow
  import opened TreeShrink
  import opened BPlusTrees

  /** Where an iterator stands: on a stored key, or past the last one. */
  datatype Cursor = Cursor(page: PageId, index: int)

  const END: Cursor := Cursor(INVALID_PAGE_ID, 0)

  ghost predicate OnKey(s: Store, c: Cursor) {
    c.page in s.pages && s.pages[c.page].Leaf? && 0 <= c.index < |s.pages[c.page].keys|
  }

  ghost function KeyAt(s: Store, c: Cursor): Key
    requires OnKey(s, c)
  {
    s.pages[c.page].keys[c.index]
  }

  predicate AtLeast(from: Bound, k: Key) { from.At? ==> from.key <= k }

  predicate Under(k: Key, to: Bound) { to.At? ==> k < to.key }

  /** The cursor stands on the least stored key that is at least `from`, or at the end if there is none. */
  ghost predicate StandsAt(s: Store, content: map<Key, RowId>, c: Cursor, from: Bound) {
    if c == END then forall k :: k in content ==> !AtLeast(from, k)
    else OnKey(s, c) && AtLeast(from, KeyAt(s, c)) && forall k :: k in content && AtLeast(from, k) ==> KeyAt(s, c) <= k
  }

  ghost function PinOf(c: Cursor): multiset<PageId> {
    if c.page == INVALID_PAGE_ID then multiset{} else multiset{c.page}
  }

  // ---------------------------------------------------------------- one leaf and the next

  /** From `from` on, the first `i` keys of the leaf being smaller, the next stored key is its key `i`. */
  lemma InLeaf(s: Store, lim: Limits, content: map<Key, RowId>, p: PageId, i: nat, from: Bound)
    requires Good(s, NoGap, lim, content, INVALID_PAGE_ID, INVALID_PAGE_ID) && p in s.pages && s.pages[p].Leaf?
    requires i < |s.pages[p].keys| && (s.geo[p].lo.At? ==> from.At? && s.geo[p].lo.key <= from.key)
    requires forall j :: 0 <= j < i ==> !AtLeast(from, s.pages[p].keys[j])
    requires AtLeast(from, s.pages[p].keys[i])
    ensures StandsAt(s, content, Cursor(p, i), from)
  {
    LeafFacts(s, lim, content, p);
    assert PageShape(s, NoGap, p);
    var keys := s.pages[p].keys;
    assert Covers(s.geo[p], keys[i]);
    forall k | k in content && AtLeast(from, k) ensures keys[i] <= k {
      assert k < keys[i] ==> k in keys;
    }
  }

  /** A leaf with nothing from `from` on, while `from` is not beyond it. */
  ghost predicate Exhausted(s: Store, p: PageId, from: Bound) {
    && p in s.pages && s.pages[p].Leaf? && p in s.geo && from.At?
    && (s.geo[p].lo.At? ==> s.geo[p].lo.key <= from.key)
    && (s.geo[p].hi.At? ==> from.key <= s.geo[p].hi.key)
    && (forall j :: 0 <= j < |s.pages[p].keys| ==> s.pages[p].keys[j] < from.key)
  }

  /** Following the chain from an exhausted leaf finds the next stored key. */
  lemma NextLeaf(s: Store, lim: Limits, content: map<Key, RowId>, p: PageId, from: Bound)
    requires Good(s, NoGap, lim, content, INVALID_PAGE_ID, INVALID_PAGE_ID) && Exhausted(s, p, from)
    ensures var next := s.pages[p].next;
            if next == INVALID_PAGE_ID then StandsAt(s, content, END, from)
            else OnKey(s, Cursor(next, 0)) && StandsAt(s, content, Cursor(next, 0), from)
  {
    LeafFacts(s, lim, content, p);
    assert PageShape(s, NoGap, p) && Chained(s, p);
    forall k | k in content && AtLeast(from, k) ensures !Covers(s.geo[p], k) {
      assert k in s.pages[p].keys <==> Covers(s.geo[p], k);
    }
    if s.geo[p].hi.At? {
      var next := s.pages[p].next;
      LeafFacts(s, lim, content, next);
      assert PageShape(s, NoGap, next) && Covers(s.geo[next], s.pages[next].keys[0]);
      InLeaf(s, lim, content, next, 0, s.geo[p].hi);
    }
  }

  /** A stored key is found at one position only, so comparing positions compares keys. */
  lemma OnePosition(s: Store, content: map<Key, RowId>, lim: Limits, c: Cursor, d: Cursor)
    requires Good(s, NoGap, lim, content, INVALID_PAGE_ID, INVALID_PAGE_ID) && OnKey(s, c) && OnKey(s, d)
    requires KeyAt(s, c) == KeyAt(s, d)
    ensures c == d
  {
    assert PageShape(s, NoGap, c.page) && PageShape(s, NoGap, d.page);
    OnePagePerKey(s, c.page, d.page, KeyAt(s, c));
  }

  class IndexIterator {
    const tree: BPlusTree
    var at: Cursor

    /** An iterator keeps its page pinned; `rest` are the other pins. */
    constructor (tree: BPlusTree, at: Cursor, ghost rest: multiset<PageId>)
      requires tree.pins == rest
      modifies tree`pins
      ensures this.tree == tree && this.at == at && tree.pins == rest + PinOf(at)
    {
      this.tree := tree;
      this.at := at;
      new;
      if at.page != INVALID_PAGE_ID {
        tree.pins := tree.pins + multiset{at.page};
      }
    }

    /** The destructor. */
    method Close(ghost rest: multiset<PageId>)
      requires tree.pins == rest + PinOf(at)
      modifies tree`pins
      ensures tree.pins == rest
    {
      if at.page != INVALID_PAGE_ID {
        tree.UnpinPage(at.page, rest);
      }
    }

    /** operator*: the value under the iterator. */
    method Value() returns (value: RowId)
      requires tree.Valid() && tree.root != INVALID_PAGE_ID && OnKey(tree.St(), at)
      ensures KeyAt(tree.St(), at) in tree.content && value == tree.content[KeyAt(tree.St(), at)]
    {
      LeafFacts(tree.St(), tree.lim, tree.content, at.page);
      value := tree.pages[at.page].vals[at.index];
    }

    /** operator++: from one stored key to the next larger one, or to the end; an iterator at the end stays there. */
    method Advance(ghost rest: multiset<PageId>)
      requires tree.Valid() && (at == END || (tree.root != INVALID_PAGE_ID && OnKey(tree.St(), at)))
      requires tree.pins == rest + PinOf(at)
      modifies this`at, tree`pins
      ensures tree.pins == rest + PinOf(at)
      ensures if old(at) == END then at == END
              else StandsAt(tree.St(), tree.content, at, At(old(KeyAt(tree.St(), at)) + 1))
    {
      if at.page != INVALID_PAGE_ID {
        MoveOn(rest);
      }
    }

    method MoveOn(ghost rest: multiset<PageId>)
      requires tree.Valid() && tree.root != INVALID_PAGE_ID && OnKey(tree.St(), at)
      requires tree.pins == rest + PinOf(at)
      modifies this`at, tree`pins
      ensures tree.pins == rest + PinOf(at)
      ensures StandsAt(tree.St(), tree.content, at, At(old(KeyAt(tree.St(), at)) + 1))
    {
      ghost var s, from := tree.St(), At(KeyAt(tree.St(), at) + 1);
      LeafFacts(s, tree.lim, tree.content, at.page);
      assert PageShape(s, NoGap, at.page) && Covers(s.geo[at.page], KeyAt(s, at));
      if at.index + 1 < |tree.pages[at.page].keys| {
        InLeaf(s, tree.lim, tree.content, at.page, at.index + 1, from);
      }
      at := at.(index := at.index + 1);
      while at.page != INVALID_PAGE_ID && at.index >= |tree.pages[at.page].keys|
        invariant tree.pins == rest + PinOf(at)
        invariant at.page != INVALID_PAGE_ID ==> at.page in tree.pages && at.index >= 0
        invariant at.page == INVALID_PAGE_ID ==> at == END
        invariant if at != END && at.index >= |tree.pages[at.page].keys| then Exhausted(s, at.page, from)
                  else StandsAt(s, tree.content, at, from)
        decreases at.page != INVALID_PAGE_ID && at.page in tree.pages && at.index >= |tree.pages[at.page].keys|
      {
        NextLeaf(s, tree.lim, tree.content, at.page, from);
        var next := tree.pages[at.page].next;
        tree.UnpinPage(at.page, rest);
        if next == INVALID_PAGE_ID {
          at := END;
          return;
        }
        at := Cursor(next, 0);
        var page := tree.FetchPage(next);
      }
    }

    /** One turn of a scanning loop. */
    method ValueAndAdvance(ghost rest: multiset<PageId>) returns (value: RowId)
      requires tree.Valid() && tree.root != INVALID_PAGE_ID && OnKey(tree.St(), at)
      requires tree.pins == rest + PinOf(at)
      modifies this`at, tree`pins
      ensures tree.pins == rest + PinOf(at)
      ensures var k := old(KeyAt(tree.St(), at));
              k in tree.content && value == tree.content[k] && StandsAt(tree.St(), tree.content, at, At(k + 1))
    {
      value := Value();
      Advance(rest);
    }
  }

  // ---------------------------------------------------------------- where scans start

  /** Begin() and, with a key, Begin(key): an iterator on the least stored key from `from` on. */
  method Begin(tree: BPlusTree, from: Bound) returns (it: IndexIterator)
    requires tree.Valid()
    modifies tree`pins
    ensures fresh(it) && it.tree == tree && tree.pins == old(tree.pins) + PinOf(it.at)
    ensures if tree.root == INVALID_PAGE_ID then it.at == END else StandsAt(tree.St(), tree.content, it.at, from)
  {
    if tree.root == INVALID_PAGE_ID {
      it := new IndexIterator(tree, END, tree.pins);
      return;
    }
    ghost var s := tree.St();
    var p, index := INVALID_PAGE_ID, 0;
    if from.At? {
      p := tree.FindLeafPage(from.key);
      LeafFacts(s, tree.lim, tree.content, p);
      index := KeyIndex(tree.pages[p].keys, from.key);
    } else {
      p := tree.FindLeftmostLeaf();
      LeafFacts(s, tree.lim, tree.content, p);
    }
    if index < |tree.pages[p].keys| {
      InLeaf(s, tree.lim, tree.content, p, index, from);
    }
    while index >= |tree.pages[p].keys|
      invariant tree.pins == old(tree.pins) + multiset{p}
      invariant p in tree.pages && index >= 0
      invariant if index >= |tree.pages[p].keys| then Exhausted(s, p, from)
                else StandsAt(s, tree.content, Cursor(p, index), from)
      decreases index >= |tree.pages[p].keys|
    {
      NextLeaf(s, tree.lim, tree.content, p, from);
      var next := tree.pages[p].next;
      tree.UnpinPage(p, old(tree.pins));
      if next == INVALID_PAGE_ID {
        it := new IndexIterator(tree, END, old(tree.pins));
        return;
      }
      var page := tree.FetchPage(next);
      p, index := next, 0;
    }
    tree.UnpinPage(p, old(tree.pins));
    it := new IndexIterator(tree, Cursor(p, index), old(tree.pins));
  }

  // ---------------------------------------------------------------- what scans return

  datatype Comparison = Eq | Gt | Ge | Lt | Le | Ne

  predicate Satisfies(k: Key, op: Comparison, key: Key) {
    match op
    case Eq => k == key
    case Gt => k > key
    case Ge => k >= key
    case Lt => k < key
    case Le => k <= key
    case Ne => k != key
  }

  /** Exactly one of equal, less and greater holds, the others follow from these, and less is the order of the tree. */
  lemma ComparisonLaws(k: Key, key: Key)
    ensures Satisfies(k, Lt, key) <==> !Satisfies(k, Eq, key) && !Satisfies(k, Gt, key)
    ensures Satisfies(k, Eq, key) ==> !Satisfies(k, Gt, key)
    ensures Satisfies(k, Le, key) <==> !Satisfies(k, Gt, key)
    ensures Satisfies(k, Ge, key) <==> !Satisfies(k, Lt, key)
    ensures Satisfies(k, Ne, key) <==> !Satisfies(k, Eq, key)
    ensures Satisfies(k, Lt, key) ==> SortedFrom([k, key], 0)
    ensures Satisfies(k, Gt, key) <==> Satisfies(key, Lt, k)
  {
  }

  /** `ks` lists, in increasing order and each once, the stored keys within [from, to). */
  ghost predicate Lists(ks: seq<Key>, content: map<Key, RowId>, from: Bound, to: Bound) {
    && SortedFrom(ks, 0)
    && forall k :: k in ks <==> k in content && AtLeast(from, k) && Under(k, to)
  }

  function Values(ks: seq<Key>, content: map<Key, RowId>): (vs: seq<RowId>)
    requires forall i :: 0 <= i < |ks| ==> ks[i] in content
    ensures |vs| == |ks| && forall i :: 0 <= i < |ks| ==> vs[i] == content[ks[i]]
  {
    seq(|ks|, i requires 0 <= i < |ks| => content[ks[i]])
  }

  /** One more key at the end of a list of smaller keys. */
  lemma SortedAppend(ks: seq<Key>, k: Key)
    requires SortedFrom(ks, 0) && forall x :: x in ks ==> x < k
    ensures SortedFrom(ks + [k], 0)
  {
    forall i | 0 <= i < |ks| ensures ks[i] < k { assert ks[i] in ks; }
  }

  /** A strictly increasing list of stored keys is no longer than the map. */
  lemma {:induction false} FewKeys(ks: seq<Key>, keys: set<Key>)
    requires SortedFrom(ks, 0) && forall i :: 0 <= i < |ks| ==> ks[i] in keys
    ensures |ks| <= |keys|
  {
    if |ks| > 0 {
      FewKeys(ks[..|ks| - 1], keys - {ks[|ks| - 1]});
    }
  }

  /** `ks` are the stored keys from `from` up to, not including, the cursor, and `values` their values. */
  ghost predicate Collected(s: Store, content: map<Key, RowId>, from: Bound, c: Cursor,
                            ks: seq<Key>, values: seq<RowId>) {
    && (c != END ==> OnKey(s, c) && KeyAt(s, c) in content && AtLeast(from, KeyAt(s, c)))
    && SortedFrom(ks, 0)
    && (forall i :: 0 <= i < |ks| ==> ks[i] in content)
    && (forall k :: k in ks <==> k in content && AtLeast(from, k) && (c != END ==> k < KeyAt(s, c)))
    && values == Values(ks, content)
  }

  /** The cursor is not beyond `stop`. */
  ghost predicate NotBeyond(s: Store, c: Cursor, stop: Cursor) {
    stop != END ==> OnKey(s, stop) && c != END && OnKey(s, c) && KeyAt(s, c) <= KeyAt(s, stop)
  }

  lemma StoredAt(s: Store, lim: Limits, content: map<Key, RowId>, c: Cursor)
    requires Good(s, NoGap, lim, content, INVALID_PAGE_ID, INVALID_PAGE_ID) && OnKey(s, c)
    ensures KeyAt(s, c) in content
  {
    LeafFacts(s, lim, content, c.page);
  }

  lemma CollectStep(s: Store, lim: Limits, content: map<Key, RowId>, from: Bound, stop: Cursor, c: Cursor, c': Cursor,
                    ks: seq<Key>, values: seq<RowId>)
    requires Good(s, NoGap, lim, content, INVALID_PAGE_ID, INVALID_PAGE_ID)
    requires Collected(s, content, from, c, ks, values) && NotBeyond(s, c, stop) && c != END && c != stop
    requires StandsAt(s, content, c', At(KeyAt(s, c) + 1))
    ensures var k := KeyAt(s, c);
            Collected(s, content, from, c', ks + [k], values + [content[k]]) && NotBeyond(s, c', stop)
    ensures |ks| < |content|
  {
    var k := KeyAt(s, c);
    SortedAppend(ks, k);
    FewKeys(ks + [k], content.Keys);
    if c' != END { StoredAt(s, lim, content, c'); }
    if stop != END {
      StoredAt(s, lim, content, stop);
      if k == KeyAt(s, stop) { OnePosition(s, content, lim, c, stop); }
    }
  }

  lemma CollectStart(s: Store, lim: Limits, content: map<Key, RowId>, from: Bound, to: Bound, c: Cursor, stop: Cursor)
    requires Good(s, NoGap, lim, content, INVALID_PAGE_ID, INVALID_PAGE_ID) && StandsAt(s, content, c, from)
    requires to.At? ==> StandsAt(s, content, stop, to) && (from.At? ==> from.key <= to.key)
    requires to.Inf? ==> stop == END
    ensures Collected(s, content, from, c, [], []) && NotBeyond(s, c, stop)
  {
    if c != END { StoredAt(s, lim, content, c); }
    if stop != END { StoredAt(s, lim, content, stop); }
  }

  lemma CollectDone(s: Store, content: map<Key, RowId>, from: Bound, to: Bound, stop: Cursor,
                    ks: seq<Key>, values: seq<RowId>)
    requires Collected(s, content, from, stop, ks, values)
    requires to.At? ==> StandsAt(s, content, stop, to)
    requires to.Inf? ==> stop == END
    ensures Lists(ks, content, from, to)
  {
  }

  /** The loop that moves `it` up to `stop` and collects values: exactly the stored keys in [from, to), in order. */
  method Collect(it: IndexIterator, stop: Cursor, ghost from: Bound, ghost to: Bound, ghost rest: multiset<PageId>)
    returns (values: seq<RowId>, ghost ks: seq<Key>)
    requires it.tree.Valid() && it.tree.root != INVALID_PAGE_ID && it.tree.pins == rest + PinOf(it.at)
    requires StandsAt(it.tree.St(), it.tree.content, it.at, from)
    requires to.At? ==> StandsAt(it.tree.St(), it.tree.content, stop, to) && (from.At? ==> from.key <= to.key)
    requires to.Inf? ==> stop == END
    modifies it`at, it.tree`pins
    ensures it.tree.pins == rest + PinOf(it.at)
    ensures Lists(ks, it.tree.content, from, to) && (forall i :: 0 <= i < |ks| ==> ks[i] in it.tree.content)
    ensures values == Values(ks, it.tree.content)
  {
    ghost var s, content := it.tree.St(), it.tree.content;
    values, ks := [], [];
    CollectStart(s, it.tree.lim, content, from, to, it.at, stop);
    while it.at != stop
      invariant it.tree.pins == rest + PinOf(it.at) && it.tree.St() == s
      invariant Collected(s, content, from, it.at, ks, values) && NotBeyond(s, it.at, stop)
      decreases |content| - |ks|
    {
      ghost var c := it.at;
      var v := it.ValueAndAdvance(rest);
      CollectStep(s, it.tree.lim, content, from, stop, c, it.at, ks, values);
      values, ks := values + [v], ks + [KeyAt(s, c)];
    }
    CollectDone(s, content, from, to, stop, ks, values);
  }

  // ---------------------------------------------------------------- ScanKey

  /** `ks` lists, in increasing order and each once, the stored keys that satisfy the comparison. */
  ghost predicate Answers(ks: seq<Key>, content: map<Key, RowId>, op: Comparison, key: Key) {
    && SortedFrom(ks, 0)
    && (forall i :: 0 <= i < |ks| ==> ks[i] in content)
    && (forall k :: k in ks <==> k in content && Satisfies(k, op, key))
  }

  /** The ends of the key range that a comparison other than "<>" asks for; "<=" is "<" and then the key. */
  function RangeFrom(op: Comparison, key: Key): Bound {
    match op case Gt => At(key + 1) case Ge => At(key) case _ => Inf
  }

  function RangeTo(op: Comparison, key: Key): Bound {
    match op case Lt => At(key) case _ => Inf
  }

  lemma RangeAnswers(ks: seq<Key>, content: map<Key, RowId>, op: Comparison, key: Key)
    requires op in {Gt, Ge, Lt} && Lists(ks, content, RangeFrom(op, key), RangeTo(op, key))
    requires forall i :: 0 <= i < |ks| ==> ks[i] in content
    ensures Answers(ks, content, op, key)
  {
  }

  lemma AtMostAnswers(ks: seq<Key>, content: map<Key, RowId>, key: Key)
    requires Answers(ks, content, Lt, key)
    ensures Answers(if key in content then ks + [key] else ks, content, Le, key)
  {
    SortedAppend(ks, key);
  }

  lemma OthersAnswer(all: seq<Key>, content: map<Key, RowId>, key: Key) returns (i: nat)
    requires Lists(all, content, Inf, Inf) && (forall j :: 0 <= j < |all| ==> all[j] in content)
    ensures key in content ==> i < |all| && all[i] == key && Answers(RemoveAt(all, i), content, Ne, key)
    ensures key !in content ==> Answers(all, content, Ne, key)
  {
    i := 0;
    if key in content {
      i :| 0 <= i < |all| && all[i] == key;
      KeysWithout(all, i);
    }
  }

  lemma KeysWithout(ks: seq<Key>, i: nat)
    requires SortedFrom(ks, 0) && i < |ks|
    ensures SortedFrom(RemoveAt(ks, i), 0) && forall k :: k in RemoveAt(ks, i) <==> k in ks && k != ks[i]
  {
    assert ks == ks[..i] + [ks[i]] + ks[i + 1..];
  }

  /** Whether or not `key` is stored tells how to get from the first key not below it to the first above it. */
  lemma StartAbove(s: Store, lim: Limits, content: map<Key, RowId>, c: Cursor, key: Key)
    requires Good(s, NoGap, lim, content, INVALID_PAGE_ID, INVALID_PAGE_ID) && StandsAt(s, content, c, At(key))
    ensures key in content ==> c != END && OnKey(s, c) && KeyAt(s, c) == key
    ensures key !in content ==> StandsAt(s, content, c, At(key + 1))
  {
    if c != END { StoredAt(s, lim, content, c); }
  }

  /** All stored keys in [from, to), through two iterators. */
  method ScanRange(tree: BPlusTree, from: Bound, to: Bound) returns (values: seq<RowId>, ghost ks: seq<Key>)
    requires tree.Valid() && (from.At? && to.At? ==> from.key <= to.key)
    modifies tree`pins
    ensures tree.pins == old(tree.pins)
    ensures Lists(ks, tree.content, from, to) && (forall i :: 0 <= i < |ks| ==> ks[i] in tree.content)
    ensures values == Values(ks, tree.content)
  {
    if tree.root == INVALID_PAGE_ID {
      return [], [];
    }
    var stop := END;
    ghost var rest := tree.pins;
    if to.At? {
      var stopIter := Begin(tree, to);
      stop := stopIter.at;
      rest := rest + PinOf(stop);
      var it := Begin(tree, from);
      values, ks := Collect(it, stop, from, to, rest);
      it.Close(rest);
      stopIter.Close(old(tree.pins));
    } else {
      var it := Begin(tree, from);
      values, ks := Collect(it, stop, from, to, rest);
      it.Close(rest);
    }
  }

  /** The ">" branch: start at the first key not below `key`, step over `key` itself. */
  method ScanAbove(tree: BPlusTree, key: Key) returns (values: seq<RowId>, ghost ks: seq<Key>)
    requires tree.Valid()
    modifies tree`pins
    ensures tree.pins == old(tree.pins)
    ensures Answers(ks, tree.content, Gt, key) && values == Values(ks, tree.content)
  {
    if tree.root == INVALID_PAGE_ID {
      return [], [];
    }
    var it := Begin(tree, At(key));
    StartAbove(tree.St(), tree.lim, tree.content, it.at, key);
    var found, value := tree.GetValue(key);
    if found {
      it.Advance(old(tree.pins));
    }
    values, ks := Collect(it, END, At(key + 1), Inf, old(tree.pins));
    it.Close(old(tree.pins));
    RangeAnswers(ks, tree.content, Gt, key);
  }

  /** std::find followed by erase of the position found. */
  method EraseFirst(values: seq<RowId>, value: RowId) returns (rest: seq<RowId>)
    requires value in values
    ensures multiset(values) == multiset(rest) + multiset{value}
    ensures |rest| + 1 == |values|
  {
    var i := 0;
    while values[i] != value
      invariant 0 <= i < |values| && value !in values[..i]
      decreases |values| - i
    {
      i := i + 1;
    }
    assert values == values[..i] + [value] + values[i + 1..];
    rest := values[..i] + values[i + 1..];
  }

  /** Taking one key out of a list takes exactly its value out of the values. */
  lemma ValuesWithout(ks: seq<Key>, i: nat, content: map<Key, RowId>)
    requires i < |ks| && forall j :: 0 <= j < |ks| ==> ks[j] in content
    ensures multiset(Values(ks, content)) == multiset(Values(RemoveAt(ks, i), content)) + multiset{content[ks[i]]}
  {
    var vs := Values(ks, content);
    assert vs == vs[..i] + [vs[i]] + vs[i + 1..];
    assert Values(RemoveAt(ks, i), content) == vs[..i] + vs[i + 1..];
  }

  lemma Cancel(a: multiset<RowId>, b: multiset<RowId>, v: RowId)
    requires a + multiset{v} == b + multiset{v}
    ensures a == b
  {
    forall x ensures a[x] == b[x] {
      assert (a + multiset{v})[x] == (b + multiset{v})[x];
    }
  }

  /** The "<>" branch: everything, less one occurrence of the value stored under `key`. */
  method ScanOthers(tree: BPlusTree, key: Key, prior: seq<RowId>) returns (result: seq<RowId>, ghost ks: seq<Key>)
    requires tree.Valid()
    modifies tree`pins
    ensures tree.pins == old(tree.pins)
    ensures Answers(ks, tree.content, Ne, key)
    ensures multiset(result) == multiset(prior) + multiset(Values(ks, tree.content))
  {
    var all, allKeys := ScanRange(tree, Inf, Inf);
    ghost var i := OthersAnswer(allKeys, tree.content, key);
    result, ks := prior + all, allKeys;
    var found, value := tree.GetValue(key);
    if found {
      ValuesWithout(allKeys, i, tree.content);
      assert (prior + all)[|prior| + i] == value;
      ks := RemoveAt(allKeys, i);
      result := EraseFirst(prior + all, value);
      assert multiset(result) + multiset{value} ==
             multiset(prior) + multiset(Values(ks, tree.content)) + multiset{value};
      Cancel(multiset(result), multiset(prior) + multiset(Values(ks, tree.content)), value);
    }
  }

  /** Exactly the row ids whose keys satisfy the comparison, each once. The result vector `prior` is extended,
      except by ">", which clears it first. */
  method ScanKey(tree: BPlusTree, key: Key, op: Comparison, prior: seq<RowId>)
    returns (result: seq<RowId>, found: bool, ghost ks: seq<Key>)
    requires tree.Valid()
    modifies tree`pins
    ensures tree.pins == old(tree.pins)
    ensures Answers(ks, tree.content, op, key)
    ensures op == Gt ==> result == Values(ks, tree.content)
    ensures op != Gt && op != Ne ==> result == prior + Values(ks, tree.content)
    ensures op == Ne ==> multiset(result) == multiset(prior) + multiset(Values(ks, tree.content))
    ensures found <==> result != []
  {
    if op == Ne {
      result, ks := ScanOthers(tree, key, prior);
    } else {
      var values;
      values, ks := ScanCompared(tree, key, op);
      result := if op == Gt then values else prior + values;
    }
    found := result != [];
  }

  /** Every branch but "<>", from an empty result. */
  method ScanCompared(tree: BPlusTree, key: Key, op: Comparison) returns (values: seq<RowId>, ghost ks: seq<Key>)
    requires tree.Valid() && op != Ne
    modifies tree`pins
    ensures tree.pins == old(tree.pins)
    ensures Answers(ks, tree.content, op, key) && values == Values(ks, tree.content)
  {
    match op {
      case Eq =>
        var present, value := tree.GetValue(key);
        values, ks := if present then [value] else [], if present then [key] else [];
      case Gt =>
        values, ks := ScanAbove(tree, key);
      case Ge =>
        values, ks := ScanRange(tree, At(key), Inf);
        RangeAnswers(ks, tree.content, op, key);
      case Lt =>
        values, ks := ScanRange(tree, Inf, At(key));
        RangeAnswers(ks, tree.content, op, key);
      case Le =>
        values, ks := ScanRange(tree, Inf, At(key));
        RangeAnswers(ks, tree.content, Lt, key);
        AtMostAnswers(ks, tree.content, key);
        var present, value := tree.GetValue(key);
        if present {
          values, ks := values + [value], ks + [key];
        }
    }
  }
}
