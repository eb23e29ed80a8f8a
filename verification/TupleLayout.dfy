/** How tuples lie in a slotted page (src/page/table_page.cpp): their bytes tile the end of the page without gap or
    overlap, and moving some of them to close or open a gap does not change what is read through any other slot. */
module TupleLayout {
  import opened Common

  const SIZE_TABLE_PAGE_HEADER := 164
  const SIZE_TUPLE := 8
  const DELETE_MASK := 0x8000_0000

  /** A slot directory entry with its two bitmap bits. `raw` is the size field with the delete flag in its top bit. */
  datatype Slot = Slot(offset: nat, raw: nat, occupied: bool, deleted: bool)

  const EMPTY_SLOT := Slot(0, 0, false, false)

  predicate IsDeleted(raw: nat) { raw >= DELETE_MASK || raw == 0 }

  function SetDeletedFlag(raw: nat): nat { if raw >= DELETE_MASK then raw else raw + DELETE_MASK }

  function UnsetDeletedFlag(raw: nat): nat { if raw >= DELETE_MASK then raw - DELETE_MASK else raw }

  /** The flag is the top bit of the 32-bit size field, and setting or clearing it leaves the other bits alone. */
  lemma DeleteFlagIsTopBit(raw: nat)
    requires raw < 0x1_0000_0000
    ensures IsDeleted(raw) <==> raw == 0 || raw / 0x8000_0000 == 1
    ensures SetDeletedFlag(raw) / 0x8000_0000 == 1 && UnsetDeletedFlag(raw) / 0x8000_0000 == 0
    ensures SetDeletedFlag(raw) % 0x8000_0000 == UnsetDeletedFlag(raw) % 0x8000_0000 == raw % 0x8000_0000
  {
  }

  /** The length of the tuple in a slot. */
  function Len(s: Slot): nat { UnsetDeletedFlag(s.raw) }

  // ---------------------------------------------------------------- tiling

  /** The slots of `order` lie one after the other from `lo` to `hi`. */
  ghost predicate Tiles(slots: seq<Slot>, order: seq<nat>, lo: nat, hi: nat)
    decreases |order|
  {
    if order == [] then lo == hi
    else
      && order[0] < |slots| && slots[order[0]].offset == lo && Len(slots[order[0]]) > 0
      && Tiles(slots, order[1..], lo + Len(slots[order[0]]), hi)
  }

  lemma {:induction false} TilesBounds(slots: seq<Slot>, order: seq<nat>, lo: nat, hi: nat)
    requires Tiles(slots, order, lo, hi)
    ensures lo <= hi
    ensures forall k :: 0 <= k < |order| ==>
              order[k] < |slots| && lo <= slots[order[k]].offset && slots[order[k]].offset + Len(slots[order[k]]) <= hi
    decreases |order|
  {
    if order != [] {
      TilesBounds(slots, order[1..], lo + Len(slots[order[0]]), hi);
      forall k | 0 <= k < |order|
        ensures order[k] < |slots| && lo <= slots[order[k]].offset
        ensures slots[order[k]].offset + Len(slots[order[k]]) <= hi
      {
        if k > 0 { assert order[k] == order[1..][k - 1]; }
      }
    }
  }

  /** A tiling cut before position k. */
  lemma {:induction false} TilesSplit(slots: seq<Slot>, order: seq<nat>, k: nat, lo: nat, hi: nat) returns (mid: nat)
    requires Tiles(slots, order, lo, hi) && k <= |order|
    ensures Tiles(slots, order[..k], lo, mid) && Tiles(slots, order[k..], mid, hi)
    decreases k
  {
    if k == 0 {
      mid := lo;
      assert order[k..] == order;
    } else {
      mid := TilesSplit(slots, order[1..], k - 1, lo + Len(slots[order[0]]), hi);
      assert order[..k][1..] == order[1..][..k - 1] && order[k..] == order[1..][k - 1..];
    }
  }

  lemma {:induction false} TilesJoin(slots: seq<Slot>, a: seq<nat>, b: seq<nat>, lo: nat, mid: nat, hi: nat)
    requires Tiles(slots, a, lo, mid) && Tiles(slots, b, mid, hi)
    ensures Tiles(slots, a + b, lo, hi)
    decreases |a|
  {
    if a == [] {
      assert a + b == b;
    } else {
      TilesJoin(slots, a[1..], b, lo + Len(slots[a[0]]), mid, hi);
      assert (a + b)[1..] == a[1..] + b;
    }
  }

  /** Slots that all move by the same amount still tile. */
  lemma {:induction false} TilesMove(slots: seq<Slot>, slots': seq<Slot>, order: seq<nat>, lo: nat, hi: nat, delta: int)
    requires Tiles(slots, order, lo, hi) && lo + delta >= 0 && |slots'| >= |slots|
    requires forall k :: 0 <= k < |order| ==>
               order[k] < |slots| && slots'[order[k]].offset == slots[order[k]].offset + delta
               && slots'[order[k]].raw == slots[order[k]].raw
    ensures hi + delta >= 0 && Tiles(slots', order, lo + delta, hi + delta)
    decreases |order|
  {
    if order != [] {
      assert forall k :: 0 <= k < |order[1..]| ==> order[1..][k] == order[k + 1];
      TilesMove(slots, slots', order[1..], lo + Len(slots[order[0]]), hi, delta);
    }
  }

  // ---------------------------------------------------------------- reading

  /** The bytes read through a slot. */
  function Tuple(data: seq<Byte>, s: Slot): seq<Byte>
    requires s.offset + Len(s) <= |data|
  {
    data[s.offset..s.offset + Len(s)]
  }

  /** memmove followed by nothing else: the block [from, to) now also stands `delta` further on. */
  ghost predicate BlockMoved(data: seq<Byte>, data': seq<Byte>, from: nat, to: nat, delta: int) {
    && |data| == |data'| && 0 <= from + delta && from <= to <= |data| && to + delta <= |data|
    && forall x :: from <= x < to ==> data'[x + delta] == data[x]
  }

  /** A tuple inside a moved block reads the same at its new place. */
  lemma TupleMoved(data: seq<Byte>, data': seq<Byte>, from: nat, to: nat, delta: int, s: Slot)
    requires BlockMoved(data, data', from, to, delta) && from <= s.offset && s.offset + Len(s) <= to
    ensures s.offset + delta >= 0
    ensures Tuple(data', s.(offset := s.offset + delta)) == Tuple(data, s)
  {
    var t := Tuple(data', s.(offset := s.offset + delta));
    forall i | 0 <= i < Len(s) ensures t[i] == Tuple(data, s)[i] {
      assert data'[s.offset + i + delta] == data[s.offset + i];
    }
  }

  // ---------------------------------------------------------------- the page

  datatype Page = Page(data: seq<Byte>, free: nat, slots: seq<Slot>)

  /** `order` lists the occupied slots by address; their tuples fill the page from the free space pointer to its end,
      the slot directory stays clear of them, and the two representations of "deleted" agree. */
  ghost predicate WellLaid(p: Page, order: seq<nat>) {
    && |p.data| == PAGE_SIZE
    && SIZE_TABLE_PAGE_HEADER + SIZE_TUPLE * |p.slots| <= p.free
    && Lists(order, p.slots)
    && Tiles(p.slots, order, p.free, PAGE_SIZE)
    && (forall i :: 0 <= i < |p.slots| ==> SlotOk(p.slots[i]))
  }

  /** `order` names exactly the occupied slots, each once. */
  ghost predicate Lists(order: seq<nat>, slots: seq<Slot>) {
    && (forall i, j :: 0 <= i < j < |order| ==> order[i] != order[j])
    && (forall k :: 0 <= k < |order| ==> order[k] < |slots| && slots[order[k]].occupied)
    && (forall i :: 0 <= i < |slots| && slots[i].occupied ==> i in order)
  }

  predicate SlotOk(s: Slot) {
    if s.occupied then Len(s) > 0 && (s.deleted <==> s.raw >= DELETE_MASK) && s.raw < 2 * DELETE_MASK
    else s == EMPTY_SLOT
  }

  /** What a reader of the page can find: the bytes and the delete mark of every occupied slot. */
  datatype Row = Row(bytes: seq<Byte>, deleted: bool)

  ghost function Rows(p: Page): map<nat, Row>
    requires RowsReadable(p)
  {
    map i: nat | i < |p.slots| && p.slots[i].occupied :: RowAt(p, i)
  }

  lemma InBounds(p: Page, order: seq<nat>)
    requires WellLaid(p, order)
    ensures p.free <= PAGE_SIZE
    ensures forall i :: 0 <= i < |p.slots| && p.slots[i].occupied ==>
              p.free <= p.slots[i].offset && p.slots[i].offset + Len(p.slots[i]) <= PAGE_SIZE
  {
    TilesBounds(p.slots, order, p.free, PAGE_SIZE);
    forall i | 0 <= i < |p.slots| && p.slots[i].occupied
      ensures p.free <= p.slots[i].offset && p.slots[i].offset + Len(p.slots[i]) <= PAGE_SIZE
    {
      var k :| 0 <= k < |order| && order[k] == i;
    }
  }

  /** The slot directory never outgrows the bitmaps: there is no room for 512 slots. */
  lemma FewSlots(p: Page, order: seq<nat>)
    requires WellLaid(p, order)
    ensures |p.slots| <= (PAGE_SIZE - SIZE_TABLE_PAGE_HEADER) / SIZE_TUPLE < 512
  {
    InBounds(p, order);
  }

  /** Everything below the tuple of slot order[k] comes before it in the order, everything above after it. */
  lemma Position(p: Page, order: seq<nat>, k: nat)
    requires WellLaid(p, order) && k < |order|
    ensures var s := p.slots[order[k]];
            && Tiles(p.slots, order[..k], p.free, s.offset)
            && Tiles(p.slots, order[k + 1..], s.offset + Len(s), PAGE_SIZE)
            && p.free <= s.offset && s.offset + Len(s) <= PAGE_SIZE
            && (forall j :: 0 <= j < k ==> p.free <= p.slots[order[j]].offset
                                           && p.slots[order[j]].offset + Len(p.slots[order[j]]) <= s.offset
                                           && p.slots[order[j]].offset < s.offset)
            && (forall j :: k < j < |order| ==> s.offset + Len(s) <= p.slots[order[j]].offset)
  {
    var mid := TilesSplit(p.slots, order, k, p.free, PAGE_SIZE);
    var s, low, high := p.slots[order[k]], order[..k], order[k + 1..];
    assert order[k..][1..] == high;
    TilesBounds(p.slots, low, p.free, mid);
    TilesBounds(p.slots, high, s.offset + Len(s), PAGE_SIZE);
    forall j | 0 <= j < k ensures p.free <= p.slots[order[j]].offset
                          ensures p.slots[order[j]].offset + Len(p.slots[order[j]]) <= s.offset
                          ensures p.slots[order[j]].offset < s.offset
    {
      assert low[j] == order[j] && SlotOk(p.slots[order[j]]);
    }
    forall j | k < j < |order| ensures s.offset + Len(s) <= p.slots[order[j]].offset {
      assert high[j - k - 1] == order[j];
    }
  }

  // ---------------------------------------------------------------- insert

  /** Row bytes written just below the free space pointer, through slot `i`, which is free or the next new one. */
  function Inserted(p: Page, i: nat, bytes: seq<Byte>): Page
    requires i <= |p.slots| && |bytes| <= p.free <= |p.data|
  {
    var slot, at := Slot(p.free - |bytes|, |bytes|, true, false), p.free - |bytes|;
    Page(p.data[..at] + bytes + p.data[p.free..], at, if i == |p.slots| then p.slots + [slot] else p.slots[i := slot])
  }

  ghost predicate CanInsert(p: Page, i: nat, bytes: seq<Byte>) {
    && i <= |p.slots| && (i < |p.slots| ==> !p.slots[i].occupied)
    && 0 < |bytes| < DELETE_MASK && p.free <= PAGE_SIZE == |p.data|
    && SIZE_TABLE_PAGE_HEADER + SIZE_TUPLE * (if i == |p.slots| then |p.slots| + 1 else |p.slots|) + |bytes| <= p.free
  }

  lemma InsertedLists(p: Page, order: seq<nat>, i: nat, bytes: seq<Byte>)
    requires Lists(order, p.slots) && CanInsert(p, i, bytes)
    ensures Lists([i] + order, Inserted(p, i, bytes).slots)
    ensures forall k :: 0 <= k < |order| ==> order[k] != i && Inserted(p, i, bytes).slots[order[k]] == p.slots[order[k]]
  {
    var slots', order' := Inserted(p, i, bytes).slots, [i] + order;
    forall k | 0 <= k < |order'| ensures order'[k] < |slots'| && slots'[order'[k]].occupied {
      if k > 0 { assert order'[k] == order[k - 1]; }
    }
    forall j | 0 <= j < |slots'| && slots'[j].occupied ensures j in order' {
      if j != i { assert j in order; }
    }
  }

  /** A tuple put right in front of a tiling extends it. */
  lemma TilesInFront(slots: seq<Slot>, slots': seq<Slot>, order: seq<nat>, i: nat, lo: nat, hi: nat)
    requires i < |slots'| && slots'[i].offset == lo && Len(slots'[i]) > 0 && |slots'| >= |slots|
    requires Tiles(slots, order, lo + Len(slots'[i]), hi)
    requires forall k :: 0 <= k < |order| ==> order[k] < |slots| && slots'[order[k]] == slots[order[k]]
    ensures Tiles(slots', [i] + order, lo, hi)
  {
    TilesMove(slots, slots', order, lo + Len(slots'[i]), hi, 0);
    assert ([i] + order)[1..] == order;
  }

  lemma InsertedTiles(p: Page, order: seq<nat>, i: nat, bytes: seq<Byte>)
    requires Lists(order, p.slots) && Tiles(p.slots, order, p.free, PAGE_SIZE) && CanInsert(p, i, bytes)
    ensures Tiles(Inserted(p, i, bytes).slots, [i] + order, p.free - |bytes|, PAGE_SIZE)
  {
    InsertedLists(p, order, i, bytes);
    var slots' := Inserted(p, i, bytes).slots;
    assert Len(slots'[i]) == |bytes|;
    TilesInFront(p.slots, slots', order, i, p.free - |bytes|, PAGE_SIZE);
  }

  lemma InsertedOk(p: Page, order: seq<nat>, i: nat, bytes: seq<Byte>)
    requires WellLaid(p, order) && CanInsert(p, i, bytes)
    ensures WellLaid(Inserted(p, i, bytes), [i] + order)
  {
    var p' := Inserted(p, i, bytes);
    InsertedLists(p, order, i, bytes);
    InsertedTiles(p, order, i, bytes);
    forall j | 0 <= j < |p'.slots| ensures SlotOk(p'.slots[j]) {
      if j != i { assert SlotOk(p.slots[j]); }
    }
  }

  lemma InsertedTuple(p: Page, order: seq<nat>, i: nat, bytes: seq<Byte>, j: nat)
    requires WellLaid(p, order) && CanInsert(p, i, bytes) && j < |Inserted(p, i, bytes).slots|
    ensures RowsReadable(p)
    ensures j == i ==> Tuple(Inserted(p, i, bytes).data, Inserted(p, i, bytes).slots[j]) == bytes
    ensures j != i ==> j < |p.slots| && Inserted(p, i, bytes).slots[j] == p.slots[j]
    ensures j != i && p.slots[j].occupied ==>
              Tuple(Inserted(p, i, bytes).data, p.slots[j]) == Tuple(p.data, p.slots[j])
  {
    InBounds(p, order);
  }

  lemma InsertedRows(p: Page, order: seq<nat>, i: nat, bytes: seq<Byte>)
    requires WellLaid(p, order) && CanInsert(p, i, bytes)
    ensures RowsReadable(p) && RowsReadable(Inserted(p, i, bytes))
    ensures Rows(Inserted(p, i, bytes)) == Rows(p)[i := Row(bytes, false)]
  {
    var p' := Inserted(p, i, bytes);
    InBounds(p, order);
    forall j | 0 <= j < |p'.slots| && p'.slots[j].occupied ensures p'.slots[j].offset + Len(p'.slots[j]) <= |p'.data| {
      InsertedTuple(p, order, i, bytes, j);
    }
    var rows, rows' := Rows(p)[i := Row(bytes, false)], Rows(p');
    forall j: nat ensures j in rows' <==> j in rows {
      if j < |p'.slots| { InsertedTuple(p, order, i, bytes, j); }
    }
    forall j: nat | j in rows' ensures rows'[j] == rows[j] {
      InsertedTuple(p, order, i, bytes, j);
    }
    assert rows'.Keys == rows.Keys;
  }

  ghost predicate RowsReadable(p: Page) {
    forall i :: 0 <= i < |p.slots| && p.slots[i].occupied ==> p.slots[i].offset + Len(p.slots[i]) <= |p.data|
  }

  // ---------------------------------------------------------------- closing and opening gaps

  /** The fix-up loop: every occupied slot below `bound` has moved by `delta`. */
  ghost predicate FixedUp(slots: seq<Slot>, slots': seq<Slot>, bound: nat, delta: int) {
    && |slots'| == |slots|
    && forall j :: 0 <= j < |slots| ==> SlotFixed(slots[j], slots'[j], bound, delta)
  }

  predicate SlotFixed(s: Slot, s': Slot, bound: nat, delta: int) {
    if s.occupied && s.offset < bound then
      s' == Slot(s'.offset, s.raw, true, s.deleted) && s'.offset == s.offset + delta
    else s' == s
  }

  /** `p'` is `p` with the tuple of slot order[k] replaced by `bytes` of any length, or, for no bytes, removed; the
      tuples below it have moved to stay next to it. */
  ghost predicate Replaced(p: Page, p': Page, order: seq<nat>, k: nat, bytes: seq<Byte>) {
    && WellLaid(p, order) && k < |order| && |bytes| < DELETE_MASK
    && var i := order[k];
    && var s, delta := p.slots[i], Len(p.slots[i]) - |bytes|;
    && p.free <= s.offset && s.offset + Len(s) <= PAGE_SIZE
    && p.free + delta >= SIZE_TABLE_PAGE_HEADER + SIZE_TUPLE * |p.slots|
    && p'.free == p.free + delta
    && |p'.data| == PAGE_SIZE
    && BlockMoved(p.data, p'.data, p.free, s.offset, delta)
    && p'.data[s.offset + delta..s.offset + Len(s)] == bytes
    && (forall x :: s.offset + Len(s) <= x < PAGE_SIZE ==> p'.data[x] == p.data[x])
    && |p'.slots| == |p.slots|
    && (if bytes == [] then FixedUp(p.slots[i := EMPTY_SLOT], p'.slots, s.offset, delta)
        else FixedUp(p.slots[i := Slot(s.offset, |bytes|, true, false)], p'.slots, s.offset + Len(s), delta))
  }

  /** The slots of `order` after the replacement. */
  ghost function OrderAfter(order: seq<nat>, k: nat, bytes: seq<Byte>): seq<nat>
    requires k < |order|
  {
    if bytes == [] then order[..k] + order[k + 1..] else order
  }

  /** Every other occupied slot keeps its size and marks, and moves exactly when it lies below. */
  lemma ReplacedSlot(p: Page, p': Page, order: seq<nat>, k: nat, bytes: seq<Byte>, j: nat)
    requires Replaced(p, p', order, k, bytes) && j < |order|
    ensures var s, i, x := p.slots[order[k]], order[k], order[j];
            && (j < k ==> p'.slots[x] == Slot(p'.slots[x].offset, p.slots[x].raw, true, p.slots[x].deleted)
                          && p'.slots[x].offset == p.slots[x].offset + Len(s) - |bytes|)
            && (j > k ==> p'.slots[x] == p.slots[x])
            && (j == k ==> p'.slots[x] == if bytes == [] then EMPTY_SLOT
                                          else Slot(p'.slots[x].offset, |bytes|, true, false))
            && (j == k && bytes != [] ==> p'.slots[x].offset == s.offset + Len(s) - |bytes|)
  {
    Position(p, order, k);
    var i, x := order[k], order[j];
    assert j != k ==> x != i;
    assert SlotOk(p.slots[i]) && SlotOk(p.slots[x]);
    var s := p.slots[i];
    var slots1 := if bytes == [] then p.slots[i := EMPTY_SLOT] else p.slots[i := Slot(s.offset, |bytes|, true, false)];
    assert SlotFixed(slots1[x], p'.slots[x], if bytes == [] then s.offset else s.offset + Len(s), Len(s) - |bytes|);
  }

  /** Free slots stay as they are. */
  lemma ReplacedFree(p: Page, p': Page, order: seq<nat>, k: nat, bytes: seq<Byte>, x: nat)
    requires Replaced(p, p', order, k, bytes) && x < |p.slots| && !p.slots[x].occupied
    ensures p'.slots[x] == p.slots[x]
  {
    var i := order[k];
    var s := p.slots[i];
    var slots1 := if bytes == [] then p.slots[i := EMPTY_SLOT] else p.slots[i := Slot(s.offset, |bytes|, true, false)];
    assert SlotFixed(slots1[x], p'.slots[x], if bytes == [] then s.offset else s.offset + Len(s), Len(s) - |bytes|);
  }

  /** The change of the slot directory alone: slots before position k moved by `delta`, later ones did not, and
      slot order[k] is now `slot`. */
  ghost predicate Rearranged(slots: seq<Slot>, slots': seq<Slot>, order: seq<nat>, k: nat, slot: Slot, delta: int) {
    && |slots'| == |slots| && k < |order|
    && (forall j :: 0 <= j < |order| ==> order[j] < |slots|)
    && slots'[order[k]] == slot
    && (forall j :: 0 <= j < k ==> slots'[order[j]].offset == slots[order[j]].offset + delta
                                   && slots'[order[j]].raw == slots[order[j]].raw && slots'[order[j]].occupied)
    && (forall j :: k < j < |order| ==> slots'[order[j]] == slots[order[j]])
    && (forall x :: 0 <= x < |slots| && !slots[x].occupied ==> slots'[x] == slots[x])
  }

  lemma ReplacedRearranges(p: Page, p': Page, order: seq<nat>, k: nat, bytes: seq<Byte>)
    requires Replaced(p, p', order, k, bytes)
    ensures Rearranged(p.slots, p'.slots, order, k, p'.slots[order[k]], Len(p.slots[order[k]]) - |bytes|)
    ensures bytes == [] ==> !p'.slots[order[k]].occupied
    ensures bytes != [] ==> p'.slots[order[k]].occupied && Len(p'.slots[order[k]]) == |bytes|
    ensures bytes != [] ==> p'.slots[order[k]].offset == p.slots[order[k]].offset + Len(p.slots[order[k]]) - |bytes|
  {
    var delta := Len(p.slots[order[k]]) - |bytes|;
    ReplacedSlot(p, p', order, k, bytes, k);
    forall j | 0 <= j < k ensures p'.slots[order[j]].offset == p.slots[order[j]].offset + delta
                          ensures p'.slots[order[j]].raw == p.slots[order[j]].raw && p'.slots[order[j]].occupied
    {
      ReplacedSlot(p, p', order, k, bytes, j);
    }
    forall j | k < j < |order| ensures p'.slots[order[j]] == p.slots[order[j]] {
      ReplacedSlot(p, p', order, k, bytes, j);
    }
    forall x | 0 <= x < |p.slots| && !p.slots[x].occupied ensures p'.slots[x] == p.slots[x] {
      ReplacedFree(p, p', order, k, bytes, x);
    }
  }

  lemma KeptLists(slots: seq<Slot>, slots': seq<Slot>, order: seq<nat>, k: nat, slot: Slot, delta: int)
    requires Lists(order, slots) && Rearranged(slots, slots', order, k, slot, delta) && slot.occupied
    ensures Lists(order, slots')
  {
    forall x | 0 <= x < |slots'| && slots'[x].occupied ensures x in order {
      assert slots[x].occupied;
    }
  }

  lemma CutLists(slots: seq<Slot>, slots': seq<Slot>, order: seq<nat>, k: nat, slot: Slot, delta: int)
    requires Lists(order, slots) && Rearranged(slots, slots', order, k, slot, delta) && !slot.occupied
    ensures Lists(order[..k] + order[k + 1..], slots')
  {
    var order' := order[..k] + order[k + 1..];
    assert forall m :: 0 <= m < |order'| ==> order'[m] == order[if m < k then m else m + 1];
    CutCovers(slots, slots', order, k, slot, delta);
  }

  lemma CutCovers(slots: seq<Slot>, slots': seq<Slot>, order: seq<nat>, k: nat, slot: Slot, delta: int)
    requires Lists(order, slots) && Rearranged(slots, slots', order, k, slot, delta) && !slot.occupied
    ensures forall x :: 0 <= x < |slots'| && slots'[x].occupied ==> x in order[..k] + order[k + 1..]
  {
    var order' := order[..k] + order[k + 1..];
    forall x | 0 <= x < |slots'| && slots'[x].occupied ensures x in order' {
      assert slots[x].occupied;
      var j :| 0 <= j < |order| && order[j] == x;
      assert j != k;
      assert order'[if j < k then j else j - 1] == x;
    }
  }

  /** The tuples below and above the replaced one still tile their parts. */
  lemma SidesTile(slots: seq<Slot>, slots': seq<Slot>, order: seq<nat>, k: nat, slot: Slot, delta: int,
                  lo: nat, off: nat, end: nat)
    requires Rearranged(slots, slots', order, k, slot, delta) && lo + delta >= 0
    requires Tiles(slots, order[..k], lo, off) && Tiles(slots, order[k + 1..], end, PAGE_SIZE)
    ensures off + delta >= 0 && Tiles(slots', order[..k], lo + delta, off + delta)
    ensures Tiles(slots', order[k + 1..], end, PAGE_SIZE)
  {
    TilesMove(slots, slots', order[..k], lo, off, delta);
    TilesMove(slots, slots', order[k + 1..], end, PAGE_SIZE, 0);
  }

  lemma ReplacedTiles(p: Page, p': Page, order: seq<nat>, k: nat, bytes: seq<Byte>)
    requires Replaced(p, p', order, k, bytes)
    ensures Tiles(p'.slots, OrderAfter(order, k, bytes), p'.free, PAGE_SIZE)
  {
    Position(p, order, k);
    ReplacedRearranges(p, p', order, k, bytes);
    var s, slot, delta := p.slots[order[k]], p'.slots[order[k]], Len(p.slots[order[k]]) - |bytes|;
    SidesTile(p.slots, p'.slots, order, k, slot, delta, p.free, s.offset, s.offset + Len(s));
    JoinSides(p'.slots, order, k, p'.free, s.offset + delta, s.offset + Len(s), bytes);
  }

  lemma JoinSides(slots: seq<Slot>, order: seq<nat>, k: nat, lo: nat, mid: nat, end: nat, bytes: seq<Byte>)
    requires k < |order| && Tiles(slots, order[..k], lo, mid) && Tiles(slots, order[k + 1..], end, PAGE_SIZE)
    requires bytes == [] ==> mid == end
    requires bytes != [] ==>
               order[k] < |slots| && slots[order[k]].offset == mid && Len(slots[order[k]]) == |bytes| == end - mid
    ensures Tiles(slots, OrderAfter(order, k, bytes), lo, PAGE_SIZE)
  {
    var low, high := order[..k], order[k + 1..];
    if bytes == [] {
      TilesJoin(slots, low, high, lo, mid, PAGE_SIZE);
    } else {
      var rest := [order[k]] + high;
      assert rest[1..] == high;
      TilesJoin(slots, low, rest, lo, mid, PAGE_SIZE);
      assert low + rest == order;
    }
  }

  lemma ReplacedOk(p: Page, p': Page, order: seq<nat>, k: nat, bytes: seq<Byte>)
    requires Replaced(p, p', order, k, bytes)
    ensures WellLaid(p', OrderAfter(order, k, bytes))
  {
    ReplacedRearranges(p, p', order, k, bytes);
    if bytes == [] {
      CutLists(p.slots, p'.slots, order, k, p'.slots[order[k]], Len(p.slots[order[k]]) - |bytes|);
    } else {
      KeptLists(p.slots, p'.slots, order, k, p'.slots[order[k]], Len(p.slots[order[k]]) - |bytes|);
    }
    ReplacedTiles(p, p', order, k, bytes);
    ReplacedSlots(p, p', order, k, bytes);
  }

  lemma ReplacedSlots(p: Page, p': Page, order: seq<nat>, k: nat, bytes: seq<Byte>)
    requires Replaced(p, p', order, k, bytes)
    ensures forall x :: 0 <= x < |p'.slots| ==> SlotOk(p'.slots[x])
  {
    forall x | 0 <= x < |p'.slots| ensures SlotOk(p'.slots[x]) {
      assert SlotOk(p.slots[x]);
      if p.slots[x].occupied {
        var j :| 0 <= j < |order| && order[j] == x;
        ReplacedSlot(p, p', order, k, bytes, j);
      } else {
        ReplacedFree(p, p', order, k, bytes, x);
      }
    }
  }

  /** Reading through any slot but the one replaced gives the same bytes as before. */
  lemma ReplacedTuple(p: Page, p': Page, order: seq<nat>, k: nat, bytes: seq<Byte>, j: nat)
    requires Replaced(p, p', order, k, bytes) && j < |order| && RowsReadable(p) && RowsReadable(p')
    ensures j != k ==> Tuple(p'.data, p'.slots[order[j]]) == Tuple(p.data, p.slots[order[j]])
    ensures j == k && bytes != [] ==> Tuple(p'.data, p'.slots[order[j]]) == bytes
  {
    Position(p, order, k);
    ReplacedSlot(p, p', order, k, bytes, j);
    var s, t, t' := p.slots[order[k]], p.slots[order[j]], p'.slots[order[j]];
    if j < k {
      TupleMoved(p.data, p'.data, p.free, s.offset, Len(s) - |bytes|, t);
    } else if j > k {
      SameBytes(p.data, p'.data, s.offset + Len(s), t);
    }
  }

  lemma SameBytes(data: seq<Byte>, data': seq<Byte>, from: nat, s: Slot)
    requires |data| == |data'| && (forall x :: from <= x < |data| ==> data'[x] == data[x])
    requires from <= s.offset && s.offset + Len(s) <= |data|
    ensures Tuple(data', s) == Tuple(data, s)
  {
  }

  ghost function RowAt(p: Page, x: nat): Row
    requires RowsReadable(p) && x < |p.slots| && p.slots[x].occupied
  {
    Row(Tuple(p.data, p.slots[x]), p.slots[x].deleted)
  }

  /** Every other row is still there with the same bytes and delete mark. */
  lemma ReplacedRow(p: Page, p': Page, order: seq<nat>, k: nat, bytes: seq<Byte>, x: nat)
    requires Replaced(p, p', order, k, bytes) && RowsReadable(p) && RowsReadable(p') && x < |p.slots|
    ensures x != order[k] ==> p'.slots[x].occupied == p.slots[x].occupied
    ensures x != order[k] && p.slots[x].occupied ==> RowAt(p', x) == RowAt(p, x)
    ensures x == order[k] ==> p'.slots[x].occupied == (bytes != [])
    ensures x == order[k] && bytes != [] ==> RowAt(p', x) == Row(bytes, false)
  {
    if p.slots[x].occupied {
      var j :| 0 <= j < |order| && order[j] == x;
      ReplacedSlot(p, p', order, k, bytes, j);
      ReplacedTuple(p, p', order, k, bytes, j);
    } else {
      ReplacedFree(p, p', order, k, bytes, x);
    }
  }

  lemma ReplacedReadable(p: Page, p': Page, order: seq<nat>, k: nat, bytes: seq<Byte>)
    requires Replaced(p, p', order, k, bytes)
    ensures RowsReadable(p) && RowsReadable(p')
  {
    InBounds(p, order);
    ReplacedOk(p, p', order, k, bytes);
    InBounds(p', OrderAfter(order, k, bytes));
  }

  /** Replacing or removing one tuple is a change of one row, whatever has been moved to do it. */
  lemma ReplacedRows(p: Page, p': Page, order: seq<nat>, k: nat, bytes: seq<Byte>)
    requires Replaced(p, p', order, k, bytes)
    ensures RowsReadable(p) && RowsReadable(p')
    ensures Rows(p') == if bytes == [] then Rows(p) - {order[k]} else Rows(p)[order[k] := Row(bytes, false)]
  {
    ReplacedReadable(p, p', order, k, bytes);
    forall x | 0 <= x < |p.slots|
      ensures x != order[k] ==> p'.slots[x].occupied == p.slots[x].occupied
      ensures x != order[k] && p.slots[x].occupied ==> RowAt(p', x) == RowAt(p, x)
      ensures x == order[k] ==> p'.slots[x].occupied == (bytes != [])
      ensures x == order[k] && bytes != [] ==> RowAt(p', x) == Row(bytes, false)
    {
      ReplacedRow(p, p', order, k, bytes, x);
    }
    SameRows(p, p', order[k], bytes);
  }

  lemma SameRows(p: Page, p': Page, i: nat, bytes: seq<Byte>)
    requires RowsReadable(p) && RowsReadable(p') && |p.slots| == |p'.slots| && i < |p.slots| && p.slots[i].occupied
    requires forall x :: 0 <= x < |p.slots| && x != i ==> p'.slots[x].occupied == p.slots[x].occupied
    requires forall x :: 0 <= x < |p.slots| && x != i && p.slots[x].occupied ==> RowAt(p', x) == RowAt(p, x)
    requires p'.slots[i].occupied == (bytes != [])
    requires bytes != [] ==> RowAt(p', i) == Row(bytes, false)
    ensures Rows(p') == if bytes == [] then Rows(p) - {i} else Rows(p)[i := Row(bytes, false)]
  {
    var rows, rows' := if bytes == [] then Rows(p) - {i} else Rows(p)[i := Row(bytes, false)], Rows(p');
    assert rows'.Keys == rows.Keys;
    assert forall x <- rows' :: rows'[x] == RowAt(p', x);
  }

  // ---------------------------------------------------------------- delete marks

  function Flagged(p: Page, i: nat, mark: bool): Page
    requires i < |p.slots|
  {
    var s := p.slots[i];
    var raw := if mark then SetDeletedFlag(s.raw) else UnsetDeletedFlag(s.raw);
    Page(p.data, p.free, p.slots[i := Slot(s.offset, raw, s.occupied, mark)])
  }

  lemma FlaggedOk(p: Page, order: seq<nat>, i: nat, mark: bool)
    requires WellLaid(p, order) && i < |p.slots| && p.slots[i].occupied
    ensures WellLaid(Flagged(p, i, mark), order)
  {
    var slots' := Flagged(p, i, mark).slots;
    assert SlotOk(p.slots[i]);
    assert SlotOk(slots'[i]) && Len(slots'[i]) == Len(p.slots[i]);
    TilesRelabelled(p.slots, slots', order, p.free, PAGE_SIZE);
  }

  lemma {:induction false} TilesRelabelled(slots: seq<Slot>, slots': seq<Slot>, order: seq<nat>, lo: nat, hi: nat)
    requires Tiles(slots, order, lo, hi) && |slots'| == |slots|
    requires forall x :: 0 <= x < |slots| ==> slots'[x].offset == slots[x].offset && Len(slots'[x]) == Len(slots[x])
    ensures Tiles(slots', order, lo, hi)
    decreases |order|
  {
    if order != [] {
      TilesRelabelled(slots, slots', order[1..], lo + Len(slots[order[0]]), hi);
    }
  }

  /** Marking a row deleted, or not deleted, changes nothing else. */
  lemma FlaggedRows(p: Page, order: seq<nat>, i: nat, mark: bool)
    requires WellLaid(p, order) && i < |p.slots| && p.slots[i].occupied
    ensures RowsReadable(p) && RowsReadable(Flagged(p, i, mark))
    ensures Rows(Flagged(p, i, mark)) == Rows(p)[i := Row(Tuple(p.data, p.slots[i]), mark)]
  {
    InBounds(p, order);
    var p' := Flagged(p, i, mark);
    forall x | 0 <= x < |p.slots| && p.slots[x].occupied
      ensures p'.slots[x].offset + Len(p'.slots[x]) <= |p'.data|
    {
      FlaggedSlot(p, i, mark, x);
    }
    var rows, rows' := Rows(p)[i := Row(Tuple(p.data, p.slots[i]), mark)], Rows(p');
    assert rows'.Keys == rows.Keys;
    forall x: nat | x in rows ensures rows'[x] == rows[x] {
      FlaggedSlot(p, i, mark, x);
    }
  }

  lemma FlaggedSlot(p: Page, i: nat, mark: bool, x: nat)
    requires i < |p.slots| && x < |p.slots| && p.slots[i].occupied && SlotOk(p.slots[i])
    ensures var s, s' := p.slots[x], Flagged(p, i, mark).slots[x];
            && s'.offset == s.offset && Len(s') == Len(s) && s'.occupied == s.occupied
            && s'.deleted == if x == i then mark else s.deleted
  {
  }
}
