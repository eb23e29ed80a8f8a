/** The operations of a table page on its bytes (src/page/table_page.cpp): what each makes of the page that the bytes
    stand for. Header words that link the page to others are never touched. */
module PageEdits {
  import opened Common
  import opened TupleLayout
  import opened SlotBitmaps
  import opened PageBytes

  /** Init: an empty page. */
  method Format(buf: array<Byte>)
    requires buf.Length == PAGE_SIZE
    modifies buf
    ensures Laid(buf[..]) && PageOf(buf[..]) == Page(Zeros(PAGE_SIZE), PAGE_SIZE, []) && HeadOf(buf[..]).live == 0
  {
    SetHeadWord(buf, OFFSET_FREE_SPACE, PAGE_SIZE);
    SetHeadWord(buf, OFFSET_TUPLE_COUNT, 0);
    SetHeadWord(buf, OFFSET_LIVE_TUPLE_COUNT, 0);
    ghost var b := buf[..];
    WriteAt(buf, OFFSET_OCCUPIED_BITMAP, Zeros(BITMAP_BYTES));
    HeadApart(b, buf[..], OFFSET_OCCUPIED_BITMAP, BITMAP_BYTES);
    b := buf[..];
    WriteAt(buf, OFFSET_DELETED_BITMAP, Zeros(BITMAP_BYTES));
    HeadApart(b, buf[..], OFFSET_DELETED_BITMAP, BITMAP_BYTES);
  }

  method StoreTuple(buf: array<Byte>, slot: nat, bytes: seq<Byte>)
    requires Laid(buf[..]) && CanInsert(PageOf(buf[..]), slot, bytes) && HeadOf(buf[..]).live <= MAX_SLOTS
    modifies buf
    ensures Laid(buf[..]) && PageOf(buf[..]) == Inserted(PageOf(old(buf[..])), slot, bytes)
    ensures HeadOf(buf[..]).links == HeadOf(old(buf[..])).links
    ensures HeadOf(buf[..]).live == HeadOf(old(buf[..])).live + 1
  {
    ghost var b := buf[..];
    PushBytes(buf, slot, bytes);
    ghost var mid := buf[..];
    EnterSlot(buf, slot, Slot(HeadOf(buf[..]).free, |bytes|, true, false), HeadOf(buf[..]).live + 1);
    SameBehind(mid, buf[..], HeadOf(mid).free, HeadOf(b).free);
    InsertedIs(b, slot, bytes, buf[..]);
  }

  /** The bytes of a new tuple, and a new directory entry if there is to be one. */
  method PushBytes(buf: array<Byte>, slot: nat, bytes: seq<Byte>)
    requires Laid(buf[..]) && CanInsert(PageOf(buf[..]), slot, bytes)
    modifies buf
    ensures var head := HeadOf(old(buf[..]));
            && HeadOf(buf[..]) == Head(head.links, head.free - |bytes|,
                                        if slot == head.count then slot + 1 else head.count, head.live)
            && buf[..][head.free - |bytes|..head.free] == bytes && buf[..][head.free..] == old(buf[..])[head.free..]
            && SameSlots(old(buf[..]), buf[..], head.count)
  {
    ghost var b := buf[..];
    if slot == HeadOf(buf[..]).count {
      SetHeadWord(buf, OFFSET_TUPLE_COUNT, slot + 1);
    }
    var free := HeadOf(buf[..]).free - |bytes|;
    SetHeadWord(buf, OFFSET_FREE_SPACE, free);
    ghost var b1 := buf[..];
    WriteBody(buf, free, bytes);
    WrittenEnds(b, b1, free, bytes);
  }

  /** Bytes written behind the slot directory. */
  method WriteBody(buf: array<Byte>, at: nat, bytes: seq<Byte>)
    requires buf.Length == PAGE_SIZE && at + |bytes| <= PAGE_SIZE && HeadOf(buf[..]).count <= MAX_SLOTS
    requires OFFSET_TUPLE_OFFSET + SIZE_TUPLE * HeadOf(buf[..]).count <= at
    modifies buf
    ensures buf[..] == Written(old(buf[..]), at, bytes) && HeadOf(buf[..]) == HeadOf(old(buf[..]))
    ensures SameSlots(old(buf[..]), buf[..], HeadOf(buf[..]).count)
  {
    ghost var b := buf[..];
    WriteAt(buf, at, bytes);
    assert DifferIn(b, buf[..], at, |bytes|);
    HeadApart(b, buf[..], at, |bytes|);
    forall i | 0 <= i < HeadOf(buf[..]).count ensures SlotAt(buf[..], i) == SlotAt(b, i) {
      SlotApart(b, buf[..], at, |bytes|, i);
    }
  }

  /** The directory entry and the two bitmap bits of a slot. */
  method SetSlot(buf: array<Byte>, slot: nat, s: Slot)
    requires buf.Length == PAGE_SIZE && slot < MAX_SLOTS && s.offset < 0x1_0000_0000 && s.raw < 0x1_0000_0000
    modifies buf
    ensures HeadOf(buf[..]) == HeadOf(old(buf[..])) && SlotSet(old(buf[..]), buf[..], slot, s)
    ensures SameFrom(old(buf[..]), buf[..], OFFSET_TUPLE_OFFSET + SIZE_TUPLE * (slot + 1))
  {
    SetTupleOffsetAtSlot(buf, slot, s.offset);
    SetTupleSize(buf, slot, s.raw);
    SetSlotOccupied(buf, slot, s.occupied);
    SetSlotDeleted(buf, slot, s.deleted);
  }

  /** A slot together with the live count. */
  method EnterSlot(buf: array<Byte>, slot: nat, s: Slot, live: nat)
    requires buf.Length == PAGE_SIZE && slot < MAX_SLOTS && s.offset < 0x1_0000_0000 && s.raw < 0x1_0000_0000
    requires live < 0x1_0000_0000
    modifies buf
    ensures HeadOf(buf[..]) == HeadOf(old(buf[..])).(live := live) && SlotSet(old(buf[..]), buf[..], slot, s)
    ensures SameFrom(old(buf[..]), buf[..], OFFSET_TUPLE_OFFSET + SIZE_TUPLE * (slot + 1))
  {
    SetSlot(buf, slot, s);
    SetHeadWord(buf, OFFSET_LIVE_TUPLE_COUNT, live);
  }

  /** The loop that follows a move: every occupied slot below `bound` is shifted by `delta`. */
  method FixOffsets(buf: array<Byte>, bound: nat, delta: int)
    requires Laid(buf[..]) && Shiftable(buf[..], delta)
    modifies buf
    ensures HeadOf(buf[..]) == HeadOf(old(buf[..]))
    ensures FixedTo(old(buf[..]), buf[..], HeadOf(buf[..]).count, bound, delta)
    ensures SameBody(old(buf[..]), buf[..])
  {
    ghost var b := buf[..];
    for i := 0 to HeadOf(buf[..]).count
      invariant HeadOf(buf[..]) == HeadOf(b) && FixedTo(b, buf[..], i, bound, delta) && SameBody(b, buf[..])
    {
      FixOne(buf, b, i, bound, delta);
    }
  }

  method FixOne(buf: array<Byte>, ghost b: seq<Byte>, i: nat, bound: nat, delta: int)
    requires Laid(b) && Shiftable(b, delta) && i < HeadOf(b).count
    requires buf.Length == PAGE_SIZE && HeadOf(buf[..]) == HeadOf(b)
    requires FixedTo(b, buf[..], i, bound, delta) && SameBody(b, buf[..])
    modifies buf
    ensures HeadOf(buf[..]) == HeadOf(b) && FixedTo(b, buf[..], i + 1, bound, delta) && SameBody(b, buf[..])
  {
    ghost var b1 := buf[..];
    var s := SlotAt(buf[..], i);
    assert s == SlotAt(b, i);
    if s.occupied && s.offset < bound {
      SetTupleOffsetAtSlot(buf, i, s.offset + delta);
      FixedMore(b, b1, buf[..], i, bound, delta);
    } else {
      FixedSkip(b, b1, i, bound, delta);
    }
  }

  /** The tuple of `slot` gives way to `bytes`, or, when there are none, leaves the page: the tuples below it are
      moved against its new end and the offsets of the moved ones are rewritten. */
  method Replace(buf: array<Byte>, slot: nat, bytes: seq<Byte>, ghost order: seq<nat>, ghost k: nat)
    requires Laid(buf[..]) && WellLaid(PageOf(buf[..]), order) && k < |order| && order[k] == slot
    requires CanReplace(buf[..], slot, bytes)
    modifies buf
    ensures Laid(buf[..]) && Replaced(PageOf(old(buf[..])), PageOf(buf[..]), order, k, bytes)
    ensures HeadOf(buf[..]).links == HeadOf(old(buf[..])).links && HeadOf(buf[..]).live == HeadOf(old(buf[..])).live
  {
    ghost var b := buf[..];
    ReplaceFacts(b, order, k, slot, bytes);
    Exchange(buf, slot, bytes);
    ReplacedIs(b, buf[..], order, k, bytes);
  }

  method Exchange(buf: array<Byte>, slot: nat, bytes: seq<Byte>)
    requires Laid(buf[..]) && CanExchange(buf[..], slot, bytes)
    modifies buf
    ensures Laid(buf[..]) && Exchanged(old(buf[..]), buf[..], slot, bytes)
  {
    ghost var b := buf[..];
    var s := SlotAt(buf[..], slot);
    MakeRoom(buf, slot, s, bytes);
    ghost var b1 := buf[..];
    RewriteSlots(buf, slot, s, |bytes|, HeadOf(b).free);
    MovedSame(b, b1, buf[..], HeadOf(b).free, s, bytes);
  }

  /** The bytes are in place and the free space pointer is set; the directory is still the old one. */
  method MakeRoom(buf: array<Byte>, slot: nat, s: Slot, bytes: seq<Byte>)
    requires Laid(buf[..]) && CanExchange(buf[..], slot, bytes) && s == SlotAt(buf[..], slot)
    modifies buf
    ensures Laid(buf[..]) && SlotsIn(buf[..]) == SlotsIn(old(buf[..])) && SlotAt(buf[..], slot) == s
    ensures var head := HeadOf(old(buf[..]));
            && HeadOf(buf[..]) == head.(free := head.free + Len(s) - |bytes|)
            && Moved(old(buf[..]), buf[..], head.free, s, bytes) && OffsetsFrom(buf[..], head.free)
  {
    ghost var b := buf[..];
    MoveTuples(buf, s, bytes);
    ghost var b1 := buf[..];
    SetHeadWord(buf, OFFSET_FREE_SPACE, HeadOf(buf[..]).free + Len(s) - |bytes|);
    SlotsCarried(b, b1, buf[..]);
    MovedSame(b, b1, buf[..], HeadOf(b).free, s, bytes);
  }

  /** The slot's own entry is set to its new size, or cleared when that is zero, before the others are moved. */
  method RewriteSlots(buf: array<Byte>, slot: nat, s: Slot, size: nat, ghost lo: nat)
    requires Laid(buf[..]) && slot < HeadOf(buf[..]).count && s == SlotAt(buf[..], slot) && size < DELETE_MASK
    requires OffsetsFrom(buf[..], lo) && size <= lo + Len(s) && lo <= s.offset && s.offset + Len(s) <= PAGE_SIZE
    modifies buf
    ensures Laid(buf[..]) && HeadOf(buf[..]) == HeadOf(old(buf[..])) && SameBody(old(buf[..]), buf[..])
    ensures Rewritten(SlotsIn(old(buf[..])), SlotsIn(buf[..]), slot, s, size)
  {
    SetAndFix(buf, slot, if size == 0 then EMPTY_SLOT else Slot(s.offset, size, true, false),
              if size == 0 then s.offset else s.offset + Len(s), Len(s) - size, lo);
  }

  method SetAndFix(buf: array<Byte>, slot: nat, s: Slot, bound: nat, delta: int, ghost lo: nat)
    requires Laid(buf[..]) && slot < HeadOf(buf[..]).count && OffsetsFrom(buf[..], lo)
    requires s.offset <= PAGE_SIZE && s.raw < DELETE_MASK && 0 <= lo + delta && delta <= PAGE_SIZE
    requires s.occupied ==> lo <= s.offset
    modifies buf
    ensures Laid(buf[..]) && HeadOf(buf[..]) == HeadOf(old(buf[..])) && SameBody(old(buf[..]), buf[..])
    ensures FixedUp(SlotsIn(old(buf[..]))[slot := s], SlotsIn(buf[..]), bound, delta)
  {
    ghost var b := buf[..];
    SetSlot(buf, slot, s);
    ghost var b1 := buf[..];
    OffsetsStill(b, b1, slot, s, lo, delta);
    FixOffsets(buf, bound, delta);
    SlotsFixed(b, b1, buf[..], slot, s, bound, delta);
  }

  /** The memmove of the tuples below `s`, then the new bytes written behind them. */
  method MoveTuples(buf: array<Byte>, s: Slot, bytes: seq<Byte>)
    requires Laid(buf[..]) && HeadOf(buf[..]).free <= s.offset && s.offset + Len(s) <= PAGE_SIZE
    requires HeadOf(buf[..]).free + Len(s) >= OFFSET_TUPLE_OFFSET + SIZE_TUPLE * HeadOf(buf[..]).count + |bytes|
    modifies buf
    ensures HeadOf(buf[..]) == HeadOf(old(buf[..])) && SameSlots(old(buf[..]), buf[..], HeadOf(buf[..]).count)
    ensures Moved(old(buf[..]), buf[..], HeadOf(buf[..]).free, s, bytes)
  {
    var free, delta := HeadOf(buf[..]).free, Len(s) - |bytes|;
    ghost var b := buf[..];
    WriteBody(buf, free + delta, buf[..][free..s.offset]);
    ghost var b1 := buf[..];
    WriteBody(buf, s.offset + delta, bytes);
    MovedIs(b, b1, buf[..], free, s, bytes);
  }

  method StoreFlag(buf: array<Byte>, slot: nat, mark: bool)
    requires Laid(buf[..]) && slot < HeadOf(buf[..]).count
    requires var s := SlotAt(buf[..], slot); s.occupied && SlotOk(s) && s.offset <= PAGE_SIZE
    requires HeadOf(buf[..]).live <= MAX_SLOTS && (mark ==> HeadOf(buf[..]).live > 0)
    requires OFFSET_TUPLE_OFFSET + SIZE_TUPLE * HeadOf(buf[..]).count <= HeadOf(buf[..]).free
    modifies buf
    ensures Laid(buf[..]) && PageOf(buf[..]) == Flagged(PageOf(old(buf[..])), slot, mark)
    ensures HeadOf(buf[..]).links == HeadOf(old(buf[..])).links
    ensures HeadOf(buf[..]).live == HeadOf(old(buf[..])).live + (if mark then -1 else 1)
  {
    ghost var b := buf[..];
    var s := SlotAt(buf[..], slot);
    var s' := Slot(s.offset, if mark then SetDeletedFlag(s.raw) else UnsetDeletedFlag(s.raw), true, mark);
    var live := HeadOf(buf[..]).live;
    EnterSlot(buf, slot, s', if mark then live - 1 else live + 1);
    SlotsAfter(b, buf[..], slot, s');
    SameBehind(b, buf[..], HeadOf(b).free, HeadOf(b).free);
  }

  method SetLive(buf: array<Byte>, live: nat)
    requires Laid(buf[..]) && live < 0x1_0000_0000
    requires OFFSET_OCCUPIED_BITMAP <= HeadOf(buf[..]).free
    modifies buf
    ensures Laid(buf[..]) && PageOf(buf[..]) == PageOf(old(buf[..]))
    ensures HeadOf(buf[..]) == HeadOf(old(buf[..])).(live := live)
  {
    ghost var b := buf[..];
    SetHeadWord(buf, OFFSET_LIVE_TUPLE_COUNT, live);
    SameBehind(b, buf[..], HeadOf(b).free, HeadOf(b).free);
    SameDirectory(buf[..], SlotsIn(b));
  }

  lemma SameBehind(b: seq<Byte>, b': seq<Byte>, lo: nat, hi: nat)
    requires lo <= hi <= |b| && SameFrom(b, b', lo)
    ensures b'[lo..hi] == b[lo..hi] && b'[hi..] == b[hi..]
  {
  }

  lemma WrittenEnds(b: seq<Byte>, b1: seq<Byte>, at: nat, bytes: seq<Byte>)
    requires at + |bytes| <= |b| && SameFrom(b, b1, at)
    ensures Written(b1, at, bytes)[at..at + |bytes|] == bytes
    ensures Written(b1, at, bytes)[at + |bytes|..] == b[at + |bytes|..]
  {
  }

  lemma MaskedInsert(b: seq<Byte>, b': seq<Byte>, free: nat, bytes: seq<Byte>)
    requires |bytes| <= free <= |b| == |b'|
    requires b'[free - |bytes|..free] == bytes && b'[free..] == b[free..]
    ensures Masked(b', free - |bytes|) == Masked(b, free)[..free - |bytes|] + bytes + Masked(b, free)[free..]
  {
    var at := free - |bytes|;
    assert b'[at..] == b'[at..free] + b'[free..];
  }

  lemma SlotsInsert(b: seq<Byte>, b': seq<Byte>, i: nat, s: Slot)
    requires Laid(b) && Laid(b') && i <= HeadOf(b).count
    requires HeadOf(b').count == (if i == HeadOf(b).count then i + 1 else HeadOf(b).count)
    requires SlotAt(b', i) == s
    requires forall j :: 0 <= j < HeadOf(b).count && j != i ==> SlotAt(b', j) == SlotAt(b, j)
    ensures SlotsIn(b') == if i == HeadOf(b).count then SlotsIn(b) + [s] else SlotsIn(b)[i := s]
  {
    SameDirectory(b', if i == HeadOf(b).count then SlotsIn(b) + [s] else SlotsIn(b)[i := s]);
  }

  /** The buffer after an insert stands for the page with the row in it. */
  lemma InsertedIs(b: seq<Byte>, i: nat, bytes: seq<Byte>, b': seq<Byte>)
    requires Laid(b) && Laid(b') && i <= HeadOf(b).count && |bytes| <= HeadOf(b).free
    requires HeadOf(b').count == (if i == HeadOf(b).count then i + 1 else HeadOf(b).count)
    requires HeadOf(b').free == HeadOf(b).free - |bytes|
    requires b'[HeadOf(b').free..HeadOf(b).free] == bytes && b'[HeadOf(b).free..] == b[HeadOf(b).free..]
    requires SlotAt(b', i) == Slot(HeadOf(b').free, |bytes|, true, false)
    requires forall j :: 0 <= j < HeadOf(b).count && j != i ==> SlotAt(b', j) == SlotAt(b, j)
    ensures PageOf(b') == Inserted(PageOf(b), i, bytes)
  {
    MaskedInsert(b, b', HeadOf(b).free, bytes);
    SlotsInsert(b, b', i, SlotAt(b', i));
  }

  // ---------------------------------------------------------------- from bytes to pages

  /** The tuples below `s` stand next to its new end, `bytes` are in its place, and nothing behind it has changed. */
  ghost predicate Moved(b: seq<Byte>, b': seq<Byte>, free: nat, s: Slot, bytes: seq<Byte>)
    requires free <= s.offset && s.offset + Len(s) <= |b| == |b'| && |bytes| <= free + Len(s)
  {
    && BlockMoved(b, b', free, s.offset, Len(s) - |bytes|)
    && b'[s.offset + Len(s) - |bytes|..s.offset + Len(s)] == bytes
    && forall x :: s.offset + Len(s) <= x < |b| ==> b'[x] == b[x]
  }

  lemma MovedIs(b: seq<Byte>, b1: seq<Byte>, b2: seq<Byte>, free: nat, s: Slot, bytes: seq<Byte>)
    requires free <= s.offset && s.offset + Len(s) <= |b| && |bytes| <= free + Len(s)
    requires b1 == Written(b, free + Len(s) - |bytes|, b[free..s.offset])
    requires b2 == Written(b1, s.offset + Len(s) - |bytes|, bytes)
    ensures Moved(b, b2, free, s, bytes)
  {
  }

  lemma MovedSame(b: seq<Byte>, mid: seq<Byte>, b': seq<Byte>, free: nat, s: Slot, bytes: seq<Byte>)
    requires free <= s.offset && s.offset + Len(s) <= |b| == |mid| == |b'| && |bytes| <= free + Len(s)
    requires Moved(b, mid, free, s, bytes) && forall x :: free + Len(s) - |bytes| <= x < |b| ==> b'[x] == mid[x]
    ensures Moved(b, b', free, s, bytes)
  {
    assert b'[s.offset + Len(s) - |bytes|..s.offset + Len(s)] == mid[s.offset + Len(s) - |bytes|..s.offset + Len(s)];
  }

  ghost predicate SameFrom(b: seq<Byte>, b': seq<Byte>, from: nat) {
    |b'| == |b| && forall x :: from <= x < |b| ==> b'[x] == b[x]
  }

  /** Nothing behind the slot directory has changed. */
  ghost predicate SameBody(b: seq<Byte>, b': seq<Byte>)
    requires |b| == PAGE_SIZE
  {
    SameFrom(b, b', OFFSET_TUPLE_OFFSET + SIZE_TUPLE * HeadOf(b).count)
  }

  ghost predicate Shiftable(b: seq<Byte>, delta: int)
    requires Laid(b)
  {
    forall i {:trigger SlotAt(b, i)} :: 0 <= i < HeadOf(b).count && SlotAt(b, i).occupied ==>
      0 <= SlotAt(b, i).offset + delta < 0x1_0000_0000
  }

  /** The fix-up loop has dealt with the first `n` slots. */
  ghost predicate FixedTo(b: seq<Byte>, b': seq<Byte>, n: nat, bound: nat, delta: int)
    requires Laid(b) && |b'| == PAGE_SIZE
  {
    forall i {:trigger SlotAt(b', i)} :: 0 <= i < HeadOf(b).count ==>
      if i < n then SlotFixed(SlotAt(b, i), SlotAt(b', i), bound, delta) else SlotAt(b', i) == SlotAt(b, i)
  }

  lemma FixedMore(b: seq<Byte>, b1: seq<Byte>, b2: seq<Byte>, i: nat, bound: nat, delta: int)
    requires Laid(b) && |b1| == |b2| == PAGE_SIZE && FixedTo(b, b1, i, bound, delta) && i < HeadOf(b).count
    requires SlotAt(b, i).occupied && SlotAt(b, i).offset < bound && SlotAt(b, i).offset + delta >= 0
    requires SlotSet(b1, b2, i, SlotAt(b, i).(offset := SlotAt(b, i).offset + delta))
    ensures FixedTo(b, b2, i + 1, bound, delta)
  {
    forall j | 0 <= j < HeadOf(b).count
      ensures if j < i + 1 then SlotFixed(SlotAt(b, j), SlotAt(b2, j), bound, delta) else SlotAt(b2, j) == SlotAt(b, j)
    {
      assert j != i ==> SlotAt(b2, j) == SlotAt(b1, j);
    }
  }

  lemma FixedSkip(b: seq<Byte>, b1: seq<Byte>, i: nat, bound: nat, delta: int)
    requires Laid(b) && |b1| == PAGE_SIZE && FixedTo(b, b1, i, bound, delta) && i < HeadOf(b).count
    requires !SlotAt(b, i).occupied || SlotAt(b, i).offset >= bound
    ensures FixedTo(b, b1, i + 1, bound, delta)
  {
  }

  lemma SlotsAfter(b: seq<Byte>, b': seq<Byte>, slot: nat, s: Slot)
    requires Laid(b) && Laid(b') && HeadOf(b').count == HeadOf(b).count && slot < HeadOf(b).count
    requires SlotSet(b, b', slot, s)
    ensures SlotsIn(b') == SlotsIn(b)[slot := s]
  {
    SameDirectory(b', SlotsIn(b)[slot := s]);
  }

  /** Every tuple begins at `lo` or behind it. */
  ghost predicate OffsetsFrom(b: seq<Byte>, lo: nat)
    requires Laid(b)
  {
    forall i {:trigger SlotAt(b, i)} :: 0 <= i < HeadOf(b).count && SlotAt(b, i).occupied ==>
      lo <= SlotAt(b, i).offset <= PAGE_SIZE
  }

  lemma OffsetsStill(b: seq<Byte>, b': seq<Byte>, slot: nat, s': Slot, lo: nat, delta: int)
    requires Laid(b) && |b'| == PAGE_SIZE && HeadOf(b') == HeadOf(b) && slot < HeadOf(b).count
    requires SlotSet(b, b', slot, s') && OffsetsFrom(b, lo) && 0 <= lo + delta && delta <= PAGE_SIZE
    requires s'.occupied ==> lo <= s'.offset <= PAGE_SIZE
    ensures Laid(b') && Shiftable(b', delta)
  {
    forall i | 0 <= i < HeadOf(b).count && SlotAt(b', i).occupied
      ensures 0 <= SlotAt(b', i).offset + delta < 0x1_0000_0000
    {
      if i != slot { assert SlotAt(b', i) == SlotAt(b, i); }
    }
  }

  /** The directory after a tuple has been replaced by one of `size` bytes, or removed. */
  ghost predicate Rewritten(slots: seq<Slot>, slots': seq<Slot>, slot: nat, s: Slot, size: nat)
    requires slot < |slots|
  {
    if size == 0 then FixedUp(slots[slot := EMPTY_SLOT], slots', s.offset, Len(s))
    else FixedUp(slots[slot := Slot(s.offset, size, true, false)], slots', s.offset + Len(s), Len(s) - size)
  }

  lemma SlotsFixed(b: seq<Byte>, b1: seq<Byte>, b2: seq<Byte>, slot: nat, s': Slot, bound: nat, delta: int)
    requires Laid(b) && Laid(b1) && Laid(b2) && HeadOf(b) == HeadOf(b1) == HeadOf(b2) && slot < HeadOf(b).count
    requires SlotSet(b, b1, slot, s') && FixedTo(b1, b2, HeadOf(b).count, bound, delta)
    ensures FixedUp(SlotsIn(b)[slot := s'], SlotsIn(b2), bound, delta)
  {
    forall j | 0 <= j < HeadOf(b).count
      ensures SlotFixed(SlotsIn(b)[slot := s'][j], SlotsIn(b2)[j], bound, delta)
    {
      assert SlotsIn(b2)[j] == SlotAt(b2, j);
      assert SlotsIn(b)[slot := s'][j] == SlotAt(b1, j);
    }
  }

  ghost predicate CanReplace(b: seq<Byte>, slot: nat, bytes: seq<Byte>)
    requires Laid(b)
  {
    && slot < HeadOf(b).count && |bytes| < DELETE_MASK
    && HeadOf(b).free + Len(SlotAt(b, slot)) >= SIZE_TABLE_PAGE_HEADER + SIZE_TUPLE * HeadOf(b).count + |bytes|
  }

  ghost predicate CanExchange(b: seq<Byte>, slot: nat, bytes: seq<Byte>)
    requires Laid(b)
  {
    && CanReplace(b, slot, bytes) && OffsetsFrom(b, HeadOf(b).free)
    && HeadOf(b).free <= SlotAt(b, slot).offset && SlotAt(b, slot).offset + Len(SlotAt(b, slot)) <= PAGE_SIZE
  }

  /** The tuple of `slot` has given way to `bytes`, in the tuple area and in the directory. */
  ghost predicate Exchanged(b: seq<Byte>, b': seq<Byte>, slot: nat, bytes: seq<Byte>)
    requires Laid(b) && Laid(b') && CanExchange(b, slot, bytes)
  {
    var s := SlotAt(b, slot);
    && HeadOf(b') == HeadOf(b).(free := HeadOf(b).free + Len(s) - |bytes|)
    && Moved(b, b', HeadOf(b).free, s, bytes) && Rewritten(SlotsIn(b), SlotsIn(b'), slot, s, |bytes|)
  }

  lemma ReplaceFacts(b: seq<Byte>, order: seq<nat>, k: nat, slot: nat, bytes: seq<Byte>)
    requires Laid(b) && WellLaid(PageOf(b), order) && k < |order| && order[k] == slot && CanReplace(b, slot, bytes)
    ensures CanExchange(b, slot, bytes)
  {
    var p := PageOf(b);
    InBounds(p, order);
    assert p.slots[slot] == SlotAt(b, slot);
    forall i | 0 <= i < HeadOf(b).count && SlotAt(b, i).occupied
      ensures HeadOf(b).free <= SlotAt(b, i).offset <= PAGE_SIZE
    {
      assert p.slots[i] == SlotAt(b, i);
    }
  }

  lemma SlotsCarried(b: seq<Byte>, b1: seq<Byte>, b2: seq<Byte>)
    requires Laid(b) && |b1| == |b2| == PAGE_SIZE && HeadOf(b2).count == HeadOf(b1).count == HeadOf(b).count
    requires SameSlots(b, b1, HeadOf(b).count) && SameSlots(b1, b2, MAX_SLOTS) && HeadOf(b2).free <= PAGE_SIZE
    ensures Laid(b2) && SlotsIn(b2) == SlotsIn(b) && SameSlots(b, b2, HeadOf(b).count)
    ensures forall lo :: OffsetsFrom(b, lo) ==> OffsetsFrom(b2, lo)
  {
    forall i | 0 <= i < HeadOf(b).count ensures SlotAt(b2, i) == SlotAt(b, i) {
      assert SlotAt(b1, i) == SlotAt(b, i);
    }
    SameDirectory(b2, SlotsIn(b));
  }

  lemma ReplacedIs(b: seq<Byte>, b': seq<Byte>, order: seq<nat>, k: nat, bytes: seq<Byte>)
    requires Laid(b) && Laid(b') && WellLaid(PageOf(b), order)
    requires k < |order| && CanExchange(b, order[k], bytes) && Exchanged(b, b', order[k], bytes)
    ensures Replaced(PageOf(b), PageOf(b'), order, k, bytes)
  {
    var s := SlotAt(b, order[k]);
    assert PageOf(b).slots[order[k]] == s;
    MaskedMoved(b, b', HeadOf(b).free, s, bytes);
    ReplacedFrom(PageOf(b), PageOf(b'), order, k, bytes);
  }

  lemma ReplacedFrom(p: Page, p': Page, order: seq<nat>, k: nat, bytes: seq<Byte>)
    requires WellLaid(p, order) && |p'.data| == PAGE_SIZE && k < |order| && |bytes| < DELETE_MASK
    requires var s := p.slots[order[k]];
             && p.free <= s.offset && s.offset + Len(s) <= PAGE_SIZE
             && p.free + Len(s) >= SIZE_TABLE_PAGE_HEADER + SIZE_TUPLE * |p.slots| + |bytes|
             && p'.free == p.free + Len(s) - |bytes| && |p'.slots| == |p.slots|
             && Moved(p.data, p'.data, p.free, s, bytes) && Rewritten(p.slots, p'.slots, order[k], s, |bytes|)
    ensures Replaced(p, p', order, k, bytes)
  {
  }

  lemma MaskedMoved(b: seq<Byte>, b': seq<Byte>, free: nat, s: Slot, bytes: seq<Byte>)
    requires free <= s.offset && s.offset + Len(s) <= |b| == |b'| && |bytes| <= free + Len(s)
    requires Moved(b, b', free, s, bytes)
    ensures Moved(Masked(b, free), Masked(b', free + Len(s) - |bytes|), free, s, bytes)
  {
    var free' := free + Len(s) - |bytes|;
    var lo, hi := s.offset + Len(s) - |bytes|, s.offset + Len(s);
    assert Masked(b', free')[lo..hi] == b'[lo..hi];
  }
}
