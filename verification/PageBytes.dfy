/** The layout of a table page in its 4096 bytes (src/include/page/table_page.h): header words, two bitmaps and the slot
    directory, and the accessors of each. Every setter changes what its own getter reads, and nothing else. */
module PageBytes {
  import opened Common
  import opened Bytes
  import opened TupleLayout
  import opened SlotBitmaps

  const BITMAP_BYTES := BITMAP_WORD_COUNT * 8

  const OFFSET_PREV_PAGE_ID := 8
  const OFFSET_NEXT_PAGE_ID := 12
  const OFFSET_FREE_SPACE := 16
  const OFFSET_TUPLE_COUNT := 20
  const OFFSET_LIVE_TUPLE_COUNT := 24
  const OFFSET_PREV_INSERTABLE_PAGE_ID := 28
  const OFFSET_NEXT_INSERTABLE_PAGE_ID := 32
  const OFFSET_OCCUPIED_BITMAP := 36
  const OFFSET_DELETED_BITMAP := OFFSET_OCCUPIED_BITMAP + BITMAP_BYTES
  const OFFSET_TUPLE_OFFSET := OFFSET_DELETED_BITMAP + BITMAP_BYTES
  const OFFSET_TUPLE_SIZE := OFFSET_TUPLE_OFFSET + 4

  /** As many directory entries as a page could hold. */
  const MAX_SLOTS := (PAGE_SIZE - SIZE_TABLE_PAGE_HEADER) / SIZE_TUPLE

  // ---------------------------------------------------------------- where things lie

  /** The byte ranges of the page in front of its tuples, with their sizes: page id and lsn, the fields above in turn,
      then offset and size of every slot. */
  function RangeAt(j: nat): (nat, nat) {
    if j == 0 then (0, 4)
    else if j == 1 then (4, 4)
    else if j == 2 then (OFFSET_PREV_PAGE_ID, 4)
    else if j == 3 then (OFFSET_NEXT_PAGE_ID, 4)
    else if j == 4 then (OFFSET_FREE_SPACE, 4)
    else if j == 5 then (OFFSET_TUPLE_COUNT, 4)
    else if j == 6 then (OFFSET_LIVE_TUPLE_COUNT, 4)
    else if j == 7 then (OFFSET_PREV_INSERTABLE_PAGE_ID, 4)
    else if j == 8 then (OFFSET_NEXT_INSERTABLE_PAGE_ID, 4)
    else if j == 9 then (OFFSET_OCCUPIED_BITMAP, BITMAP_BYTES)
    else if j == 10 then (OFFSET_DELETED_BITMAP, BITMAP_BYTES)
    else if j % 2 == 1 then (OFFSET_TUPLE_OFFSET + SIZE_TUPLE * ((j - 11) / 2), 4)
    else (OFFSET_TUPLE_SIZE + SIZE_TUPLE * ((j - 11) / 2), 4)
  }

  /** They follow one another without gap or overlap; what comes after `n` slots is where the free space begins; and a
      bitmap has a bit for every slot there can be. */
  lemma HeaderIsTight(j: nat, n: nat)
    ensures RangeAt(0).0 == 0 && RangeAt(j).0 + RangeAt(j).1 == RangeAt(j + 1).0
    ensures RangeAt(11 + 2 * n).0 == SIZE_TABLE_PAGE_HEADER + SIZE_TUPLE * n
    ensures 8 * BITMAP_BYTES == BITMAP_SLOT_CAPACITY > MAX_SLOTS
  {
  }

  // ---------------------------------------------------------------- getters

  function WordAt(b: seq<Byte>, at: nat): nat
    requires at + 4 <= |b|
  {
    Number(b[at..at + 4])
  }

  /** The header words that the page itself works with, and the bytes of those that only link it to other pages. */
  datatype Head = Head(links: seq<Byte>, free: nat, count: nat, live: nat)

  function HeadOf(b: seq<Byte>): Head
    requires |b| == PAGE_SIZE
  {
    Head(b[..OFFSET_FREE_SPACE] + b[OFFSET_PREV_INSERTABLE_PAGE_ID..OFFSET_OCCUPIED_BITMAP],
         WordAt(b, OFFSET_FREE_SPACE), WordAt(b, OFFSET_TUPLE_COUNT), WordAt(b, OFFSET_LIVE_TUPLE_COUNT))
  }

  /** A directory entry and the two bits of its slot. */
  function SlotAt(b: seq<Byte>, i: nat): Slot
    requires |b| == PAGE_SIZE && i < MAX_SLOTS
  {
    Slot(WordAt(b, OFFSET_TUPLE_OFFSET + SIZE_TUPLE * i), WordAt(b, OFFSET_TUPLE_SIZE + SIZE_TUPLE * i),
         BitOf(b, OFFSET_OCCUPIED_BITMAP, i), BitOf(b, OFFSET_DELETED_BITMAP, i))
  }

  /** The 64-bit words of a bitmap. */
  function BitmapAt(b: seq<Byte>, at: nat): (m: Bitmap)
    requires at + BITMAP_BYTES <= |b|
    ensures IsBitmap(m)
    ensures forall i :: 0 <= i < BITMAP_SLOT_CAPACITY ==> Marked(m, i) == BitOf(b, at, i)
  {
    seq(BITMAP_WORD_COUNT, k requires 0 <= k < BITMAP_WORD_COUNT =>
      seq(BITMAP_WORD_BITS, i requires 0 <= i < BITMAP_WORD_BITS => BitOf(b, at, k * BITMAP_WORD_BITS + i)))
  }

  // ---------------------------------------------------------------- setters

  /** The two buffers differ at most in the `size` bytes from `at` on. */
  ghost predicate DifferIn(b: seq<Byte>, b': seq<Byte>, at: nat, size: nat) {
    |b'| == |b| && forall x :: 0 <= x < |b| && !(at <= x < at + size) ==> b'[x] == b[x]
  }

  lemma WordSame(b: seq<Byte>, b': seq<Byte>, at: nat, size: nat, word: nat)
    requires DifferIn(b, b', at, size) && word + 4 <= |b| && (word + 4 <= at || at + size <= word)
    ensures WordAt(b', word) == WordAt(b, word)
  {
    assert b'[word..word + 4] == b[word..word + 4];
  }

  method SetWord(buf: array<Byte>, at: nat, v: nat)
    requires at + 4 <= buf.Length && v < 0x1_0000_0000
    modifies buf
    ensures WordAt(buf[..], at) == v && DifferIn(old(buf[..]), buf[..], at, 4)
  {
    WordNumber(v, []);
    assert (Little(v, 4) + [])[..4] == Little(v, 4);
    WriteAt(buf, at, Little(v, 4));
    assert buf[..][at..at + 4] == Little(v, 4);
  }

  /** The first `n` slots have not changed. */
  ghost predicate SameSlots(b: seq<Byte>, b': seq<Byte>, n: nat)
    requires |b| == |b'| == PAGE_SIZE && n <= MAX_SLOTS
  {
    forall i {:trigger SlotAt(b', i)} :: 0 <= i < n ==> SlotAt(b', i) == SlotAt(b, i)
  }

  /** Slot `slot` has become `s`, and no other slot has changed. */
  ghost predicate SlotSet(b: seq<Byte>, b': seq<Byte>, slot: nat, s: Slot)
    requires |b| == |b'| == PAGE_SIZE
  {
    forall i {:trigger SlotAt(b', i)} :: 0 <= i < MAX_SLOTS ==> SlotAt(b', i) == if i == slot then s else SlotAt(b, i)
  }

  /** The header words end where the bitmaps begin. */
  lemma HeadApart(b: seq<Byte>, b': seq<Byte>, at: nat, size: nat)
    requires |b| == PAGE_SIZE && DifferIn(b, b', at, size) && OFFSET_OCCUPIED_BITMAP <= at
    ensures HeadOf(b') == HeadOf(b)
  {
    WordSame(b, b', at, size, OFFSET_FREE_SPACE);
    WordSame(b, b', at, size, OFFSET_TUPLE_COUNT);
    WordSame(b, b', at, size, OFFSET_LIVE_TUPLE_COUNT);
    assert b'[..OFFSET_FREE_SPACE] == b[..OFFSET_FREE_SPACE];
    assert b'[OFFSET_PREV_INSERTABLE_PAGE_ID..OFFSET_OCCUPIED_BITMAP] ==
           b[OFFSET_PREV_INSERTABLE_PAGE_ID..OFFSET_OCCUPIED_BITMAP];
  }

  /** What lies outside the bitmaps and a slot's directory entry does not concern the slot. */
  lemma SlotApart(b: seq<Byte>, b': seq<Byte>, at: nat, size: nat, i: nat)
    requires |b| == PAGE_SIZE && DifferIn(b, b', at, size) && i < MAX_SLOTS
    requires at + size <= OFFSET_OCCUPIED_BITMAP || OFFSET_TUPLE_OFFSET <= at
    requires at + size <= OFFSET_TUPLE_OFFSET + SIZE_TUPLE * i || OFFSET_TUPLE_OFFSET + SIZE_TUPLE * (i + 1) <= at
    ensures SlotAt(b', i) == SlotAt(b, i)
  {
    WordSame(b, b', at, size, OFFSET_TUPLE_OFFSET + SIZE_TUPLE * i);
    WordSame(b, b', at, size, OFFSET_TUPLE_SIZE + SIZE_TUPLE * i);
  }

  /** One of the header words of the page itself. */
  method SetHeadWord(buf: array<Byte>, at: nat, v: nat)
    requires buf.Length == PAGE_SIZE && v < 0x1_0000_0000
    requires at in {OFFSET_FREE_SPACE, OFFSET_TUPLE_COUNT, OFFSET_LIVE_TUPLE_COUNT}
    modifies buf
    ensures var head := HeadOf(old(buf[..]));
            HeadOf(buf[..]) == if at == OFFSET_FREE_SPACE then head.(free := v)
                               else if at == OFFSET_TUPLE_COUNT then head.(count := v) else head.(live := v)
    ensures SameSlots(old(buf[..]), buf[..], MAX_SLOTS) && DifferIn(old(buf[..]), buf[..], at, 4)
  {
    ghost var b := buf[..];
    SetWord(buf, at, v);
    if at != OFFSET_FREE_SPACE { WordSame(b, buf[..], at, 4, OFFSET_FREE_SPACE); }
    if at != OFFSET_TUPLE_COUNT { WordSame(b, buf[..], at, 4, OFFSET_TUPLE_COUNT); }
    if at != OFFSET_LIVE_TUPLE_COUNT { WordSame(b, buf[..], at, 4, OFFSET_LIVE_TUPLE_COUNT); }
    assert buf[..][..OFFSET_FREE_SPACE] == b[..OFFSET_FREE_SPACE];
    assert buf[..][OFFSET_PREV_INSERTABLE_PAGE_ID..OFFSET_OCCUPIED_BITMAP] ==
           b[OFFSET_PREV_INSERTABLE_PAGE_ID..OFFSET_OCCUPIED_BITMAP];
    forall i | 0 <= i < MAX_SLOTS ensures SlotAt(buf[..], i) == SlotAt(b, i) {
      SlotApart(b, buf[..], at, 4, i);
    }
  }

  method SetTupleOffsetAtSlot(buf: array<Byte>, slot: nat, v: nat)
    requires buf.Length == PAGE_SIZE && slot < MAX_SLOTS && v < 0x1_0000_0000
    modifies buf
    ensures SlotSet(old(buf[..]), buf[..], slot, SlotAt(old(buf[..]), slot).(offset := v))
    ensures HeadOf(buf[..]) == HeadOf(old(buf[..]))
    ensures DifferIn(old(buf[..]), buf[..], OFFSET_TUPLE_OFFSET + SIZE_TUPLE * slot, 4)
  {
    ghost var b := buf[..];
    var at := OFFSET_TUPLE_OFFSET + SIZE_TUPLE * slot;
    SetWord(buf, at, v);
    HeadApart(b, buf[..], at, 4);
    WordSame(b, buf[..], at, 4, OFFSET_TUPLE_SIZE + SIZE_TUPLE * slot);
    forall i | 0 <= i < MAX_SLOTS && i != slot ensures SlotAt(buf[..], i) == SlotAt(b, i) {
      SlotApart(b, buf[..], at, 4, i);
    }
  }

  method SetTupleSize(buf: array<Byte>, slot: nat, v: nat)
    requires buf.Length == PAGE_SIZE && slot < MAX_SLOTS && v < 0x1_0000_0000
    modifies buf
    ensures SlotSet(old(buf[..]), buf[..], slot, SlotAt(old(buf[..]), slot).(raw := v))
    ensures HeadOf(buf[..]) == HeadOf(old(buf[..]))
    ensures DifferIn(old(buf[..]), buf[..], OFFSET_TUPLE_SIZE + SIZE_TUPLE * slot, 4)
  {
    ghost var b := buf[..];
    var at := OFFSET_TUPLE_SIZE + SIZE_TUPLE * slot;
    SetWord(buf, at, v);
    HeadApart(b, buf[..], at, 4);
    WordSame(b, buf[..], at, 4, OFFSET_TUPLE_OFFSET + SIZE_TUPLE * slot);
    forall i | 0 <= i < MAX_SLOTS && i != slot ensures SlotAt(buf[..], i) == SlotAt(b, i) {
      SlotApart(b, buf[..], at, 4, i);
    }
  }

  method SetSlotOccupied(buf: array<Byte>, slot: nat, occupied: bool)
    requires buf.Length == PAGE_SIZE && slot < MAX_SLOTS
    modifies buf
    ensures SlotSet(old(buf[..]), buf[..], slot, SlotAt(old(buf[..]), slot).(occupied := occupied))
    ensures HeadOf(buf[..]) == HeadOf(old(buf[..]))
    ensures DifferIn(old(buf[..]), buf[..], OFFSET_OCCUPIED_BITMAP, BITMAP_BYTES)
  {
    ghost var b := buf[..];
    SetBit(buf, OFFSET_OCCUPIED_BITMAP, slot, occupied);
    HeadApart(b, buf[..], OFFSET_OCCUPIED_BITMAP, BITMAP_BYTES);
    forall i | 0 <= i < MAX_SLOTS
      ensures SlotAt(buf[..], i) == if i == slot then SlotAt(b, i).(occupied := occupied) else SlotAt(b, i)
    {
      WordSame(b, buf[..], OFFSET_OCCUPIED_BITMAP, BITMAP_BYTES, OFFSET_TUPLE_OFFSET + SIZE_TUPLE * i);
      WordSame(b, buf[..], OFFSET_OCCUPIED_BITMAP, BITMAP_BYTES, OFFSET_TUPLE_SIZE + SIZE_TUPLE * i);
    }
  }

  method SetSlotDeleted(buf: array<Byte>, slot: nat, deleted: bool)
    requires buf.Length == PAGE_SIZE && slot < MAX_SLOTS
    modifies buf
    ensures SlotSet(old(buf[..]), buf[..], slot, SlotAt(old(buf[..]), slot).(deleted := deleted))
    ensures HeadOf(buf[..]) == HeadOf(old(buf[..]))
    ensures DifferIn(old(buf[..]), buf[..], OFFSET_DELETED_BITMAP, BITMAP_BYTES)
  {
    ghost var b := buf[..];
    SetBit(buf, OFFSET_DELETED_BITMAP, slot, deleted);
    HeadApart(b, buf[..], OFFSET_DELETED_BITMAP, BITMAP_BYTES);
    forall i | 0 <= i < MAX_SLOTS
      ensures SlotAt(buf[..], i) == if i == slot then SlotAt(b, i).(deleted := deleted) else SlotAt(b, i)
    {
      WordSame(b, buf[..], OFFSET_DELETED_BITMAP, BITMAP_BYTES, OFFSET_TUPLE_OFFSET + SIZE_TUPLE * i);
      WordSame(b, buf[..], OFFSET_DELETED_BITMAP, BITMAP_BYTES, OFFSET_TUPLE_SIZE + SIZE_TUPLE * i);
    }
  }

  // ---------------------------------------------------------------- the page that the bytes stand for

  predicate Laid(b: seq<Byte>) {
    |b| == PAGE_SIZE && HeadOf(b).count <= MAX_SLOTS && HeadOf(b).free <= PAGE_SIZE
  }

  function SlotsIn(b: seq<Byte>): (r: seq<Slot>)
    requires Laid(b)
    ensures |r| == HeadOf(b).count
    ensures forall i {:trigger SlotAt(b, i)} :: 0 <= i < HeadOf(b).count ==> r[i] == SlotAt(b, i)
  {
    FirstSlots(b, HeadOf(b).count)
  }

  function FirstSlots(b: seq<Byte>, n: nat): (r: seq<Slot>)
    requires |b| == PAGE_SIZE && n <= MAX_SLOTS
    ensures |r| == n
    ensures forall i {:trigger SlotAt(b, i)} :: 0 <= i < n ==> r[i] == SlotAt(b, i)
  {
    if n == 0 then [] else FirstSlots(b, n - 1) + [SlotAt(b, n - 1)]
  }

  /** Two directories that agree slot by slot are the same. */
  lemma SameDirectory(b: seq<Byte>, slots: seq<Slot>)
    requires Laid(b) && |slots| == HeadOf(b).count
    requires forall i {:trigger SlotAt(b, i)} :: 0 <= i < |slots| ==> slots[i] == SlotAt(b, i)
    ensures SlotsIn(b) == slots
  {
    forall i | 0 <= i < |slots| ensures SlotsIn(b)[i] == slots[i] {
      assert SlotsIn(b)[i] == SlotAt(b, i);
    }
  }

  /** The bitmaps say of every slot what its own two bits say. */
  lemma BitmapsAreSlots(b: seq<Byte>)
    requires Laid(b)
    ensures forall i :: 0 <= i < HeadOf(b).count ==>
              Marked(BitmapAt(b, OFFSET_OCCUPIED_BITMAP), i) == SlotsIn(b)[i].occupied
    ensures forall i :: 0 <= i < HeadOf(b).count ==>
              Marked(BitmapAt(b, OFFSET_DELETED_BITMAP), i) == SlotsIn(b)[i].deleted
  {
    forall i | 0 <= i < HeadOf(b).count
      ensures Marked(BitmapAt(b, OFFSET_OCCUPIED_BITMAP), i) == SlotsIn(b)[i].occupied
      ensures Marked(BitmapAt(b, OFFSET_DELETED_BITMAP), i) == SlotsIn(b)[i].deleted
    {
      assert SlotsIn(b)[i] == SlotAt(b, i);
    }
  }

  /** What is in front of the free space pointer is no part of any tuple. */
  function Masked(b: seq<Byte>, free: nat): seq<Byte>
    requires free <= |b|
  {
    Zeros(free) + b[free..]
  }

  function PageOf(b: seq<Byte>): Page
    requires Laid(b)
  {
    Page(Masked(b, HeadOf(b).free), HeadOf(b).free, SlotsIn(b))
  }

  /** A tuple lies behind the free space pointer and reads the same in the buffer. */
  lemma TupleInBuffer(b: seq<Byte>, s: Slot)
    requires Laid(b) && HeadOf(b).free <= s.offset && s.offset + Len(s) <= PAGE_SIZE
    ensures Tuple(PageOf(b).data, s) == b[s.offset..s.offset + Len(s)]
  {
  }
}
