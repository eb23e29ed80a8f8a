/** The slotted table page (src/page/table_page.cpp): every operation changes exactly one row of the page, although
    updating and deleting move the bytes of other rows and rewrite their offsets. */
module TablePages {
  import opened Common
  import opened TupleLayout
  import opened SlotBitmaps
  import opened PageBytes
  import PageEdits

  predicate IsLive(s: Slot) { s.occupied && !s.deleted }

  ghost function LiveSlots(slots: seq<Slot>): set<nat> {
    set i: nat | i < |slots| && IsLive(slots[i])
  }

  /** What the table heap knows of a page: its rows, how many slots it has, its free bytes and the longest new row it
      has room for. */
  datatype Summary = Summary(rows: map<nat, Row>, slots: nat, free: nat, room: int)

  ghost predicate HasFreeSlot(p: Page) { exists i: nat :: i < |p.slots| && !p.slots[i].occupied }

  /** The longest row there is room for, in a free slot when there is one. */
  ghost function RoomIn(p: Page): int {
    p.free - SIZE_TABLE_PAGE_HEADER - SIZE_TUPLE * |p.slots| - (if HasFreeSlot(p) then 0 else SIZE_TUPLE)
  }

  class TablePage {
    const data: array<Byte>
    /** The page that the bytes stand for. */
    ghost var page: Page
    /** The occupied slots by address. */
    ghost var order: seq<nat>

    ghost predicate Valid()
      reads this, data
    {
      && Laid(data[..]) && PageOf(data[..]) == page
      && HeadOf(data[..]).live == |LiveSlots(page.slots)|
      && WellLaid(page, order)
    }

    /** The words that link the page to others, page id and lsn: no operation on rows touches them. */
    ghost function Links(): seq<Byte>
      requires data.Length == PAGE_SIZE
      reads data
    {
      HeadOf(data[..]).links
    }

    function GetFreeSpacePointer(): (free: nat)
      requires Valid()
      reads this, data
      ensures free == page.free
    {
      HeadOf(data[..]).free
    }

    function GetTupleCount(): (count: nat)
      requires Valid()
      reads this, data
      ensures count == |page.slots| <= MAX_SLOTS
    {
      HeadOf(data[..]).count
    }

    function GetLiveTupleCount(): (live: nat)
      requires Valid()
      reads this, data
      ensures live == |LiveSlots(page.slots)|
    {
      HeadOf(data[..]).live
    }

    /** GetTupleOffsetAtSlot, GetTupleSize, IsSlotOccupied and IsSlotDeleted. */
    function GetSlot(slot: nat): (s: Slot)
      requires Valid() && slot < |page.slots|
      reads this, data
      ensures s == page.slots[slot]
    {
      SlotAt(data[..], slot)
    }

    function OccupiedBitmap(): (m: Bitmap)
      requires Valid()
      reads this, data
      ensures IsBitmap(m) && forall i :: 0 <= i < |page.slots| ==> Marked(m, i) == page.slots[i].occupied
    {
      BitmapsAreSlots(data[..]);
      BitmapAt(data[..], OFFSET_OCCUPIED_BITMAP)
    }

    function DeletedBitmap(): (m: Bitmap)
      requires Valid()
      reads this, data
      ensures IsBitmap(m) && forall i :: 0 <= i < |page.slots| ==> Marked(m, i) == page.slots[i].deleted
    {
      BitmapsAreSlots(data[..]);
      BitmapAt(data[..], OFFSET_DELETED_BITMAP)
    }

    /** The rows stored in the page, by slot number. */
    ghost function Rows(): map<nat, Row>
      requires Valid()
      reads this, data
    {
      InBounds(page, order);
      TupleLayout.Rows(page)
    }

    ghost function Summarize(): Summary
      requires Valid()
      reads this, data
    {
      Summary(Rows(), |page.slots|, FreeSpaceRemaining(), Room())
    }

    /** The page is well laid and holds what the summary says. */
    ghost predicate Shows(summary: Summary)
      reads this, data
    {
      Valid() && Summarize() == summary
    }

    function FreeSpaceRemaining(): (free: nat)
      requires Valid()
      reads this, data
      ensures free == page.free - SIZE_TABLE_PAGE_HEADER - SIZE_TUPLE * |page.slots|
    {
      GetFreeSpacePointer() - SIZE_TABLE_PAGE_HEADER - SIZE_TUPLE * GetTupleCount()
    }

    ghost function Room(): int
      requires Valid()
      reads this, data
    {
      RoomIn(page)
    }

    constructor Init(buffer: array<Byte>)
      requires buffer.Length == PAGE_SIZE
      modifies buffer
      ensures Valid() && data == buffer && Rows() == map[]
      ensures Room() == PAGE_SIZE - SIZE_TABLE_PAGE_HEADER - SIZE_TUPLE
    {
      PageEdits.Format(buffer);
      data := buffer;
      page, order := PageOf(buffer[..]), [];
    }

    /** A slot for a new row: the first free one, or the next new one. */
    method FindSlot() returns (slot: nat)
      requires Valid()
      ensures slot <= |page.slots| < BITMAP_SLOT_CAPACITY
      ensures slot < |page.slots| ==> !page.slots[slot].occupied
      ensures slot == |page.slots| ==> forall i :: 0 <= i < |page.slots| ==> page.slots[i].occupied
    {
      FewSlots(page, order);
      slot := FindReusableSlot(OccupiedBitmap(), GetTupleCount());
    }

    /** A row of one byte would fit. */
    method CanHostAnyTuple() returns (can: bool)
      requires Valid()
      ensures can <==> Room() >= 1
    {
      var slot := FindSlot();
      var least := if slot < GetTupleCount() then 1 else SIZE_TUPLE + 1;
      can := FreeSpaceRemaining() >= least;
    }

    method InsertTuple(bytes: seq<Byte>) returns (ok: bool, slot: nat)
      requires Valid() && |bytes| > 0
      modifies this, data
      ensures Valid() && Links() == old(Links())
      ensures ok <==> |bytes| <= old(Room())
      ensures ok ==> slot !in old(Rows()) && Rows() == old(Rows())[slot := Row(bytes, false)]
      ensures !ok ==> unchanged(this) && unchanged(data)
    {
      slot := FindSlot();
      var reuse := slot < GetTupleCount();
      if FreeSpaceRemaining() < |bytes| + (if reuse then 0 else SIZE_TUPLE) {
        return false, slot;
      }
      InBounds(page, order);
      PutTuple(slot, bytes);
      ok := true;
    }

    method PutTuple(slot: nat, bytes: seq<Byte>)
      requires Valid() && CanInsert(page, slot, bytes)
      modifies this, data
      ensures Valid() && Links() == old(Links())
      ensures slot !in old(Rows()) && Rows() == old(Rows())[slot := Row(bytes, false)]
    {
      InsertedOk(page, order, slot, bytes);
      InsertedRows(page, order, slot, bytes);
      InsertedLive(page, order, slot, bytes);
      LiveAtMost(page.slots);
      PageEdits.StoreTuple(data, slot, bytes);
      page, order := Inserted(page, slot, bytes), [slot] + order;
    }

    /** The new bytes take the place of the row's old ones, which are handed back. */
    method UpdateTuple(slot: nat, bytes: seq<Byte>) returns (ok: bool, was: seq<Byte>)
      requires Valid() && |bytes| > 0
      modifies this, data
      ensures Valid() && Links() == old(Links())
      ensures ok <==> && slot in old(Rows()) && !old(Rows())[slot].deleted
                      && |bytes| <= old(FreeSpaceRemaining()) + |old(Rows())[slot].bytes|
      ensures ok ==> was == old(Rows())[slot].bytes && Rows() == old(Rows())[slot := Row(bytes, false)]
      ensures !ok ==> unchanged(this) && unchanged(data)
    {
      was := [];
      if slot >= GetTupleCount() || !GetSlot(slot).occupied {
        return false, was;
      }
      SlotFacts(slot);
      var size := GetSlot(slot).raw;
      if IsDeleted(size) || GetSlot(slot).deleted {
        return false, was;
      }
      if FreeSpaceRemaining() + size < |bytes| {
        return false, was;
      }
      var offset := GetSlot(slot).offset;
      was := data[offset..offset + size];
      assert was == Rows()[slot].bytes;
      ReplaceRow(slot, bytes);
      ok := true;
    }

    /** The row and its slot are gone, marked or not; a slot that is already free stays as it is. */
    method ApplyDelete(slot: nat)
      requires Valid() && slot < |page.slots|
      modifies this, data
      ensures Valid() && Links() == old(Links()) && |page.slots| == |old(page.slots)|
      ensures Rows() == old(Rows()) - {slot}
    {
      if !GetSlot(slot).occupied {
        return;
      }
      SlotFacts(slot);
      RemoveRow(slot, !IsDeleted(GetSlot(slot).raw));
    }

    lemma SlotFacts(slot: nat)
      requires Valid() && slot < |page.slots| && page.slots[slot].occupied
      ensures slot in order && slot in Rows() && SlotOk(page.slots[slot])
      ensures var s := page.slots[slot];
              && page.free <= s.offset && s.offset + Len(s) <= data.Length
              && Rows()[slot] == Row(data[s.offset..s.offset + Len(s)], s.deleted)
    {
      InBounds(page, order);
      assert TupleLayout.Rows(page)[slot] == RowAt(page, slot);
      TupleInBuffer(data[..], page.slots[slot]);
    }

    lemma LiveFacts(slot: nat)
      requires Valid() && slot < |page.slots|
      ensures |LiveSlots(page.slots)| <= MAX_SLOTS && (IsLive(page.slots[slot]) ==> |LiveSlots(page.slots)| > 0)
    {
      LiveAtMost(page.slots);
      assert IsLive(page.slots[slot]) ==> slot in LiveSlots(page.slots);
    }

    method ReplaceRow(slot: nat, bytes: seq<Byte>)
      requires Valid() && slot in order && slot < |page.slots| && |bytes| > 0
      requires !page.slots[slot].deleted && |bytes| <= FreeSpaceRemaining() + Len(page.slots[slot])
      modifies this, data
      ensures Valid() && Links() == old(Links()) && Rows() == old(Rows())[slot := Row(bytes, false)]
    {
      ghost var k :| 0 <= k < |order| && order[k] == slot;
      ghost var p := page;
      InBounds(p, order);
      assert GetSlot(slot) == page.slots[slot];
      PageEdits.Replace(data, slot, bytes, order, k);
      page := PageOf(data[..]);
      RowReplaced(p, page, order, k, bytes);
    }

    method RemoveRow(slot: nat, live: bool)
      requires Valid() && slot in order && slot < |page.slots| && live == !page.slots[slot].deleted
      modifies this, data
      ensures Valid() && Links() == old(Links()) && |page.slots| == |old(page.slots)|
      ensures Rows() == old(Rows()) - {slot}
    {
      ghost var k :| 0 <= k < |order| && order[k] == slot;
      ghost var p := page;
      LiveFacts(slot);
      assert GetSlot(slot) == page.slots[slot];
      PageEdits.Replace(data, slot, [], order, k);
      page := PageOf(data[..]);
      RowRemoved(p, page, order, k);
      if live {
        PageEdits.SetLive(data, HeadOf(data[..]).live - 1);
      }
      order := OrderAfter(order, k, []);
    }

    /** A live row is marked deleted. */
    method MarkDelete(slot: nat) returns (ok: bool)
      requires Valid()
      modifies this, data
      ensures Valid() && Links() == old(Links())
      ensures ok <==> slot in old(Rows()) && !old(Rows())[slot].deleted
      ensures Rows() == if ok then old(Rows())[slot := Row(old(Rows())[slot].bytes, true)] else old(Rows())
      ensures Room() == old(Room())
    {
      if slot >= GetTupleCount() || !GetSlot(slot).occupied {
        return false;
      }
      SlotFacts(slot);
      var size := GetSlot(slot).raw;
      if IsDeleted(size) || GetSlot(slot).deleted {
        return false;
      }
      SetFlag(slot, true);
      ok := true;
    }

    /** A row marked deleted is live again; any other slot is left as it is. */
    method RollbackDelete(slot: nat)
      requires Valid() && slot < |page.slots|
      modifies this, data
      ensures Valid() && Links() == old(Links())
      ensures Rows() == if slot in old(Rows()) then old(Rows())[slot := Row(old(Rows())[slot].bytes, false)]
                        else old(Rows())
      ensures Room() == old(Room())
    {
      if !GetSlot(slot).occupied {
        return;
      }
      SlotFacts(slot);
      var size := GetSlot(slot).raw;
      if size != 0 && (IsDeleted(size) || GetSlot(slot).deleted) {
        SetFlag(slot, false);
      }
    }

    /** The delete flag in the size field, the deleted bit and the live count change together. */
    method SetFlag(slot: nat, mark: bool)
      requires Valid() && slot < |page.slots| && page.slots[slot].occupied && page.slots[slot].deleted != mark
      modifies this, data
      ensures Valid() && Links() == old(Links()) && Room() == old(Room()) && slot in old(Rows())
      ensures Rows() == old(Rows())[slot := Row(old(Rows())[slot].bytes, mark)]
    {
      ghost var p := page;
      SlotFacts(slot);
      LiveFacts(slot);
      FlaggedOk(p, order, slot, mark);
      FlaggedRows(p, order, slot, mark);
      FlaggedLive(p, slot, mark);
      assert GetSlot(slot) == page.slots[slot];
      PageEdits.StoreFlag(data, slot, mark);
      page := Flagged(page, slot, mark);
      FlaggedRoom(p, slot, mark);
    }

    /** Exactly the live rows can be read. */
    method GetTuple(slot: nat) returns (ok: bool, bytes: seq<Byte>)
      requires Valid()
      ensures ok <==> slot in Rows() && !Rows()[slot].deleted
      ensures ok ==> bytes == Rows()[slot].bytes
    {
      bytes := [];
      if slot >= GetTupleCount() || !GetSlot(slot).occupied {
        return false, bytes;
      }
      SlotFacts(slot);
      var size := GetSlot(slot).raw;
      if size == 0 || IsDeleted(size) || GetSlot(slot).deleted {
        return false, bytes;
      }
      bytes := data[GetSlot(slot).offset..GetSlot(slot).offset + size];
      ok := true;
    }

    ghost predicate LiveRow(slot: int)
      requires Valid()
      reads this, data
    {
      slot in Rows() && !Rows()[slot].deleted
    }

    /** The first live row, if there is any. */
    method GetFirstTupleRid() returns (found: bool, slot: nat)
      requires Valid()
      ensures found ==> LiveRow(slot) && forall j :: 0 <= j < slot ==> !LiveRow(j)
      ensures !found ==> forall j :: !LiveRow(j)
    {
      if GetLiveTupleCount() == 0 {
        LiveRowsAreLiveSlots();
        return false, 0;
      }
      found, slot := NextLive(0);
    }

    method GetNextTupleRid(after: nat) returns (found: bool, slot: nat)
      requires Valid()
      ensures found ==> LiveRow(slot) && after < slot && forall j :: after < j < slot ==> !LiveRow(j)
      ensures !found ==> forall j :: after < j ==> !LiveRow(j)
    {
      found, slot := NextLive(after + 1);
    }

    method NextLive(start: nat) returns (found: bool, slot: nat)
      requires Valid()
      ensures found ==> start <= slot && LiveRow(slot) && forall j :: start <= j < slot ==> !LiveRow(j)
      ensures !found ==> forall j :: start <= j ==> !LiveRow(j)
    {
      LiveRowsAreLiveSlots();
      ghost var occupied, deleted := OccupiedBitmap(), DeletedBitmap();
      var r := FindLiveSlot(OccupiedBitmap(), DeletedBitmap(), GetTupleCount(), start);
      forall j | start <= j && (r >= 0 ==> j < r) ensures !LiveRow(j) {
        assert j < |page.slots| ==> !Live(occupied, deleted, j);
      }
      found, slot := r >= 0, if r >= 0 then r else 0;
    }

    lemma SlotsFitBitmap()
      requires Valid()
      ensures forall slot <- Rows() :: slot < BITMAP_SLOT_CAPACITY
    {
      FewSlots(page, order);
    }

    lemma LiveRowsAreLiveSlots()
      requires Valid()
      ensures forall j :: LiveRow(j) <==> 0 <= j < |page.slots| && Live(OccupiedBitmap(), DeletedBitmap(), j)
      ensures GetLiveTupleCount() == 0 ==> forall j :: !LiveRow(j)
    {
      forall j ensures LiveRow(j) <==> 0 <= j < |page.slots| && IsLive(page.slots[j])
               ensures LiveRow(j) ==> j in LiveSlots(page.slots)
      {
        if 0 <= j < |page.slots| && page.slots[j].occupied {
          SlotFacts(j);
        }
      }
    }
  }

  lemma {:induction false} LiveAtMost(slots: seq<Slot>)
    ensures |LiveSlots(slots)| <= |slots|
  {
    if slots != [] {
      var n := |slots| - 1;
      LiveAtMost(slots[..n]);
      assert LiveSlots(slots) == LiveSlots(slots[..n]) + (if IsLive(slots[n]) then {n} else {});
    }
  }

  lemma InsertedLive(p: Page, order: seq<nat>, i: nat, bytes: seq<Byte>)
    requires WellLaid(p, order) && CanInsert(p, i, bytes)
    ensures |LiveSlots(Inserted(p, i, bytes).slots)| == |LiveSlots(p.slots)| + 1
  {
    var slots' := Inserted(p, i, bytes).slots;
    assert forall j :: 0 <= j < |p.slots| && j != i ==> slots'[j] == p.slots[j];
    assert LiveSlots(slots') == LiveSlots(p.slots) + {i};
  }

  lemma FlaggedRoom(p: Page, i: nat, mark: bool)
    requires i < |p.slots|
    ensures RoomIn(Flagged(p, i, mark)) == RoomIn(p)
  {
    var p' := Flagged(p, i, mark);
    assert forall j :: 0 <= j < |p.slots| ==> p'.slots[j].occupied == p.slots[j].occupied;
    if HasFreeSlot(p) { var j: nat :| j < |p.slots| && !p.slots[j].occupied; assert !p'.slots[j].occupied; }
  }

  lemma FlaggedLive(p: Page, i: nat, mark: bool)
    requires i < |p.slots| && p.slots[i].occupied && p.slots[i].deleted != mark
    ensures |LiveSlots(Flagged(p, i, mark).slots)| == |LiveSlots(p.slots)| + (if mark then -1 else 1)
  {
    var slots' := Flagged(p, i, mark).slots;
    if mark {
      assert LiveSlots(slots') == LiveSlots(p.slots) - {i};
    } else {
      assert LiveSlots(slots') == LiveSlots(p.slots) + {i};
    }
  }

  lemma RowReplaced(p: Page, p': Page, order: seq<nat>, k: nat, bytes: seq<Byte>)
    requires Replaced(p, p', order, k, bytes) && bytes != [] && !p.slots[order[k]].deleted
    ensures WellLaid(p', order) && RowsReadable(p) && RowsReadable(p')
    ensures TupleLayout.Rows(p') == TupleLayout.Rows(p)[order[k] := Row(bytes, false)]
    ensures LiveSlots(p'.slots) == LiveSlots(p.slots)
  {
    ReplacedOk(p, p', order, k, bytes);
    ReplacedRows(p, p', order, k, bytes);
    ReplacedLive(p, p', order, k, bytes);
  }

  lemma RowRemoved(p: Page, p': Page, order: seq<nat>, k: nat)
    requires Replaced(p, p', order, k, [])
    ensures WellLaid(p', OrderAfter(order, k, [])) && RowsReadable(p) && RowsReadable(p') && |p'.slots| == |p.slots|
    ensures TupleLayout.Rows(p') == TupleLayout.Rows(p) - {order[k]}
    ensures |LiveSlots(p'.slots)| == |LiveSlots(p.slots)| - (if p.slots[order[k]].deleted then 0 else 1)
  {
    ReplacedOk(p, p', order, k, []);
    ReplacedRows(p, p', order, k, []);
    ReplacedLive(p, p', order, k, []);
  }

  lemma ReplacedLive(p: Page, p': Page, order: seq<nat>, k: nat, bytes: seq<Byte>)
    requires Replaced(p, p', order, k, bytes)
    ensures bytes != [] && !p.slots[order[k]].deleted ==> LiveSlots(p'.slots) == LiveSlots(p.slots)
    ensures bytes == [] ==>
              |LiveSlots(p'.slots)| == |LiveSlots(p.slots)| - (if p.slots[order[k]].deleted then 0 else 1)
  {
    var i := order[k];
    forall x | 0 <= x < |p.slots|
      ensures IsLive(p'.slots[x]) == if x == i then bytes != [] else IsLive(p.slots[x])
    {
      if p.slots[x].occupied {
        var j :| 0 <= j < |order| && order[j] == x;
        ReplacedSlot(p, p', order, k, bytes, j);
      } else {
        ReplacedFree(p, p', order, k, bytes, x);
      }
    }
    if bytes == [] {
      assert LiveSlots(p'.slots) == LiveSlots(p.slots) - {i};
    } else {
      assert LiveSlots(p'.slots) == LiveSlots(p.slots) + {i};
    }
  }
}
