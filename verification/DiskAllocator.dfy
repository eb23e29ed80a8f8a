/** Page allocation on disk (src/storage/disk_manager.cpp, src/page/bitmap_page.cpp): extents of pages, each with a
    bitmap page, behind logical page ids. */
module DiskAllocators {
  import opened Common

  const BITMAP_SIZE := 8 * (PAGE_SIZE - 8)
  const MAX_EXTENTS := (PAGE_SIZE - 8) / 4

  /** The bits of a bitmap page, and the counters of the meta page, fill what two header words leave of a page. */
  lemma MetadataFillsPages()
    ensures 2 * 4 + BITMAP_SIZE / 8 == PAGE_SIZE == 2 * 4 + 4 * MAX_EXTENTS
  {
  }

  // ---------------------------------------------------------------- one bitmap page

  ghost function Used(bits: seq<bool>): set<nat> {
    set i: nat | i < |bits| && bits[i]
  }

  datatype Bitmap = Bitmap(bits: seq<bool>, count: nat, next: nat)

  /** The count is the population, and no bit before the hint is free. */
  ghost predicate BitmapOk(b: Bitmap) {
    && b.count == |Used(b.bits)|
    && b.next <= |b.bits| && forall i :: 0 <= i < b.next ==> b.bits[i]
  }

  lemma {:induction false} CountUsed(bits: seq<bool>)
    ensures |Used(bits)| <= |bits|
    ensures |Used(bits)| == |bits| ==> forall i :: 0 <= i < |bits| ==> bits[i]
  {
    if bits != [] {
      var n := |bits| - 1;
      CountUsed(bits[..n]);
      assert Used(bits) == Used(bits[..n]) + (if bits[n] then {n} else {});
    } else {
      assert Used(bits) == {};
    }
  }

  lemma CountChange(bits: seq<bool>, i: nat, on: bool)
    requires i < |bits| && bits[i] != on
    ensures |Used(bits[i := on])| == |Used(bits)| + (if on then 1 else -1)
  {
    if on {
      assert Used(bits[i := on]) == Used(bits) + {i};
    } else {
      assert Used(bits[i := on]) == Used(bits) - {i};
    }
  }

  /** A bitmap page in memory. */
  class BitmapPage {
    var bits: seq<bool>
    var pageAllocated: nat
    var nextFreePage: nat

    ghost function Contents(): Bitmap
      reads this
    {
      Bitmap(bits, pageAllocated, nextFreePage)
    }

    constructor (b: Bitmap)
      ensures Contents() == b
    {
      bits, pageAllocated, nextFreePage := b.bits, b.count, b.next;
    }

    /** The least free page, found from the hint on. */
    method AllocatePage() returns (ok: bool, offset: nat)
      requires BitmapOk(Contents())
      modifies this
      ensures BitmapOk(Contents())
      ensures ok <==> exists i :: 0 <= i < |old(bits)| && !old(bits)[i]
      ensures ok ==> offset < |old(bits)| && !old(bits)[offset] && bits == old(bits)[offset := true]
      ensures ok ==> forall i :: 0 <= i < offset ==> old(bits)[i]
      ensures !ok ==> unchanged(this)
    {
      CountUsed(bits);
      if pageAllocated >= |bits| {
        return false, 0;
      }
      var i := nextFreePage;
      while i < |bits| && bits[i]
        invariant nextFreePage <= i <= |bits| && forall j :: 0 <= j < i ==> bits[j]
      {
        i := i + 1;
      }
      if i == |bits| {
        return false, 0;
      }
      CountChange(bits, i, true);
      bits := bits[i := true];
      pageAllocated := pageAllocated + 1;
      ok, offset := true, i;
      AdvanceHint(i + 1);
    }

    method AdvanceHint(from: nat)
      requires from <= |bits| && forall j :: 0 <= j < from ==> bits[j]
      modifies this`nextFreePage
      ensures nextFreePage <= |bits| && forall j :: 0 <= j < nextFreePage ==> bits[j]
    {
      nextFreePage := from;
      while nextFreePage < |bits| && bits[nextFreePage]
        invariant nextFreePage <= |bits| && forall j :: 0 <= j < nextFreePage ==> bits[j]
      {
        nextFreePage := nextFreePage + 1;
      }
    }

    method DeAllocatePage(offset: nat) returns (ok: bool)
      requires BitmapOk(Contents())
      modifies this
      ensures BitmapOk(Contents())
      ensures ok <==> offset < |old(bits)| && old(bits)[offset]
      ensures bits == if ok then old(bits)[offset := false] else old(bits)
    {
      if offset >= |bits| || !bits[offset] {
        return false;
      }
      CountChange(bits, offset, false);
      bits := bits[offset := false];
      pageAllocated := pageAllocated - 1;
      if offset < nextFreePage {
        nextFreePage := offset;
      }
      ok := true;
    }
  }

  // ---------------------------------------------------------------- the whole file

  function BitmapPageId(extent: nat): nat { 1 + extent * (BITMAP_SIZE + 1) }

  /** The physical page of a logical one. */
  function MapPageId(id: nat): nat { 2 + id / BITMAP_SIZE * (BITMAP_SIZE + 1) + id % BITMAP_SIZE }

  /** Logical pages lie on the disk in their own order, so no two share a physical page. */
  lemma MapPageIdIncreases(a: nat, b: nat)
    requires a < b
    ensures MapPageId(a) < MapPageId(b)
  {
    if a / BITMAP_SIZE < b / BITMAP_SIZE {
      assert a / BITMAP_SIZE + 1 <= b / BITMAP_SIZE;
    }
  }

  /** Data pages keep clear of the meta page and of every bitmap page. */
  lemma MapPageIdAvoidsMetadata(id: nat, extent: nat)
    ensures MapPageId(id) != 0 && MapPageId(id) != BitmapPageId(extent)
  {
  }

  /** A bitmap page stands right in front of the pages of its extent, the first one right behind the meta page. */
  lemma BitmapBeforeItsPages(id: nat)
    ensures BitmapPageId(0) == 1 && MapPageId(Extent(id) * BITMAP_SIZE) == BitmapPageId(Extent(id)) + 1
    ensures BitmapPageId(Extent(id)) < MapPageId(id) < BitmapPageId(Extent(id) + 1)
  {
    assert Extent(id) * BITMAP_SIZE / BITMAP_SIZE == Extent(id) && Extent(id) * BITMAP_SIZE % BITMAP_SIZE == 0;
  }

  /** No other page is wasted: with the two lemmas above, the logical pages are exactly the remaining physical pages, in
      order. */
  lemma MapPageIdLeavesNoGap(page: nat) returns (id: nat)
    requires page != 0 && forall extent: nat :: page != BitmapPageId(extent)
    ensures MapPageId(id) == page
  {
    var extent, place := (page - 1) / (BITMAP_SIZE + 1), (page - 1) % (BITMAP_SIZE + 1);
    assert page != BitmapPageId(extent);
    id := extent * BITMAP_SIZE + place - 1;
    assert id / BITMAP_SIZE == extent && id % BITMAP_SIZE == place - 1;
  }

  function Extent(id: nat): nat { id / BITMAP_SIZE }

  function Offset(id: nat): (r: nat)
    ensures r < BITMAP_SIZE
  {
    id % BITMAP_SIZE
  }

  lemma SplitId(id: nat, extent: nat, offset: nat)
    requires offset < BITMAP_SIZE
    ensures id == extent * BITMAP_SIZE + offset <==> Extent(id) == extent && Offset(id) == offset
    ensures id < extent * BITMAP_SIZE + offset <==>
              Extent(id) < extent || (Extent(id) == extent && Offset(id) < offset)
  {
  }

  function Sum(counts: seq<nat>): nat { if counts == [] then 0 else counts[0] + Sum(counts[1..]) }

  lemma {:induction false} SumChange(counts: seq<nat>, i: nat, x: nat)
    requires i < |counts|
    ensures Sum(counts[i := x]) == Sum(counts) - counts[i] + x
  {
    if i == 0 {
      assert counts[i := x][1..] == counts[1..];
    } else {
      SumChange(counts[1..], i - 1, x);
      assert counts[i := x][1..] == counts[1..][i - 1 := x];
    }
  }

  lemma {:induction false} SumAppend(counts: seq<nat>, x: nat)
    ensures Sum(counts + [x]) == Sum(counts) + x
  {
    if counts != [] {
      SumAppend(counts[1..], x);
      assert (counts + [x])[1..] == counts[1..] + [x];
    }
  }

  ghost predicate ExtentOk(disk: map<nat, Bitmap>, extent: nat, count: nat) {
    && BitmapPageId(extent) in disk
    && var b := disk[BitmapPageId(extent)];
    BitmapOk(b) && |b.bits| == BITMAP_SIZE && b.count == count
  }

  /** Extents, their bitmap pages on disk and the counters of the meta page agree. */
  ghost predicate FileOk(disk: map<nat, Bitmap>, extentUsed: seq<nat>, numAllocated: nat) {
    && (forall e {:trigger ExtentOk(disk, e, extentUsed[e])} :: 0 <= e < |extentUsed| ==>
          ExtentOk(disk, e, extentUsed[e]))
    && numAllocated == Sum(extentUsed)
  }

  /** The bit of a page within an extent; an extent that does not exist yet has no page allocated. */
  ghost predicate Taken(disk: map<nat, Bitmap>, extents: nat, e: nat, offset: nat) {
    && e < extents && BitmapPageId(e) in disk
    && offset < |disk[BitmapPageId(e)].bits| && disk[BitmapPageId(e)].bits[offset]
  }

  /** One bitmap page is rewritten with one bit and its counters changed. */
  lemma FileChanged(disk: map<nat, Bitmap>, extentUsed: seq<nat>, numAllocated: nat,
                    e: nat, b: Bitmap, offset: nat, on: bool)
    requires FileOk(disk, extentUsed, numAllocated) && e < |extentUsed| && ExtentOk(disk, e, extentUsed[e])
    requires BitmapOk(b) && offset < BITMAP_SIZE && disk[BitmapPageId(e)].bits[offset] != on
    requires b.bits == disk[BitmapPageId(e)].bits[offset := on]
    ensures (if on then b.count == extentUsed[e] + 1 else b.count + 1 == extentUsed[e]) && (!on ==> numAllocated > 0)
    ensures FileOk(disk[BitmapPageId(e) := b], extentUsed[e := b.count],
                   if on then numAllocated + 1 else numAllocated - 1)
    ensures forall f: nat, o: nat :: Taken(disk[BitmapPageId(e) := b], |extentUsed|, f, o) <==>
              if f == e && o == offset then on else Taken(disk, |extentUsed|, f, o)
  {
    CountChange(disk[BitmapPageId(e)].bits, offset, on);
    SumChange(extentUsed, e, b.count);
    SumChange(extentUsed, e, 0);
    var disk', used' := disk[BitmapPageId(e) := b], extentUsed[e := b.count];
    forall f | 0 <= f < |used'| ensures ExtentOk(disk', f, used'[f]) {
      assert ExtentOk(disk, f, extentUsed[f]);
    }
    forall f: nat, o: nat ensures Taken(disk', |extentUsed|, f, o) <==>
                                  if f == e && o == offset then on else Taken(disk, |extentUsed|, f, o)
    {
      assert f != e ==> BitmapPageId(f) != BitmapPageId(e);
    }
  }

  /** A new extent whose first page is taken. */
  lemma FileGrown(disk: map<nat, Bitmap>, extentUsed: seq<nat>, numAllocated: nat, b: Bitmap, n: nat, n': nat)
    requires n == |extentUsed| && n' == n + 1
    requires FileOk(disk, extentUsed, numAllocated) && BitmapOk(b) && |b.bits| == BITMAP_SIZE && b.count == 1
    requires forall o :: 0 <= o < BITMAP_SIZE ==> (b.bits[o] <==> o == 0)
    ensures FileOk(disk[BitmapPageId(n) := b], extentUsed + [1], numAllocated + 1)
    ensures forall f: nat, o: nat :: Taken(disk[BitmapPageId(n) := b], n', f, o) <==>
              (f == n && o == 0) || Taken(disk, n, f, o)
  {
    SumAppend(extentUsed, 1);
    var disk', used' := disk[BitmapPageId(n) := b], extentUsed + [1];
    forall f | 0 <= f < |used'| ensures ExtentOk(disk', f, used'[f]) {
      if f < |extentUsed| { assert ExtentOk(disk, f, extentUsed[f]); }
    }
    forall f: nat, o: nat ensures Taken(disk', n', f, o) <==> (f == n && o == 0) || Taken(disk, n, f, o) {
      assert f != n ==> BitmapPageId(f) != BitmapPageId(n);
    }
  }

  class DiskManager {
    /** The bitmap pages, by physical page id. */
    var disk: map<nat, Bitmap>
    var extentUsed: seq<nat>
    var numAllocated: nat

    ghost predicate Valid()
      reads this
    {
      FileOk(disk, extentUsed, numAllocated) && |extentUsed| <= MAX_EXTENTS
    }

    ghost predicate IsAllocated(id: nat)
      reads this
    {
      Taken(disk, |extentUsed|, Extent(id), Offset(id))
    }

    constructor ()
      ensures Valid() && forall id: nat :: !IsAllocated(id)
    {
      disk, extentUsed, numAllocated := map[], [], 0;
    }

    method IsPageFree(id: int) returns (free: bool)
      requires Valid()
      ensures free <==> id >= 0 && !IsAllocated(id)
    {
      if id < 0 {
        return false;
      }
      var e := Extent(id);
      if e >= |extentUsed| {
        return true;
      }
      assert ExtentOk(disk, e, extentUsed[e]);
      free := !disk[BitmapPageId(e)].bits[Offset(id)];
    }

    /** The page with the least free logical id. There has to be room in the meta page for one more extent only if
        every extent is full. */
    method AllocatePage() returns (id: nat)
      requires Valid() && (|extentUsed| < MAX_EXTENTS || !FullUpTo(|extentUsed|))
      modifies this
      ensures Valid() && numAllocated == old(numAllocated) + 1
      ensures !old(IsAllocated(id)) && forall j: nat :: j < id ==> old(IsAllocated(j))
      ensures forall j: nat :: IsAllocated(j) <==> old(IsAllocated(j)) || j == id
    {
      var ok, extent, offset := AllocateInExtents();
      if !ok {
        extent, offset := |extentUsed|, 0;
        AddExtent();
      }
      id := extent * BITMAP_SIZE + offset;
      forall j: nat ensures j == id <==> Extent(j) == extent && Offset(j) == offset
                    ensures j < id <==> Extent(j) < extent || (Extent(j) == extent && Offset(j) < offset)
      {
        SplitId(j, extent, offset);
      }
      assert Extent(id) == extent && Offset(id) == offset;
    }

    /** Every page of the first `upTo` extents is taken. */
    ghost predicate FullUpTo(upTo: nat)
      reads this
    {
      forall e: nat, o: nat :: e < upTo && o < BITMAP_SIZE ==> Taken(disk, |extentUsed|, e, o)
    }

    method AllocateInExtents() returns (ok: bool, extent: nat, offset: nat)
      requires Valid()
      modifies this
      ensures Valid() && |extentUsed| == |old(extentUsed)|
      ensures ok ==> extent < |extentUsed| && offset < BITMAP_SIZE && numAllocated == old(numAllocated) + 1
      ensures ok ==> old(FullUpTo(extent)) && forall o: nat :: o < offset ==> old(Taken(disk, |extentUsed|, extent, o))
      ensures ok ==> !old(Taken(disk, |extentUsed|, extent, offset))
      ensures ok ==> forall f: nat, o: nat :: Taken(disk, |extentUsed|, f, o) <==>
                       (f == extent && o == offset) || old(Taken(disk, |extentUsed|, f, o))
      ensures !ok ==> unchanged(this) && FullUpTo(|extentUsed|)
    {
      for e := 0 to |extentUsed|
        invariant unchanged(this) && FullUpTo(e)
      {
        assert ExtentOk(disk, e, extentUsed[e]);
        CountUsed(disk[BitmapPageId(e)].bits);
        if extentUsed[e] >= BITMAP_SIZE {
          continue;
        }
        var page := new BitmapPage(disk[BitmapPageId(e)]);
        var found, at := page.AllocatePage();
        if found {
          var b := Bitmap(page.bits, page.pageAllocated, page.nextFreePage);
          FileChanged(disk, extentUsed, numAllocated, e, b, at, true);
          disk := disk[BitmapPageId(e) := b];
          numAllocated := numAllocated + 1;
          extentUsed := extentUsed[e := extentUsed[e] + 1];
          return true, e, at;
        }
      }
      ok, extent, offset := false, 0, 0;
    }

    /** A zeroed bitmap page whose first page is allocated at once. */
    method AddExtent()
      requires Valid() && |extentUsed| < MAX_EXTENTS
      modifies this
      ensures Valid() && numAllocated == old(numAllocated) + 1 && |extentUsed| == |old(extentUsed)| + 1
      ensures forall f: nat, o: nat :: Taken(disk, |extentUsed|, f, o) <==>
                (f == |old(extentUsed)| && o == 0) || old(Taken(disk, |extentUsed|, f, o))
    {
      var zero := Bitmap(seq(BITMAP_SIZE, i => false), 0, 0);
      assert Used(zero.bits) == {};
      var page := new BitmapPage(zero);
      var ok, offset := page.AllocatePage();
      assert !zero.bits[0];
      var b := Bitmap(page.bits, page.pageAllocated, page.nextFreePage);
      assert Used(b.bits) == {0};
      FileGrown(disk, extentUsed, numAllocated, b, |extentUsed|, |extentUsed| + 1);
      disk := disk[BitmapPageId(|extentUsed|) := b];
      extentUsed := extentUsed + [1];
      numAllocated := numAllocated + 1;
    }

    /** The page is free afterwards, and every other as before. */
    method DeAllocatePage(id: int)
      requires Valid()
      modifies this
      ensures Valid()
      ensures forall j: nat :: IsAllocated(j) <==> old(IsAllocated(j)) && j != id
      ensures numAllocated == if id >= 0 && old(IsAllocated(id)) then old(numAllocated) - 1 else old(numAllocated)
    {
      if id < 0 {
        return;
      }
      var e, offset := Extent(id), Offset(id);
      forall j: nat ensures j == id <==> Extent(j) == e && Offset(j) == offset {
        SplitId(j, e, offset);
        SplitId(id, e, offset);
      }
      if e >= |extentUsed| {
        return;
      }
      assert ExtentOk(disk, e, extentUsed[e]);
      var page := new BitmapPage(disk[BitmapPageId(e)]);
      var ok := page.DeAllocatePage(offset);
      if !ok {
        return;
      }
      var b := Bitmap(page.bits, page.pageAllocated, page.nextFreePage);
      FileChanged(disk, extentUsed, numAllocated, e, b, offset, false);
      disk := disk[BitmapPageId(e) := b];
      numAllocated := numAllocated - 1;
      extentUsed := extentUsed[e := extentUsed[e] - 1];
    }
  }
}
