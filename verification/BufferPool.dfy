/** src/buffer/buffer_pool_manager.cpp: a fixed number of frames in front of the disk. To its clients the pool is a
    plain store of pages; which pages are in memory does not show. */
module BufferPools {
  import opened Common
  import opened LruReplacers

  type Data = seq<Byte>

  /** What Page::ResetMemory leaves. */
  function ZeroPage(): Data { Zeros(PAGE_SIZE) }

  datatype Frame = Frame(page: PageId, pins: nat, dirty: bool, data: Data)

  /** What the disk returns for a page never written: zeroes. */
  function ReadDisk(disk: map<PageId, Data>, p: PageId): Data {
    if p in disk then disk[p] else ZeroPage()
  }

  datatype Pool = Pool(frames: seq<Frame>, table: map<PageId, FrameId>, free: seq<FrameId>, lru: seq<FrameId>)

  /** The content of a page as a client would see it. */
  ghost function Contents(pool: Pool, disk: map<PageId, Data>, p: PageId): Data {
    if p in pool.table && pool.table[p] < |pool.frames| then pool.frames[pool.table[p]].data else ReadDisk(disk, p)
  }

  /** One frame: free and blank, or holding a page that the page table maps back to it; in the replacer exactly
      when it holds an unpinned page; and if neither dirty nor owed a dirty unpin, equal to the disk. */
  ghost predicate FrameOk(pool: Pool, disk: map<PageId, Data>, owed: set<PageId>, f: FrameId)
    requires f < |pool.frames|
  {
    var frame := pool.frames[f];
    && (f in pool.free <==> frame.page == INVALID_PAGE_ID)
    && (f in pool.lru <==> frame.page != INVALID_PAGE_ID && frame.pins == 0)
    && (frame.page == INVALID_PAGE_ID ==> frame.pins == 0 && !frame.dirty)
    && (frame.page != INVALID_PAGE_ID ==> frame.page in pool.table && pool.table[frame.page] == f)
    && (frame.page != INVALID_PAGE_ID && !frame.dirty && frame.page !in owed ==>
        frame.data == ReadDisk(disk, frame.page))
    && (frame.page in owed ==> frame.pins > 0 && !frame.dirty)
  }

  ghost predicate PoolOk(pool: Pool, disk: map<PageId, Data>, owed: set<PageId>) {
    && (forall f {:trigger FrameOk(pool, disk, owed, f)} :: 0 <= f < |pool.frames| ==> FrameOk(pool, disk, owed, f))
    && (forall p :: p in pool.table ==> pool.table[p] < |pool.frames| && pool.frames[pool.table[p]].page == p)
    && Distinct(pool.free) && Distinct(pool.lru)
    && (forall f :: f in pool.free || f in pool.lru ==> f < |pool.frames|)
    && INVALID_PAGE_ID !in pool.table && owed <= pool.table.Keys
  }

  // ---------------------------------------------------------------- what each step does to the pool

  /** TryToFindFreePage picks `f`: from the front of the free list if there is one, else from the replacer. */
  ghost predicate Candidate(pool: Pool, f: FrameId) {
    if pool.free != [] then f == pool.free[0] else pool.lru != [] && f == pool.lru[0]
  }

  ghost function Taken(pool: Pool): Pool
    requires pool.free != [] || pool.lru != []
  {
    if pool.free != [] then pool.(free := pool.free[1..]) else pool.(lru := pool.lru[1..])
  }

  /** The write-back of a dirty victim. */
  function WrittenBack(frame: Frame, disk: map<PageId, Data>): map<PageId, Data> {
    if frame.dirty then disk[frame.page := frame.data] else disk
  }

  /** Frame `f`, just picked, now holds page `p` with one pin. */
  ghost function Installed(pool: Pool, f: FrameId, p: PageId, data: Data): Pool
    requires Candidate(pool, f) && f < |pool.frames|
  {
    Taken(pool).(frames := pool.frames[f := Frame(p, 1, false, data)],
                 table := (pool.table - {pool.frames[f].page})[p := f])
  }

  /** The frame picked is in one list only, and no longer in it afterwards. */
  lemma TakenFacts(pool: Pool, f: FrameId)
    requires Distinct(pool.free) && Distinct(pool.lru) && Candidate(pool, f)
    ensures Distinct(Taken(pool).free) && Distinct(Taken(pool).lru)
    ensures forall g :: g in Taken(pool).free <==> g in pool.free && (pool.free != [] ==> g != f)
    ensures forall g :: g in Taken(pool).lru <==> g in pool.lru && (pool.free == [] ==> g != f)
    ensures f in pool.free || f in pool.lru
  {
    if pool.free != [] { TailFacts(pool.free); } else { TailFacts(pool.lru); }
  }

  /** Eviction and reuse: the pool stays consistent, */
  lemma InstalledOk(pool: Pool, disk: map<PageId, Data>, owed: set<PageId>, f: FrameId, p: PageId, data: Data,
                    owed': set<PageId>)
    requires PoolOk(pool, disk, owed) && Candidate(pool, f) && f < |pool.frames|
    requires p !in pool.table && p != INVALID_PAGE_ID
    requires (owed' == owed && data == ReadDisk(disk, p)) || owed' == owed + {p}
    ensures PoolOk(Installed(pool, f, p, data), WrittenBack(pool.frames[f], disk), owed')
  {
    assert FrameOk(pool, disk, owed, f);
    TakenFacts(pool, f);
    var pool', disk' := Installed(pool, f, p, data), WrittenBack(pool.frames[f], disk);
    forall g | 0 <= g < |pool'.frames| ensures FrameOk(pool', disk', owed', g) {
      assert FrameOk(pool, disk, owed, g);
    }
  }

  /** and no page but `p` changes for its clients. */
  lemma InstalledContents(pool: Pool, disk: map<PageId, Data>, owed: set<PageId>, f: FrameId,
                          p: PageId, data: Data, q: PageId)
    requires PoolOk(pool, disk, owed) && Candidate(pool, f) && f < |pool.frames|
    requires p !in pool.table && p != INVALID_PAGE_ID
    ensures Contents(Installed(pool, f, p, data), WrittenBack(pool.frames[f], disk), q)
            == if q == p then data else Contents(pool, disk, q)
    ensures ReadDisk(WrittenBack(pool.frames[f], disk), p) == ReadDisk(disk, p)
  {
    assert FrameOk(pool, disk, owed, f);
    TakenFacts(pool, f);
  }

  class BufferPool {
    const replacer: LruReplacer
    var frames: seq<Frame>
    var pageTable: map<PageId, FrameId>
    var freeList: seq<FrameId>
    var disk: map<PageId, Data>
    var inUse: set<PageId>

    /** The plain page store that the pool stands for. */
    ghost var store: map<PageId, Data>
    /** Pages changed in memory whose frames are not marked dirty: their clients owe a dirty unpin or a flush. */
    ghost var owed: set<PageId>

    ghost function St(): Pool
      reads this, replacer
    {
      Pool(frames, pageTable, freeList, replacer.list)
    }

    ghost predicate Valid()
      reads this, replacer
    {
      && replacer.Valid()
      && PoolOk(St(), disk, owed)
      && pageTable.Keys <= inUse && store.Keys == inUse && INVALID_PAGE_ID !in inUse
      && forall p :: p in inUse ==> store[p] == Contents(St(), disk, p)
    }

    /** How many pins a page has. */
    ghost function Pins(p: PageId): nat
      requires p in pageTable ==> pageTable[p] < |frames|
      reads this
    {
      if p in pageTable then frames[pageTable[p]].pins else 0
    }

    constructor (poolSize: nat)
      ensures Valid() && fresh(replacer) && store == map[] && |frames| == poolSize && disk == map[]
    {
      replacer := new LruReplacer();
      frames := seq(poolSize, i => Frame(INVALID_PAGE_ID, 0, false, ZeroPage()));
      freeList := seq(poolSize, i => i);
      pageTable, disk, inUse, store, owed := map[], map[], {}, map[], {};
      new;
      forall f | 0 <= f < |frames| ensures FrameOk(St(), disk, owed, f) {
        assert freeList[f] == f;
      }
    }

    /** TryToFindFreePage and the write-back of what was in the frame. */
    method TakeFrame() returns (found: bool, f: FrameId)
      requires Valid()
      modifies this`freeList, this`disk, replacer
      ensures replacer.Valid()
      ensures found <==> old(freeList) != [] || old(replacer.list) != []
      ensures found ==> Candidate(old(St()), f) && f < |frames| && St() == Taken(old(St()))
      ensures old(freeList) != [] ==> f == old(freeList)[0] && replacer.list == old(replacer.list)
      ensures found && old(freeList) == [] ==> Longest(old(replacer.uses), f)
      ensures found ==> disk == WrittenBack(frames[f], old(disk))
      ensures !found ==> St() == old(St()) && disk == old(disk)
    {
      if freeList != [] {
        f := freeList[0];
        freeList := freeList[1..];
        found := true;
      } else {
        found, f := replacer.Victim();
      }
      if found { TakenFacts(old(St()), f); }
      if found && frames[f].dirty {
        disk := disk[frames[f].page := frames[f].data];
      }
    }

    /** Pages that somebody has pinned stay in their frames with their pins. */
    twostate predicate PinnedKept(but: PageId)
      reads this
    {
      forall q :: q in old(pageTable) && q != but && old(pageTable[q]) < |old(frames)| &&
                  old(frames[pageTable[q]].pins) > 0 ==>
        && q in pageTable && pageTable[q] == old(pageTable[q]) && pageTable[q] < |frames|
        && frames[pageTable[q]] == old(frames[pageTable[q]])
    }

    /** Frame `f`, just taken, is given to page `p`. */
    method Install(f: FrameId, p: PageId, data: Data,
                   ghost before: Pool, ghost disk0: map<PageId, Data>, ghost debt: set<PageId>)
      requires replacer.Valid() && PoolOk(before, disk0, owed) && Candidate(before, f) && f < |frames|
      requires St() == Taken(before) && disk == WrittenBack(before.frames[f], disk0)
      requires p !in pageTable && p != INVALID_PAGE_ID
      requires (debt == owed && data == ReadDisk(disk, p)) || debt == owed + {p}
      modifies this`frames, this`pageTable, this`owed
      ensures PoolOk(St(), disk, owed) && owed == debt
      ensures p in pageTable && pageTable[p] < |frames| && frames[pageTable[p]] == Frame(p, 1, false, data)
      ensures pageTable.Keys <= old(pageTable.Keys) + {p}
      ensures forall q :: Contents(St(), disk, q) == if q == p then data else Contents(before, disk0, q)
      ensures PinnedKept(p) && ReadDisk(disk, p) == ReadDisk(disk0, p)
    {
      InstalledContents(before, disk0, owed, f, p, data, p);
      forall q ensures Contents(Installed(before, f, p, data), disk, q) ==
               if q == p then data else Contents(before, disk0, q) {
        InstalledContents(before, disk0, owed, f, p, data, q);
      }
      InstalledOk(before, disk0, owed, f, p, data, debt);
      assert FrameOk(before, disk0, owed, f);
      TakenFacts(before, f);
      pageTable := (pageTable - {frames[f].page})[p := f];
      frames := frames[f := Frame(p, 1, false, data)];
      owed := debt;
      assert St() == Installed(before, f, p, data);
    }

    /** The page in frame `f` gets one more pin. */
    method PinFrame(f: FrameId) returns (data: Data)
      requires replacer.Valid() && PoolOk(St(), disk, owed) && f < |frames| && frames[f].page != INVALID_PAGE_ID
      modifies this`frames, replacer
      ensures replacer.Valid() && PoolOk(St(), disk, owed) && data == old(frames)[f].data
      ensures frames == old(frames)[f := old(frames)[f].(pins := old(frames)[f].pins + 1)]
      ensures forall q :: Contents(St(), disk, q) == old(Contents(St(), disk, q))
    {
      PinnedOk(St(), disk, owed, f);
      frames := frames[f := frames[f].(pins := frames[f].pins + 1)];
      replacer.Pin(f);
      data := frames[f].data;
    }

    /** A page that was never allocated is fetched all the same; the pool is then no longer a store of the allocated
        pages, for a later NewPage may hand out the same id. */
    method FetchPage(p: PageId) returns (ok: bool, data: Data)
      requires Valid() && p != INVALID_PAGE_ID
      modifies this, replacer
      ensures Valid() <==> p in inUse || !ok
      ensures PoolOk(St(), disk, owed) && store == old(store) && inUse == old(inUse) && owed == old(owed)
      ensures ok <==> p in old(pageTable) || old(freeList) != [] || old(replacer.list) != []
      ensures ok ==> data == old(Contents(St(), disk, p)) && (p in inUse ==> data == store[p])
      ensures ok ==> p in pageTable && Pins(p) == old(Pins(p)) + 1
      ensures PinnedKept(p)
    {
      if p in pageTable {
        data := PinFrame(pageTable[p]);
        return true, data;
      }
      ghost var before, disk0 := St(), disk;
      var found, f := TakeFrame();
      if !found {
        return false, [];
      }
      Install(f, p, ReadDisk(disk, p), before, disk0, owed);
      return true, frames[pageTable[p]].data;
    }

    /** The new page is zeroed in memory only; its client owes a dirty unpin. */
    method NewPage() returns (ok: bool, p: PageId)
      requires Valid()
      modifies this, replacer
      ensures Valid()
      ensures ok <==> old(freeList) != [] || old(replacer.list) != []
      ensures ok ==> p !in old(inUse) && p > INVALID_PAGE_ID && inUse == old(inUse) + {p}
      ensures ok ==> store == old(store)[p := ZeroPage()] && owed == old(owed) + {p} && p in pageTable && Pins(p) == 1
      ensures !ok ==> store == old(store) && inUse == old(inUse) && owed == old(owed)
      ensures PinnedKept(p)
    {
      p := INVALID_PAGE_ID;
      ghost var before, disk0 := St(), disk;
      var found, f := TakeFrame();
      if !found {
        return false, p;
      }
      p := AllocatePage();
      Install(f, p, ZeroPage(), before, disk0, owed + {p});
      store := store[p := ZeroPage()];
      return true, p;
    }

    /** The disk manager hands out an id that is not in use. */
    method AllocatePage() returns (p: PageId)
      modifies this`inUse
      ensures p !in old(inUse) && p > INVALID_PAGE_ID && inUse == old(inUse) + {p}
    {
      ghost var unused := UnusedPage(inUse);
      p :| p > INVALID_PAGE_ID && p !in inUse;
      inUse := inUse + {p};
    }

    /** A client changes a page it has pinned. */
    method Write(p: PageId, data: Data)
      requires Valid() && p in pageTable && Pins(p) > 0
      modifies this
      ensures Valid() && store == old(store)[p := data] && inUse == old(inUse)
      ensures owed == if old(frames[pageTable[p]].dirty) then old(owed) else old(owed) + {p}
      ensures Pins(p) == old(Pins(p)) && p in pageTable && PinnedKept(p)
    {
      var f := pageTable[p];
      WriteOk(St(), disk, owed, f, data);
      frames := frames[f := frames[f].(data := data)];
      store := store[p := data];
      owed := if frames[f].dirty then owed else owed + {p};
    }

    /** Whoever changed the page must unpin it as dirty, at the latest with the last unpin: the pool still refines the
        store if and only if that rule is kept. */
    method UnpinPage(p: PageId, isDirty: bool) returns (ok: bool)
      requires Valid()
      modifies this, replacer
      ensures Valid() <==> !(p in old(owed) && !isDirty && old(Pins(p)) == 1)
      ensures store == old(store) && inUse == old(inUse)
      ensures ok <==> p in old(pageTable) && old(Pins(p)) > 0
      ensures pageTable == old(pageTable) && |frames| == |old(frames)|
      ensures ok ==> Pins(p) == old(Pins(p)) - 1
      ensures owed == if ok && isDirty then old(owed) - {p} else old(owed)
      ensures PinnedKept(p)
    {
      if p !in pageTable {
        return false;
      }
      var f := pageTable[p];
      if frames[f].pins <= 0 {
        return false;
      }
      ghost var broken := p in owed && !isDirty && frames[f].pins == 1;
      if !broken { UnpinnedOk(St(), disk, owed, f, isDirty); }
      ReleaseFrame(f, isDirty);
      owed := if isDirty then owed - {p} else owed;
      assert broken ==> !FrameOk(St(), disk, owed, f);
      return true;
    }

    method ReleaseFrame(f: FrameId, isDirty: bool)
      requires replacer.Valid() && f < |frames| && frames[f].pins > 0
      modifies this`frames, replacer
      ensures replacer.Valid() && St() == Unpinned(old(St()), f, isDirty)
    {
      frames := frames[f := frames[f].(pins := frames[f].pins - 1, dirty := frames[f].dirty || isDirty)];
      if frames[f].pins == 0 {
        replacer.Unpin(f);
      }
    }

    /** A page is written to disk; it stays where it is. */
    method FlushPage(p: PageId) returns (ok: bool)
      requires Valid()
      modifies this
      ensures Valid() && store == old(store) && inUse == old(inUse)
      ensures ok <==> p in old(pageTable)
      ensures ok ==> disk == old(disk)[p := store[p]] && owed == old(owed) - {p} && Pins(p) == old(Pins(p))
      ensures !ok ==> disk == old(disk) && owed == old(owed)
      ensures PinnedKept(p)
    {
      if p !in pageTable {
        return false;
      }
      var f := pageTable[p];
      FlushedOk(St(), disk, owed, f);
      disk := disk[p := frames[f].data];
      frames := frames[f := frames[f].(dirty := false)];
      owed := owed - {p};
      return true;
    }

    /** A page that is in memory and not pinned is blanked and its frame put on the free list, without leaving the
        replacer; and the page is deallocated even when it is pinned. The pool is still consistent afterwards exactly
        when the page was not in memory. */
    method DeletePage(p: PageId) returns (ok: bool)
      requires Valid()
      modifies this
      ensures ok <==> p !in old(pageTable) || old(Pins(p)) == 0
      ensures inUse == old(inUse) - {p} && store == old(store) - {p}
      ensures Valid() <==> p !in old(pageTable)
      ensures p in old(pageTable) && ok ==> old(pageTable[p]) in freeList && old(pageTable[p]) in replacer.list
    {
      inUse := inUse - {p};
      store := store - {p};
      if p !in pageTable {
        return true;
      }
      var f := pageTable[p];
      assert FrameOk(old(St()), disk, owed, f);
      if frames[f].pins > 0 {
        return false;
      }
      pageTable := pageTable - {p};
      frames := frames[f := Frame(INVALID_PAGE_ID, 0, false, ZeroPage())];
      freeList := freeList + [f];
      assert freeList[|freeList| - 1] == f;
      assert !FrameOk(St(), disk, owed, f);
      return true;
    }
  }

  /** FetchPage on a resident page. */
  ghost function Pinned(pool: Pool, f: FrameId): Pool
    requires f < |pool.frames|
  {
    pool.(frames := pool.frames[f := pool.frames[f].(pins := pool.frames[f].pins + 1)], lru := Without(pool.lru, f))
  }

  lemma PinnedOk(pool: Pool, disk: map<PageId, Data>, owed: set<PageId>, f: FrameId)
    requires PoolOk(pool, disk, owed) && f < |pool.frames| && pool.frames[f].page != INVALID_PAGE_ID
    ensures PoolOk(Pinned(pool, f), disk, owed)
    ensures forall q :: Contents(Pinned(pool, f), disk, q) == Contents(pool, disk, q)
  {
    WithoutDistinct(pool.lru, f);
    forall g | 0 <= g < |pool.frames| ensures FrameOk(Pinned(pool, f), disk, owed, g) {
      assert FrameOk(pool, disk, owed, g);
    }
  }

  lemma WriteOk(pool: Pool, disk: map<PageId, Data>, owed: set<PageId>, f: FrameId, data: Data)
    requires PoolOk(pool, disk, owed) && f < |pool.frames| && pool.frames[f].pins > 0
    requires pool.frames[f].page != INVALID_PAGE_ID
    ensures var p, pool' := pool.frames[f].page, pool.(frames := pool.frames[f := pool.frames[f].(data := data)]);
            && PoolOk(pool', disk, if pool.frames[f].dirty then owed else owed + {p})
            && forall q :: Contents(pool', disk, q) == if q == p then data else Contents(pool, disk, q)
  {
    var p, pool' := pool.frames[f].page, pool.(frames := pool.frames[f := pool.frames[f].(data := data)]);
    var owed' := if pool.frames[f].dirty then owed else owed + {p};
    assert FrameOk(pool, disk, owed, f);
    forall g | 0 <= g < |pool.frames| ensures FrameOk(pool', disk, owed', g) {
      assert FrameOk(pool, disk, owed, g);
    }
  }

  ghost function Unpinned(pool: Pool, f: FrameId, isDirty: bool): Pool
    requires f < |pool.frames| && pool.frames[f].pins > 0
  {
    var frame := pool.frames[f].(pins := pool.frames[f].pins - 1, dirty := pool.frames[f].dirty || isDirty);
    pool.(frames := pool.frames[f := frame],
          lru := if frame.pins == 0 && f !in pool.lru then pool.lru + [f] else pool.lru)
  }

  lemma UnpinnedOk(pool: Pool, disk: map<PageId, Data>, owed: set<PageId>, f: FrameId, isDirty: bool)
    requires PoolOk(pool, disk, owed) && f < |pool.frames| && pool.frames[f].pins > 0
    requires pool.frames[f].page in owed && !isDirty ==> pool.frames[f].pins > 1
    ensures PoolOk(Unpinned(pool, f, isDirty), disk, if isDirty then owed - {pool.frames[f].page} else owed)
    ensures forall q :: Contents(Unpinned(pool, f, isDirty), disk, q) == Contents(pool, disk, q)
  {
    var p, pool' := pool.frames[f].page, Unpinned(pool, f, isDirty);
    var owed' := if isDirty then owed - {p} else owed;
    assert FrameOk(pool, disk, owed, f);
    forall g | 0 <= g < |pool.frames| ensures FrameOk(pool', disk, owed', g) {
      assert FrameOk(pool, disk, owed, g);
    }
  }

  /** When the last unpin of a changed page is a clean one, evicting it puts the disk's old bytes in place of the
      change. */
  lemma CleanUnpinLosesWrite(pool: Pool, disk: map<PageId, Data>, owed: set<PageId>, f: FrameId, q: PageId, data: Data)
    requires PoolOk(pool, disk, owed) && f < |pool.frames| && pool.frames[f].pins == 1 && pool.frames[f].page in owed
    requires pool.free == [] && pool.lru == [] && q !in pool.table && q != INVALID_PAGE_ID
    ensures var p, unpinned := pool.frames[f].page, Unpinned(pool, f, false);
            && Candidate(unpinned, f)
            && Contents(unpinned, disk, p) == pool.frames[f].data
            && Contents(Installed(unpinned, f, q, data), WrittenBack(unpinned.frames[f], disk), p) == ReadDisk(disk, p)
  {
    assert FrameOk(pool, disk, owed, f);
  }

  lemma FlushedOk(pool: Pool, disk: map<PageId, Data>, owed: set<PageId>, f: FrameId)
    requires PoolOk(pool, disk, owed) && f < |pool.frames| && pool.frames[f].page != INVALID_PAGE_ID
    ensures var p, pool' := pool.frames[f].page, pool.(frames := pool.frames[f := pool.frames[f].(dirty := false)]);
            var disk' := disk[p := pool.frames[f].data];
            && PoolOk(pool', disk', owed - {p})
            && forall q :: Contents(pool', disk', q) == Contents(pool, disk, q)
  {
    var p, pool' := pool.frames[f].page, pool.(frames := pool.frames[f := pool.frames[f].(dirty := false)]);
    var disk' := disk[p := pool.frames[f].data];
    assert FrameOk(pool, disk, owed, f);
    forall g | 0 <= g < |pool.frames| ensures FrameOk(pool', disk', owed - {p}, g) {
      assert FrameOk(pool, disk, owed, g);
    }
  }

  /** What DeletePage does to the pool when the page is in memory and not pinned. */
  ghost function Deleted(pool: Pool, p: PageId): Pool
    requires p in pool.table && pool.table[p] < |pool.frames|
  {
    Pool(pool.frames[pool.table[p] := Frame(INVALID_PAGE_ID, 0, false, ZeroPage())], pool.table - {p},
         pool.free + [pool.table[p]], pool.lru)
  }

  /** The frame of a deleted page is handed out from the free list and pinned for a new page, and then, if it was the
      least recently used one, handed out a second time from the replacer: the pinned page is evicted. */
  lemma DeletedFrameServedTwice(pool: Pool, disk: map<PageId, Data>, owed: set<PageId>,
                                p: PageId, q: PageId, data: Data)
    requires PoolOk(pool, disk, owed) && p in pool.table && pool.frames[pool.table[p]].pins == 0
    requires pool.free == []
    ensures var f, deleted := pool.table[p], Deleted(pool, p);
            && Candidate(deleted, f)
            && var reused := Installed(deleted, f, q, data);
               reused.frames[f] == Frame(q, 1, false, data) &&
               (Candidate(reused, f) <==> pool.lru != [] && pool.lru[0] == f)
  {
    assert FrameOk(pool, disk, owed, pool.table[p]);
  }
}
