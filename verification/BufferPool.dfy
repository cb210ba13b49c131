/** `BufferPoolManager`, its frames and its guards as objects, over the disk scheduler and the ARC replacer;
    each method is proved to be the step of the same name in `Pool`. */
module BufferPool {
  import opened Common
  import opened Arc
  import opened ArcReplacer
  import opened DiskManager
  import opened DiskScheduler
  import opened PoolRuns
  import Disk
  import P = Pool
  import S = Scheduler

  class FrameHeader {
    const frameId: FrameId
    var pinCount: nat
    var isDirty: bool
    var data: Page

    ghost function Model(): (f: P.Frame)
      reads this
    {
      P.Frame(pinCount, isDirty, data)
    }

    constructor (frameId: FrameId)
      ensures this.frameId == frameId && Model() == P.Frame(0, false, ZeroPage())
    {
      this.frameId := frameId;
      pinCount, isDirty, data := 0, false, ZeroPage();
    }

    method Reset()
      modifies this
      ensures Model() == P.Frame(0, false, ZeroPage())
    {
      data := ZeroPage();
      pinCount := 0;
      isDirty := false;
    }
  }

  lemma EvictIsClear(s: P.Pool, t: P.Pool, u: P.Pool)
    requires !Victim(s.arc).NoPick? && P.EvictFound(s) && t == s.(arc := Evicted(s.arc))
    requires var e := VictimEntry(s.arc);
             u == t.(free := t.free + [e.frame], table := t.table - {e.page}, disk := t.disk[e.page := t.frames[e.frame].data],
                     frames := t.frames[e.frame := P.Frame(0, false, ZeroPage())])
    ensures P.Evict(s) == Done(u)
  {
  }

  /** `t` is `s` with page `p` read into frame `f`, after an eviction if no frame was free. */
  ghost predicate Brought(s: P.Pool, p: PageId, f: FrameId, t: P.Pool) {
    var u := if s.free != [] then Done(s) else P.Evict(s);
    && u.Done? && u.value.free != [] && p in u.value.disk
    && f == u.value.free[|u.value.free| - 1] && f < |u.value.frames| && t == P.Load(u.value, p)
  }

  /** An eviction frees a frame and keeps every page. */
  lemma EvictedReady(s: P.Pool, p: PageId)
    requires Searchable(s) && s.free == [] && p in s.disk && P.Evict(s).Done?
    ensures var t := P.Evict(s).value;
            t.free != [] && t.free[|t.free| - 1] < |t.frames| && p in t.disk
  {
  }

  /** Page `p` is in frame `f` of `t`: it was there in `s`, or is brought in. */
  ghost predicate Ready(s: P.Pool, p: PageId, f: FrameId, t: P.Pool) {
    if p in s.table then t == s && f == s.table[p] else Brought(s, p, f, t)
  }

  lemma FetchIsPin(s: P.Pool, p: PageId, f: FrameId, t: P.Pool)
    requires Searchable(s) && p in s.disk && Ready(s, p, f, t)
    ensures f < |t.frames| && P.Fetch(s, p) == P.Pin(t, p, f)
  {
  }

  lemma FetchedAgrees(s: P.Pool, p: PageId, t: P.Pool)
    requires P.Agreed(s) && p in s.disk && |s.guards| < P.USIZE_MAX && P.Fetch(s, p) == Done(t)
    ensures P.Agreed(t)
  {
    FetchAgrees(s, p);
  }

  lemma {:induction false} FlushAllSnoc(s: P.Pool, order: seq<PageId>, p: PageId)
    requires P.FlushAll(s, order).Done?
    ensures P.FlushAll(s, order + [p]) == P.FlushPage(P.FlushAll(s, order).value, p)
    decreases order
  {
    if order == [] {
      assert order + [p] == [p] && [p][1..] == [];
      var r := P.FlushPage(s, p);
      assert r.Done? ==> P.FlushAll(r.value, []) == r;
    } else {
      assert (order + [p])[1..] == order[1..] + [p];
      FlushAllSnoc(P.FlushPage(s, order[0]).value, order[1..], p);
    }
  }

  /** What the search for a frame relies on: frame numbers in range, and for a victim its page in the table. */
  ghost predicate Searchable(s: P.Pool) {
    && (s.free != [] ==> s.free[|s.free| - 1] < |s.frames|)
    && (forall p :: p in s.table ==> s.table[p] < |s.frames|) && P.OneToOne(s.table)
    && if Victim(s.arc).NoPick? then P.Evict(s).Panic? else P.EvictFound(s)
  }

  lemma SoundIsSearchable(s: P.Pool)
    requires P.Sound(s)
    ensures Searchable(s)
  {
    P.EvictFinds(s);
    if s.free != [] {
      assert s.free[|s.free| - 1] in s.free;
    }
  }

  ghost function FrameModels(frames: seq<FrameHeader>): (fs: seq<P.Frame>)
    reads frames
    ensures |fs| == |frames| && forall i :: 0 <= i < |frames| ==> fs[i] == frames[i].Model()
  {
    seq(|frames|, i requires 0 <= i < |frames| reads frames => frames[i].Model())
  }

  class BufferPoolManager {
    var nextPageId: nat
    const arcReplacer: ArcReplacer
    const diskScheduler: DiskScheduler
    const frames: seq<FrameHeader>
    var freeFrames: seq<FrameId>
    var pageTable: map<PageId, FrameId>

    /** The guards alive. */
    ghost var guards: multiset<Entry>

    ghost function Model(): (s: P.Pool)
      reads this, frames, arcReplacer, diskScheduler, diskScheduler.diskManager
    {
      P.Pool(FrameModels(frames), freeFrames, pageTable, nextPageId, arcReplacer.Model(), diskScheduler.Pages(), guards)
    }

    ghost predicate Wired()
      reads this, diskScheduler, diskScheduler.diskManager
    {
      && |frames| <= U32_LIMIT && diskScheduler.Idle()
      && (forall i, j :: 0 <= i < j < |frames| ==> frames[i] != frames[j])
      && forall i :: 0 <= i < |frames| ==> frames[i].frameId == i
    }

    /** The pool between calls. */
    ghost predicate Valid()
      reads this, frames, arcReplacer, diskScheduler, diskScheduler.diskManager
    {
      Wired() && P.Agreed(Model())
    }

    /** `diskManager` must be new: page ids start over at 0. */
    constructor (numFrames: nat, diskManager: DiskManager)
      requires numFrames <= U32_LIMIT && Disk.DiskOk(diskManager.Model()) && Disk.Contents(diskManager.Model()) == map[]
      ensures Valid() && Model() == P.NewPool(numFrames)
      ensures fresh(arcReplacer) && fresh(diskScheduler) && fresh(frames) && diskScheduler.diskManager == diskManager
    {
      var headers: seq<FrameHeader> := [];
      var free: seq<FrameId> := [];
      for i := 0 to numFrames
        invariant |headers| == |free| == i && fresh(headers)
        invariant forall j :: 0 <= j < i ==> free[j] == j
        invariant forall j :: 0 <= j < i ==> headers[j].frameId == j && headers[j].Model() == P.Frame(0, false, ZeroPage())
        invariant forall j, k :: 0 <= j < k < i ==> headers[j] != headers[k]
      {
        var header := new FrameHeader(i);
        headers := headers + [header];
        free := free + [i];
      }
      arcReplacer := new ArcReplacer(numFrames);
      diskScheduler := new DiskScheduler(diskManager);
      frames, freeFrames, pageTable, nextPageId, guards := headers, free, map[], 0, multiset{};
      new;
      assert free == P.AllFrames(numFrames);
      assert Model() == P.NewPool(numFrames);
      NewPoolOk(numFrames);
    }

    lemma OneFrameChanged(was: seq<P.Frame>, f: FrameId)
      requires f < |frames| == |was| && forall i :: 0 <= i < |frames| && i != f ==> frames[i].Model() == was[i]
      ensures FrameModels(frames) == was[f := frames[f].Model()]
    {
    }

    /** A guard is made: the frame is pinned and the access recorded. */
    method MakeGuard(pageId: PageId, frameId: FrameId) returns (ok: bool)
      requires Wired() && frameId < |frames|
      modifies this`guards, arcReplacer, frames[frameId]
      ensures Wired() && (ok <==> P.Pin(old(Model()), pageId, frameId).Done?)
      ensures ok ==> P.Pin(old(Model()), pageId, frameId) == Done(Model())
    {
      ghost var s, was := Model(), FrameModels(frames);
      var frame := frames[frameId];
      frame.pinCount := P.Up(frame.pinCount);
      ok := arcReplacer.RecordAccess(frame.frameId, pageId);
      guards := guards + multiset{Entry(frameId, pageId)};
      OneFrameChanged(was, frameId);
    }

    /** A write request, and the wait for its answer. */
    method WriteBack(pageId: PageId, data: Page)
      requires Wired()
      modifies diskScheduler, diskScheduler.diskManager
      ensures Wired() && Model() == old(Model()).(disk := old(Model()).disk[pageId := data])
    {
      var _ := diskScheduler.Call(S.WritePage, pageId, data);
      assert data[..PAGE_SIZE] == data;
    }

    /** A read request, and the wait for its answer. */
    method ReadIn(pageId: PageId) returns (data: Page)
      requires Wired() && pageId in Model().disk
      modifies diskScheduler, diskScheduler.diskManager
      ensures Wired() && Model() == old(Model()) && data == Model().disk[pageId]
    {
      var reply := diskScheduler.Call(S.ReadPage, pageId, ZeroPage());
      assert ZeroPage()[PAGE_SIZE..] == [];
      data := reply;
    }

    method NewPage() returns (pageId: PageId)
      requires Valid() && nextPageId < INVALID_PAGE_ID
      modifies this`nextPageId, diskScheduler, diskScheduler.diskManager
      ensures Valid() && Model() == P.NewPage(old(Model())) && pageId == old(nextPageId)
    {
      ghost var s := Model();
      pageId := nextPageId;
      nextPageId := nextPageId + 1;
      WriteBack(pageId, ZeroPage());
      assert Model() == P.NewPage(s);
      NewPageAgrees(s);
    }

    /** The page is read into the last free frame. */
    method LoadPage(pageId: PageId) returns (frameId: FrameId)
      requires Wired() && pageId in Model().disk && freeFrames != [] && freeFrames[|freeFrames| - 1] < |frames|
      modifies this`freeFrames, this`pageTable, diskScheduler, diskScheduler.diskManager, frames[freeFrames[|freeFrames| - 1]]
      ensures Wired() && Model() == P.Load(old(Model()), pageId) && frameId == old(freeFrames[|freeFrames| - 1])
    {
      ghost var s := Model();
      frameId := freeFrames[|freeFrames| - 1];
      freeFrames := freeFrames[..|freeFrames| - 1];
      var data := ReadIn(pageId);
      var frame := frames[frameId];
      frame.data := data;
      pageTable := pageTable[pageId := frameId];
      OneFrameChanged(s.frames, frameId);
    }

    /** The search of the page table for the page in a frame. */
    method PageIn(frameId: FrameId) returns (r: Option<PageId>)
      requires P.OneToOne(pageTable)
      ensures r == P.Holder(pageTable, frameId)
    {
      var rest := pageTable.Keys;
      while rest != {}
        invariant rest <= pageTable.Keys
        invariant forall p :: p in pageTable && pageTable[p] == frameId ==> p in rest
        decreases rest
      {
        var p :| p in rest;
        if pageTable[p] == frameId {
          assert P.Holds(pageTable, p, frameId);
          return Some(p);
        }
        rest := rest - {p};
      }
      return None;
    }

    /** Page `pageId` gives up its frame: the bytes go to disk, the frame is wiped and freed. */
    method ClearFrame(frameId: FrameId, pageId: PageId)
      requires Wired() && frameId < |frames|
      modifies this`freeFrames, this`pageTable, diskScheduler, diskScheduler.diskManager, frames[frameId]
      ensures Wired()
      ensures var s := old(Model());
              Model() == s.(free := s.free + [frameId], table := s.table - {pageId}, disk := s.disk[pageId := s.frames[frameId].data],
                            frames := s.frames[frameId := P.Frame(0, false, ZeroPage())])
    {
      ghost var s := Model();
      var frame := frames[frameId];
      freeFrames := freeFrames + [frameId];
      pageTable := pageTable - {pageId};
      WriteBack(pageId, frame.data);
      frame.isDirty := false;
      frame.Reset();
      OneFrameChanged(s.frames, frameId);
    }

    /** The replacer's choice. */
    method PickVictim() returns (victim: Option<FrameId>)
      requires Wired() && (Victim(Model().arc).NoPick? || Model().arc.currSize > 0)
      modifies arcReplacer
      ensures victim.None? <==> Victim(old(Model()).arc).NoPick?
      ensures victim.Some? ==>
                victim.value == VictimEntry(old(Model()).arc).frame && Wired() && Model() == old(Model()).(arc := Evicted(old(Model()).arc))
    {
      var evicted := arcReplacer.Evict();
      victim := evicted.value;
    }

    /** A victim is evicted, dirty or not; `ok` is false if there is none. */
    method EvictVictim() returns (ok: bool)
      requires Wired() && Searchable(Model())
      modifies this`freeFrames, this`pageTable, arcReplacer, diskScheduler, diskScheduler.diskManager, frames
      ensures ok <==> P.Evict(old(Model())).Done?
      ensures ok ==> Wired() && P.Evict(old(Model())) == Done(Model())
    {
      ghost var s := Model();
      var victim := PickVictim();
      if victim.None? {
        return false;
      }
      var page := PageIn(victim.value);
      ghost var t := Model();
      ClearFrame(victim.value, page.value);
      EvictIsClear(s, t, Model());
      return true;
    }

    /** A page that is not resident is read into a free frame, or else into that of a victim. */
    method BringIn(pageId: PageId) returns (r: Outcome<FrameId>)
      requires Wired() && Searchable(Model()) && pageId in Model().disk && pageId !in pageTable
      modifies this`freeFrames, this`pageTable, arcReplacer, diskScheduler, diskScheduler.diskManager, frames
      ensures r.Panic? <==> old(freeFrames) == [] && P.Evict(old(Model())).Panic?
      ensures r.Done? ==> Wired() && Brought(old(Model()), pageId, r.value, Model())
    {
      ghost var s := Model();
      if freeFrames == [] {
        var found := EvictVictim();
        if !found {
          return Panic;
        }
        EvictedReady(s, pageId);
      }
      var frameId := LoadPage(pageId);
      r := Done(frameId);
    }

    /** The page is found or brought in, pinned, and its access recorded. */
    method Acquire(pageId: PageId) returns (r: Outcome<FrameId>)
      requires Wired() && Searchable(Model()) && pageId in Model().disk
      modifies this`freeFrames, this`pageTable, this`guards, arcReplacer, diskScheduler, diskScheduler.diskManager, frames
      ensures r.Panic? <==> P.Fetch(old(Model()), pageId).Panic?
      ensures r.Done? ==> Wired() && P.Fetch(old(Model()), pageId) == Done(Model())
      ensures r.Done? ==> r.value < |frames| && Entry(r.value, pageId) in guards
    {
      ghost var s := Model();
      if pageId in pageTable {
        r := Done(pageTable[pageId]);
      } else {
        r := BringIn(pageId);
        if r.Panic? {
          return;
        }
      }
      FetchIsPin(s, pageId, r.value, Model());
      var ok := MakeGuard(pageId, r.value);
      if !ok {
        return Panic;
      }
    }

    /** `check_read_page` and `check_write_page`, which differ only in the type of guard they return.
        `r` is `Panic` where the program panics; nothing is promised of the pool then. */
    method CheckPage(pageId: PageId) returns (r: Outcome<PageGuard>)
      requires Valid() && pageId in Model().disk && |guards| < P.USIZE_MAX
      modifies this`freeFrames, this`pageTable, this`guards, arcReplacer, diskScheduler, diskScheduler.diskManager, frames
      ensures r.Panic? <==> P.Fetch(old(Model()), pageId).Panic?
      ensures r.Done? ==> Valid() && P.Fetch(old(Model()), pageId) == Done(Model()) && r.value.On(this)
    {
      ghost var s := Model();
      SoundIsSearchable(s);
      var frameId := Acquire(pageId);
      if frameId.Panic? {
        return Panic;
      }
      FetchedAgrees(s, pageId, Model());
      r := Done(PageGuard(pageId, frames[frameId.value], arcReplacer, diskScheduler));
    }

    /** A read guard on a resident page is made, flushed and dropped. */
    method FlushResident(pageId: PageId) returns (wrote: bool)
      requires Wired() && pageId in pageTable && pageTable[pageId] < |frames| && P.FlushPage(Model(), pageId).Done?
      modifies this`guards, arcReplacer, diskScheduler, diskScheduler.diskManager, frames
      ensures Wired() && P.FlushPage(old(Model()), pageId) == Done(Model())
      ensures wrote == old(frames[pageTable[pageId]].isDirty)
    {
      var frameId := pageTable[pageId];
      var _ := MakeGuard(pageId, frameId);
      var guard := PageGuard(pageId, frames[frameId], arcReplacer, diskScheduler);
      wrote := guard.frame.isDirty;
      guard.WriteOut(this);
      guard.GiveUp(this);
    }

    /** `wrote` is false also for a page that is not resident, or not dirty. */
    method FlushPage(pageId: PageId) returns (wrote: bool)
      requires Valid() && |guards| < P.USIZE_MAX
      modifies this`guards, arcReplacer, diskScheduler, diskScheduler.diskManager, frames
      ensures Valid() && P.FlushPage(old(Model()), pageId) == Done(Model())
      ensures wrote <==> pageId in pageTable && old(Model()).frames[pageTable[pageId]].dirty
    {
      ghost var s := Model();
      FlushPageAgrees(s, pageId);
      wrote := false;
      if pageId in pageTable {
        ghost var e, t := FlushPageIs(s, pageId);
        wrote := FlushResident(pageId);
      }
    }

    /** One turn of the loop over the page table. */
    method FlushNext(pageId: PageId, ghost s: P.Pool, ghost order: seq<PageId>)
      requires Wired() && P.Agreed(s) && |s.guards| < P.USIZE_MAX && P.FlushAll(s, order) == Done(Model())
      modifies this`guards, arcReplacer, diskScheduler, diskScheduler.diskManager, frames
      ensures Wired() && P.FlushAll(s, order + [pageId]) == Done(Model())
    {
      FlushAllAgrees(s, order);
      FlushAllSnoc(s, order, pageId);
      var _ := FlushPage(pageId);
    }

    /** `order` is the order in which the page table happens to be visited. */
    method FlushAllPages() returns (any: bool, ghost order: seq<PageId>)
      requires Valid() && |guards| < P.USIZE_MAX
      modifies this`guards, arcReplacer, diskScheduler, diskScheduler.diskManager, frames
      ensures Valid() && (any <==> pageTable != map[])
      ensures (forall p :: p in order <==> p in pageTable) && P.FlushAll(old(Model()), order) == Done(Model())
    {
      order := [];
      ghost var s := Model();
      var rest := pageTable.Keys;
      any := rest != {};
      while rest != {}
        invariant Wired() && rest <= pageTable.Keys && pageTable == s.table
        invariant forall p :: p in order <==> p in pageTable && p !in rest
        invariant P.FlushAll(s, order) == Done(Model())
        decreases rest
      {
        var p :| p in rest;
        rest := rest - {p};
        FlushNext(p, s, order);
        order := order + [p];
      }
      FlushAllAgrees(s, order);
    }
  }

  /** A guard alive; `Write` is for write guards only. */
  datatype PageGuard = PageGuard(pageId: PageId, frame: FrameHeader, arcReplacer: ArcReplacer, diskScheduler: DiskScheduler) {

    ghost function Name(): (e: Entry) {
      Entry(frame.frameId, pageId)
    }

    /** The guard is one of the pool's. */
    ghost predicate On(pool: BufferPoolManager)
      reads pool
    {
      && arcReplacer == pool.arcReplacer && diskScheduler == pool.diskScheduler
      && frame.frameId < |pool.frames| && frame == pool.frames[frame.frameId] && Name() in pool.guards
    }

    /** The bytes the guard shows: those of its page, for as long as the page is in the frame. */
    method Data(ghost pool: BufferPoolManager) returns (data: Page)
      requires pool.Valid() && On(pool)
      ensures data == pool.Model().frames[frame.frameId].data
      ensures P.Holds(pool.pageTable, pageId, frame.frameId) ==>
                pageId in P.View(pool.Model()) && data == P.View(pool.Model())[pageId]
    {
      data := frame.data;
    }

    /** `data_mut`, and the write it is for. */
    method Write(data: Page, ghost pool: BufferPoolManager)
      requires pool.Valid() && On(pool)
      modifies frame
      ensures pool.Valid() && pool.Model() == P.WriteThrough(old(pool.Model()), Name(), data)
    {
      ghost var s := pool.Model();
      frame.isDirty := true;
      frame.data := data;
      pool.OneFrameChanged(s.frames, frame.frameId);
      assert pool.Model() == P.WriteThrough(s, Name(), data);
      WriteAgrees(s, Name(), data);
    }

    /** `flush`: the page is written to disk if dirty. */
    method WriteOut(ghost pool: BufferPoolManager)
      requires pool.Wired() && On(pool)
      modifies frame, diskScheduler, diskScheduler.diskManager
      ensures pool.Wired() && pool.Model() == P.Flush(old(pool.Model()), Name())
    {
      ghost var s := pool.Model();
      if frame.isDirty {
        var _ := diskScheduler.Call(S.WritePage, pageId, frame.data);
        assert frame.data[..PAGE_SIZE] == frame.data;
        frame.isDirty := false;
        pool.OneFrameChanged(s.frames, frame.frameId);
      }
    }

    method Flush(ghost pool: BufferPoolManager) returns (wrote: bool)
      requires pool.Valid() && On(pool)
      modifies frame, diskScheduler, diskScheduler.diskManager
      ensures pool.Valid() && pool.Model() == P.Flush(old(pool.Model()), Name()) && wrote == old(frame.isDirty)
    {
      ghost var s := pool.Model();
      wrote := frame.isDirty;
      WriteOut(pool);
      FlushAgrees(s, Name());
    }

    /** `drop`: the pin is given up, and with the last one the frame is evictable. */
    method GiveUp(ghost pool: BufferPoolManager)
      requires pool.Wired() && On(pool)
      modifies frame, arcReplacer, pool`guards
      ensures pool.Wired() && pool.Model() == P.Unpin(old(pool.Model()), Name())
    {
      ghost var s := pool.Model();
      frame.pinCount := P.Down(frame.pinCount);
      if frame.pinCount == 0 {
        arcReplacer.SetEvictable(frame.frameId);
      }
      pool.guards := pool.guards - multiset{Name()};
      pool.OneFrameChanged(s.frames, frame.frameId);
    }

    method Drop(ghost pool: BufferPoolManager)
      requires pool.Valid() && On(pool)
      modifies frame, arcReplacer, pool`guards
      ensures pool.Valid() && pool.Model() == P.Unpin(old(pool.Model()), Name())
    {
      ghost var s := pool.Model();
      GiveUp(pool);
      UnpinAgrees(s, Name());
    }
  }
}
