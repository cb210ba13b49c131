/** The buffer pool with its guards as a value: every step, and what every run of steps keeps. */
module Pool {
  import opened Common
  import opened Arc

  type Store = map<PageId, Page>

  const USIZE_MAX: nat := 0xffff_ffff_ffff_ffff

  datatype Frame = Frame(pin: nat, dirty: bool, data: Page)

  /** `disk` is what the disk holds for each page handed out so far; `guards` are the guards alive, each
      named by its frame and page. */
  datatype Pool = Pool(
    frames: seq<Frame>, free: seq<FrameId>, table: map<PageId, FrameId>, next: nat,
    arc: Arc, disk: Store, guards: multiset<Entry>)

  ghost function NewPool(numFrames: nat): (s: Pool)
    requires numFrames <= U32_LIMIT
  {
    Pool(seq(numFrames, i => Frame(0, false, ZeroPage())), AllFrames(numFrames), map[], 0, NewArc(numFrames), map[], multiset{})
  }

  function AllFrames(n: nat): (fs: seq<FrameId>)
    requires n <= U32_LIMIT
    ensures |fs| == n && forall i :: 0 <= i < n ==> fs[i] == i
  {
    seq(n, i requires 0 <= i < n => i)
  }

  // ------------------------------------------------------------------ steps

  ghost function NewPage(s: Pool): (r: Pool)
    requires s.next < INVALID_PAGE_ID
  {
    s.(next := s.next + 1, disk := s.disk[s.next := ZeroPage()])
  }

  /** A guard on page `p` in frame `f` is made. */
  ghost function Pin(s: Pool, p: PageId, f: FrameId): (r: Outcome<Pool>)
    requires f < |s.frames|
  {
    match Record(s.arc, Entry(f, p))
    case Panic => Panic
    case Done(a) => Done(WithPin(s, Entry(f, p), a))
  }

  /** One pin more; a pin count wraps around. */
  function Up(pin: nat): (r: nat) {
    if pin == USIZE_MAX then 0 else pin + 1
  }

  /** One pin less. */
  function Down(pin: nat): (r: nat) {
    if pin == 0 then USIZE_MAX else pin - 1
  }

  ghost function WithPin(s: Pool, e: Entry, a: Arc): (r: Pool)
    requires e.frame < |s.frames|
  {
    s.(arc := a, frames := s.frames[e.frame := s.frames[e.frame].(pin := Up(s.frames[e.frame].pin))],
       guards := s.guards + multiset{e})
  }

  /** Page `p` is read from disk into the last free frame. */
  ghost function Load(s: Pool, p: PageId): (r: Pool)
    requires s.free != [] && p in s.disk && s.free[|s.free| - 1] < |s.frames|
  {
    var f := s.free[|s.free| - 1];
    s.(free := s.free[..|s.free| - 1], frames := s.frames[f := s.frames[f].(data := s.disk[p])], table := s.table[p := f])
  }

  ghost predicate Holds(table: map<PageId, FrameId>, p: PageId, f: FrameId) {
    p in table && table[p] == f
  }

  /** The replacer's victim is written to disk, whether dirty or not, and its frame is wiped and freed. */
  ghost function Evict(s: Pool): (r: Outcome<Pool>) {
    if Victim(s.arc).NoPick? || s.arc.currSize == 0 then Panic
    else
      var f := VictimEntry(s.arc).frame;
      var q := Holder(s.table, f);
      if f < |s.frames| && q.Some? then Done(Dropped(s, Entry(f, q.value))) else Panic
  }

  /** The page the table has in frame `f`. */
  ghost function Holder(table: map<PageId, FrameId>, f: FrameId): (o: Option<PageId>)
    ensures o.None? <==> !Occupied(table, f)
    ensures o.Some? ==> Holds(table, o.value, f)
  {
    if Occupied(table, f) then
      var q :| Holds(table, q, f);
      Some(q)
    else None
  }

  ghost function Dropped(s: Pool, e: Entry): (r: Pool)
    requires e.frame < |s.frames| && !Victim(s.arc).NoPick? && s.arc.currSize > 0
  {
    s.(arc := Evicted(s.arc), free := s.free + [e.frame], table := s.table - {e.page},
       disk := s.disk[e.page := s.frames[e.frame].data], frames := s.frames[e.frame := Frame(0, false, ZeroPage())])
  }

  /** Making a guard for page `p`: on a hit, into a free frame, or into the frame of a victim. Read and
      write guards are made alike. A frame number out of range is an index panic. */
  ghost function Fetch(s: Pool, p: PageId): (r: Outcome<Pool>)
    requires p in s.disk
  {
    if p in s.table then (if s.table[p] < |s.frames| then Pin(s, p, s.table[p]) else Panic)
    else if s.free != [] then LoadAndPin(s, p)
    else
      match Evict(s)
      case Panic => Panic
      case Done(t) => LoadAndPin(t, p)
  }

  ghost function LoadAndPin(s: Pool, p: PageId): (r: Outcome<Pool>)
    requires s.free != [] && p in s.disk
  {
    var f := s.free[|s.free| - 1];
    if f < |s.frames| then Pin(Load(s, p), p, f) else Panic
  }

  /** Bytes written through a guard. */
  ghost function WriteThrough(s: Pool, e: Entry, data: Page): (r: Pool)
    requires e.frame < |s.frames|
  {
    s.(frames := s.frames[e.frame := s.frames[e.frame].(dirty := true, data := data)])
  }

  /** A guard's `flush`; it reports whether the frame was dirty. */
  ghost function Flush(s: Pool, e: Entry): (r: Pool)
    requires e.frame < |s.frames|
  {
    var f := s.frames[e.frame];
    if f.dirty then s.(disk := s.disk[e.page := f.data], frames := s.frames[e.frame := f.(dirty := false)]) else s
  }

  /** A guard goes away. */
  ghost function Unpin(s: Pool, e: Entry): (r: Pool)
    requires e.frame < |s.frames|
  {
    var f := s.frames[e.frame];
    s.(frames := s.frames[e.frame := f.(pin := Down(f.pin))], guards := s.guards - multiset{e},
       arc := if Down(f.pin) == 0 then Mark(s.arc, e.frame) else s.arc)
  }

  /** `flush_page` on a resident page: a read guard is made, flushed and dropped. */
  ghost function FlushPage(s: Pool, p: PageId): (r: Outcome<Pool>)
    ensures r.Done? ==>
              && r.value.table == s.table && r.value.free == s.free && |r.value.frames| == |s.frames|
              && r.value.next == s.next && r.value.guards == s.guards
  {
    if p !in s.table then Done(s)
    else if s.table[p] >= |s.frames| then Panic
    else
      var e := Entry(s.table[p], p);
      match Pin(s, p, e.frame)
      case Panic => Panic
      case Done(t) => Done(Unpin(Flush(t, e), e))
  }

  /** `flush_all_pages` visiting the pages of the table in the given order. */
  ghost function FlushAll(s: Pool, order: seq<PageId>): (r: Outcome<Pool>)
    ensures r.Done? ==>
              && r.value.table == s.table && r.value.free == s.free && |r.value.frames| == |s.frames|
              && r.value.next == s.next && r.value.guards == s.guards
    decreases order
  {
    if order == [] then Done(s)
    else
      match FlushPage(s, order[0])
      case Panic => Panic
      case Done(t) => FlushAll(t, order[1..])
  }

  // ------------------------------------------------------------------ the invariant

  /** Free frames and the frames of the page table are all the frames, each once. */
  ghost predicate TableOk(n: nat, free: seq<FrameId>, table: map<PageId, FrameId>) {
    && NoDuplicates(free) && |table| + |free| == n
    && OneToOne(table) && Placed(n, free, table) && Covered(n, free, table)
  }

  ghost predicate OneToOne(table: map<PageId, FrameId>) {
    forall p, q :: p in table && q in table && p != q ==> table[p] != table[q]
  }

  ghost predicate Placed(n: nat, free: seq<FrameId>, table: map<PageId, FrameId>) {
    (forall f :: f in free ==> f < n) && forall p :: p in table ==> table[p] < n && table[p] !in free
  }

  ghost predicate Covered(n: nat, free: seq<FrameId>, table: map<PageId, FrameId>) {
    forall f: FrameId :: f < n ==> f in free || Occupied(table, f)
  }

  ghost predicate Occupied(table: map<PageId, FrameId>, f: FrameId) {
    exists p :: Holds(table, p, f)
  }

  /** The replacer tracks exactly the pages of the table, each in its frame, once. */
  ghost predicate ArcAgrees(n: nat, table: map<PageId, FrameId>, a: Arc) {
    && ArcOk(a) && a.cap == n && |a.mru| + |a.mfu| == |table|
    && Tracks(table, Residents(a))
  }

  ghost predicate Tracks(table: map<PageId, FrameId>, residents: set<Entry>) {
    forall e :: e in residents <==> Holds(table, e.page, e.frame)
  }

  /** Exactly the ids handed out are on disk, and only such pages are resident. */
  ghost predicate DiskAgrees(table: map<PageId, FrameId>, next: nat, disk: Store) {
    && next <= INVALID_PAGE_ID
    && (forall p: PageId :: p in disk <==> p < next)
    && forall p :: p in table ==> p in disk
  }

  /** A clean frame is what the disk holds. */
  ghost predicate Clean(frames: seq<Frame>, table: map<PageId, FrameId>, disk: Store) {
    forall p :: p in table && p in disk && table[p] < |frames| && !frames[table[p]].dirty ==> frames[table[p]].data == disk[p]
  }

  /** Pin counts count the guards alive; every guard is on a page where it is now. */
  ghost predicate Pinned(frames: seq<Frame>, table: map<PageId, FrameId>, guards: multiset<Entry>) {
    && (forall e :: e in guards ==> Holds(table, e.page, e.frame))
    && (forall p :: p in table && table[p] < |frames| ==> frames[table[p]].pin == guards[Entry(table[p], p)])
  }

  ghost predicate Unused(frames: seq<Frame>, free: seq<FrameId>) {
    forall f :: f in free && f < |frames| ==> frames[f].pin == 0
  }

  /** Free frames have no pins, and a resident frame that is not evictable has one at least, and no more than
      there are guards on its page in it. So a resident frame without pins is evictable. */
  ghost predicate Tended(frames: seq<Frame>, free: seq<FrameId>, a: Arc, guards: multiset<Entry>) {
    && Unused(frames, free)
    && (forall e :: e in Residents(a) && e.frame < |frames| && e.frame !in a.evictable ==> 1 <= frames[e.frame].pin <= guards[e])
  }

  /** On the MRU list only frames without pins are evictable. */
  ghost predicate MruUnpinned(frames: seq<Frame>, a: Arc) {
    forall e :: e in a.mru && e.frame < |frames| && e.frame in a.evictable ==> frames[e.frame].pin == 0
  }

  /** A guard's frame is in use and its page has been handed out, even if the frame was evicted from under it. */
  ghost predicate InPlay(n: nat, free: seq<FrameId>, disk: Store, guards: multiset<Entry>) {
    forall e :: e in guards ==> e.frame < n && e.frame !in free && e.page in disk
  }

  /** Pins are what they should be: they count guards, and what the MRU list offers for eviction has none. */
  ghost predicate Counted(frames: seq<Frame>, table: map<PageId, FrameId>, guards: multiset<Entry>, a: Arc) {
    Pinned(frames, table, guards) && MruUnpinned(frames, a)
  }

  /** What holds of every run at every moment, even inside a call. */
  ghost predicate Sound(s: Pool) {
    && TableOk(|s.frames|, s.free, s.table)
    && ArcAgrees(|s.frames|, s.table, s.arc)
    && DiskAgrees(s.table, s.next, s.disk)
  }

  /** What holds of every run between calls, whatever is evicted. */
  ghost predicate Agreed(s: Pool) {
    Sound(s) && InPlay(|s.frames|, s.free, s.disk, s.guards) && Tended(s.frames, s.free, s.arc, s.guards)
  }

  /** What holds besides, as long as no pinned frame was evicted. */
  ghost predicate Exact(s: Pool) {
    Clean(s.frames, s.table, s.disk) && Counted(s.frames, s.table, s.guards, s.arc)
  }

  ghost predicate PoolOk(s: Pool) {
    Agreed(s) && Exact(s)
  }

  /** The specification: the last bytes written to each page. */
  ghost function View(s: Pool): (m: Store) {
    map p | p in s.disk :: Bytes(s.frames, s.table, s.disk, p)
  }

  ghost function Bytes(frames: seq<Frame>, table: map<PageId, FrameId>, disk: Store, p: PageId): (b: Page)
    requires p in disk
  {
    if p in table && table[p] < |frames| then frames[table[p]].data else disk[p]
  }

  // ------------------------------------------------------------------ table and replacer

  /** Taking the last element off a list without duplicates. */
  lemma Popped(s: seq<FrameId>)
    requires NoDuplicates(s) && s != []
    ensures s[|s| - 1] in s && Moves(s, s[..|s| - 1], s[|s| - 1])
  {
  }

  lemma TableLoad(n: nat, free: seq<FrameId>, table: map<PageId, FrameId>, p: PageId)
    requires TableOk(n, free, table) && free != [] && p !in table
    ensures var f := free[|free| - 1];
            f < n && !Occupied(table, f) && |table| < n && TableOk(n, free[..|free| - 1], table[p := f])
  {
    Popped(free);
    TableMoves(n, free, free[..|free| - 1], table, p, free[|free| - 1]);
  }

  /** `rest` is the list `free` without frame `f`. */
  ghost predicate Moves(free: seq<FrameId>, rest: seq<FrameId>, f: FrameId) {
    && |rest| + 1 == |free| && NoDuplicates(rest) && f !in rest
    && forall g :: g in free <==> g in rest || g == f
  }

  lemma TableMoves(n: nat, free: seq<FrameId>, rest: seq<FrameId>, table: map<PageId, FrameId>, p: PageId, f: FrameId)
    requires NoDuplicates(free) && Moves(free, rest, f) && p !in table
    ensures TableOk(n, free, table) <==> TableOk(n, rest, table[p := f])
  {
    assert table[p := f].Keys == table.Keys + {p} && |table[p := f]| == |table| + 1;
    PlacedMoves(n, free, rest, table, p, f);
    CoveredMoves(n, free, rest, table, p, f);
  }

  lemma TableEvict(n: nat, free: seq<FrameId>, table: map<PageId, FrameId>, q: PageId)
    requires TableOk(n, free, table) && q in table
    ensures TableOk(n, free + [table[q]], table - {q})
  {
    var f := table[q];
    assert f !in free;
    Pushed(free, f);
    assert (table - {q})[q := f] == table;
    TableMoves(n, free + [f], free, table - {q}, q, f);
  }

  lemma Pushed(s: seq<FrameId>, f: FrameId)
    requires NoDuplicates(s) && f !in s
    ensures NoDuplicates(s + [f]) && Moves(s + [f], s, f)
  {
  }

  lemma PlacedMoves(n: nat, free: seq<FrameId>, rest: seq<FrameId>, table: map<PageId, FrameId>, p: PageId, f: FrameId)
    requires Moves(free, rest, f) && p !in table
    ensures (OneToOne(table) && Placed(n, free, table)) <==> (OneToOne(table[p := f]) && Placed(n, rest, table[p := f]))
  {
    var t := table[p := f];
    assert t[p] == f;
    assert forall q :: q in table ==> q in t && t[q] == table[q];
    assert f in free;
  }

  lemma CoveredMoves(n: nat, free: seq<FrameId>, rest: seq<FrameId>, table: map<PageId, FrameId>, p: PageId, f: FrameId)
    requires Moves(free, rest, f) && p !in table
    ensures Covered(n, free, table) <==> Covered(n, rest, table[p := f])
  {
    var t := table[p := f];
    assert Holds(t, p, f);
    forall g
      ensures Occupied(t, g) <==> Occupied(table, g) || g == f
    {
      if Occupied(table, g) {
        var q :| Holds(table, q, g);
        assert Holds(t, q, g);
      }
      if Occupied(t, g) && g != f {
        var q :| Holds(t, q, g);
        assert Holds(table, q, g);
      }
    }
  }

  lemma HolderIs(table: map<PageId, FrameId>, e: Entry)
    requires OneToOne(table) && Holds(table, e.page, e.frame)
    ensures Holder(table, e.frame) == Some(e.page)
  {
  }

  lemma ArcHit(n: nat, table: map<PageId, FrameId>, a: Arc, e: Entry)
    requires ArcAgrees(n, table, a) && Holds(table, e.page, e.frame)
    ensures Record(a, e).Done? && ArcAgrees(n, table, Record(a, e).value)
    ensures Record(a, e).value.evictable == a.evictable
  {
    RecordKeeps(a, e);
  }

  /** A load is an access the replacer is made for: it is tracked from then on, and it panics only
      where the arithmetic of the target fails. */
  lemma ArcLoad(n: nat, table: map<PageId, FrameId>, a: Arc, e: Entry)
    requires ArcAgrees(n, table, a) && e.page !in table && !Occupied(table, e.frame) && |table| < n
    ensures Admissible(a, e) && e !in Residents(a)
    ensures Record(a, e).Panic? <==> AccessFails(a, e.page)
    ensures Record(a, e).Done? ==>
              ArcAgrees(n, table[e.page := e.frame], Record(a, e).value) && Record(a, e).value.evictable == a.evictable
  {
    forall g | g in Residents(a)
      ensures Apart(e, g)
    {
      assert Holds(table, g.page, g.frame);
    }
    RecordKeeps(a, e);
    var t := table[e.page := e.frame];
    assert t.Keys == table.Keys + {e.page} && |t| == |table| + 1;
    assert !Holds(table, e.page, e.frame);
    if Record(a, e).Done? {
      var r := Record(a, e).value;
      forall g
        ensures g in Residents(a) + {e} <==> Holds(t, g.page, g.frame)
      {
        assert g in Residents(a) ==> g.page != e.page;
      }
    }
  }

  lemma ArcEvict(n: nat, table: map<PageId, FrameId>, a: Arc)
    requires ArcAgrees(n, table, a) && a.evictable != {}
    ensures !Victim(a).NoPick? && a.currSize > 0
    ensures var e := VictimEntry(a);
            && Holds(table, e.page, e.frame) && ArcAgrees(n, table - {e.page}, Evicted(a))
            && e in Residents(a) && e.frame in a.evictable && Evicted(a).evictable == a.evictable - {e.frame}
  {
    EvictKeeps(a);
    TracksLess(table, Residents(a), VictimEntry(a));
  }

  lemma TracksLess(table: map<PageId, FrameId>, residents: set<Entry>, e: Entry)
    requires Tracks(table, residents) && e in residents
    ensures Holds(table, e.page, e.frame) && Tracks(table - {e.page}, residents - {e})
    ensures |table| == |table - {e.page}| + 1
  {
  }

  // ------------------------------------------------------------------ every run: Sound

  lemma PinSound(s: Pool, p: PageId)
    requires Sound(s) && p in s.table
    ensures Pin(s, p, s.table[p]).Done? && Sound(Pin(s, p, s.table[p]).value)
  {
    ArcHit(|s.frames|, s.table, s.arc, Entry(s.table[p], p));
  }

  lemma SameData(s: Pool, r: Pool)
    requires r.table == s.table && r.disk == s.disk && |r.frames| == |s.frames|
    requires forall f :: 0 <= f < |s.frames| ==> r.frames[f].data == s.frames[f].data
    ensures View(r) == View(s)
  {
  }

  lemma LoadSound(s: Pool, p: PageId)
    requires Sound(s) && p in s.disk && p !in s.table && s.free != []
    ensures s.free[|s.free| - 1] < |s.frames|
    ensures LoadAndPin(s, p).Panic? <==> AccessFails(s.arc, p)
    ensures LoadAndPin(s, p).Panic? || Sound(LoadAndPin(s, p).value)
  {
    TableLoad(|s.frames|, s.free, s.table, p);
    ArcLoad(|s.frames|, s.table, s.arc, Entry(s.free[|s.free| - 1], p));
  }

  lemma LoadView(s: Pool, p: PageId)
    requires TableOk(|s.frames|, s.free, s.table) && p in s.disk && p !in s.table && s.free != []
    ensures s.free[|s.free| - 1] < |s.frames|
    ensures View(Load(s, p)) == View(s)
  {
    var f := s.free[|s.free| - 1];
    assert f in s.free;
    var r := Load(s, p);
    forall q | q in s.disk
      ensures Bytes(r.frames, r.table, r.disk, q) == Bytes(s.frames, s.table, s.disk, q)
    {
    }
  }

  /** Eviction finds a victim exactly if some frame is evictable. */
  lemma EvictPanics(s: Pool)
    requires Sound(s)
    ensures Evict(s).Panic? <==> s.arc.evictable == {}
  {
    VictimExists(s.arc);
    if s.arc.evictable != {} {
      EvictIs(s);
    }
  }

  /** The table's page for the victim's frame is the victim's page. */
  lemma EvictIs(s: Pool)
    requires Sound(s) && s.arc.evictable != {}
    ensures !Victim(s.arc).NoPick? && s.arc.currSize > 0
    ensures var e := VictimEntry(s.arc);
            Holds(s.table, e.page, e.frame) && e.frame < |s.frames| && Evict(s) == Done(Dropped(s, e))
  {
    ArcEvict(|s.frames|, s.table, s.arc);
    HolderIs(s.table, VictimEntry(s.arc));
  }

  /** What the program finds when it looks for a frame: a victim, and in the table the page it holds. */
  lemma EvictFinds(s: Pool)
    requires Sound(s)
    ensures OneToOne(s.table)
    ensures if Victim(s.arc).NoPick? then Evict(s).Panic? else EvictFound(s)
  {
    VictimExists(s.arc);
    if !Victim(s.arc).NoPick? {
      EvictIs(s);
      HolderIs(s.table, VictimEntry(s.arc));
    }
  }

  ghost predicate EvictFound(s: Pool)
    requires !Victim(s.arc).NoPick?
  {
    var e := VictimEntry(s.arc);
    && s.arc.currSize > 0 && e.frame < |s.frames| && Holder(s.table, e.frame) == Some(e.page)
    && Evict(s) == Done(Dropped(s, e))
  }

  lemma EvictSound(s: Pool)
    requires Sound(s) && s.arc.evictable != {}
    ensures Evict(s).Done? && Sound(Evict(s).value)
  {
    EvictIs(s);
    ArcEvict(|s.frames|, s.table, s.arc);
    TableEvict(|s.frames|, s.free, s.table, VictimEntry(s.arc).page);
    DiskEvict(s.table, s.next, s.disk, VictimEntry(s.arc).page, s.frames[VictimEntry(s.arc).frame].data);
  }

  lemma DiskEvict(table: map<PageId, FrameId>, next: nat, disk: Store, q: PageId, data: Page)
    requires DiskAgrees(table, next, disk) && q in table
    ensures DiskAgrees(table - {q}, next, disk[q := data])
  {
  }

  /** The bytes of every page stay what they were: the victim's go to disk. */
  lemma EvictView(s: Pool)
    requires Sound(s) && s.arc.evictable != {}
    ensures Evict(s).Done? && View(Evict(s).value) == View(s)
  {
    EvictIs(s);
    var e, r := VictimEntry(s.arc), Evict(s).value;
    DroppedView(s, e);
  }

  lemma DroppedView(s: Pool, e: Entry)
    requires e.frame < |s.frames| && !Victim(s.arc).NoPick? && s.arc.currSize > 0
    requires Holds(s.table, e.page, e.frame) && e.page in s.disk
    requires forall p, q :: p in s.table && q in s.table && p != q ==> s.table[p] != s.table[q]
    ensures View(Dropped(s, e)) == View(s)
  {
    var r := Dropped(s, e);
    assert r.disk.Keys == s.disk.Keys;
    forall p | p in s.disk
      ensures Bytes(r.frames, r.table, r.disk, p) == Bytes(s.frames, s.table, s.disk, p)
    {
    }
  }

  /** An eviction makes room for a page that is not resident. */
  lemma EvictRoom(s: Pool, p: PageId) returns (t: Pool)
    requires Sound(s) && p in s.disk && p !in s.table && s.free == [] && s.arc.evictable != {}
    ensures Evict(s) == Done(t) && !Victim(s.arc).NoPick? && s.arc.currSize > 0 && t.arc == Evicted(s.arc)
    ensures Sound(t) && p in t.disk && p !in t.table && t.free != [] && t.guards == s.guards
  {
    EvictIs(s);
    EvictSound(s);
    t := Evict(s).value;
  }

  /** Making a guard fails exactly if there is no frame to take, or in the replacer's arithmetic. */
  lemma FetchSound(s: Pool, p: PageId)
    requires Sound(s) && p in s.disk
    ensures Fetch(s, p).Panic? <==> Fails(s, p)
    ensures Fetch(s, p).Done? ==> Sound(Fetch(s, p).value)
  {
    if p in s.table {
      PinSound(s, p);
    } else if s.free != [] {
      LoadSound(s, p);
    } else {
      EvictPanics(s);
      VictimExists(s.arc);
      if s.arc.evictable != {} {
        var t := EvictRoom(s, p);
        LoadSound(t, p);
      }
    }
  }

  ghost predicate Fails(s: Pool, p: PageId) {
    && p !in s.table
    && if s.free != [] then AccessFails(s.arc, p)
       else Victim(s.arc).NoPick? || s.arc.currSize == 0
            || AccessFails(Evicted(s.arc), p)
  }

  lemma PinView(s: Pool, p: PageId, f: FrameId)
    requires f < |s.frames| && Pin(s, p, f).Done?
    ensures View(Pin(s, p, f).value) == View(s)
  {
  }

  /** A guard made on a page in frame `f` shows that page. */
  lemma PinShows(s: Pool, p: PageId, f: FrameId)
    requires f < |s.frames| && Holds(s.table, p, f) && Pin(s, p, f).Done? && p in s.disk
    ensures Shown(s, p, Pin(s, p, f).value)
  {
  }

  /** `r` has one guard more than `s`, on page `p`; no page's bytes changed, and the guard shows those of `p`. */
  ghost predicate Shown(s: Pool, p: PageId, r: Pool) {
    && p in s.disk && p in r.table && r.table[p] < |r.frames|
    && r.guards == s.guards + multiset{Entry(r.table[p], p)}
    && View(r) == View(s) && r.frames[r.table[p]].data == View(s)[p]
  }

  /** Making a guard never changes the bytes of any page, whatever is loaded or evicted on the way, and
      the guard shows the last bytes written to its page. */
  lemma FetchView(s: Pool, p: PageId)
    requires Sound(s) && p in s.disk && Fetch(s, p).Done?
    ensures Shown(s, p, Fetch(s, p).value)
  {
    if p in s.table {
      PinShows(s, p, s.table[p]);
    } else if s.free != [] {
      LoadShows(s, p);
    } else {
      EvictPanics(s);
      var t := EvictRoom(s, p);
      EvictView(s);
      LoadShows(t, p);
    }
  }

  lemma LoadShows(s: Pool, p: PageId)
    requires TableOk(|s.frames|, s.free, s.table) && p in s.disk && p !in s.table && s.free != []
    ensures s.free[|s.free| - 1] < |s.frames|
    ensures LoadAndPin(s, p).Done? ==> Shown(s, p, LoadAndPin(s, p).value)
  {
    LoadView(s, p);
    if LoadAndPin(s, p).Done? {
      PinShows(Load(s, p), p, s.free[|s.free| - 1]);
    }
  }
}
