/** Pins, marks and dirty flags: what the parts of a call on the pool do to them. */
module PoolPins {
  import opened Common
  import opened Arc
  import opened Pool

  lemma CountBounded(m: multiset<Entry>, e: Entry)
    ensures m[e] <= |m|
  {
    assert |m[e := 0]| == |m| - m[e];
  }

  /** `e` is resident, or about to be: its frame is wiped and unmarked, and its page and frame are nobody's. */
  ghost predicate Entering(frames: seq<Frame>, a: Arc, e: Entry) {
    || e in Residents(a)
    || (e.frame < |frames| && frames[e.frame].pin == 0 && e.frame !in a.evictable
        && forall g :: g in Residents(a) ==> Apart(e, g))
  }

  lemma OthersElsewhere(frames: seq<Frame>, a: Arc, e: Entry, g: Entry)
    requires OnePlace(a) && Entering(frames, a, e) && g in Residents(a) && g != e
    ensures g.frame != e.frame
  {
    if e in Residents(a) {
      ResidentsApart(a, g, e);
    }
  }

  // ------------------------------------------------------------------ unpinned means evictable

  lemma TendedPin(frames: seq<Frame>, free: seq<FrameId>, a: Arc, guards: multiset<Entry>, e: Entry, r: Arc)
    requires Tended(frames, free, a, guards) && |guards| < USIZE_MAX
    requires OnePlace(a) && Accessed(a, e, r) && Entering(frames, a, e) && e.frame < |frames| && e.frame !in free
    ensures Tended(frames[e.frame := frames[e.frame].(pin := Up(frames[e.frame].pin))], free, r, guards + multiset{e})
  {
    CountBounded(guards, e);
    forall g | g in Residents(a) && g != e
      ensures g.frame != e.frame
    {
      OthersElsewhere(frames, a, e, g);
    }
  }

  lemma TendedSame(frames: seq<Frame>, free: seq<FrameId>, a: Arc, guards: multiset<Entry>, frames': seq<Frame>, rest: seq<FrameId>)
    requires Tended(frames, free, a, guards) && |frames'| == |frames|
    requires forall f :: 0 <= f < |frames| ==> frames'[f].pin == frames[f].pin
    requires forall f :: f in rest ==> f in free
    ensures Tended(frames', rest, a, guards)
  {
  }

  /** The victim goes, and its frame holds no other resident. */
  lemma VictimGoes(a: Arc)
    requires ArcOk(a) && a.evictable != {}
    ensures !Victim(a).NoPick? && a.currSize > 0
    ensures forall g :: g in Residents(Evicted(a)) ==> g in Residents(a) && g.frame != VictimEntry(a).frame
    ensures Evicted(a).evictable == a.evictable - {VictimEntry(a).frame}
  {
    EvictKeeps(a);
    var e := VictimEntry(a);
    forall g | g in Residents(Evicted(a))
      ensures g in Residents(a) && g.frame != e.frame
    {
      ResidentsApart(a, g, e);
    }
  }

  lemma TendedEvict(frames: seq<Frame>, free: seq<FrameId>, a: Arc, guards: multiset<Entry>, wiped: Frame)
    requires Tended(frames, free, a, guards) && ArcOk(a) && a.evictable != {} && wiped.pin == 0
    ensures !Victim(a).NoPick? && a.currSize > 0
    ensures var f := VictimEntry(a).frame;
            f < |frames| ==> Tended(frames[f := wiped], free + [f], Evicted(a), guards)
  {
    VictimGoes(a);
  }

  lemma TendedUnpin(frames: seq<Frame>, free: seq<FrameId>, a: Arc, guards: multiset<Entry>, e: Entry)
    requires Tended(frames, free, a, guards) && e in guards && e.frame < |frames| && e.frame !in free
    ensures var pin := Down(frames[e.frame].pin);
            Tended(frames[e.frame := frames[e.frame].(pin := pin)], free, if pin == 0 then Mark(a, e.frame) else a, guards - multiset{e})
  {
  }

  // ------------------------------------------------------------------ clean means on disk

  lemma CleanPin(frames: seq<Frame>, table: map<PageId, FrameId>, disk: Store, f: FrameId, pin: nat)
    requires Clean(frames, table, disk) && f < |frames|
    ensures Clean(frames[f := frames[f].(pin := pin)], table, disk)
  {
  }

  lemma CleanArrives(frames: seq<Frame>, table: map<PageId, FrameId>, disk: Store, e: Entry)
    requires Clean(frames, table, disk) && !Occupied(table, e.frame) && e.frame < |frames| && e.page in disk
    ensures Clean(frames[e.frame := frames[e.frame].(data := disk[e.page])], table[e.page := e.frame], disk)
  {
    assert forall q :: q in table ==> Holds(table, q, table[q]);
  }

  lemma CleanLeaves(frames: seq<Frame>, table: map<PageId, FrameId>, disk: Store, e: Entry, wiped: Frame, data: Page)
    requires Clean(frames, table, disk) && OneToOne(table) && Holds(table, e.page, e.frame) && e.frame < |frames|
    ensures Clean(frames[e.frame := wiped], table - {e.page}, disk[e.page := data])
  {
  }

  lemma CleanWrite(frames: seq<Frame>, table: map<PageId, FrameId>, disk: Store, f: FrameId, data: Page)
    requires Clean(frames, table, disk) && f < |frames|
    ensures Clean(frames[f := frames[f].(dirty := true, data := data)], table, disk)
  {
  }

  lemma CleanFlush(frames: seq<Frame>, table: map<PageId, FrameId>, disk: Store, e: Entry)
    requires Clean(frames, table, disk) && OneToOne(table) && Holds(table, e.page, e.frame) && e.frame < |frames|
    ensures Clean(frames[e.frame := frames[e.frame].(dirty := false)], table, disk[e.page := frames[e.frame].data])
  {
  }

  // ------------------------------------------------------------------ pins count guards

  lemma PinnedMore(frames: seq<Frame>, table: map<PageId, FrameId>, guards: multiset<Entry>, e: Entry)
    requires Pinned(frames, table, guards) && |guards| < USIZE_MAX
    requires OneToOne(table) && Holds(table, e.page, e.frame) && e.frame < |frames|
    ensures Pinned(frames[e.frame := frames[e.frame].(pin := Up(frames[e.frame].pin))], table, guards + multiset{e})
  {
    CountBounded(guards, e);
  }

  lemma PinnedLess(frames: seq<Frame>, table: map<PageId, FrameId>, guards: multiset<Entry>, e: Entry)
    requires OneToOne(table) && Pinned(frames, table, guards) && e in guards && e.frame < |frames|
    ensures Pinned(frames[e.frame := frames[e.frame].(pin := Down(frames[e.frame].pin))], table, guards - multiset{e})
  {
    assert Holds(table, e.page, e.frame);
  }

  /** A page arrives in a frame without pins. */
  lemma PinnedArrives(frames: seq<Frame>, table: map<PageId, FrameId>, guards: multiset<Entry>, e: Entry, data: Page)
    requires Pinned(frames, table, guards) && e.page !in table && !Occupied(table, e.frame)
    requires e.frame < |frames| && frames[e.frame].pin == 0
    ensures Pinned(frames[e.frame := frames[e.frame].(data := data)], table[e.page := e.frame], guards)
  {
    var t := table[e.page := e.frame];
    forall g | g in guards
      ensures Holds(t, g.page, g.frame)
    {
      assert Holds(table, g.page, g.frame);
    }
    assert e !in guards;
    assert forall q :: q in table ==> Holds(table, q, table[q]);
  }

  /** A page leaves a frame without pins: no guard is left behind. */
  lemma PinnedLeaves(frames: seq<Frame>, table: map<PageId, FrameId>, guards: multiset<Entry>, e: Entry, wiped: Frame)
    requires Pinned(frames, table, guards) && OneToOne(table) && Holds(table, e.page, e.frame)
    requires e.frame < |frames| && frames[e.frame].pin == 0
    ensures Pinned(frames[e.frame := wiped], table - {e.page}, guards)
  {
    assert e !in guards;
    forall g | g in guards
      ensures Holds(table - {e.page}, g.page, g.frame)
    {
      assert Holds(table, g.page, g.frame);
    }
  }

  lemma PinnedSame(frames: seq<Frame>, table: map<PageId, FrameId>, guards: multiset<Entry>, frames': seq<Frame>)
    requires Pinned(frames, table, guards) && |frames'| == |frames|
    requires forall f :: 0 <= f < |frames| ==> frames'[f].pin == frames[f].pin
    ensures Pinned(frames', table, guards)
  {
  }

  // ------------------------------------------------------------------ the MRU list

  /** A second access takes an entry off the MRU list; a first one finds the frame unmarked. */
  lemma MruPin(frames: seq<Frame>, a: Arc, e: Entry, r: Arc, pin: nat)
    requires MruUnpinned(frames, a) && OnePlace(a) && Accessed(a, e, r) && Entering(frames, a, e) && e.frame < |frames|
    ensures MruUnpinned(frames[e.frame := frames[e.frame].(pin := pin)], r)
  {
    forall g | g in r.mru && g != e
      ensures g in a.mru && g.frame != e.frame
    {
      assert g in Residents(a);
      OthersElsewhere(frames, a, e, g);
    }
  }

  lemma MruSame(frames: seq<Frame>, a: Arc, frames': seq<Frame>)
    requires MruUnpinned(frames, a) && |frames'| == |frames|
    requires forall f :: 0 <= f < |frames| ==> frames'[f].pin == frames[f].pin
    ensures MruUnpinned(frames', a)
  {
  }

  lemma MruEvict(frames: seq<Frame>, a: Arc, wiped: Frame)
    requires MruUnpinned(frames, a) && ArcOk(a) && a.evictable != {} && wiped.pin == 0
    ensures !Victim(a).NoPick? && a.currSize > 0
    ensures VictimEntry(a).frame < |frames| ==> MruUnpinned(frames[VictimEntry(a).frame := wiped], Evicted(a))
  {
    EvictKeeps(a);
    EvictMru(a);
  }

  lemma MruUnpin(frames: seq<Frame>, a: Arc, e: Entry)
    requires MruUnpinned(frames, a) && e.frame < |frames| && frames[e.frame].pin > 0
    ensures var pin := Down(frames[e.frame].pin);
            MruUnpinned(frames[e.frame := frames[e.frame].(pin := pin)], if pin == 0 then Mark(a, e.frame) else a)
  {
  }

  // ------------------------------------------------------------------ the parts of a fetch

  /** A hit is one more pin and one more access. */
  lemma HitIs(s: Pool, p: PageId) returns (a: Arc)
    requires Sound(s) && p in s.table
    ensures s.table[p] < |s.frames| && Pin(s, p, s.table[p]) == Done(WithPin(s, Entry(s.table[p], p), a))
    ensures OnePlace(s.arc) && Accessed(s.arc, Entry(s.table[p], p), a) && Entry(s.table[p], p) in Residents(s.arc)
  {
    var e := Entry(s.table[p], p);
    ArcHit(|s.frames|, s.table, s.arc, e);
    RecordAccesses(s.arc, e);
    a := Record(s.arc, e).value;
  }

  /** A load is an entry made on a frame without pins, and then a hit. */
  lemma LoadIs(s: Pool, p: PageId) returns (a: Arc)
    requires Sound(s) && Unused(s.frames, s.free) && p in s.disk && p !in s.table && s.free != [] && LoadAndPin(s, p).Done?
    ensures var f := s.free[|s.free| - 1];
            && f < |s.frames| && f !in s.free[..|s.free| - 1] && !Occupied(s.table, f) && s.frames[f].pin == 0
            && LoadAndPin(s, p) == Done(WithPin(Load(s, p), Entry(f, p), a))
            && OnePlace(s.arc) && Accessed(s.arc, Entry(f, p), a) && Entering(s.frames, s.arc, Entry(f, p))
  {
    var f := s.free[|s.free| - 1];
    var e := Entry(f, p);
    Popped(s.free);
    TableLoad(|s.frames|, s.free, s.table, p);
    ArcLoad(|s.frames|, s.table, s.arc, e);
    RecordAccesses(s.arc, e);
    a := Record(s.arc, e).value;
    forall g | g in Residents(s.arc)
      ensures Apart(e, g)
    {
      assert Holds(s.table, g.page, g.frame);
    }
    assert f !in s.arc.evictable;
  }

  /** With no frame free, a fetch is an eviction and then a load. */
  lemma EvictMakesRoom(s: Pool, p: PageId) returns (t: Pool)
    requires Sound(s) && Unused(s.frames, s.free) && p in s.disk && p !in s.table && s.free == [] && Fetch(s, p).Done?
    ensures s.arc.evictable != {} && Evict(s) == Done(t) && Fetch(s, p) == LoadAndPin(t, p)
    ensures Sound(t) && Unused(t.frames, t.free) && p in t.disk && p !in t.table && t.free != [] && t.guards == s.guards
  {
    EvictPanics(s);
    t := EvictRoom(s, p);
    EvictIs(s);
  }

  lemma HitTended(s: Pool, p: PageId)
    requires Sound(s) && Tended(s.frames, s.free, s.arc, s.guards) && p in s.table && |s.guards| < USIZE_MAX
    ensures s.table[p] < |s.frames| && Pin(s, p, s.table[p]).Done?
    ensures var r := Pin(s, p, s.table[p]).value; Tended(r.frames, r.free, r.arc, r.guards)
  {
    var a := HitIs(s, p);
    TendedPin(s.frames, s.free, s.arc, s.guards, Entry(s.table[p], p), a);
  }

  lemma LoadTended(s: Pool, p: PageId)
    requires Sound(s) && Tended(s.frames, s.free, s.arc, s.guards) && |s.guards| < USIZE_MAX
    requires p in s.disk && p !in s.table && s.free != [] && LoadAndPin(s, p).Done?
    ensures var r := LoadAndPin(s, p).value; Tended(r.frames, r.free, r.arc, r.guards)
  {
    var a := LoadIs(s, p);
    var f, l := s.free[|s.free| - 1], Load(s, p);
    Popped(s.free);
    TendedSame(s.frames, s.free, s.arc, s.guards, l.frames, l.free);
    TendedPin(l.frames, l.free, l.arc, l.guards, Entry(f, p), a);
  }

  lemma EvictTended(s: Pool)
    requires Sound(s) && Tended(s.frames, s.free, s.arc, s.guards) && s.arc.evictable != {}
    ensures Evict(s).Done?
    ensures var t := Evict(s).value; Tended(t.frames, t.free, t.arc, t.guards)
  {
    EvictIs(s);
    TendedEvict(s.frames, s.free, s.arc, s.guards, Frame(0, false, ZeroPage()));
  }

  /** Making a guard, whatever is evicted for it, leaves every unpinned resident frame evictable. */
  lemma FetchTended(s: Pool, p: PageId)
    requires Sound(s) && Tended(s.frames, s.free, s.arc, s.guards) && |s.guards| < USIZE_MAX && p in s.disk && Fetch(s, p).Done?
    ensures var r := Fetch(s, p).value; Tended(r.frames, r.free, r.arc, r.guards)
  {
    if p in s.table {
      HitTended(s, p);
    } else if s.free != [] {
      LoadTended(s, p);
    } else {
      var t := EvictMakesRoom(s, p);
      EvictTended(s);
      LoadTended(t, p);
    }
  }

  // ------------------------------------------------------------------ clean frames through a fetch

  lemma HitClean(s: Pool, p: PageId)
    requires Sound(s) && Clean(s.frames, s.table, s.disk) && p in s.table
    ensures s.table[p] < |s.frames| && Pin(s, p, s.table[p]).Done?
    ensures var r := Pin(s, p, s.table[p]).value; Clean(r.frames, r.table, r.disk)
  {
    var a := HitIs(s, p);
    CleanPin(s.frames, s.table, s.disk, s.table[p], Up(s.frames[s.table[p]].pin));
  }

  lemma LoadClean(s: Pool, p: PageId)
    requires Sound(s) && Unused(s.frames, s.free) && Clean(s.frames, s.table, s.disk)
    requires p in s.disk && p !in s.table && s.free != [] && LoadAndPin(s, p).Done?
    ensures var r := LoadAndPin(s, p).value; Clean(r.frames, r.table, r.disk)
  {
    var a := LoadIs(s, p);
    var f, l := s.free[|s.free| - 1], Load(s, p);
    CleanArrives(s.frames, s.table, s.disk, Entry(f, p));
    CleanPin(l.frames, l.table, l.disk, f, Up(l.frames[f].pin));
  }

  lemma EvictClean(s: Pool)
    requires Sound(s) && Clean(s.frames, s.table, s.disk) && s.arc.evictable != {}
    ensures Evict(s).Done?
    ensures var t := Evict(s).value; Clean(t.frames, t.table, t.disk)
  {
    EvictIs(s);
    var e := VictimEntry(s.arc);
    CleanLeaves(s.frames, s.table, s.disk, e, Frame(0, false, ZeroPage()), s.frames[e.frame].data);
  }

  /** A clean frame stays what the disk holds, whatever is loaded or evicted. */
  lemma FetchClean(s: Pool, p: PageId)
    requires Sound(s) && Unused(s.frames, s.free) && Clean(s.frames, s.table, s.disk) && p in s.disk && Fetch(s, p).Done?
    ensures var r := Fetch(s, p).value; Clean(r.frames, r.table, r.disk)
  {
    if p in s.table {
      HitClean(s, p);
    } else if s.free != [] {
      LoadClean(s, p);
    } else {
      var t := EvictMakesRoom(s, p);
      EvictClean(s);
      LoadClean(t, p);
    }
  }

  // ------------------------------------------------------------------ exact pins through a fetch

  lemma HitCounted(s: Pool, p: PageId)
    requires Sound(s) && Counted(s.frames, s.table, s.guards, s.arc) && p in s.table && |s.guards| < USIZE_MAX
    ensures s.table[p] < |s.frames| && Pin(s, p, s.table[p]).Done?
    ensures var r := Pin(s, p, s.table[p]).value; Counted(r.frames, r.table, r.guards, r.arc)
  {
    var a := HitIs(s, p);
    var e := Entry(s.table[p], p);
    PinnedMore(s.frames, s.table, s.guards, e);
    MruPin(s.frames, s.arc, e, a, Up(s.frames[e.frame].pin));
  }

  lemma LoadCounted(s: Pool, p: PageId)
    requires Sound(s) && Unused(s.frames, s.free) && Counted(s.frames, s.table, s.guards, s.arc) && |s.guards| < USIZE_MAX
    requires p in s.disk && p !in s.table && s.free != [] && LoadAndPin(s, p).Done?
    ensures var r := LoadAndPin(s, p).value; Counted(r.frames, r.table, r.guards, r.arc)
  {
    var a := LoadIs(s, p);
    var f, l := s.free[|s.free| - 1], Load(s, p);
    var e := Entry(f, p);
    TableLoad(|s.frames|, s.free, s.table, p);
    PinnedArrives(s.frames, s.table, s.guards, e, s.disk[p]);
    PinnedMore(l.frames, l.table, l.guards, e);
    MruSame(s.frames, s.arc, l.frames);
    MruPin(l.frames, s.arc, e, a, Up(l.frames[f].pin));
  }

  /** The frame the next eviction takes, if it takes one, has no pin. */
  ghost predicate VictimUnpinned(s: Pool) {
    Victim(s.arc).NoPick? || (VictimEntry(s.arc).frame < |s.frames| ==> s.frames[VictimEntry(s.arc).frame].pin == 0)
  }

  lemma EvictCounted(s: Pool)
    requires Sound(s) && Counted(s.frames, s.table, s.guards, s.arc) && s.arc.evictable != {} && VictimUnpinned(s)
    ensures Evict(s).Done?
    ensures var t := Evict(s).value; Counted(t.frames, t.table, t.guards, t.arc)
  {
    EvictIs(s);
    var wiped := Frame(0, false, ZeroPage());
    PinnedLeaves(s.frames, s.table, s.guards, VictimEntry(s.arc), wiped);
    MruEvict(s.frames, s.arc, wiped);
  }

  /** Pins stay exact if no pinned frame is evicted. */
  lemma FetchCounted(s: Pool, p: PageId)
    requires Sound(s) && Unused(s.frames, s.free) && Counted(s.frames, s.table, s.guards, s.arc) && |s.guards| < USIZE_MAX
    requires p in s.disk && Fetch(s, p).Done?
    requires p !in s.table && s.free == [] ==> VictimUnpinned(s)
    ensures var r := Fetch(s, p).value; Counted(r.frames, r.table, r.guards, r.arc)
  {
    if p in s.table {
      HitCounted(s, p);
    } else if s.free != [] {
      LoadCounted(s, p);
    } else {
      var t := EvictMakesRoom(s, p);
      EvictCounted(s);
      LoadCounted(t, p);
    }
  }

  /** A guard alive is on a resident page, in the frame it names, and shows the last bytes written to it. */
  lemma GuardShows(s: Pool, e: Entry)
    requires Agreed(s) && Pinned(s.frames, s.table, s.guards) && e in s.guards
    ensures Holds(s.table, e.page, e.frame) && e.frame < |s.frames| && e.page in s.disk
    ensures s.frames[e.frame].data == View(s)[e.page] && s.frames[e.frame].pin > 0
  {
    assert Holds(s.table, e.page, e.frame);
  }
}
