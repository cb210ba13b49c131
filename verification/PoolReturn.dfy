/** A run in which a page remembered as an MFU ghost is fetched again with the target at zero, and a guard is made:
    the MFU ghosts are fewer than the MRU ghosts. */
module PoolReturn {
  import opened Common
  import opened Arc
  import opened Pool
  import opened PoolPins
  import opened PoolRuns
  import opened PoolEffects

  // ------------------------------------------------------------------ visits

  /** No guard is alive and no frame has a pin. */
  ghost predicate Idle(s: Pool) {
    && Agreed(s) && Tidied(s) && s.guards == multiset{}
    && forall f: FrameId :: f < |s.frames| ==> s.frames[f].pin == 0
  }

  /** The replacer an access of page `p` is recorded in, after an eviction if no frame is free. */
  ghost function Base(s: Pool, p: PageId): (a: Arc) {
    if p in s.table || s.free != [] || Victim(s.arc).NoPick? || s.arc.currSize == 0 then s.arc else Evicted(s.arc)
  }

  /** The frame page `p` is in, or will be. */
  ghost function Place(s: Pool, p: PageId): (f: FrameId) {
    if p in s.table then s.table[p]
    else if s.free != [] then s.free[|s.free| - 1]
    else if Victim(s.arc).NoPick? then 0
    else VictimEntry(s.arc).frame
  }

  ghost predicate HasRoom(s: Pool, p: PageId) {
    p in s.table || s.free != [] || s.arc.evictable != {}
  }

  lemma LoadRecords(s: Pool, p: PageId)
    requires s.free != [] && p in s.disk && s.free[|s.free| - 1] < |s.frames|
    requires Record(s.arc, Entry(s.free[|s.free| - 1], p)).Done?
    ensures LoadAndPin(s, p).Done? && LoadAndPin(s, p).value.arc == Record(s.arc, Entry(s.free[|s.free| - 1], p)).value
    ensures Holds(LoadAndPin(s, p).value.table, p, s.free[|s.free| - 1])
  {
  }

  lemma HitRecords(s: Pool, p: PageId)
    requires p in s.table && s.table[p] < |s.frames| && Record(s.arc, Entry(s.table[p], p)).Done?
    ensures Pin(s, p, s.table[p]).Done? && Pin(s, p, s.table[p]).value.arc == Record(s.arc, Entry(s.table[p], p)).value
    ensures Holds(Pin(s, p, s.table[p]).value.table, p, s.table[p])
  {
  }

  lemma EvictPlace(s: Pool, p: PageId) returns (t: Pool)
    requires Sound(s) && p in s.disk && p !in s.table && s.free == [] && s.arc.evictable != {}
    ensures Evict(s) == Done(t) && t.free == [Place(s, p)] && p in t.disk && t.arc == Base(s, p) && Place(s, p) < |t.frames|
  {
    t := EvictRoom(s, p);
    EvictIs(s);
    assert [] + [Place(s, p)] == [Place(s, p)];
  }

  /** A guard is made if the access can be recorded. */
  lemma FetchRecords(s: Pool, p: PageId)
    requires Sound(s) && p in s.disk && HasRoom(s, p) && Record(Base(s, p), Entry(Place(s, p), p)).Done?
    ensures Fetch(s, p).Done? && Fetch(s, p).value.arc == Record(Base(s, p), Entry(Place(s, p), p)).value
    ensures Holds(Fetch(s, p).value.table, p, Place(s, p))
  {
    if p in s.table {
      HitRecords(s, p);
    } else if s.free != [] {
      assert s.free[|s.free| - 1] in s.free;
      LoadRecords(s, p);
    } else {
      var t := EvictPlace(s, p);
      LoadRecords(t, p);
    }
  }

  ghost predicate OnePin(s: Pool, f: FrameId) {
    f < |s.frames| && forall g: FrameId :: g < |s.frames| ==> s.frames[g].pin == if g == f then 1 else 0
  }

  /** A guard on `p` made by a client that is alone. */
  ghost predicate Acquired(s: Pool, p: PageId, t: Pool) {
    var e := Entry(Place(s, p), p);
    && p in s.disk && Fetch(s, p) == Done(t) && t.guards == multiset{e} && OnePin(t, e.frame) && |t.frames| == |s.frames|
    && Exchanged(s, p, e.frame, t) && Record(Base(s, p), e) == Done(t.arc)
  }

  lemma AloneAcquired(s: Pool, p: PageId, f: FrameId, t: Pool)
    requires s.guards == multiset{} && (forall g: FrameId :: g < |s.frames| ==> s.frames[g].pin == 0)
    requires Guarded(s, p, f, t) && Shown(s, p, t)
    ensures OnePin(t, f) && t.guards == multiset{Entry(f, p)}
  {
    assert multiset{} + multiset{Entry(f, p)} == multiset{Entry(f, p)};
  }

  lemma Acquire1(s: Pool, p: PageId) returns (t: Pool)
    requires Idle(s) && p in s.disk && HasRoom(s, p) && Record(Base(s, p), Entry(Place(s, p), p)).Done?
    ensures Acquired(s, p, t)
  {
    FetchRecords(s, p);
    t := Fetch(s, p).value;
    FetchView(s, p);
    var f := FetchEffect(s, p);
    AloneAcquired(s, p, f, t);
  }

  /** A guard on `p` made, and dropped. */
  ghost predicate Steps(s: Pool, p: PageId, t: Pool, u: Pool) {
    var e := Entry(Place(s, p), p);
    && p in s.disk && s.guards == multiset{} && Fetch(s, p) == Done(t)
    && e in t.guards && e.frame < |t.frames| && u == Unpin(t, e)
  }

  /** What that does to table, disk and replacer. */
  ghost predicate Moved(s: Pool, p: PageId, t: Pool, u: Pool) {
    var e := Entry(Place(s, p), p);
    && Exchanged(s, p, e.frame, t) && |u.frames| == |s.frames| && u.table == t.table && u.free == t.free && u.disk == t.disk
    && u.arc == Mark(t.arc, e.frame) && Record(Base(s, p), e) == Done(t.arc)
  }

  lemma DropOnly(t: Pool, e: Entry)
    requires OnePin(t, e.frame) && t.guards == multiset{e}
    ensures var u := Unpin(t, e);
            && u.guards == multiset{} && u.arc == Mark(t.arc, e.frame) && |u.frames| == |t.frames|
            && forall g: FrameId :: g < |u.frames| ==> u.frames[g].pin == 0
  {
    assert multiset{e} - multiset{e} == multiset{};
  }

  lemma FetchedWell(s: Pool, p: PageId)
    requires Agreed(s) && Tidied(s) && p in s.disk && |s.guards| < USIZE_MAX && Fetch(s, p).Done?
    ensures Agreed(Fetch(s, p).value) && Tidied(Fetch(s, p).value)
  {
    FetchAgrees(s, p);
    AcquireAfter(s, p);
  }

  lemma DroppedWell(t: Pool, e: Entry)
    requires Agreed(t) && Tidied(t) && e in t.guards
    ensures e.frame < |t.frames| && Agreed(Unpin(t, e)) && Tidied(Unpin(t, e))
  {
    UnpinAgrees(t, e);
    UnpinAfter(t, e);
  }

  lemma Visit(s: Pool, p: PageId) returns (t: Pool, u: Pool)
    requires Idle(s) && p in s.disk && HasRoom(s, p) && Record(Base(s, p), Entry(Place(s, p), p)).Done?
    ensures Steps(s, p, t, u) && Moved(s, p, t, u) && Idle(u)
  {
    t := Acquire1(s, p);
    var e := Entry(Place(s, p), p);
    FetchedWell(s, p);
    DroppedWell(t, e);
    DropOnly(t, e);
    u := Unpin(t, e);
  }

  // ------------------------------------------------------------------ the replacer along the run

  ghost predicate Lists(a: Arc, mru: seq<Entry>, mfu: seq<Entry>, mruGhost: seq<PageId>, mfuGhost: seq<PageId>, marked: set<FrameId>) {
    && a.mru == mru && a.mfu == mfu && a.mruGhost == mruGhost && a.mfuGhost == mfuGhost && a.evictable == marked
    && a.target == 0 && a.cap == 2
  }

  const E0: Entry := Entry(1, 0)
  const E1: Entry := Entry(0, 1)
  const E2: Entry := Entry(1, 2)
  const E3: Entry := Entry(1, 3)

  lemma FirstOf0(a: Arc)
    requires Lists(a, [], [], [], [], {})
    ensures Record(a, E0).Done? && Lists(Mark(Record(a, E0).value, 1), [E0], [], [], [], {1})
  {
  }

  lemma SecondOf0(a: Arc)
    requires Lists(a, [E0], [], [], [], {1})
    ensures Record(a, E0).Done? && Lists(Mark(Record(a, E0).value, 1), [], [E0], [], [], {1})
  {
    assert AllBut([E0], E0) == [] && [E0] + [] == [E0];
  }

  lemma FirstOf1(a: Arc)
    requires Lists(a, [], [E0], [], [], {1})
    ensures Record(a, E1).Done? && Lists(Mark(Record(a, E1).value, 0), [E1], [E0], [], [], {0, 1})
  {
  }

  lemma SecondOf1(a: Arc)
    requires Lists(a, [E1], [E0], [], [], {0, 1})
    ensures Record(a, E1).Done? && Lists(Mark(Record(a, E1).value, 0), [], [E1, E0], [], [], {0, 1})
  {
    assert AllBut([E1], E1) == [];
    assert AllBut([E0], E1) == [E0];
    assert [E1] + [E0] == [E1, E0];
  }

  lemma FirstOf2(a: Arc)
    requires Lists(a, [], [E1, E0], [], [], {0, 1}) && a.currSize > 0
    ensures Victim(a) == FromMfu(1) && Record(Evicted(a), E2).Done?
    ensures Lists(Mark(Record(Evicted(a), E2).value, 1), [E2], [E1], [], [0], {0, 1})
  {
    assert LastMarked([E1, E0], {0, 1}) == 1 && LastMarked([], {0, 1}) == -1;
    assert RemoveAt([E1, E0], 1) == [E1];
    assert Lists(Evicted(a), [], [E1], [], [0], {0});
  }

  lemma FirstOf3(a: Arc)
    requires Lists(a, [E2], [E1], [], [0], {0, 1}) && a.currSize > 0
    ensures Victim(a) == FromMru(0) && Record(Evicted(a), E3).Done?
    ensures Lists(Mark(Record(Evicted(a), E3).value, 1), [E3], [E1], [2], [0], {0, 1})
  {
    assert LastMarked([E2], {0, 1}) == 0;
    assert RemoveAt([E2], 0) == [];
    assert Lists(Evicted(a), [], [E1], [2], [0], {0});
  }

  lemma ThirdOf0(a: Arc)
    requires Lists(a, [E3], [E1], [2], [0], {0, 1}) && a.currSize > 0
    ensures Victim(a) == FromMru(0) && Record(Evicted(a), E0).Done?
    ensures Lists(Record(Evicted(a), E0).value, [], [E0, E1], [3, 2], [], {0})
  {
    assert LastMarked([E3], {0, 1}) == 0;
    assert RemoveAt([E3], 0) == [] && [3] + [2] == [3, 2];
    assert Lists(Evicted(a), [], [E1], [3, 2], [0], {0});
    assert AllBut([0], 0) == [] && [E0] + [E1] == [E0, E1];
  }

  // ------------------------------------------------------------------ the run

  /** The pages are where they are said to be, and the replacer has these lists. */
  ghost predicate Looks(s: Pool, free: seq<FrameId>, table: map<PageId, FrameId>, mru: seq<Entry>, mfu: seq<Entry>,
                        mruGhost: seq<PageId>, mfuGhost: seq<PageId>, marked: set<FrameId>) {
    && |s.frames| == 2 && s.disk.Keys == {0, 1, 2, 3} && s.free == free && s.table == table
    && Lists(s.arc, mru, mfu, mruGhost, mfuGhost, marked)
  }

  ghost function FourPages(): (s: Pool) {
    NewPage(NewPage(NewPage(NewPage(NewPool(2)))))
  }

  lemma Start()
    ensures Idle(FourPages()) && Looks(FourPages(), [0, 1], map[], [], [], [], [], {})
    ensures RunOfPool(2, [NewPool(2)] + [NewPage(NewPool(2))] + [NewPage(NewPage(NewPool(2)))]
                         + [NewPage(NewPage(NewPage(NewPool(2))))] + [FourPages()], Allocations())
  {
    var s0 := NewPool(2);
    var s1, s2, s3 := NewPage(s0), NewPage(NewPage(s0)), NewPage(NewPage(NewPage(s0)));
    NewPoolOk(2);
    NewPageAgrees(s0);
    NewPageAgrees(s1);
    NewPageAgrees(s2);
    NewPageAgrees(s3);
    RunStarts(2);
    RunMore(2, [s0], [], Allocate, s1);
    RunMore(2, [s0] + [s1], [] + [Allocate], Allocate, s2);
    RunMore(2, [s0] + [s1] + [s2], [] + [Allocate] + [Allocate], Allocate, s3);
    RunMore(2, [s0] + [s1] + [s2] + [s3], [] + [Allocate] + [Allocate] + [Allocate], Allocate, FourPages());
    assert [] + [Allocate] + [Allocate] + [Allocate] + [Allocate] == Allocations();
    assert FourPages().free == [0, 1] && FourPages().disk.Keys == {0, 1, 2, 3};
  }

  ghost function Allocations(): (xs: seq<Step>) {
    [Allocate, Allocate, Allocate, Allocate]
  }

  lemma Visit0(s: Pool) returns (t: Pool, u: Pool)
    requires Idle(s) && Looks(s, [0, 1], map[], [], [], [], [], {})
    ensures Steps(s, 0, t, u) && Place(s, 0) == 1 && Idle(u) && Looks(u, [0], map[0 := 1], [E0], [], [], [], {1})
  {
    FirstOf0(s.arc);
    t, u := Visit(s, 0);
  }

  lemma Visit0Again(s: Pool) returns (t: Pool, u: Pool)
    requires Idle(s) && Looks(s, [0], map[0 := 1], [E0], [], [], [], {1})
    ensures Steps(s, 0, t, u) && Place(s, 0) == 1 && Idle(u) && Looks(u, [0], map[0 := 1], [], [E0], [], [], {1})
  {
    SecondOf0(s.arc);
    t, u := Visit(s, 0);
  }

  lemma Visit1(s: Pool) returns (t: Pool, u: Pool)
    requires Idle(s) && Looks(s, [0], map[0 := 1], [], [E0], [], [], {1})
    ensures Steps(s, 1, t, u) && Place(s, 1) == 0 && Idle(u) && Looks(u, [], map[0 := 1, 1 := 0], [E1], [E0], [], [], {0, 1})
  {
    FirstOf1(s.arc);
    t, u := Visit(s, 1);
  }

  lemma Visit1Again(s: Pool) returns (t: Pool, u: Pool)
    requires Idle(s) && Looks(s, [], map[0 := 1, 1 := 0], [E1], [E0], [], [], {0, 1})
    ensures Steps(s, 1, t, u) && Place(s, 1) == 0 && Idle(u) && Looks(u, [], map[0 := 1, 1 := 0], [], [E1, E0], [], [], {0, 1})
  {
    SecondOf1(s.arc);
    t, u := Visit(s, 1);
  }

  lemma LooksSwapped(s: Pool, p: PageId, t: Pool, u: Pool, e: Entry, table: map<PageId, FrameId>, mru: seq<Entry>, mfu: seq<Entry>,
                     mruGhost: seq<PageId>, mfuGhost: seq<PageId>, marked: set<FrameId>)
    requires p !in s.table && s.free == [] && Moved(s, p, t, u) && !Victim(s.arc).NoPick? && s.arc.currSize > 0
    requires VictimEntry(s.arc) == e && Record(Evicted(s.arc), Entry(e.frame, p)).Done?
    requires Lists(Mark(Record(Evicted(s.arc), Entry(e.frame, p)).value, e.frame), mru, mfu, mruGhost, mfuGhost, marked)
    requires table == (s.table - {e.page})[p := e.frame] && s.disk.Keys == {0, 1, 2, 3} && e.page in s.disk && |s.frames| == 2
    ensures Looks(u, [], table, mru, mfu, mruGhost, mfuGhost, marked)
  {
  }

  lemma SwapTables()
    ensures (map[0 := 1, 1 := 0] - {0})[2 := 1] == map[1 := 0, 2 := 1]
    ensures (map[1 := 0, 2 := 1] - {2})[3 := 1] == map[1 := 0, 3 := 1]
  {
  }

  lemma BaseIs(s: Pool, p: PageId)
    requires p !in s.table && s.free == [] && !Victim(s.arc).NoPick? && s.arc.currSize > 0
    ensures Base(s, p) == Evicted(s.arc) && Place(s, p) == VictimEntry(s.arc).frame
  {
  }

  lemma Visit2(s: Pool) returns (t: Pool, u: Pool)
    requires Idle(s) && Looks(s, [], map[0 := 1, 1 := 0], [], [E1, E0], [], [], {0, 1})
    ensures Steps(s, 2, t, u) && Place(s, 2) == 1 && Idle(u) && Looks(u, [], map[1 := 0, 2 := 1], [E2], [E1], [], [0], {0, 1})
  {
    VictimExists(s.arc);
    FirstOf2(s.arc);
    BaseIs(s, 2);
    t, u := Visit(s, 2);
    SwapTables();
    LooksSwapped(s, 2, t, u, E0, map[1 := 0, 2 := 1], [E2], [E1], [], [0], {0, 1});
  }

  lemma Visit3(s: Pool) returns (t: Pool, u: Pool)
    requires Idle(s) && Looks(s, [], map[1 := 0, 2 := 1], [E2], [E1], [], [0], {0, 1})
    ensures Steps(s, 3, t, u) && Place(s, 3) == 1 && Idle(u) && Looks(u, [], map[1 := 0, 3 := 1], [E3], [E1], [2], [0], {0, 1})
  {
    VictimExists(s.arc);
    FirstOf3(s.arc);
    BaseIs(s, 3);
    t, u := Visit(s, 3);
    SwapTables();
    LooksSwapped(s, 3, t, u, E2, map[1 := 0, 3 := 1], [E3], [E1], [2], [0], {0, 1});
  }

  lemma VisitTakes(s: Pool, p: PageId, t: Pool, u: Pool)
    requires Steps(s, p, t, u)
    ensures Takes(s, Acquire(p), t) && Takes(t, Release(Entry(Place(s, p), p)), u)
  {
  }

  /** A page visited: a guard made and dropped. */
  ghost function Visits(p: PageId, f: FrameId): (xs: seq<Step>) {
    [Acquire(p), Release(Entry(f, p))]
  }

  lemma RunVisits(states: seq<Pool>, xs: seq<Step>, p: PageId, t: Pool, u: Pool) returns (r: seq<Pool>)
    requires RunOfPool(2, states, xs) && Steps(states[|xs|], p, t, u)
    ensures RunOfPool(2, r, xs + Visits(p, Place(states[|xs|], p))) && r[|xs| + 2] == u
  {
    var e := Entry(Place(states[|xs|], p), p);
    VisitTakes(states[|xs|], p, t, u);
    RunMore(2, states, xs, Acquire(p), t);
    RunMore(2, states + [t], xs + [Acquire(p)], Release(e), u);
    assert xs + [Acquire(p)] + [Release(e)] == xs + [Acquire(p), Release(e)];
    r := states + [t] + [u];
  }

  lemma TwoVisitsOf0() returns (states: seq<Pool>)
    ensures RunOfPool(2, states, Allocations() + Visits(0, 1) + Visits(0, 1))
    ensures Idle(states[8]) && Looks(states[8], [0], map[0 := 1], [], [E0], [], [], {1})
  {
    Start();
    states := [NewPool(2)] + [NewPage(NewPool(2))] + [NewPage(NewPage(NewPool(2)))]
              + [NewPage(NewPage(NewPage(NewPool(2))))] + [FourPages()];
    var t, u := Visit0(states[4]);
    states := RunVisits(states, Allocations(), 0, t, u);
    t, u := Visit0Again(states[6]);
    states := RunVisits(states, Allocations() + Visits(0, 1), 0, t, u);
  }

  lemma TwoVisitsOf1() returns (states: seq<Pool>)
    ensures RunOfPool(2, states, Allocations() + Visits(0, 1) + Visits(0, 1) + Visits(1, 0) + Visits(1, 0))
    ensures Idle(states[12]) && Looks(states[12], [], map[0 := 1, 1 := 0], [], [E1, E0], [], [], {0, 1})
  {
    var xs := Allocations() + Visits(0, 1) + Visits(0, 1);
    states := TwoVisitsOf0();
    var t, u := Visit1(states[8]);
    states := RunVisits(states, xs, 1, t, u);
    t, u := Visit1Again(states[10]);
    states := RunVisits(states, xs + Visits(1, 0), 1, t, u);
  }

  lemma VisitsOf2And3() returns (states: seq<Pool>)
    ensures RunOfPool(2, states, Allocations() + Visits(0, 1) + Visits(0, 1) + Visits(1, 0) + Visits(1, 0) + Visits(2, 1) + Visits(3, 1))
    ensures Idle(states[16]) && Looks(states[16], [], map[1 := 0, 3 := 1], [E3], [E1], [2], [0], {0, 1})
  {
    var xs := Allocations() + Visits(0, 1) + Visits(0, 1) + Visits(1, 0) + Visits(1, 0);
    states := TwoVisitsOf1();
    var t, u := Visit2(states[12]);
    states := RunVisits(states, xs, 2, t, u);
    t, u := Visit3(states[14]);
    states := RunVisits(states, xs + Visits(2, 1), 3, t, u);
  }

  /** Pages 0 and 1 are visited twice each, pages 2 and 3 once. Then page 0 is an MFU ghost, alone, and pages 2 and 3
      are MRU ghosts once a frame is taken for it; the target is zero, and fetching page 0 makes a guard. */
  lemma GhostReturns() returns (states: seq<Pool>)
    ensures RunOfPool(2, states, Allocations() + Visits(0, 1) + Visits(0, 1) + Visits(1, 0) + Visits(1, 0) + Visits(2, 1) + Visits(3, 1))
    ensures states[16].arc.mfuGhost == [0] && states[16].arc.mruGhost == [2] && states[16].arc.target == 0
    ensures Enabled(states[16], Acquire(0)) && Apply(states[16], Acquire(0)).Done?
    ensures Entry(1, 0) in Apply(states[16], Acquire(0)).value.guards
  {
    states := VisitsOf2And3();
    LastFetch(states[16]);
  }

  lemma LastFetch(s: Pool)
    requires Idle(s) && Looks(s, [], map[1 := 0, 3 := 1], [E3], [E1], [2], [0], {0, 1})
    ensures Enabled(s, Acquire(0)) && Fetch(s, 0).Done? && Entry(1, 0) in Fetch(s, 0).value.guards
  {
    VictimExists(s.arc);
    ThirdOf0(s.arc);
    BaseIs(s, 0);
    var t := Acquire1(s, 0);
  }
}
