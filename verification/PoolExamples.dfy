/** Short runs in which the pool does not do what its documentation says. */
module PoolExamples {
  import opened Common
  import opened Arc
  import opened Pool
  import opened PoolPins
  import opened PoolRuns
  import opened PoolRefinement
  import opened PoolMarks

  /** A pool of one frame that has handed out pages 0 and 1; page `page` is in the frame. */
  ghost function OneFrame(page: PageId, pin: nat, a: Arc, guards: multiset<Entry>): (s: Pool) {
    Pool([Frame(pin, false, ZeroPage())], [], map[page := 0], 2, a, map[0 := ZeroPage(), 1 := ZeroPage()], guards)
  }

  const E: Entry := Entry(0, 0)
  const F: Entry := Entry(0, 1)

  ghost function Once(): (a: Arc) {
    Arc([E], [], [], [], map[E := 0], 1, 0, 1, 0, {})
  }

  /** Page 0 accessed twice, and its frame marked `marks` times. */
  ghost function Twice(marks: nat): (a: Arc) {
    Arc([], [E], [], [], map[E := 1], 2, 0, 1, marks, {0})
  }

  /** Page 0 evicted in favour of page 1. */
  ghost function Replaced(marks: nat): (a: Arc) {
    Arc([F], [], [], [0], map[F := 2], 3, 0, 1, marks, {})
  }

  lemma FirstAccess()
    ensures Record(NewArc(1), E) == Done(Once())
  {
    var a := NewArc(1);
    assert [E] + a.mru == [E];
    assert a.stamp[E := 0] == map[E := 0];
  }

  lemma SecondAccess()
    ensures Record(Mark(Once(), 0), E) == Done(Twice(1))
  {
    var a := Mark(Once(), 0);
    assert {} + {0} == {0};
    assert AllBut(a.mru, E) == [] by {
      assert a.mru[1..] == [];
    }
    assert AllBut(a.mfu, E) == [];
    assert [E] + AllBut(a.mfu, E) == [E];
    assert a.stamp[E := 1] == map[E := 1];
  }

  lemma VictimIsE(marks: nat)
    requires marks > 0
    ensures Victim(Twice(marks)) == FromMfu(0)
    ensures Record(Evicted(Twice(marks)), F) == Done(Replaced(marks - 1))
  {
    assert LastMarked([E], {0}) == 0;
    assert LastMarked([], {0}) == -1;
    var r := Evicted(Twice(marks));
    assert r.mfu == [] && r.evictable == {} && r.stamp == map[] && r.mfuGhost == [0];
    assert [F] + r.mru == [F];
    assert r.stamp[F := 2] == map[F := 2];
  }

  ghost function TwoPages(): (s: Pool) {
    NewPage(NewPage(NewPool(1)))
  }

  lemma StartingPoint()
    ensures TwoPages() == Pool([Frame(0, false, ZeroPage())], [0], map[], 2, NewArc(1), map[0 := ZeroPage(), 1 := ZeroPage()], multiset{})
  {
    var s := TwoPages();
    assert s.free == [0];
    assert s.frames == [Frame(0, false, ZeroPage())];
  }

  lemma FirstFetch()
    ensures 0 in TwoPages().disk && Fetch(TwoPages(), 0) == Done(OneFrame(0, 1, Once(), multiset{E}))
  {
    StartingPoint();
    FirstAccess();
    var l := Load(TwoPages(), 0);
    assert l.frames == [Frame(0, false, ZeroPage())] && l.free == [] && l.table == map[0 := 0];
    assert WithPin(l, E, Once()).frames == [Frame(1, false, ZeroPage())];
    assert multiset{} + multiset{E} == multiset{E};
    assert WithPin(l, E, Once()) == OneFrame(0, 1, Once(), multiset{E});
  }

  lemma Released(page: PageId, a: Arc)
    ensures Unpin(OneFrame(page, 1, a, multiset{Entry(0, page)}), Entry(0, page)) == OneFrame(page, 0, Mark(a, 0), multiset{})
  {
  }

  lemma SecondFetch()
    ensures Fetch(OneFrame(0, 0, Mark(Once(), 0), multiset{}), 0) == Done(OneFrame(0, 1, Twice(1), multiset{E}))
  {
    SecondAccess();
    var s := OneFrame(0, 0, Mark(Once(), 0), multiset{});
    var r := WithPin(s, E, Twice(1));
    assert r.frames == [Frame(1, false, ZeroPage())];
    assert multiset{} + multiset{E} == multiset{E};
  }

  /** The one frame is wiped and free. */
  ghost function Wiped(a: Arc, guards: multiset<Entry>): (s: Pool) {
    Pool([Frame(0, false, ZeroPage())], [0], map[], 2, a, map[0 := ZeroPage(), 1 := ZeroPage()], guards)
  }

  lemma EvictsE(pin: nat, marks: nat, guards: multiset<Entry>)
    requires marks > 0
    ensures Evict(OneFrame(0, pin, Twice(marks), guards)) == Done(Wiped(Evicted(Twice(marks)), guards))
  {
    VictimIsE(marks);
    var s := OneFrame(0, pin, Twice(marks), guards);
    assert Holds(s.table, 0, 0);
    assert Holder(s.table, 0) == Some(0);
    var t := Dropped(s, E);
    assert t.free == [0] && t.table == map[] && t.frames == [Frame(0, false, ZeroPage())] && t.disk == s.disk;
  }

  lemma ThirdFetch(pin: nat, marks: nat, guards: multiset<Entry>)
    requires marks > 0
    ensures Fetch(OneFrame(0, pin, Twice(marks), guards), 1) == Done(OneFrame(1, 1, Replaced(marks - 1), guards + multiset{F}))
  {
    VictimIsE(marks);
    EvictsE(pin, marks, guards);
    var l := Load(Wiped(Evicted(Twice(marks)), guards), 1);
    assert l.free == [] && l.frames == [Frame(0, false, ZeroPage())] && l.table == map[1 := 0];
    assert WithPin(l, F, Replaced(marks - 1)).frames == [Frame(1, false, ZeroPage())];
  }

  lemma FourthAccess()
    ensures Victim(Mark(Replaced(1), 0)) == FromMru(0)
    ensures Record(Evicted(Mark(Replaced(1), 0)), E).Panic?
  {
  }

  lemma FourthFetch()
    ensures Fetch(OneFrame(1, 0, Mark(Replaced(1), 0), multiset{}), 0).Panic?
  {
    FourthAccess();
  }

  // ------------------------------------------------------------------ the runs

  /** Pages 0 and 1 are handed out; page 0 is fetched, released and fetched again. */
  lemma FetchedTwice() returns (states: seq<Pool>)
    ensures RunOfPool(1, states, [Allocate, Allocate, Acquire(0), Release(E), Acquire(0)])
    ensures states[5] == OneFrame(0, 1, Twice(1), multiset{E})
  {
    var s0, s1, s2 := NewPool(1), NewPage(NewPool(1)), TwoPages();
    var s3, s4 := OneFrame(0, 1, Once(), multiset{E}), OneFrame(0, 0, Mark(Once(), 0), multiset{});
    var s5 := OneFrame(0, 1, Twice(1), multiset{E});
    RunStarts(1);
    RunMore(1, [s0], [], Allocate, s1);
    RunMore(1, [s0] + [s1], [] + [Allocate], Allocate, s2);
    FirstFetch();
    RunMore(1, [s0] + [s1] + [s2], [] + [Allocate] + [Allocate], Acquire(0), s3);
    Released(0, Once());
    RunMore(1, [s0] + [s1] + [s2] + [s3], [] + [Allocate] + [Allocate] + [Acquire(0)], Release(E), s4);
    SecondFetch();
    RunMore(1, [s0] + [s1] + [s2] + [s3] + [s4], [] + [Allocate] + [Allocate] + [Acquire(0)] + [Release(E)], Acquire(0), s5);
    states := [s0] + [s1] + [s2] + [s3] + [s4] + [s5];
    assert [] + [Allocate] + [Allocate] + [Acquire(0)] + [Release(E)] + [Acquire(0)]
        == [Allocate, Allocate, Acquire(0), Release(E), Acquire(0)];
  }

  /** Page 1 is in the one frame, with two guards alive: the stale one on page 0, and its own. */
  ghost function Corrupted(): (s: Pool) {
    OneFrame(1, 1, Replaced(0), multiset{E} + multiset{F})
  }

  /** A pinned frame is evicted: page 0 is fetched, released and fetched again, and with its second guard
      still alive page 1 is fetched. Page 1 takes the frame. */
  lemma PinnedFrameEvicted() returns (states: seq<Pool>)
    ensures RunOfPool(1, states, [Allocate, Allocate, Acquire(0), Release(E), Acquire(0)] + [Acquire(1)])
    ensures states[6] == Corrupted() && E in states[6].guards && states[6].table == map[1 := 0]
  {
    states := FetchedTwice();
    ThirdFetch(1, 1, multiset{E});
    RunMore(1, states, [Allocate, Allocate, Acquire(0), Release(E), Acquire(0)], Acquire(1), Corrupted());
    states := states + [Corrupted()];
  }

  /** A write through the guard on page 0 then destroys page 1. */
  lemma StaleGuardCorrupts(data: Page)
    ensures var r := WriteThrough(Corrupted(), E, data);
            1 in View(r) && View(r)[1] == data && View(Corrupted())[1] == ZeroPage()
  {
  }

  /** Page 1 written through its own guard, and then the stale guard flushed. */
  ghost function Flushed(data: Page): (s: Pool) {
    Pool([Frame(1, false, data)], [], map[1 := 0], 2, Replaced(0), map[0 := data, 1 := ZeroPage()], multiset{E} + multiset{F})
  }

  lemma StaleFlush(data: Page)
    ensures Flush(WriteThrough(Corrupted(), F, data), E) == Flushed(data)
  {
    var t := WriteThrough(Corrupted(), F, data);
    assert t.frames == [Frame(1, true, data)];
    assert Flush(t, E).frames == [Frame(1, false, data)];
  }

  /** Flushing the stale guard loses a write: page 1 reads as written, its frame is clean, but the disk has the old
      bytes, and flushing page 1 no longer changes that. */
  lemma StaleFlushLoses(data: Page) returns (states: seq<Pool>)
    requires data != ZeroPage()
    ensures RunOfPool(1, states, [Allocate, Allocate, Acquire(0), Release(E), Acquire(0)] + [Acquire(1)] + [Write(F, data)] + [FlushGuard(E)])
    ensures states[8] == Flushed(data) && !CleanPool(Flushed(data))
    ensures 1 in View(Flushed(data)) && View(Flushed(data))[1] == data && Flushed(data).disk[1] == ZeroPage()
    ensures FlushPage(Flushed(data), 1).Done? && FlushPage(Flushed(data), 1).value.disk == Flushed(data).disk
  {
    var xs := [Allocate, Allocate, Acquire(0), Release(E), Acquire(0)] + [Acquire(1)];
    var t := WriteThrough(Corrupted(), F, data);
    states := PinnedFrameEvicted();
    RunMore(1, states, xs, Write(F, data), t);
    StaleFlush(data);
    RunMore(1, states + [t], xs + [Write(F, data)], FlushGuard(E), Flushed(data));
    states := states + [t] + [Flushed(data)];
    NewPoolAgreesAlways(1, states, xs + [Write(F, data)] + [FlushGuard(E)], 8);
    FlushPageIdle(Flushed(data), 1);
  }

  /** Page 1 is in the one frame, evictable, after the stale guard and its own were dropped. */
  ghost function Wrapped(): (s: Pool) {
    OneFrame(1, USIZE_MAX, Mark(Replaced(0), 0), multiset{})
  }

  /** Dropping the stale guard takes the pin of the page that took the frame; dropping that page's guard then
      wraps the pin count around, and the frame is on the MRU list, evictable, and not unpinned. */
  lemma StaleReleaseWraps() returns (states: seq<Pool>)
    ensures RunOfPool(1, states, [Allocate, Allocate, Acquire(0), Release(E), Acquire(0)] + [Acquire(1)] + [Release(E)] + [Release(F)])
    ensures states[8] == Wrapped() && F in Wrapped().arc.mru && 0 in Wrapped().arc.evictable && !MruOk(Wrapped())
    ensures Victim(Wrapped().arc).FromMru? && !VictimUnpinned(Wrapped())
  {
    var xs := [Allocate, Allocate, Acquire(0), Release(E), Acquire(0)] + [Acquire(1)];
    var t := OneFrame(1, 0, Mark(Replaced(0), 0), multiset{F});
    states := PinnedFrameEvicted();
    StaleReleased();
    RunMore(1, states, xs, Release(E), t);
    RunMore(1, states + [t], xs + [Release(E)], Release(F), Wrapped());
    states := states + [t] + [Wrapped()];
    assert F in Wrapped().arc.mru;
  }

  lemma StaleReleased()
    ensures Unpin(Corrupted(), E) == OneFrame(1, 0, Mark(Replaced(0), 0), multiset{F})
    ensures Unpin(OneFrame(1, 0, Mark(Replaced(0), 0), multiset{F}), F) == Wrapped()
  {
    assert multiset{E} + multiset{F} - multiset{E} == multiset{F};
    assert multiset{F} - multiset{F} == multiset{};
  }

  lemma MarkedTwice()
    ensures Mark(Twice(1), 0) == Twice(2)
  {
  }

  /** Page 1 is in the one frame, without guards; page 0 is an MFU ghost. */
  ghost function Stuck(): (s: Pool) {
    OneFrame(1, 0, Mark(Replaced(1), 0), multiset{})
  }

  /** The replacer's arithmetic fails: once page 0 has been fetched twice and page 1 once, never more than
      one at a time, fetching page 0 again panics. */
  lemma TargetUnderflowReached() returns (states: seq<Pool>)
    ensures RunOfPool(1, states, [Allocate, Allocate, Acquire(0), Release(E), Acquire(0)] + [Release(E)] + [Acquire(1)] + [Release(F)])
    ensures states[8] == Stuck() && Enabled(states[8], Acquire(0)) && Apply(states[8], Acquire(0)).Panic?
  {
    var xs := [Allocate, Allocate, Acquire(0), Release(E), Acquire(0)];
    states := FetchedTwice();
    MarkedTwice();
    Released(0, Twice(1));
    var s6, s7 := OneFrame(0, 0, Twice(2), multiset{}), OneFrame(1, 1, Replaced(1), multiset{F});
    RunMore(1, states, xs, Release(E), s6);
    ThirdFetch(0, 2, multiset{});
    assert multiset{} + multiset{F} == multiset{F};
    RunMore(1, states + [s6], xs + [Release(E)], Acquire(1), s7);
    Released(1, Replaced(1));
    RunMore(1, states + [s6] + [s7], xs + [Release(E)] + [Acquire(1)], Release(F), Stuck());
    states := states + [s6] + [s7] + [Stuck()];
    FourthFetch();
  }
}
