/** What evictable means on the MRU list: unpinned, exactly until a guard is dropped on a frame without pins.
    And which frames are evicted with pins. */
module PoolMarks {
  import opened Common
  import opened Arc
  import opened Pool
  import opened PoolPins
  import opened PoolRuns

  /** On the MRU list evictable means unpinned. */
  ghost predicate MruOk(s: Pool) {
    MruUnpinned(s.frames, s.arc)
  }

  // ------------------------------------------------------------------ one step

  lemma HitMru(s: Pool, p: PageId)
    requires Sound(s) && MruOk(s) && p in s.table
    ensures s.table[p] < |s.frames| && Pin(s, p, s.table[p]).Done?
    ensures var r := Pin(s, p, s.table[p]).value; MruOk(r) && NotMru(r.arc, s.table[p])
  {
    var a := HitIs(s, p);
    var e := Entry(s.table[p], p);
    MruPin(s.frames, s.arc, e, a, Up(s.frames[e.frame].pin));
    HitLeavesMru(s.arc, e, a);
  }

  ghost predicate NotMru(a: Arc, f: FrameId) {
    forall g :: g in a.mru ==> g.frame != f
  }

  /** A second access takes the frame off the MRU list. */
  lemma HitLeavesMru(a: Arc, e: Entry, r: Arc)
    requires OnePlace(a) && Accessed(a, e, r) && e in Residents(a)
    ensures NotMru(r, e.frame)
  {
    forall g | g in r.mru
      ensures g.frame != e.frame
    {
      assert g in Residents(a) && g != e;
      ResidentsApart(a, g, e);
    }
  }

  lemma LoadMru(s: Pool, p: PageId)
    requires Sound(s) && Unused(s.frames, s.free) && MruOk(s)
    requires p in s.disk && p !in s.table && s.free != [] && LoadAndPin(s, p).Done?
    ensures MruOk(LoadAndPin(s, p).value)
  {
    var a := LoadIs(s, p);
    var f, l := s.free[|s.free| - 1], Load(s, p);
    MruSame(s.frames, s.arc, l.frames);
    MruPin(l.frames, s.arc, Entry(f, p), a, Up(l.frames[f].pin));
  }

  lemma EvictMruOk(s: Pool)
    requires Sound(s) && MruOk(s) && s.arc.evictable != {}
    ensures Evict(s).Done? && MruOk(Evict(s).value)
  {
    EvictIs(s);
    MruEvict(s.frames, s.arc, Frame(0, false, ZeroPage()));
  }

  /** Making a guard keeps it, whatever is evicted. */
  lemma FetchMru(s: Pool, p: PageId)
    requires Sound(s) && Unused(s.frames, s.free) && MruOk(s) && p in s.disk && Fetch(s, p).Done?
    ensures MruOk(Fetch(s, p).value)
  {
    if p in s.table {
      HitMru(s, p);
    } else if s.free != [] {
      LoadMru(s, p);
    } else {
      var t := EvictMakesRoom(s, p);
      EvictMruOk(s);
      LoadMru(t, p);
    }
  }

  /** The guard dropped finds a pin to take back, or its frame is not on the MRU list. */
  ghost predicate FindsPin(s: Pool, e: Entry) {
    e.frame < |s.frames| && (s.frames[e.frame].pin > 0 || NotMru(s.arc, e.frame))
  }

  /** Exactly when dropping a guard keeps it: a pin count of zero would wrap around under a frame that is
      evictable. */
  lemma UnpinMru(s: Pool, e: Entry)
    requires Agreed(s) && MruOk(s) && e in s.guards
    ensures e.frame < |s.frames|
    ensures MruOk(Unpin(s, e)) <==> FindsPin(s, e)
  {
    if s.frames[e.frame].pin > 0 {
      MruUnpin(s.frames, s.arc, e);
    } else if !NotMru(s.arc, e.frame) {
      var g :| g in s.arc.mru && g.frame == e.frame;
      PinWraps(s, e, g);
    }
  }

  lemma PinWraps(s: Pool, e: Entry, g: Entry)
    requires Tended(s.frames, s.free, s.arc, s.guards) && e.frame < |s.frames| && s.frames[e.frame].pin == 0
    requires g in s.arc.mru && g.frame == e.frame
    ensures !MruOk(Unpin(s, e))
  {
    var r := Unpin(s, e);
    assert g in Residents(s.arc);
    assert g in r.arc.mru && g.frame in r.arc.evictable && r.frames[g.frame].pin == USIZE_MAX;
  }

  lemma FlushMru(s: Pool, e: Entry)
    requires MruOk(s) && e.frame < |s.frames|
    ensures MruOk(Flush(s, e)) && Flush(s, e).arc == s.arc
  {
    MruSame(s.frames, s.arc, Flush(s, e).frames);
  }

  lemma FlushPageMru(s: Pool, p: PageId)
    requires Agreed(s) && MruOk(s) && |s.guards| < USIZE_MAX
    ensures FlushPage(s, p).Done? && MruOk(FlushPage(s, p).value)
  {
    if p in s.table {
      var e, t := FlushPageIs(s, p);
      HitMru(s, p);
      FlushAgrees(t, e);
      FlushMru(t, e);
      UnpinMru(Flush(t, e), e);
    }
  }

  lemma {:induction false} FlushAllMru(s: Pool, order: seq<PageId>) returns (r: Pool)
    requires Agreed(s) && MruOk(s) && |s.guards| < USIZE_MAX
    ensures FlushAll(s, order) == Done(r) && MruOk(r)
    decreases order
  {
    if order == [] {
      r := s;
    } else {
      FlushPageMru(s, order[0]);
      FlushPageAgrees(s, order[0]);
      r := FlushAllMru(FlushPage(s, order[0]).value, order[1..]);
    }
  }

  /** The step takes back no pin of an MRU frame that has none. */
  ghost predicate Tidy(s: Pool, x: Step) {
    x.Release? ==> FindsPin(s, x.guard)
  }

  /** Exactly when a step keeps it that on the MRU list evictable means unpinned; evictions, of pinned frames
      too, always do. */
  lemma ApplyMru(s: Pool, x: Step)
    requires Agreed(s) && MruOk(s) && Enabled(s, x) && Apply(s, x).Done?
    ensures MruOk(Apply(s, x).value) <==> Tidy(s, x)
  {
    match x
    case Allocate =>
    case Acquire(p) => FetchMru(s, p);
    case Write(e, data) => MruSame(s.frames, s.arc, WriteThrough(s, e, data).frames);
    case FlushGuard(e) => FlushMru(s, e);
    case Release(e) => UnpinMru(s, e);
    case FlushOne(p) => FlushPageMru(s, p);
    case FlushEvery(order) => var r := FlushAllMru(s, order);
  }

  // ------------------------------------------------------------------ runs

  ghost predicate TidyRun(states: seq<Pool>, xs: seq<Step>) {
    Run(states, xs) && forall i {:trigger Tidy(states[i], xs[i])} :: 0 <= i < |xs| ==> Tidy(states[i], xs[i])
  }

  lemma StepMru(states: seq<Pool>, xs: seq<Step>, n: nat)
    requires Run(states, xs) && Agreed(states[0]) && n < |xs| && MruOk(states[n])
    ensures MruOk(states[n + 1]) <==> Tidy(states[n], xs[n])
  {
    AgreedAlways(states, xs, n);
    assert StepTaken(states, xs, n);
    ApplyMru(states[n], xs[n]);
  }

  lemma {:induction false} MruAlways(states: seq<Pool>, xs: seq<Step>, n: nat)
    requires TidyRun(states, xs) && Agreed(states[0]) && MruOk(states[0]) && n <= |xs|
    ensures MruOk(states[n])
    decreases n
  {
    if n > 0 {
      MruAlways(states, xs, n - 1);
      StepMru(states, xs, n - 1);
      assert Tidy(states[n - 1], xs[n - 1]);
    }
  }

  /** Exactly over the runs in which no guard is dropped on an MRU frame without pins, pinned frames evicted or
      not, evictable means unpinned on the MRU list at every moment. */
  lemma MruExactly(states: seq<Pool>, xs: seq<Step>)
    requires Run(states, xs) && Agreed(states[0]) && MruOk(states[0])
    ensures (forall n: nat :: n <= |xs| ==> MruOk(states[n])) <==> TidyRun(states, xs)
  {
    if TidyRun(states, xs) {
      forall n: nat | n <= |xs|
        ensures MruOk(states[n])
      {
        MruAlways(states, xs, n);
      }
    }
    if forall n: nat :: n <= |xs| ==> MruOk(states[n]) {
      forall i: nat | i < |xs|
        ensures Tidy(states[i], xs[i])
      {
        assert MruOk(states[i]) && MruOk(states[i + 1]);
        StepMru(states, xs, i);
      }
    }
  }

  /** An entry of the MRU list is evictable if and only if its frame has no pin. */
  ghost predicate EvictableIffUnpinned(s: Pool, e: Entry) {
    e.frame < |s.frames| && (e.frame in s.arc.evictable <==> s.frames[e.frame].pin == 0)
  }

  ghost predicate AllEvictableIffUnpinned(s: Pool) {
    forall e :: e in s.arc.mru ==> EvictableIffUnpinned(s, e)
  }

  /** At one moment of a run of a new pool: since unpinned frames are always evictable, the two say the same. */
  lemma MruOkIs(numFrames: nat, states: seq<Pool>, xs: seq<Step>, n: nat)
    requires RunOfPool(numFrames, states, xs) && n <= |xs|
    ensures MruOk(states[n]) <==> AllEvictableIffUnpinned(states[n])
  {
    forall e | e in states[n].arc.mru
      ensures e.frame < |states[n].frames|
      ensures states[n].frames[e.frame].pin == 0 ==> e.frame in states[n].arc.evictable
    {
      assert e in Residents(states[n].arc);
      UnpinnedIsEvictable(numFrames, states, xs, n, e);
    }
    assert AllEvictableIffUnpinned(states[n]) ==> forall e :: e in states[n].arc.mru ==> EvictableIffUnpinned(states[n], e);
  }

  /** Over a run of a new pool, every entry of the MRU list is at every moment evictable if and only if its frame
      has no pin: exactly if no guard is dropped on an MRU frame without pins. */
  lemma MruEvictableIffUnpinned(numFrames: nat, states: seq<Pool>, xs: seq<Step>)
    requires RunOfPool(numFrames, states, xs)
    ensures (forall n: nat :: n <= |xs| ==> AllEvictableIffUnpinned(states[n])) <==> TidyRun(states, xs)
  {
    NewPoolOk(numFrames);
    MruExactly(states, xs);
    forall n: nat | n <= |xs|
      ensures MruOk(states[n]) <==> AllEvictableIffUnpinned(states[n])
    {
      MruOkIs(numFrames, states, xs, n);
    }
  }

  // ------------------------------------------------------------------ evicting a pinned frame

  /** Of the marked entries of `entries`, the one accessed longest ago has pins. */
  ghost predicate OldestPinned(frames: seq<Frame>, entries: seq<Entry>, marked: set<FrameId>) {
    var i := LastMarked(entries, marked);
    i >= 0 && entries[i].frame < |frames| && frames[entries[i].frame].pin > 0
  }

  ghost predicate SomeMarked(entries: seq<Entry>, marked: set<FrameId>) {
    exists e :: e in entries && e.frame in marked
  }

  lemma SomeMarkedIs(entries: seq<Entry>, marked: set<FrameId>)
    ensures SomeMarked(entries, marked) <==> LastMarked(entries, marked) >= 0
  {
    if SomeMarked(entries, marked) {
      var e :| e in entries && e.frame in marked;
      var i := MarkedFound(entries, marked, e);
    }
  }

  /** The MRU list gives way: it has a marked entry, and is not below its target unless the MFU list has none. */
  ghost predicate MruGives(a: Arc) {
    SomeMarked(a.mru, a.evictable) && (|a.mru| >= a.target || !SomeMarked(a.mfu, a.evictable))
  }

  /** Exactly when a pinned frame is evicted, in any state whatever: of the list that gives way, the last marked
      entry has pins. */
  lemma PinnedVictimExactly(s: Pool)
    ensures !VictimUnpinned(s) <==> OldestPinned(s.frames, if MruGives(s.arc) then s.arc.mru else s.arc.mfu, s.arc.evictable)
  {
    SomeMarkedIs(s.arc.mru, s.arc.evictable);
    SomeMarkedIs(s.arc.mfu, s.arc.evictable);
  }

  ghost predicate SomeUnpinned(frames: seq<Frame>, entries: seq<Entry>) {
    exists e :: e in entries && e.frame < |frames| && frames[e.frame].pin == 0
  }

  /** Where on the MRU list evictable means unpinned, a victim from it is never pinned. So a pinned frame is
      evicted exactly if the MRU list is not to give way, because it is below its target or all pinned, and of
      the marked entries of the MFU list the one accessed longest ago has been fetched again since. */
  lemma PinnedVictimOfMfu(s: Pool)
    requires Agreed(s) && MruOk(s)
    ensures !VictimUnpinned(s) <==>
              (|s.arc.mru| < s.arc.target || !SomeUnpinned(s.frames, s.arc.mru))
              && OldestPinned(s.frames, s.arc.mfu, s.arc.evictable)
    ensures Victim(s.arc).FromMru? ==> VictimUnpinned(s)
  {
    MruInRange(s);
    MruMarksOf(s.frames, s.free, s.arc, s.guards);
    VictimCases(s, SomeUnpinned(s.frames, s.arc.mru));
  }

  lemma MruMarksOf(frames: seq<Frame>, free: seq<FrameId>, a: Arc, guards: multiset<Entry>)
    requires Tended(frames, free, a, guards) && MruUnpinned(frames, a) && forall e :: e in a.mru ==> e.frame < |frames|
    ensures var m := LastMarked(a.mru, a.evictable);
            && (m >= 0 <==> SomeUnpinned(frames, a.mru))
            && (m >= 0 ==> a.mru[m].frame < |frames| && frames[a.mru[m].frame].pin == 0)
  {
    if SomeUnpinned(frames, a.mru) {
      var e :| e in a.mru && e.frame < |frames| && frames[e.frame].pin == 0;
      assert e in Residents(a);
      var j := MarkedFound(a.mru, a.evictable, e);
    }
  }

  lemma MruInRange(s: Pool)
    requires Sound(s)
    ensures forall e :: e in s.arc.mru ==> e.frame < |s.frames|
  {
    forall e | e in s.arc.mru
      ensures e.frame < |s.frames|
    {
      assert e in Residents(s.arc);
      assert Holds(s.table, e.page, e.frame);
    }
  }

  lemma VictimCases(s: Pool, some: bool)
    requires var m := LastMarked(s.arc.mru, s.arc.evictable);
             && (m >= 0 <==> some)
             && (m >= 0 ==> s.arc.mru[m].frame < |s.frames| && s.frames[s.arc.mru[m].frame].pin == 0)
    ensures !VictimUnpinned(s) <==>
              (|s.arc.mru| < s.arc.target || !some) && OldestPinned(s.frames, s.arc.mfu, s.arc.evictable)
    ensures Victim(s.arc).FromMru? ==> VictimUnpinned(s)
  {
  }
}
